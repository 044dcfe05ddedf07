/**
 Keystream uniqueness: over a whole run of calls on one session, srtp_protect never feeds the
 same block to the cipher twice.
 */
module SrtpKeystream {
  import opened Status
  import opened Bytes
  import opened CounterMode
  import opened KeyLimits
  import opened Packets
  import opened Sequences
  import opened SrtpRuns
  import opened SrtpSteps
  import opened SrtpStreams
  import RX = ReplayExtended
  import RD = ReplayDatabase

  // ---- what one call uses ----

  /** The packet index under which srtp_protect encrypts. */
  function SenderIndex(p: Policy, s: SessionState, pkt: seq<bv8>): (i: nat)
    requires Good(p, s) && |pkt| >= RTP_HEADER
    ensures i < INDEX_MAX
  {
    var index := SenderStream(p, s, SsrcOf(pkt)).window.index;
    RX.GuessIs48Bit(index, SeqOf(pkt));
    RX.EstimateIndex(index, SeqOf(pkt)).guess
  }

  predicate Encrypts(p: Policy, s: SessionState, c: Call)
    requires Good(p, s)
  {
    c.CallProtect? && |c.pkt| >= RTP_HEADER && p.rtpConf && Protect(p, s, c.pkt).status == Ok
  }

  lemma EncryptsFits(p: Policy, s: SessionState, c: Call)
    requires Good(p, s) && Encrypts(p, s, c)
    ensures PayloadFits(c.pkt)
  {
    hide Protect, Seal, PayloadFits, SeqOf;
    ProtectEffect(p, s, c.pkt);
  }

  /** The cipher input blocks of one successful srtp_protect; the other calls do not encrypt RTP. */
  function CallBlocks(p: Policy, s: SessionState, c: Call): seq<Block>
    requires Good(p, s)
  {
    if Encrypts(p, s, c) then
      EncryptsFits(p, s, c);
      InputBlocks(Fresh(p.rtp, SsrcOf(c.pkt), SenderIndex(p, s, c.pkt)), |c.pkt| - PayloadStart(c.pkt))
    else []
  }

  function RunBlocks(p: Policy, s: SessionState, calls: seq<Call>): seq<Block>
    requires Good(p, s) && forall i :: 0 <= i < |calls| ==> Callable(p, calls[i])
    decreases |calls|
  {
    if calls == [] then []
    else CallBlocks(p, s, calls[0]) + RunBlocks(p, Step(p, s, calls[0]).session, calls[1..])
  }

  // ---- the condition ----

  /** The index estimate of an RTP call does not take the late-across-rollover branch, nor leave 48 bits. */
  predicate ExactFor(s: SessionState, ssrc: Ssrc, seqNum: RX.SeqNum) {
    match Lookup(s, ssrc)
    case Some(st) => RX.Guessable(st.window.index, seqNum) && !RX.LateAcrossRollover(st.window.index, seqNum)
    case None => true
  }

  predicate ExactCall(p: Policy, s: SessionState, c: Call)
    requires Callable(p, c)
  {
    match c
    case CallProtect(pkt) => |pkt| >= RTP_HEADER ==> ExactFor(s, SsrcOf(pkt), SeqOf(pkt))
    case CallUnprotect(pkt) => |pkt| >= RTP_HEADER ==> ExactFor(s, SsrcOf(pkt), SeqOf(pkt))
    case _ => true
  }

  predicate ExactRun(p: Policy, s: SessionState, calls: seq<Call>)
    requires Good(p, s) && forall i :: 0 <= i < |calls| ==> Callable(p, calls[i])
    decreases |calls|
  {
    calls == [] || (ExactCall(p, s, calls[0]) && ExactRun(p, Step(p, s, calls[0]).session, calls[1..]))
  }

  /** The call takes the branch for repeats that the policy allows: its index is marked in the window. */
  predicate Repeats(p: Policy, s: SessionState, c: Call)
    requires Good(p, s)
  {
    c.CallProtect? && |c.pkt| >= RTP_HEADER && p.allowRepeat &&
    var w := SenderStream(p, s, SsrcOf(c.pkt)).window;
    RX.CheckDelta(w, RX.EstimateIndex(w.index, SeqOf(c.pkt)).delta) == ReplayFail
  }

  predicate NoRepeat(p: Policy, s: SessionState, calls: seq<Call>)
    requires Good(p, s) && forall i :: 0 <= i < |calls| ==> Callable(p, calls[i])
    decreases |calls|
  {
    calls == [] || (!Repeats(p, s, calls[0]) && NoRepeat(p, Step(p, s, calls[0]).session, calls[1..]))
  }

  lemma {:induction false} ForbiddenMeansNoRepeat(p: Policy, s: SessionState, calls: seq<Call>)
    requires Good(p, s) && !p.allowRepeat && forall i :: 0 <= i < |calls| ==> Callable(p, calls[i])
    ensures NoRepeat(p, s, calls)
    decreases |calls|
  {
    hide Step;
    if calls != [] {
      ForbiddenMeansNoRepeat(p, Step(p, s, calls[0]).session, calls[1..]);
    }
  }

  /**
   Why the condition on estimates is there: the check refuses an index that was accepted before exactly
   when the estimate is not late across a rollover.
   */
  lemma RepeatRefusedIff(w: RX.Window, accepted: set<int>, seqNum: RX.SeqNum)
    requires RX.Represents(w, accepted) && RX.Guessable(w.index, seqNum)
    requires RX.EstimateIndex(w.index, seqNum).guess in accepted
    ensures RX.CheckDelta(w, RX.EstimateIndex(w.index, seqNum).delta) != Ok <==> !RX.LateAcrossRollover(w.index, seqNum)
  {
    hide RX.EstimateIndex, RX.LateAcrossRollover, RX.CheckDelta;
    RX.EstimateLocates(w.index, seqNum);
    RX.CheckIsMembership(w, accepted, RX.EstimateIndex(w.index, seqNum).delta);
    if RX.LateAcrossRollover(w.index, seqNum) {
      LateIsPositive(w, seqNum);
    }
  }

  /** A concrete repeat: sequence numbers 65535, 0 and again 65535 on a new stream; the third is let through. */
  lemma LateRepeatPasses(len: nat)
    requires 0 < len <= 0x8000_0000
    ensures var w := RX.AddDelta(RX.AddDelta(RX.EmptyWindow(len), 0xffff), 1);
            && RX.EstimateIndex(0, 0xffff) == RX.Estimate(0xffff, 0xffff)
            && RX.EstimateIndex(0xffff, 0) == RX.Estimate(1, 0x10000)
            && w.index == 0x10000
            && RX.EstimateIndex(w.index, 0xffff).guess == 0xffff
            && RX.CheckDelta(w, RX.EstimateIndex(w.index, 0xffff).delta) == Ok
  {
  }

  lemma LateIsPositive(w: RX.Window, seqNum: RX.SeqNum)
    requires RX.WellFormed(w) && RX.Guessable(w.index, seqNum)
    requires RX.LateAcrossRollover(w.index, seqNum)
    ensures RX.CheckDelta(w, RX.EstimateIndex(w.index, seqNum).delta) == Ok
  {
    hide RX.EstimateIndex, RX.LateAcrossRollover;
    RX.EstimateLocates(w.index, seqNum);
  }

  // ---- the indices entered so far, by SSRC ----

  type Entered = map<Ssrc, set<int>>

  function EnteredFor(acc: Entered, ssrc: Ssrc): set<int> {
    if ssrc in acc then acc[ssrc] else {}
  }

  /** `acc` has the streams of the session, and their windows stand for its sets. */
  ghost predicate Tracks(s: SessionState, acc: Entered) {
    forall y :: (Lookup(s, y).Some? <==> y in acc)
             && (y in acc ==> RX.Represents(Lookup(s, y).value.window, acc[y]))
  }

  /** A call that leaves all streams but one alone moves the sets along with that one. */
  lemma TracksUpdate(s: SessionState, acc: Entered, s': SessionState, ssrc: Ssrc, indices: set<int>)
    requires Tracks(s, acc)
    requires forall y :: y != ssrc ==> Lookup(s', y) == Lookup(s, y)
    requires Lookup(s', ssrc).Some? && RX.Represents(Lookup(s', ssrc).value.window, indices)
    ensures Tracks(s', acc[ssrc := indices])
  {
    hide RX.Represents, Lookup;
  }

  lemma TracksSame(s: SessionState, acc: Entered, s': SessionState)
    requires Tracks(s, acc) && s'.streams == s.streams
    ensures Tracks(s', acc)
  {
    hide RX.Represents, Find;
    assert forall y :: Lookup(s', y) == Lookup(s, y);
  }

  /** What Tracks says of one window, also of the window a new stream starts with. */
  lemma TracksOne(p: Policy, s: SessionState, acc: Entered, ssrc: Ssrc)
    requires Good(p, s) && Tracks(s, acc)
    ensures Lookup(s, ssrc).Some? ==> RX.Represents(Lookup(s, ssrc).value.window, EnteredFor(acc, ssrc))
    ensures RX.Represents(RX.EmptyWindow(p.windowLen), {})
    ensures Lookup(s, ssrc).None? ==> EnteredFor(acc, ssrc) == {}
  {
    hide RX.Represents, Lookup;
    RX.EmptyWindowIsEmptySet(p.windowLen);
  }

  /** The check passes exactly the estimates not yet entered, and entering one adds just it. */
  lemma EnterOne(w: RX.Window, indices: set<int>, seqNum: RX.SeqNum)
    requires RX.Represents(w, indices) && RX.Guessable(w.index, seqNum) && !RX.LateAcrossRollover(w.index, seqNum)
    requires RX.CheckDelta(w, RX.EstimateIndex(w.index, seqNum).delta) == Ok
    ensures var e := RX.EstimateIndex(w.index, seqNum);
            && e.guess !in indices
            && -e.delta < |w.bits|
            && RX.Represents(RX.AddDelta(w, e.delta), indices + {e.guess})
  {
    hide RX.EstimateIndex, RX.LateAcrossRollover, RX.CheckDelta, RX.AddDelta;
    RX.EstimateLocates(w.index, seqNum);
    var e := RX.EstimateIndex(w.index, seqNum);
    RX.CheckIsMembership(w, indices, e.delta);
    RX.AddKeepsSet(w, indices, e.delta);
  }

  /** The sets after one call. */
  function EnteredAfter(p: Policy, s: SessionState, acc: Entered, c: Call): Entered
    requires Good(p, s) && Callable(p, c)
  {
    match c
    case CallProtect(pkt) =>
      if |pkt| < RTP_HEADER then acc
      else
        var st := SenderStream(p, s, SsrcOf(pkt));
        var e := RX.EstimateIndex(st.window.index, SeqOf(pkt));
        if !KeyUsedUp(s) && RX.CheckDelta(st.window, e.delta) == Ok then
          acc[SsrcOf(pkt) := EnteredFor(acc, SsrcOf(pkt)) + {e.guess}]
        else acc[SsrcOf(pkt) := EnteredFor(acc, SsrcOf(pkt))]
    case CallUnprotect(pkt) =>
      if |pkt| < RTP_HEADER || Unprotect(p, s, pkt).status != Ok then acc
      else acc[SsrcOf(pkt) := EnteredFor(acc, SsrcOf(pkt)) + {LookupEstimate(s, SsrcOf(pkt), SeqOf(pkt)).guess}]
    case CallProtectRtcp(pkt) => acc[RtcpSsrcOf(pkt) := EnteredFor(acc, RtcpSsrcOf(pkt))]
    case CallUnprotectRtcp(pkt) =>
      if UnprotectRtcp(p, s, pkt).status == Ok then acc[RtcpSsrcOf(pkt) := EnteredFor(acc, RtcpSsrcOf(pkt))] else acc
  }

  lemma EnteredGrows(p: Policy, s: SessionState, acc: Entered, c: Call, ssrc: Ssrc)
    requires Good(p, s) && Callable(p, c)
    ensures EnteredFor(acc, ssrc) <= EnteredFor(EnteredAfter(p, s, acc, c), ssrc)
  {
    hide Unprotect, UnprotectRtcp, RX.EstimateIndex, RX.CheckDelta, LookupEstimate, SenderStream, SsrcOf, RtcpSsrcOf, SeqOf;
  }

  lemma ProtectTracks(p: Policy, s: SessionState, acc: Entered, pkt: seq<bv8>)
    requires Good(p, s) && Tracks(s, acc) && |pkt| >= RTP_HEADER
    requires ExactFor(s, SsrcOf(pkt), SeqOf(pkt))
    ensures Tracks(Protect(p, s, pkt).session, EnteredAfter(p, s, acc, CallProtect(pkt)))
  {
    hide Protect, Seal, PayloadFits, SeqOf, Find, Lookup, Tracks;
    hide RX.EstimateIndex, RX.CheckDelta, RX.AddDelta, RX.Represents, RX.LateAcrossRollover;
    var ssrc := SsrcOf(pkt);
    var s' := Protect(p, s, pkt).session;
    var st := SenderStream(p, s, ssrc);
    ProtectEffect(p, s, pkt);
    TracksOne(p, s, acc, ssrc);
    EmptyIsExact(SeqOf(pkt));
    var e := RX.EstimateIndex(st.window.index, SeqOf(pkt));
    if !KeyUsedUp(s) && RX.CheckDelta(st.window, e.delta) == Ok {
      EnterOne(st.window, EnteredFor(acc, ssrc), SeqOf(pkt));
      TracksUpdate(s, acc, s', ssrc, EnteredFor(acc, ssrc) + {e.guess});
    } else {
      TracksUpdate(s, acc, s', ssrc, EnteredFor(acc, ssrc));
    }
  }

  /** A new stream is never late. */
  lemma EmptyIsExact(seqNum: RX.SeqNum)
    ensures RX.Guessable(0, seqNum) && !RX.LateAcrossRollover(0, seqNum)
    ensures RX.EstimateIndex(0, seqNum) == RX.Estimate(seqNum, seqNum)
  {
  }

  lemma UnprotectTracks(p: Policy, s: SessionState, acc: Entered, pkt: seq<bv8>)
    requires Good(p, s) && Tracks(s, acc) && |pkt| >= RTP_HEADER
    requires ExactFor(s, SsrcOf(pkt), SeqOf(pkt))
    ensures Tracks(Unprotect(p, s, pkt).session, EnteredAfter(p, s, acc, CallUnprotect(pkt)))
  {
    hide Unprotect, Open, SeqOf, Find, Lookup, Tracks;
    hide RX.EstimateIndex, RX.CheckDelta, RX.AddDelta, RX.Represents, RX.LateAcrossRollover;
    var ssrc := SsrcOf(pkt);
    var o := Unprotect(p, s, pkt);
    UnprotectEffect(p, s, pkt);
    if o.status == Ok {
      UnprotectAccepted(p, s, pkt);
      ReceivedTracks(p, s, acc, ssrc, SeqOf(pkt));
      TracksUpdate(s, acc, o.session, ssrc, EnteredFor(acc, ssrc) + {LookupEstimate(s, ssrc, SeqOf(pkt)).guess});
    } else {
      TracksSame(s, acc, o.session);
    }
  }

  lemma ReceivedTracks(p: Policy, s: SessionState, acc: Entered, ssrc: Ssrc, seqNum: RX.SeqNum)
    requires Good(p, s) && Tracks(s, acc) && ExactFor(s, ssrc, seqNum)
    requires LookupCheck(p, s, ssrc, LookupEstimate(s, ssrc, seqNum).delta) == Ok
    requires var delta := LookupEstimate(s, ssrc, seqNum).delta;
             match Lookup(s, ssrc) case Some(st) => -delta < |st.window.bits| case None => 0 <= delta
    ensures var e := LookupEstimate(s, ssrc, seqNum);
            RX.Represents(ReceivedStream(p, s, ssrc, e.delta).window, EnteredFor(acc, ssrc) + {e.guess})
  {
    hide RX.EstimateIndex, RX.CheckDelta, RX.AddDelta, RX.Represents, RX.LateAcrossRollover, Lookup, Tracks;
    TracksOne(p, s, acc, ssrc);
    match Lookup(s, ssrc)
    case Some(st) => EnterOne(st.window, EnteredFor(acc, ssrc), seqNum);
    case None =>
      EmptyIsExact(seqNum);
      EmptyPasses(p, seqNum);
      EnterOne(RX.EmptyWindow(p.windowLen), {}, seqNum);
  }

  lemma EmptyPasses(p: Policy, seqNum: RX.SeqNum)
    requires GoodPolicy(p)
    ensures RX.CheckDelta(RX.EmptyWindow(p.windowLen), seqNum) == Ok
  {
  }

  lemma RtcpTracks(p: Policy, s: SessionState, acc: Entered, c: Call)
    requires Good(p, s) && Tracks(s, acc) && Callable(p, c) && (c.CallProtectRtcp? || c.CallUnprotectRtcp?)
    ensures Tracks(Step(p, s, c).session, EnteredAfter(p, s, acc, c))
  {
    hide ProtectRtcp, UnprotectRtcp, OpenRtcp, SealRtcp, RtcpFits, RtcpIndexOf, Find, Tracks;
    hide RX.Represents, RD.AddIndex, RD.CheckIndex;
    var ssrc := RtcpSsrcOf(c.pkt);
    TracksOne(p, s, acc, ssrc);
    var s' := Step(p, s, c).session;
    if c.CallProtectRtcp? {
      ProtectRtcpEffect(p, s, c.pkt);
      TracksUpdate(s, acc, s', ssrc, EnteredFor(acc, ssrc));
    } else if UnprotectRtcp(p, s, c.pkt).status == Ok {
      UnprotectRtcpEffect(p, s, c.pkt);
      UnprotectRtcpKeepsWindow(p, s, c.pkt);
      TracksUpdate(s, acc, s', ssrc, EnteredFor(acc, ssrc));
    } else {
      UnprotectRtcpEffect(p, s, c.pkt);
    }
  }

  lemma StepTracks(p: Policy, s: SessionState, acc: Entered, c: Call)
    requires Good(p, s) && Tracks(s, acc) && Callable(p, c) && ExactCall(p, s, c)
    ensures Tracks(Step(p, s, c).session, EnteredAfter(p, s, acc, c))
  {
    hide Protect, Unprotect, ProtectRtcp, UnprotectRtcp, Tracks, ExactFor, EnteredAfter;
    match c
    case CallProtect(pkt) => if |pkt| >= RTP_HEADER { ProtectTracks(p, s, acc, pkt); } else { ShortTracks(p, s, acc, c); }
    case CallUnprotect(pkt) => if |pkt| >= RTP_HEADER { UnprotectTracks(p, s, acc, pkt); } else { ShortTracks(p, s, acc, c); }
    case CallProtectRtcp(pkt) => RtcpTracks(p, s, acc, c);
    case CallUnprotectRtcp(pkt) => RtcpTracks(p, s, acc, c);
  }

  lemma ShortTracks(p: Policy, s: SessionState, acc: Entered, c: Call)
    requires Good(p, s) && Tracks(s, acc) && Callable(p, c) && IsShort(c)
    ensures Tracks(Step(p, s, c).session, EnteredAfter(p, s, acc, c))
  {
    hide Tracks, Step;
    ShortPacket(p, s, c);
  }

  // ---- labels: SSRC, packet index and block number stand for a block ----

  datatype Label = Label(ssrc: Ssrc, index: nat, block: nat)

  predicate IsLabel(l: Label) {
    l.index < INDEX_MAX && l.block < 0x1_0000
  }

  function BlockOf(c: Crypto, l: Label): Block
    requires IsLabel(l)
  {
    CounterAt(Fresh(c, l.ssrc, l.index).counter, l.block)
  }

  function PacketLabels(ssrc: Ssrc, index: nat, n: nat): (ls: seq<Label>)
    ensures |ls| == n
    ensures forall k :: 0 <= k < n ==> ls[k] == Label(ssrc, index, k)
  {
    seq(n, k requires 0 <= k < n => Label(ssrc, index, k))
  }

  function CallLabels(p: Policy, s: SessionState, c: Call): seq<Label>
    requires Good(p, s)
  {
    if Encrypts(p, s, c) then
      PacketLabels(SsrcOf(c.pkt), SenderIndex(p, s, c.pkt), |CallBlocks(p, s, c)|)
    else []
  }

  /** `blocks` are the blocks that `labels` stand for. */
  ghost predicate Labelled(c: Crypto, labels: seq<Label>, blocks: seq<Block>) {
    && |labels| == |blocks|
    && forall k :: 0 <= k < |labels| ==> IsLabel(labels[k]) && blocks[k] == BlockOf(c, labels[k])
  }

  lemma PacketLabelled(c: Crypto, ssrc: Ssrc, index: nat, n: nat)
    requires index < INDEX_MAX && n <= SEGMENT_MAX
    ensures var blocks := InputBlocks(Fresh(c, ssrc, index), n);
            Labelled(c, PacketLabels(ssrc, index, |blocks|), blocks)
  {
    hide CounterAt, XorByte, IvFor, Xor;
    assert BlocksFor(Fresh(c, ssrc, index), n) <= n;
  }

  lemma CallLabelled(p: Policy, s: SessionState, c: Call)
    requires Good(p, s)
    ensures Labelled(p.rtp, CallLabels(p, s, c), CallBlocks(p, s, c))
  {
    hide PayloadStart, SenderIndex, SsrcOf, Protect, Fresh, InputBlocks, PacketLabels, Labelled;
    if Encrypts(p, s, c) {
      EncryptsFits(p, s, c);
      PacketLabelled(p.rtp, SsrcOf(c.pkt), SenderIndex(p, s, c.pkt), |c.pkt| - PayloadStart(c.pkt));
    } else {
      EmptyLabelled(p.rtp);
    }
  }

  lemma LabelledSum(c: Crypto, l: seq<Label>, b: seq<Block>, l': seq<Label>, b': seq<Block>)
    requires Labelled(c, l, b) && Labelled(c, l', b')
    ensures Labelled(c, l + l', b + b')
  {
    hide BlockOf;
  }

  function RunLabels(p: Policy, s: SessionState, calls: seq<Call>): seq<Label>
    requires Good(p, s) && forall i :: 0 <= i < |calls| ==> Callable(p, calls[i])
    decreases |calls|
  {
    if calls == [] then []
    else CallLabels(p, s, calls[0]) + RunLabels(p, Step(p, s, calls[0]).session, calls[1..])
  }

  lemma {:induction false} RunLabelled(p: Policy, s: SessionState, calls: seq<Call>)
    requires Good(p, s) && forall i :: 0 <= i < |calls| ==> Callable(p, calls[i])
    ensures Labelled(p.rtp, RunLabels(p, s, calls), RunBlocks(p, s, calls))
    decreases |calls|
  {
    hide Step, CallLabels, CallBlocks, Labelled;
    if calls == [] {
      EmptyLabelled(p.rtp);
    } else {
      var s' := Step(p, s, calls[0]).session;
      CallLabelled(p, s, calls[0]);
      RunLabelled(p, s', calls[1..]);
      LabelledSum(p.rtp, CallLabels(p, s, calls[0]), CallBlocks(p, s, calls[0]),
                  RunLabels(p, s', calls[1..]), RunBlocks(p, s', calls[1..]));
    }
  }

  lemma EmptyLabelled(c: Crypto)
    ensures Labelled(c, [], [])
  {
  }

  /** The labels of a call carry an index that was not entered before and is entered afterwards. */
  lemma CallLabelsFresh(p: Policy, s: SessionState, acc: Entered, c: Call)
    requires Good(p, s) && Tracks(s, acc) && Callable(p, c) && ExactCall(p, s, c) && !Repeats(p, s, c)
    ensures Distinct(CallLabels(p, s, c))
    ensures forall l :: l in CallLabels(p, s, c) ==>
              l.index !in EnteredFor(acc, l.ssrc) && l.index in EnteredFor(EnteredAfter(p, s, acc, c), l.ssrc)
  {
    hide Protect, CallBlocks, Find, Lookup, Tracks, SeqOf, Seal, PayloadFits;
    hide RX.EstimateIndex, RX.CheckDelta, RX.AddDelta, RX.Represents, RX.LateAcrossRollover;
    if Encrypts(p, s, c) {
      var ssrc := SsrcOf(c.pkt);
      var st := SenderStream(p, s, ssrc);
      ProtectEffect(p, s, c.pkt);
      TracksOne(p, s, acc, ssrc);
      EmptyIsExact(SeqOf(c.pkt));
      EnterOne(st.window, EnteredFor(acc, ssrc), SeqOf(c.pkt));
    }
  }

  lemma {:induction false} RunLabelsDistinct(p: Policy, s: SessionState, acc: Entered, calls: seq<Call>)
    requires Good(p, s) && Tracks(s, acc)
    requires forall i :: 0 <= i < |calls| ==> Callable(p, calls[i])
    requires ExactRun(p, s, calls) && NoRepeat(p, s, calls)
    ensures Distinct(RunLabels(p, s, calls))
    ensures forall l :: l in RunLabels(p, s, calls) ==> l.index !in EnteredFor(acc, l.ssrc)
    decreases |calls|
  {
    hide Step, CallLabels, Tracks, ExactCall, EnteredFor, EnteredAfter, Repeats;
    if calls != [] {
      var c := calls[0];
      var s', acc' := Step(p, s, c).session, EnteredAfter(p, s, acc, c);
      StepTracks(p, s, acc, c);
      CallLabelsFresh(p, s, acc, c);
      RunLabelsDistinct(p, s', acc', calls[1..]);
      var rest := RunLabels(p, s', calls[1..]);
      forall l | l in rest
        ensures l.index !in EnteredFor(acc, l.ssrc)
      {
        EnteredGrows(p, s, acc, c, l.ssrc);
      }
      DistinctSum(CallLabels(p, s, c), rest);
    }
  }

  lemma DistinctSum<T>(a: seq<T>, b: seq<T>)
    requires Distinct(a) && Distinct(b) && forall x :: x in a ==> x !in b
    ensures Distinct(a + b)
  {
    forall i, j | 0 <= i < j < |a + b|
      ensures (a + b)[i] != (a + b)[j]
    {
      if i < |a| <= j {
        assert a[i] in a && b[j - |a|] in b;
      }
    }
  }

  lemma DistinctBlocks(c: Crypto, labels: seq<Label>, blocks: seq<Block>)
    requires WellKeyed(c) && Labelled(c, labels, blocks) && Distinct(labels)
    ensures Distinct(blocks)
  {
    hide Fresh, CounterAt, WellKeyed;
    forall i, j | 0 <= i < j < |blocks|
      ensures blocks[i] != blocks[j]
    {
      var l, m := labels[i], labels[j];
      if blocks[i] == blocks[j] {
        InputBlockInjective(c, l.ssrc, l.index, l.block, m.ssrc, m.index, m.block);
      }
    }
  }

  /**
   Exactly when a run reuses keystream, for any session and policy: when srtp_protect encrypts
   twice under one SSRC and packet index, as it may do if repeats are allowed or an estimate is
   late.  Nothing else can make two cipher input blocks meet.
   */
  lemma ReuseIffIndexRepeats(p: Policy, s: SessionState, calls: seq<Call>)
    requires Good(p, s) && forall i :: 0 <= i < |calls| ==> Callable(p, calls[i])
    ensures Distinct(RunBlocks(p, s, calls)) <==> Distinct(RunLabels(p, s, calls))
  {
    hide RunBlocks, RunLabels, Fresh, CounterAt, BlockOf;
    RunLabelled(p, s, calls);
    var labels, blocks := RunLabels(p, s, calls), RunBlocks(p, s, calls);
    if Distinct(labels) {
      DistinctBlocks(p.rtp, labels, blocks);
    } else {
      var i, j :| 0 <= i < j < |labels| && labels[i] == labels[j];
      assert blocks[i] == blocks[j];
    }
  }

  /**
   No repeated keystream: from a new session under any policy, over any run of protect and
   unprotect calls for any SSRCs, all cipher input blocks of all successful srtp_protect calls
   differ from each other, as long as no call takes the branch for allowed repeats.
   */
  lemma KeystreamIsNeverReused(p: Policy, s: SessionState, calls: seq<Call>)
    requires Good(p, s) && s.streams == []
    requires forall i :: 0 <= i < |calls| ==> Callable(p, calls[i])
    requires ExactRun(p, s, calls) && NoRepeat(p, s, calls)
    ensures Distinct(RunBlocks(p, s, calls))
  {
    hide RunBlocks, RunLabels, ExactRun, Labelled, NoRepeat;
    assert Tracks(s, map[]);
    RunLabelled(p, s, calls);
    RunLabelsDistinct(p, s, map[], calls);
    DistinctBlocks(p.rtp, RunLabels(p, s, calls), RunBlocks(p, s, calls));
  }

  // ---- the converse ----

  /** An RTP call sends a packet whose payload is not empty and fits. */
  predicate SendsPayload(c: Call) {
    match c
    case CallProtect(pkt) => |pkt| >= RTP_HEADER && PayloadFits(pkt) && PayloadStart(pkt) < |pkt|
    case CallUnprotect(_) => false
    case _ => true
  }

  predicate SendsPayloads(p: Policy, calls: seq<Call>) {
    p.rtpConf && forall i :: 0 <= i < |calls| ==> SendsPayload(calls[i])
  }

  /** All indices entered have been used for encryption. */
  ghost predicate UsedUp(acc: Entered, labels: seq<Label>) {
    forall y, i: nat :: i in EnteredFor(acc, y) ==> Label(y, i, 0) in labels
  }

  lemma EncryptsSome(p: Policy, s: SessionState, pkt: seq<bv8>)
    requires |pkt| >= RTP_HEADER && Good(p, s) && Encrypts(p, s, CallProtect(pkt)) && PayloadStart(pkt) < |pkt|
    ensures CallLabels(p, s, CallProtect(pkt)) != []
    ensures CallLabels(p, s, CallProtect(pkt))[0] == Label(SsrcOf(pkt), SenderIndex(p, s, pkt), 0)
  {
    hide Encrypts, SenderIndex, PayloadStart, CounterAt, XorByte, SsrcOf;
    EncryptsFits(p, s, CallProtect(pkt));
    var n := |pkt| - PayloadStart(pkt);
    assert n > 0 && (n + 15) / 16 > 0;
  }

  /** A repeat uses the label of the call that entered its index. */
  lemma RepeatMeetsLabel(p: Policy, s: SessionState, acc: Entered, labels: seq<Label>, c: Call)
    requires Good(p, s) && Tracks(s, acc) && UsedUp(acc, labels) && p.rtpConf && Callable(p, c)
    requires Repeats(p, s, c) && ExactCall(p, s, c) && SendsPayload(c)
    requires UsesKey(p, s, c) ==> !KeyUsedUp(s)
    ensures CallLabels(p, s, c) != [] && CallLabels(p, s, c)[0] in labels
  {
    hide Protect, CallLabels, Tracks, Lookup, SeqOf, PayloadFits, PayloadStart, KeyUsedUp, Seal;
    hide RX.EstimateIndex, RX.CheckDelta, RX.Represents, RX.LateAcrossRollover;
    var pkt := c.pkt;
    assert c == CallProtect(pkt);
    var ssrc := SsrcOf(pkt);
    var w := SenderStream(p, s, ssrc).window;
    ProtectEffect(p, s, pkt);
    EncryptsSome(p, s, pkt);
    TracksOne(p, s, acc, ssrc);
    EmptyIsExact(SeqOf(pkt));
    RX.EstimateLocates(w.index, SeqOf(pkt));
    RX.CheckIsMembership(w, EnteredFor(acc, ssrc), RX.EstimateIndex(w.index, SeqOf(pkt)).delta);
  }

  /** What a call enters, it encrypts under. */
  lemma EnteredIsUsed(p: Policy, s: SessionState, acc: Entered, labels: seq<Label>, c: Call)
    requires Good(p, s) && Callable(p, c) && UsedUp(acc, labels) && p.rtpConf && SendsPayload(c)
    ensures UsedUp(EnteredAfter(p, s, acc, c), labels + CallLabels(p, s, c))
  {
    hide Protect, UnprotectRtcp, CallLabels, SeqOf, PayloadFits, PayloadStart, KeyUsedUp, Seal, SsrcOf, RtcpSsrcOf;
    hide RX.EstimateIndex, RX.CheckDelta, RX.AddDelta, SenderStream;
    if c.CallProtect? {
      ProtectEffect(p, s, c.pkt);
      if Encrypts(p, s, c) {
        EncryptsSome(p, s, c.pkt);
      }
    }
  }

  lemma {:induction false} RepeatReuses(p: Policy, s: SessionState, acc: Entered, labels: seq<Label>, calls: seq<Call>)
    requires Good(p, s) && Tracks(s, acc) && UsedUp(acc, labels)
    requires forall i :: 0 <= i < |calls| ==> Callable(p, calls[i])
    requires ExactRun(p, s, calls) && SendsPayloads(p, calls) && MoreLeft(s, Uses(p, s, calls))
    requires !NoRepeat(p, s, calls)
    ensures !Distinct(labels + RunLabels(p, s, calls))
    decreases |calls|
  {
    hide Step, CallLabels, Tracks, ExactCall, EnteredAfter, Repeats, UsedUp, Uses, UsesKey, MoreLeft, KeyUsedUp, SendsPayload;
    var c, rest := calls[0], calls[1..];
    var s' := Step(p, s, c).session;
    MoreLeftForRest(p, s, calls);
    var now, later := CallLabels(p, s, c), RunLabels(p, s', rest);
    if Repeats(p, s, c) {
      RepeatMeetsLabel(p, s, acc, labels, c);
      var i :| 0 <= i < |labels| && labels[i] == now[0];
      assert (labels + RunLabels(p, s, calls))[i] == (labels + RunLabels(p, s, calls))[|labels|];
    } else {
      StepTracks(p, s, acc, c);
      EnteredIsUsed(p, s, acc, labels, c);
      RepeatReuses(p, s', EnteredAfter(p, s, acc, c), labels + now, rest);
      assert labels + RunLabels(p, s, calls) == labels + now + later;
    }
  }

  /**
   The condition is exact for sessions that send: as long as packets have payloads, estimates
   are not late and the key lasts, keystream is reused if and only if some call takes the branch
   for allowed repeats.
   */
  lemma ReuseIffRepeat(p: Policy, s: SessionState, calls: seq<Call>)
    requires Good(p, s) && s.streams == []
    requires forall i :: 0 <= i < |calls| ==> Callable(p, calls[i])
    requires ExactRun(p, s, calls) && SendsPayloads(p, calls) && MoreLeft(s, Uses(p, s, calls))
    ensures Distinct(RunBlocks(p, s, calls)) <==> NoRepeat(p, s, calls)
  {
    hide RunBlocks, RunLabels, ExactRun, NoRepeat, SendsPayloads, Uses, MoreLeft;
    assert Tracks(s, map[]);
    if NoRepeat(p, s, calls) {
      KeystreamIsNeverReused(p, s, calls);
    } else {
      RepeatReuses(p, s, map[], [], calls);
      assert [] + RunLabels(p, s, calls) == RunLabels(p, s, calls);
      ReuseIffIndexRepeats(p, s, calls);
    }
  }
}
