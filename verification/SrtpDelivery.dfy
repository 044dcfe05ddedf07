/**
 From sender to receiver over a lossy, reordering, duplicating network: what srtp_protect
 sends and what srtp_unprotect makes of it, over whole runs and any number of rollovers.  Both
 sessions may carry any other traffic meanwhile: other streams in both directions, and RTCP.
 */
module SrtpDelivery {
  import opened Status
  import opened Bytes
  import opened KeyLimits
  import opened Packets
  import opened Sequences
  import opened SrtpRuns
  import opened SrtpSteps
  import opened SrtpStreams
  import RX = ReplayExtended

  /** A packet of stream `ssrc` for index `t`, with a header that fits it when it is to be encrypted. */
  predicate PacketFor(p: Policy, ssrc: Ssrc, t: nat, pkt: seq<bv8>) {
    && |pkt| >= RTP_HEADER
    && SsrcOf(pkt) == ssrc
    && SeqOf(pkt) == t % RX.SEQ_MAX
    && (p.rtpConf ==> PayloadFits(pkt))
  }

  ghost predicate PacketsFrom(p: Policy, ssrc: Ssrc, t: nat, pkts: seq<seq<bv8>>) {
    forall k :: 0 <= k < |pkts| ==> PacketFor(p, ssrc, t + k, pkts[k])
  }

  // ---- the sender ----

  /** The next index the stream is about to use. */
  predicate SendsNext(p: Policy, s: SessionState, ssrc: Ssrc, t: nat) {
    var w := LookupWindow(p, s, ssrc);
    w.index + 1 == t || (w == RX.EmptyWindow(p.windowLen) && t < RX.SEQ_MAX)
  }

  lemma NextIsExact(t: nat)
    requires t + 1 < INDEX_MAX
    ensures RX.EstimateIndex(t, (t + 1) % RX.SEQ_MAX) == RX.Estimate(1, t + 1)
  {
    hide RX.EstimateIndex;
    RX.EstimateRecovers(t, t + 1);
    RX.EstimateLocates(t, (t + 1) % RX.SEQ_MAX);
    NextIsNotLate(t);
  }

  lemma NextIsNotLate(t: nat)
    ensures !RX.LateAcrossRollover(t, (t + 1) % RX.SEQ_MAX)
  {
  }

  lemma FirstIndex(len: nat, t: nat)
    requires 0 < len <= 0x8000_0000 && t < RX.SEQ_MAX
    ensures RX.EstimateIndex(0, t) == RX.Estimate(t, t) && RX.EmptyWindow(len).index == 0
    ensures RX.CheckDelta(RX.EmptyWindow(len), t) == Ok
    ensures RX.AddDelta(RX.EmptyWindow(len), t).index == t
  {
  }

  lemma SendOne(p: Policy, s: SessionState, ssrc: Ssrc, t: nat, pkt: seq<bv8>)
    requires Good(p, s) && SendsNext(p, s, ssrc, t) && PacketFor(p, ssrc, t, pkt)
    requires !KeyUsedUp(s) && t < INDEX_MAX
    ensures var o := Protect(p, s, pkt);
            && o.status == Ok
            && o.pkt == Seal(p.rtp, p.rtpConf, p.rtpAuth, t, pkt)
            && SendsNext(p, o.session, ssrc, t + 1)
  {
    hide Protect, Seal, PayloadFits, SeqOf, SsrcOf, Lookup, Find;
    hide RX.EstimateIndex, RX.CheckDelta, RX.AddDelta, RX.EmptyWindow, KeyUsedUp, Update;
    ProtectEffect(p, s, pkt);
    SenderHasWindow(p, s, ssrc);
    if LookupWindow(p, s, ssrc).index + 1 == t {
      NextIsExact(t - 1);
      AddOne(LookupWindow(p, s, ssrc));
    } else {
      FirstIndex(p.windowLen, t);
    }
  }

  lemma SenderHasWindow(p: Policy, s: SessionState, ssrc: Ssrc)
    requires Good(p, s)
    ensures SenderStream(p, s, ssrc).window == LookupWindow(p, s, ssrc) && RX.WellFormed(LookupWindow(p, s, ssrc))
  {
  }

  lemma AddOne(w: RX.Window)
    requires RX.WellFormed(w)
    ensures RX.CheckDelta(w, 1) == Ok
    ensures w.index + 1 < UINT64 ==> RX.AddDelta(w, 1).index == w.index + 1
  {
  }

  /** The k-th packet went out under index t + k. */
  ghost predicate SentFrom(p: Policy, ssrc: Ssrc, t: nat, pkts: seq<seq<bv8>>, os: seq<Outcome>) {
    && |os| == |pkts| && WellKeyed(p.rtp) && t + |pkts| <= INDEX_MAX
    && forall k :: 0 <= k < |pkts| ==>
         && PacketFor(p, ssrc, t + k, pkts[k])
         && os[k].status == Ok
         && os[k].pkt == Seal(p.rtp, p.rtpConf, p.rtpAuth, t + k, pkts[k])
  }

  lemma SentCons(p: Policy, ssrc: Ssrc, t: nat, pkt: seq<bv8>, o: Outcome, pkts: seq<seq<bv8>>, os: seq<Outcome>)
    requires SentFrom(p, ssrc, t + 1, pkts, os)
    requires PacketFor(p, ssrc, t, pkt) && o.status == Ok && o.pkt == Seal(p.rtp, p.rtpConf, p.rtpAuth, t, pkt)
    ensures SentFrom(p, ssrc, t, [pkt] + pkts, [o] + os)
  {
    hide PayloadFits, SeqOf, SsrcOf, Seal;
    forall k | 0 <= k < |[pkt] + pkts|
      ensures PacketFor(p, ssrc, t + k, ([pkt] + pkts)[k])
      ensures ([o] + os)[k].status == Ok
      ensures ([o] + os)[k].pkt == Seal(p.rtp, p.rtpConf, p.rtpAuth, t + k, ([pkt] + pkts)[k])
    {
      if k > 0 {
        assert PacketFor(p, ssrc, (t + 1) + (k - 1), pkts[k - 1]);
      }
    }
  }

  lemma PacketsTail(p: Policy, ssrc: Ssrc, t: nat, pkts: seq<seq<bv8>>)
    requires PacketsFrom(p, ssrc, t, pkts) && pkts != []
    ensures PacketFor(p, ssrc, t, pkts[0]) && PacketsFrom(p, ssrc, t + 1, pkts[1..])
  {
    hide PacketFor;
    assert PacketFor(p, ssrc, t + 0, pkts[0]);
    forall k | 0 <= k < |pkts[1..]|
      ensures PacketFor(p, ssrc, t + 1 + k, pkts[1..][k])
    {
      assert PacketFor(p, ssrc, t + (k + 1), pkts[k + 1]);
    }
  }

  /**
   A sender that counts its sequence numbers up seals every packet under its true index,
   whatever else the session does in between.
   */
  lemma {:induction false} SendRun(p: Policy, s: SessionState, ssrc: Ssrc, t: nat, calls: seq<Call>)
    requires Good(p, s) && forall i :: 0 <= i < |calls| ==> Callable(p, calls[i])
    requires SendsNext(p, s, ssrc, t) && OnlySends(ssrc, calls) && PacketsFrom(p, ssrc, t, RtpPackets(ssrc, calls))
    requires MoreLeft(s, Uses(p, s, calls)) && t + |RtpPackets(ssrc, calls)| <= INDEX_MAX
    ensures SentFrom(p, ssrc, t, RtpPackets(ssrc, calls), RtpOutcomes(p, s, ssrc, calls))
    decreases |calls|
  {
    hide Protect, Seal, PacketFor, SendsNext, PacketsFrom, SentFrom, RtpCallOf, LookupWindow, Uses, KeyUsedUp, MoreLeft;
    if calls == [] {
      NothingSent(p, ssrc, t);
    } else {
      hide Step, Callable;
      var c, rest := calls[0], calls[1..];
      var s' := Step(p, s, c).session;
      MoreLeftForRest(p, s, calls);
      if RtpCallOf(c, ssrc) {
        SendUsesKey(p, s, c, ssrc);
        PacketsTail(p, ssrc, t, RtpPackets(ssrc, calls));
        assert RtpPackets(ssrc, calls)[1..] == RtpPackets(ssrc, rest);
        StepIsProtect(p, s, c);
        SendOne(p, s, ssrc, t, c.pkt);
        SendRun(p, s', ssrc, t + 1, rest);
        SentCons(p, ssrc, t, c.pkt, Step(p, s, c), RtpPackets(ssrc, rest), RtpOutcomes(p, s', ssrc, rest));
      } else {
        StepKeepsWindow(p, s, c, ssrc);
        StillNext(p, s, s', ssrc, t);
        SendRun(p, s', ssrc, t, rest);
      }
    }
  }

  lemma SendUsesKey(p: Policy, s: SessionState, c: Call, ssrc: Ssrc)
    requires Good(p, s) && Callable(p, c) && RtpCallOf(c, ssrc) && c.CallProtect?
    ensures UsesKey(p, s, c)
  {
  }

  lemma StepIsProtect(p: Policy, s: SessionState, c: Call)
    requires Good(p, s) && c.CallProtect?
    ensures Step(p, s, c) == Protect(p, s, c.pkt)
  {
  }

  lemma StepIsUnprotect(p: Policy, s: SessionState, c: Call)
    requires Good(p, s) && c.CallUnprotect?
    ensures Step(p, s, c) == Unprotect(p, s, c.pkt)
  {
  }

  lemma StillNext(p: Policy, s: SessionState, s': SessionState, ssrc: Ssrc, t: nat)
    requires SendsNext(p, s, ssrc, t) && LookupWindow(p, s', ssrc) == LookupWindow(p, s, ssrc)
    ensures SendsNext(p, s', ssrc, t)
  {
    hide LookupWindow;
  }

  lemma NothingSent(p: Policy, ssrc: Ssrc, t: nat)
    requires WellKeyed(p.rtp) && t <= INDEX_MAX
    ensures SentFrom(p, ssrc, t, [], [])
  {
  }

  // ---- what a receiver should do ----

  /** The receiver as a reader of the standard would describe it: the indices it has got so far. */
  datatype Receiver = Waiting | Tracking(highest: nat, got: set<int>)

  predicate Accepts(len: nat, r: Receiver, t: nat) {
    match r
    case Waiting => true
    case Tracking(highest, got) => t !in got && highest - t < len
  }

  function Got(r: Receiver, t: nat): Receiver {
    match r
    case Waiting => Tracking(t, {t})
    case Tracking(highest, got) => Tracking(if t > highest then t else highest, got + {t})
  }

  /** Which of the packets with indices `ts` are accepted. */
  function Verdicts(len: nat, r: Receiver, ts: seq<nat>): (vs: seq<bool>)
    ensures |vs| == |ts|
    decreases |ts|
  {
    if ts == [] then []
    else
      var v := Accepts(len, r, ts[0]);
      [v] + Verdicts(len, if v then Got(r, ts[0]) else r, ts[1..])
  }

  /** Close enough for its index to be estimated exactly. */
  predicate Near(r: Receiver, t: nat) {
    match r
    case Waiting => t < RX.SEQ_MAX
    case Tracking(highest, _) => Abs(t - highest) < RX.SEQ_MEDIAN && t < INDEX_MAX && highest < INDEX_MAX
  }

  predicate Late(r: Receiver, t: nat) {
    r.Tracking? && t < r.highest && RX.LateAcrossRollover(r.highest, t % RX.SEQ_MAX)
  }

  /** What the session accepts: the positive distance of a late packet gets it past the check. */
  predicate Passes(len: nat, r: Receiver, t: nat) {
    Accepts(len, r, t) || Late(r, t)
  }

  /**
   What the session enters: for a late packet, the index as far ahead of the highest one as the
   packet is behind it.
   */
  function Took(r: Receiver, t: nat): Receiver {
    if Late(r, t) then Tracking(2 * r.highest - t, r.got + {2 * r.highest - t}) else Got(r, t)
  }

  /** Which of the packets with indices `ts` the session accepts. */
  function Answers(len: nat, r: Receiver, ts: seq<nat>): (vs: seq<bool>)
    ensures |vs| == |ts|
    decreases |ts|
  {
    if ts == [] then []
    else
      var v := Passes(len, r, ts[0]);
      [v] + Answers(len, if v then Took(r, ts[0]) else r, ts[1..])
  }

  /** Every delivery is near the index the session has then reached. */
  predicate NearRun(len: nat, r: Receiver, ts: seq<nat>)
    decreases |ts|
  {
    ts == [] || (Near(r, ts[0]) && NearRun(len, if Passes(len, r, ts[0]) then Took(r, ts[0]) else r, ts[1..]))
  }

  // The session against the set-based receiver: they part with late packets, and only there.

  lemma TookIsGotIff(r: Receiver, t: nat)
    ensures Took(r, t) == Got(r, t) <==> !Late(r, t)
  {
    hide RX.LateAcrossRollover;
  }

  lemma {:induction false} TimelyIsExact(len: nat, r: Receiver, ts: seq<nat>)
    requires TimelyRun(len, r, ts)
    ensures NearRun(len, r, ts) && Answers(len, r, ts) == Verdicts(len, r, ts)
    decreases |ts|
  {
    hide Near, Late, Accepts, Got;
    if ts != [] {
      TimelyIsExact(len, if Accepts(len, r, ts[0]) then Got(r, ts[0]) else r, ts[1..]);
    }
  }

  /** Deliveries 65535, 65536 and again 65535: the session accepts the first packet twice, the set-based receiver once. */
  lemma AcceptedTwice(len: nat)
    requires len > 0
    ensures var ts: seq<nat> := [0xffff, 0x10000, 0xffff];
            && NearRun(len, Waiting, ts)
            && Answers(len, Waiting, ts) == [true, true, true]
            && Verdicts(len, Waiting, ts) == [true, true, false]
  {
    var ts: seq<nat> := [0xffff, 0x10000, 0xffff];
    var r := Tracking(0xffff, {0xffff});
    var r' := Tracking(0x10000, {0xffff, 0x10000});
    assert ts[1..] == [0x10000, 0xffff] && ts[1..][1..] == [0xffff] && ts[1..][1..][1..] == [];
    assert Took(Waiting, 0xffff) == r && Took(r, 0x10000) == r' && Late(r', 0xffff);
    assert Got(r, 0x10000) == r';
  }

  predicate Timely(r: Receiver, t: nat) {
    Near(r, t) && !Late(r, t)
  }

  predicate TimelyRun(len: nat, r: Receiver, ts: seq<nat>)
    decreases |ts|
  {
    ts == [] || (Timely(r, ts[0]) && TimelyRun(len, if Accepts(len, r, ts[0]) then Got(r, ts[0]) else r, ts[1..]))
  }

  /** The session's window for `ssrc` stands for receiver `r`. */
  ghost predicate Follows(p: Policy, s: SessionState, ssrc: Ssrc, r: Receiver) {
    var w := LookupWindow(p, s, ssrc);
    match r
    case Waiting => w == RX.EmptyWindow(p.windowLen)
    case Tracking(highest, got) => Lookup(s, ssrc).Some? && w.index == highest && RX.Represents(w, got)
  }

  /** The two ends agree on keys and services. */
  ghost predicate SameKeys(p: Policy, q: Policy) {
    p.rtp == q.rtp && p.rtpConf == q.rtpConf && p.rtpAuth == q.rtpAuth
  }

  lemma NearEstimate(q: Policy, s: SessionState, ssrc: Ssrc, r: Receiver, t: nat)
    requires Good(q, s) && Follows(q, s, ssrc, r) && Near(r, t)
    ensures var e := LookupEstimate(s, ssrc, t % RX.SEQ_MAX);
            && e.guess == t
            && e.delta == match r case Waiting => t case Tracking(highest, _) => if Late(r, t) then highest - t else t - highest
    ensures r.Tracking? ==> (Late(r, t) <==> RX.LateAcrossRollover(r.highest, t % RX.SEQ_MAX))
  {
    hide RX.EstimateIndex, RX.Represents, Lookup, RX.LateAcrossRollover, RX.EmptyWindow;
    if r.Tracking? {
      RX.EstimateRecovers(r.highest, t);
      RX.EstimateLocates(r.highest, t % RX.SEQ_MAX);
    } else {
      FirstIndex(q.windowLen, t);
    }
  }

  /**
   One delivery, exactly: a genuine packet less than 2^15 away from the receiver's index is
   accepted if and only if it is new and inside the window, or late across a rollover; when
   accepted it comes out as it went in and the stream's window stands for Took(r, t), and
   otherwise the session does not change.
   */
  lemma DeliverOne(p: Policy, q: Policy, s: SessionState, ssrc: Ssrc, r: Receiver, t: nat, pkt: seq<bv8>)
    requires WellKeyed(p.rtp) && SameKeys(p, q) && (p.rtpAuth || p.rtp.tagLen == 0)
    requires Good(q, s) && Follows(q, s, ssrc, r) && Near(r, t)
    requires PacketFor(p, ssrc, t, pkt) && t < INDEX_MAX
    requires UsesKey(q, s, CallUnprotect(Seal(p.rtp, p.rtpConf, p.rtpAuth, t, pkt))) ==> !KeyUsedUp(s)
    ensures var o := Unprotect(q, s, Seal(p.rtp, p.rtpConf, p.rtpAuth, t, pkt));
            && (o.status == Ok <==> Passes(q.windowLen, r, t))
            && (o.status == Ok ==> o.pkt == pkt && Follows(q, o.session, ssrc, Took(r, t)))
            && (o.status != Ok ==> o.session == s && o.status == if r.highest - t < q.windowLen then ReplayFail else ReplayOld)
  {
    hide Unprotect, Seal, Open, PayloadFits, Lookup, Update, KeyUsedUp, Follows, SeqOf, SsrcOf, Accepts, Late, Took;
    hide RX.Represents, RX.CheckDelta, RX.EstimateIndex, RX.LateAcrossRollover, RX.EmptyWindow;
    var sealed := Seal(p.rtp, p.rtpConf, p.rtpAuth, t, pkt);
    SealKeepsHeader(p.rtp, p.rtpConf, p.rtpAuth, t, pkt);
    OpenSeal(p.rtp, p.rtpConf, p.rtpAuth, t, pkt);
    NearEstimate(q, s, ssrc, r, t);
    UnprotectEffect(q, s, sealed);
    FollowsCheck(q, s, ssrc, r, t);
    var o := Unprotect(q, s, sealed);
    if o.status == Ok {
      UnprotectAccepted(q, s, sealed);
      FollowsAccepted(q, s, ssrc, r, t);
      assert Lookup(o.session, ssrc) == Some(ReceivedStream(q, s, ssrc, LookupEstimate(s, ssrc, t % RX.SEQ_MAX).delta));
      FollowsIs(q, o.session, ssrc, Took(r, t));
    } else {
      RefusedIsTracking(q.windowLen, r, t);
    }
  }

  lemma RefusedIsTracking(len: nat, r: Receiver, t: nat)
    requires !Passes(len, r, t)
    ensures r.Tracking?
  {
  }

  lemma FollowsIs(q: Policy, s: SessionState, ssrc: Ssrc, r: Receiver)
    requires Lookup(s, ssrc).Some? && r.Tracking?
    requires Lookup(s, ssrc).value.window.index == r.highest && RX.Represents(Lookup(s, ssrc).value.window, r.got)
    ensures Follows(q, s, ssrc, r)
  {
  }

  lemma FollowsCheck(q: Policy, s: SessionState, ssrc: Ssrc, r: Receiver, t: nat)
    requires Good(q, s) && Follows(q, s, ssrc, r) && Near(r, t)
    ensures LookupCheck(q, s, ssrc, LookupEstimate(s, ssrc, t % RX.SEQ_MAX).delta)
            == if Passes(q.windowLen, r, t) then Ok
               else if r.highest - t < q.windowLen then ReplayFail else ReplayOld
  {
    hide RX.EstimateIndex, RX.Represents, Find, RX.LateAcrossRollover, RX.EmptyWindow, RX.CheckDelta;
    NearEstimate(q, s, ssrc, r, t);
    if r.Tracking? {
      var w := LookupWindow(q, s, ssrc);
      if Late(r, t) {
        RX.EstimateLocates(r.highest, t % RX.SEQ_MAX);
        ForwardPasses(w, r.highest - t);
      } else {
        RX.CheckIsMembership(w, r.got, t - r.highest);
      }
    } else {
      FirstIndex(q.windowLen, t);
    }
  }

  lemma ForwardPasses(w: RX.Window, delta: int)
    requires RX.WellFormed(w) && delta > 0
    ensures RX.CheckDelta(w, delta) == Ok
  {
  }

  lemma FollowsAccepted(q: Policy, s: SessionState, ssrc: Ssrc, r: Receiver, t: nat)
    requires Good(q, s) && Follows(q, s, ssrc, r) && Near(r, t) && Passes(q.windowLen, r, t)
    ensures var delta := LookupEstimate(s, ssrc, t % RX.SEQ_MAX).delta;
            && (match Lookup(s, ssrc) case Some(st) => -delta < |st.window.bits| case None => 0 <= delta)
            && Took(r, t).Tracking?
            && RX.Represents(ReceivedStream(q, s, ssrc, delta).window, Took(r, t).got)
            && ReceivedStream(q, s, ssrc, delta).window.index == Took(r, t).highest
  {
    hide RX.EstimateIndex, RX.Represents, Find, RX.LateAcrossRollover, RX.AddDelta, RX.EmptyWindow;
    NearEstimate(q, s, ssrc, r, t);
    var delta := LookupEstimate(s, ssrc, t % RX.SEQ_MAX).delta;
    if r.Tracking? {
      RX.AddKeepsSet(Lookup(s, ssrc).value.window, r.got, delta);
    } else {
      FirstIndex(q.windowLen, t);
      RX.EmptyWindowIsEmptySet(q.windowLen);
      RX.AddKeepsSet(RX.EmptyWindow(q.windowLen), {}, delta);
      assert {} + {t} == {t};
    }
  }

  // ---- runs of deliveries ----

  /** `sealed` are the genuine packets with indices `ts`, made from `pkts`. */
  ghost predicate Genuine(p: Policy, ssrc: Ssrc, ts: seq<nat>, pkts: seq<seq<bv8>>, sealed: seq<seq<bv8>>) {
    && |ts| == |pkts| == |sealed|
    && WellKeyed(p.rtp)
    && forall i :: 0 <= i < |ts| ==>
         && PacketFor(p, ssrc, ts[i], pkts[i])
         && ts[i] < INDEX_MAX
         && sealed[i] == Seal(p.rtp, p.rtpConf, p.rtpAuth, ts[i], pkts[i])
  }

  lemma GenuineTail(p: Policy, ssrc: Ssrc, ts: seq<nat>, pkts: seq<seq<bv8>>, sealed: seq<seq<bv8>>)
    requires Genuine(p, ssrc, ts, pkts, sealed) && ts != []
    ensures Genuine(p, ssrc, ts[1..], pkts[1..], sealed[1..])
    ensures PacketFor(p, ssrc, ts[0], pkts[0]) && ts[0] < INDEX_MAX
    ensures sealed[0] == Seal(p.rtp, p.rtpConf, p.rtpAuth, ts[0], pkts[0])
  {
    hide SeqOf, SsrcOf, PayloadFits, Seal;
  }

  /** The i-th outcome is a success exactly when the i-th verdict says so, and then returns the i-th packet. */
  ghost predicate Faithful(os: seq<Outcome>, vs: seq<bool>, pkts: seq<seq<bv8>>) {
    && |os| == |vs| == |pkts|
    && forall i :: 0 <= i < |os| ==> (os[i].status == Ok <==> vs[i]) && (os[i].status == Ok ==> os[i].pkt == pkts[i])
  }

  lemma FaithfulCons(o: Outcome, v: bool, pkt: seq<bv8>, os: seq<Outcome>, vs: seq<bool>, pkts: seq<seq<bv8>>)
    requires Faithful(os, vs, pkts)
    requires (o.status == Ok <==> v) && (o.status == Ok ==> o.pkt == pkt)
    ensures Faithful([o] + os, [v] + vs, [pkt] + pkts)
  {
  }

  lemma NothingDelivered()
    ensures Faithful([], [], [])
  {
  }

  lemma StillFollows(q: Policy, s: SessionState, c: Call, ssrc: Ssrc, r: Receiver)
    requires Good(q, s) && Callable(q, c) && !RtpCallOf(c, ssrc) && Follows(q, s, ssrc, r)
    ensures Follows(q, Step(q, s, c).session, ssrc, r)
  {
    hide Step, Find, Callable, RX.Represents, RX.EmptyWindow, RtpCallOf;
    StepKeepsWindow(q, s, c, ssrc);
    if r.Tracking? {
      StepKeepsStream(q, s, c, ssrc);
    }
  }

  lemma StepKeepsStream(q: Policy, s: SessionState, c: Call, ssrc: Ssrc)
    requires Good(q, s) && Callable(q, c) && Lookup(s, ssrc).Some?
    ensures Lookup(Step(q, s, c).session, ssrc).Some?
  {
    hide Step, Find, ListStep, CallSsrc;
    if IsShort(c) {
      ShortPacket(q, s, c);
    } else {
      StepList(q, s, c);
      ListKeeps(s, Step(q, s, c).session, CallSsrc(q, c), ssrc);
    }
  }

  lemma ListKeeps(s: SessionState, s': SessionState, new': Ssrc, ssrc: Ssrc)
    requires ListStep(s.streams, s'.streams, new') && Lookup(s, ssrc).Some?
    ensures Lookup(s', ssrc).Some?
  {
    hide Find;
    var i := Find(s.streams, ssrc);
    if |s'.streams| == |s.streams| {
      assert s'.streams[i].ssrc == ssrc;
    } else {
      assert s'.streams[i + 1].ssrc == ssrc;
    }
  }

  /**
   A run of deliveries in any order, each less than 2^15 away from where the session has got to,
   among any other calls: the accepted ones are those Answers tells, late ones included.
   */
  lemma {:induction false} DeliverRun(p: Policy, q: Policy, s: SessionState, ssrc: Ssrc, r: Receiver,
                                      ts: seq<nat>, pkts: seq<seq<bv8>>, calls: seq<Call>)
    requires SameKeys(p, q) && (p.rtpAuth || p.rtp.tagLen == 0)
    requires Good(q, s) && forall i :: 0 <= i < |calls| ==> Callable(q, calls[i])
    requires Follows(q, s, ssrc, r) && NearRun(q.windowLen, r, ts) && OnlyReceives(ssrc, calls)
    requires |ts| == |pkts| == |RtpPackets(ssrc, calls)| && Genuine(p, ssrc, ts, pkts, RtpPackets(ssrc, calls))
    requires MoreLeft(s, Uses(q, s, calls))
    ensures Faithful(RtpOutcomes(q, s, ssrc, calls), Answers(q.windowLen, r, ts), pkts)
    decreases |calls|
  {
    hide Step, Unprotect, Seal, PayloadFits, SeqOf, SsrcOf, Follows, Near, Passes, Took, Genuine, Faithful, RtpCallOf;
    hide Uses, MoreLeft, KeyUsedUp;
    if calls == [] {
      NothingDelivered();
    } else {
      hide Callable, UsesKey;
      var c, rest := calls[0], calls[1..];
      var o := Step(q, s, c);
      MoreLeftForRest(q, s, calls);
      if RtpCallOf(c, ssrc) {
        GenuineTail(p, ssrc, ts, pkts, RtpPackets(ssrc, calls));
        assert RtpPackets(ssrc, calls)[1..] == RtpPackets(ssrc, rest);
        StepIsUnprotect(q, s, c);
        DeliverOne(p, q, s, ssrc, r, ts[0], pkts[0]);
        var r' := if Passes(q.windowLen, r, ts[0]) then Took(r, ts[0]) else r;
        DeliverRun(p, q, o.session, ssrc, r', ts[1..], pkts[1..], rest);
        FaithfulCons(o, Passes(q.windowLen, r, ts[0]), pkts[0],
                     RtpOutcomes(q, o.session, ssrc, rest), Answers(q.windowLen, r', ts[1..]), pkts[1..]);
        assert [pkts[0]] + pkts[1..] == pkts;
      } else {
        StillFollows(q, s, c, ssrc, r);
        DeliverRun(p, q, o.session, ssrc, r, ts, pkts, rest);
      }
    }
  }

  // ---- end to end ----

  /** The network delivers packet `order[i]` as its i-th delivery: any loss, reordering and duplication. */
  function Delivered<T>(sent: seq<T>, order: seq<nat>): (ds: seq<T>)
    requires forall i :: 0 <= i < |order| ==> order[i] < |sent|
    ensures |ds| == |order|
    ensures forall i :: 0 <= i < |order| ==> ds[i] == sent[order[i]]
  {
    seq(|order|, i requires 0 <= i < |order| => sent[order[i]])
  }

  /** The packet indices of the deliveries, when the first packet was sent with sequence number `first`. */
  function IndicesOf(first: nat, order: seq<nat>): (ts: seq<nat>)
    ensures |ts| == |order|
    ensures forall i :: 0 <= i < |order| ==> ts[i] == first + order[i]
  {
    seq(|order|, i requires 0 <= i < |order| => first + order[i])
  }

  /** What the sender put on the wire. */
  function Wire(os: seq<Outcome>): (w: seq<seq<bv8>>)
    ensures |w| == |os|
    ensures forall i :: 0 <= i < |os| ==> w[i] == os[i].pkt
  {
    seq(|os|, i requires 0 <= i < |os| => os[i].pkt)
  }

  lemma SentIsGenuine(p: Policy, ssrc: Ssrc, first: nat, pkts: seq<seq<bv8>>, os: seq<Outcome>, order: seq<nat>)
    requires SentFrom(p, ssrc, first, pkts, os) && forall i :: 0 <= i < |order| ==> order[i] < |pkts|
    ensures |os| == |pkts| && forall k :: 0 <= k < |os| ==> os[k].status == Ok
    ensures Genuine(p, ssrc, IndicesOf(first, order), Delivered(pkts, order), Delivered(Wire(os), order))
  {
    hide PayloadFits, SeqOf, SsrcOf, Seal, IndicesOf, Delivered, Wire;
    var ts, ps, ws := IndicesOf(first, order), Delivered(pkts, order), Delivered(Wire(os), order);
    forall i | 0 <= i < |order|
      ensures PacketFor(p, ssrc, ts[i], ps[i])
      ensures ts[i] < INDEX_MAX
      ensures ws[i] == Seal(p.rtp, p.rtpConf, p.rtpAuth, ts[i], ps[i])
    {
      assert PacketFor(p, ssrc, first + order[i], pkts[order[i]]);
    }
  }

  lemma StartsFresh(p: Policy, s: SessionState, ssrc: Ssrc, first: nat)
    requires Lookup(s, ssrc).None? && first < RX.SEQ_MAX
    ensures SendsNext(p, s, ssrc, first) && Follows(p, s, ssrc, Waiting)
  {
  }

  /** A sending and a receiving session, both new to the stream, with what they do and what the network does. */
  datatype Scenario = Scenario(
    p: Policy, q: Policy, sender: SessionState, receiver: SessionState, ssrc: Ssrc, first: nat,
    sends: seq<Call>, order: seq<nat>, receives: seq<Call>)
  {
    /** The packets of the stream as the sender's application made them. */
    function Packets(): seq<seq<bv8>> {
      RtpPackets(ssrc, sends)
    }

    /** Keys agree, both ends start without the stream, and the keys outlast their uses. */
    ghost predicate Sound() {
      && SameKeys(p, q) && (p.rtpAuth || p.rtp.tagLen == 0)
      && Good(p, sender) && Good(q, receiver)
      && Lookup(sender, ssrc).None? && Lookup(receiver, ssrc).None?
      && (forall i :: 0 <= i < |sends| ==> Callable(p, sends[i]))
      && (forall i :: 0 <= i < |receives| ==> Callable(q, receives[i]))
      && OnlySends(ssrc, sends) && OnlyReceives(ssrc, receives)
      && MoreLeft(sender, Uses(p, sender, sends)) && MoreLeft(receiver, Uses(q, receiver, receives))
    }

    /** The sequence numbers count up from `first`, and the indices stay within 48 bits. */
    ghost predicate CountsUp() {
      && first < RX.SEQ_MAX && PacketsFrom(p, ssrc, first, Packets())
      && first + |Packets()| <= INDEX_MAX
    }

    /** The receiver is given what the network delivers of the sender's packets, among anything else. */
    ghost predicate Connected()
      requires Sound()
    {
      && (forall i :: 0 <= i < |order| ==> order[i] < |Packets()|)
      && RtpPackets(ssrc, receives) == Delivered(Wire(RtpOutcomes(p, sender, ssrc, sends)), order)
    }
  }

  /**
   End to end.  A sender protects packets of one stream with consecutive sequence numbers over
   any number of rollovers; the network delivers them in any order, with loss and duplication;
   both sessions meanwhile serve any other streams.  As long as every delivery is less than 2^15
   away from where the receiving session has got to and the keys last, the receiver accepts
   exactly the deliveries Answers tells, and returns the original packets, octet for octet.
   */
  lemma EndToEnd(x: Scenario)
    requires x.Sound() && x.CountsUp() && x.Connected()
    requires NearRun(x.q.windowLen, Waiting, IndicesOf(x.first, x.order))
    ensures forall k :: 0 <= k < |x.Packets()| ==> RtpOutcomes(x.p, x.sender, x.ssrc, x.sends)[k].status == Ok
    ensures Faithful(RtpOutcomes(x.q, x.receiver, x.ssrc, x.receives),
                     Answers(x.q.windowLen, Waiting, IndicesOf(x.first, x.order)),
                     Delivered(x.Packets(), x.order))
  {
    hide RtpOutcomes, RtpPackets, Seal, PacketFor, Lookup, NearRun, Answers, Genuine, PacketsFrom, Follows, SendsNext;
    hide Faithful, SentFrom, Uses, MoreLeft;
    StartsFresh(x.p, x.sender, x.ssrc, x.first);
    StartsFresh(x.q, x.receiver, x.ssrc, x.first);
    SendRun(x.p, x.sender, x.ssrc, x.first, x.sends);
    SentIsGenuine(x.p, x.ssrc, x.first, x.Packets(), RtpOutcomes(x.p, x.sender, x.ssrc, x.sends), x.order);
    DeliverRun(x.p, x.q, x.receiver, x.ssrc, Waiting, IndicesOf(x.first, x.order), Delivered(x.Packets(), x.order), x.receives);
  }

  /** If no delivery is late across a rollover either, the receiver is the set-based one. */
  lemma TimelyEndToEnd(x: Scenario)
    requires x.Sound() && x.CountsUp() && x.Connected()
    requires TimelyRun(x.q.windowLen, Waiting, IndicesOf(x.first, x.order))
    ensures Faithful(RtpOutcomes(x.q, x.receiver, x.ssrc, x.receives),
                     Verdicts(x.q.windowLen, Waiting, IndicesOf(x.first, x.order)),
                     Delivered(x.Packets(), x.order))
  {
    hide RtpOutcomes, RtpPackets, NearRun, TimelyRun, Answers, Verdicts, PacketsFrom, Faithful;
    TimelyIsExact(x.q.windowLen, Waiting, IndicesOf(x.first, x.order));
    EndToEnd(x);
  }

  /** A stream whose first packet, number 65535, arrives again after the second: it is accepted and handed out twice. */
  lemma HandedOutTwice(x: Scenario)
    requires x.Sound() && x.CountsUp() && x.Connected()
    requires x.first == 0xffff && x.order == [0, 1, 0]
    ensures var received := RtpOutcomes(x.q, x.receiver, x.ssrc, x.receives);
            |received| == 3 && forall i :: 0 <= i < 3 ==> received[i].status == Ok && received[i].pkt == x.Packets()[x.order[i]]
  {
    hide RtpOutcomes, RtpPackets, NearRun, Answers, Verdicts, PacketsFrom, Lookup, OnlySends, OnlyReceives;
    AcceptedTwice(x.q.windowLen);
    assert IndicesOf(x.first, x.order) == [0xffff, 0x10000, 0xffff];
    EndToEnd(x);
  }

  // ---- what the set-based receiver guarantees ----

  /** No index is accepted twice, whatever the order of deliveries. */
  lemma {:induction false} NeverTwice(len: nat, r: Receiver, ts: seq<nat>)
    ensures var vs := Verdicts(len, r, ts);
            && (forall i, j :: 0 <= i < j < |ts| && vs[i] && vs[j] ==> ts[i] != ts[j])
            && (r.Tracking? ==> forall i :: 0 <= i < |ts| && vs[i] ==> ts[i] !in r.got)
    decreases |ts|
  {
    if ts != [] {
      var r' := if Accepts(len, r, ts[0]) then Got(r, ts[0]) else r;
      NeverTwice(len, r', ts[1..]);
      var vs := Verdicts(len, r, ts);
      assert forall i :: 0 < i < |ts| ==> vs[i] == Verdicts(len, r', ts[1..])[i - 1] && ts[i] == ts[1..][i - 1];
    }
  }

  /** Deliveries displaced by less than the window lose nothing: a first delivery is always accepted. */
  lemma {:induction false} FirstDeliveryAccepted(len: nat, r: Receiver, ts: seq<nat>, i: nat)
    requires i < |ts| && ts[i] !in ts[..i] && forall j :: 0 <= j < i ==> ts[j] < ts[i] + len
    requires r.Tracking? ==> ts[i] !in r.got && r.highest < ts[i] + len
    ensures Verdicts(len, r, ts)[i]
    decreases |ts|
  {
    if i > 0 {
      var r' := if Accepts(len, r, ts[0]) then Got(r, ts[0]) else r;
      assert ts[0] in ts[..i] && ts[1..][..i - 1] == ts[1..i];
      assert forall t :: t in ts[1..i] ==> t in ts[..i];
      FirstDeliveryAccepted(len, r', ts[1..], i - 1);
    }
  }

  /** Every delivery is newer than the ones before, by less than 2^15. */
  ghost predicate Advancing(ts: seq<nat>) {
    forall i :: 0 < i < |ts| ==> ts[i - 1] < ts[i] < ts[i - 1] + RX.SEQ_MEDIAN
  }

  lemma NewerIsNotLate(highest: nat, t: nat)
    requires highest < t < highest + RX.SEQ_MEDIAN && t < INDEX_MAX
    ensures !RX.LateAcrossRollover(highest, t % RX.SEQ_MAX)
  {
    hide RX.EstimateIndex, RX.LateAcrossRollover;
    RX.EstimateRecovers(highest, t);
    RX.EstimateLocates(highest, t % RX.SEQ_MAX);
  }

  lemma {:induction false} AdvancingIsTimely(len: nat, r: Receiver, ts: seq<nat>)
    requires len > 0 && Advancing(ts)
    requires r.Tracking? ==> forall p :: p in r.got ==> p <= r.highest
    requires ts != [] ==> match r case Waiting => ts[0] < RX.SEQ_MAX
                                   case Tracking(highest, _) => highest < ts[0] < highest + RX.SEQ_MEDIAN
    requires forall i :: 0 <= i < |ts| ==> ts[i] < INDEX_MAX
    requires r.Tracking? ==> r.highest < INDEX_MAX
    ensures TimelyRun(len, r, ts)
    ensures forall i :: 0 <= i < |ts| ==> Verdicts(len, r, ts)[i]
    decreases |ts|
  {
    hide RX.LateAcrossRollover;
    if ts != [] {
      if r.Tracking? {
        NewerIsNotLate(r.highest, ts[0]);
      }
      var r' := Got(r, ts[0]);
      assert |ts| > 1 ==> ts[1..][0] == ts[1];
      assert forall i :: 0 < i < |ts| ==> ts[i] == ts[1..][i - 1];
      AdvancingIsTimely(len, r', ts[1..]);
    }
  }

  /**
   In-order delivery with loss: the first packet received has rollover counter 0 and each one
   is newer than the last by less than 2^15.  Then every delivered packet is accepted and
   equals the original, across rollovers.
   */
  lemma InOrderDelivery(x: Scenario)
    requires x.Sound() && x.CountsUp() && x.Connected()
    requires x.order != [] ==> x.first + x.order[0] < RX.SEQ_MAX
    requires Advancing(x.order)
    ensures var received := RtpOutcomes(x.q, x.receiver, x.ssrc, x.receives);
            |received| == |x.order| &&
            forall i :: 0 <= i < |x.order| ==> received[i].status == Ok && received[i].pkt == x.Packets()[x.order[i]]
  {
    hide RtpOutcomes, RtpPackets, Verdicts, TimelyRun, PacketsFrom, Lookup, OnlySends, OnlyReceives;
    AdvancingIsTimely(x.q.windowLen, Waiting, IndicesOf(x.first, x.order));
    TimelyEndToEnd(x);
  }
}
