/**
 Keystream uniqueness for srtp_protect_rtcp.  Its packet index is the start of the stream's one
 RTCP replay window, which received packets push forward as well; what keeps indices from
 repeating is that the start never moves back until the 32-bit counter wraps around.
 */
module SrtcpKeystream {
  import opened Status
  import opened Bytes
  import opened CounterMode
  import opened Packets
  import opened Sequences
  import opened SrtpKeystream
  import opened SrtpRuns
  import opened SrtpSteps
  import opened SrtpStreams
  import RX = ReplayExtended
  import RD = ReplayDatabase

  /** The start of a stream's RTCP window, which counts what it has sent. */
  function StartOf(s: SessionState, ssrc: Ssrc): nat {
    LookupRtcpWindow(s, ssrc).start
  }

  // ---- what one call uses ----

  predicate EncryptsRtcp(p: Policy, s: SessionState, c: Call)
    requires Good(p, s) && Callable(p, c)
  {
    c.CallProtectRtcp? && p.rtcpConf && ProtectRtcp(p, s, c.pkt).status == Ok
  }

  /** An encrypting call seals under the incremented start, which fits the vector. */
  lemma EncryptsUnderNext(p: Policy, s: SessionState, c: Call)
    requires Good(p, s) && Callable(p, c) && EncryptsRtcp(p, s, c)
    ensures StartOf(s, RtcpSsrcOf(c.pkt)) + 1 <= E_BIT
    ensures RtcpFits(c.pkt)
    ensures ProtectRtcp(p, s, c.pkt).pkt == SealRtcp(p.rtcp, true, StartOf(s, RtcpSsrcOf(c.pkt)) + 1, c.pkt)
  {
    hide ProtectRtcp, SealRtcp, RtcpFits, Lookup;
    ProtectRtcpEffect(p, s, c.pkt);
  }

  /** The cipher input blocks of one successful srtp_protect_rtcp; the other calls encrypt nothing under the RTCP key. */
  function RtcpCallBlocks(p: Policy, s: SessionState, c: Call): seq<Block>
    requires Good(p, s) && Callable(p, c)
  {
    if EncryptsRtcp(p, s, c) then
      EncryptsUnderNext(p, s, c);
      InputBlocks(Fresh(p.rtcp, RtcpSsrcOf(c.pkt), StartOf(s, RtcpSsrcOf(c.pkt)) + 1), |c.pkt| - RTCP_HEADER)
    else []
  }

  function RtcpRunBlocks(p: Policy, s: SessionState, calls: seq<Call>): seq<Block>
    requires Good(p, s) && forall i :: 0 <= i < |calls| ==> Callable(p, calls[i])
    decreases |calls|
  {
    if calls == [] then []
    else RtcpCallBlocks(p, s, calls[0]) + RtcpRunBlocks(p, Step(p, s, calls[0]).session, calls[1..])
  }

  function RtcpCallLabels(p: Policy, s: SessionState, c: Call): seq<Label>
    requires Good(p, s) && Callable(p, c)
  {
    if EncryptsRtcp(p, s, c) then
      PacketLabels(RtcpSsrcOf(c.pkt), StartOf(s, RtcpSsrcOf(c.pkt)) + 1, |RtcpCallBlocks(p, s, c)|)
    else []
  }

  function RtcpRunLabels(p: Policy, s: SessionState, calls: seq<Call>): seq<Label>
    requires Good(p, s) && forall i :: 0 <= i < |calls| ==> Callable(p, calls[i])
    decreases |calls|
  {
    if calls == [] then []
    else RtcpCallLabels(p, s, calls[0]) + RtcpRunLabels(p, Step(p, s, calls[0]).session, calls[1..])
  }

  lemma RtcpCallLabelled(p: Policy, s: SessionState, c: Call)
    requires Good(p, s) && Callable(p, c)
    ensures Labelled(p.rtcp, RtcpCallLabels(p, s, c), RtcpCallBlocks(p, s, c))
  {
    hide ProtectRtcp, StartOf, RtcpSsrcOf, Fresh, InputBlocks, PacketLabels, Labelled, Good, SealRtcp, BlockOf, WellKeyed;
    if EncryptsRtcp(p, s, c) {
      EncryptsUnderNext(p, s, c);
      PacketLabelled(p.rtcp, RtcpSsrcOf(c.pkt), StartOf(s, RtcpSsrcOf(c.pkt)) + 1, |c.pkt| - RTCP_HEADER);
    } else {
      EmptyLabelled(p.rtcp);
    }
  }

  lemma {:induction false} RtcpRunLabelled(p: Policy, s: SessionState, calls: seq<Call>)
    requires Good(p, s) && forall i :: 0 <= i < |calls| ==> Callable(p, calls[i])
    ensures Labelled(p.rtcp, RtcpRunLabels(p, s, calls), RtcpRunBlocks(p, s, calls))
    decreases |calls|
  {
    hide Step, RtcpCallLabels, RtcpCallBlocks, Labelled;
    if calls == [] {
      EmptyLabelled(p.rtcp);
    } else {
      var s' := Step(p, s, calls[0]).session;
      RtcpCallLabelled(p, s, calls[0]);
      RtcpRunLabelled(p, s', calls[1..]);
      LabelledSum(p.rtcp, RtcpCallLabels(p, s, calls[0]), RtcpCallBlocks(p, s, calls[0]),
                  RtcpRunLabels(p, s', calls[1..]), RtcpRunBlocks(p, s', calls[1..]));
    }
  }

  // ---- the counter over a run ----

  /** A sending call does not wrap the counter of its stream. */
  predicate Advances(s: SessionState, c: Call) {
    c.CallProtectRtcp? && |c.pkt| >= RTCP_HEADER ==> StartOf(s, RtcpSsrcOf(c.pkt)) + 1 < UINT32
  }

  predicate AdvancingRun(p: Policy, s: SessionState, calls: seq<Call>)
    requires Good(p, s) && forall i :: 0 <= i < |calls| ==> Callable(p, calls[i])
    decreases |calls|
  {
    calls == [] || (Advances(s, calls[0]) && AdvancingRun(p, Step(p, s, calls[0]).session, calls[1..]))
  }

  /** A sent packet moves the start on by one, a received one at most into the 31-bit indices, and nothing moves it back. */
  lemma StartMoves(p: Policy, s: SessionState, c: Call, ssrc: Ssrc)
    requires Good(p, s) && Callable(p, c) && Advances(s, c)
    ensures var start, start' := StartOf(s, ssrc), StartOf(Step(p, s, c).session, ssrc);
            && start <= start'
            && (RtcpCallOf(c, ssrc) && c.CallProtectRtcp? ==> start' == start + 1)
            && (!(RtcpCallOf(c, ssrc) && c.CallProtectRtcp?) ==> start' == start || start' < E_BIT)
  {
    hide Step, ProtectRtcp, UnprotectRtcp, SealRtcp, OpenRtcp, RtcpFits, RtcpIndexOf, Lookup, RtcpSsrcOf;
    if RtcpCallOf(c, ssrc) {
      StepIsRtcp(p, s, c);
      if c.CallProtectRtcp? {
        ProtectRtcpEffect(p, s, c.pkt);
      } else {
        UnprotectRtcpEffect(p, s, c.pkt);
      }
    } else {
      StepKeepsRtcpWindow(p, s, c, ssrc);
    }
  }

  lemma StepIsRtcp(p: Policy, s: SessionState, c: Call)
    requires Good(p, s) && Callable(p, c)
    ensures c.CallProtectRtcp? ==> Step(p, s, c) == ProtectRtcp(p, s, c.pkt)
    ensures c.CallUnprotectRtcp? ==> Step(p, s, c) == UnprotectRtcp(p, s, c.pkt)
  {
  }

  /** The labels of a call carry an index above the start before it, and not above the start after it. */
  lemma RtcpCallLabelsFresh(p: Policy, s: SessionState, c: Call)
    requires Good(p, s) && Callable(p, c) && Advances(s, c)
    ensures Distinct(RtcpCallLabels(p, s, c))
    ensures forall l :: l in RtcpCallLabels(p, s, c) ==>
              StartOf(s, l.ssrc) < l.index <= StartOf(Step(p, s, c).session, l.ssrc)
  {
    hide Step, ProtectRtcp, StartOf, RtcpCallBlocks;
    if EncryptsRtcp(p, s, c) {
      EncryptsUnderNext(p, s, c);
      StartMoves(p, s, c, RtcpSsrcOf(c.pkt));
    }
  }

  lemma {:induction false} RtcpRunLabelsDistinct(p: Policy, s: SessionState, calls: seq<Call>)
    requires Good(p, s) && forall i :: 0 <= i < |calls| ==> Callable(p, calls[i])
    requires AdvancingRun(p, s, calls)
    ensures Distinct(RtcpRunLabels(p, s, calls))
    ensures forall l :: l in RtcpRunLabels(p, s, calls) ==> StartOf(s, l.ssrc) < l.index
    decreases |calls|
  {
    hide Step, RtcpCallLabels, StartOf, Advances;
    if calls != [] {
      var c := calls[0];
      var s' := Step(p, s, c).session;
      RtcpCallLabelsFresh(p, s, c);
      RtcpRunLabelsDistinct(p, s', calls[1..]);
      var rest := RtcpRunLabels(p, s', calls[1..]);
      forall l | l in rest
        ensures StartOf(s, l.ssrc) < l.index
      {
        StartMoves(p, s, c, l.ssrc);
      }
      DistinctSum(RtcpCallLabels(p, s, c), rest);
    }
  }

  /**
   In any session, over any run of calls that send and receive on any streams, all cipher input
   blocks of all successful srtp_protect_rtcp calls are distinct, as long as no call wraps the
   32-bit counter of its stream.
   */
  lemma RtcpKeystreamIsNeverReused(p: Policy, s: SessionState, calls: seq<Call>)
    requires Good(p, s) && forall i :: 0 <= i < |calls| ==> Callable(p, calls[i])
    requires AdvancingRun(p, s, calls)
    ensures Distinct(RtcpRunBlocks(p, s, calls))
  {
    hide RtcpRunBlocks, RtcpRunLabels, AdvancingRun, Labelled;
    RtcpRunLabelled(p, s, calls);
    RtcpRunLabelsDistinct(p, s, calls);
    DistinctBlocks(p.rtcp, RtcpRunLabels(p, s, calls), RtcpRunBlocks(p, s, calls));
  }

  // ---- how long that lasts ----

  /** No start exceeds `bound`. */
  ghost predicate StartsWithin(s: SessionState, bound: nat) {
    forall y :: StartOf(s, y) <= bound
  }

  lemma {:induction false} StartsStayWithin(p: Policy, s: SessionState, calls: seq<Call>, bound: nat)
    requires Good(p, s) && forall i :: 0 <= i < |calls| ==> Callable(p, calls[i])
    requires StartsWithin(s, bound) && E_BIT <= bound && bound + |calls| < UINT32
    ensures AdvancingRun(p, s, calls) && StartsWithin(Run(p, s, calls), bound + |calls|)
    decreases |calls|
  {
    hide Step, StartOf, Callable;
    if calls != [] {
      var c := calls[0];
      var s' := Step(p, s, c).session;
      forall y
        ensures StartOf(s', y) <= bound + 1
      {
        StartMoves(p, s, c, y);
      }
      StartsStayWithin(p, s', calls[1..], bound + 1);
    }
  }

  lemma NothingSentYet(s: SessionState)
    requires s.streams == []
    ensures StartsWithin(s, E_BIT)
  {
  }

  lemma GoodWindow(p: Policy, s: SessionState, ssrc: Ssrc)
    requires Good(p, s)
    ensures RD.WellFormed(LookupRtcpWindow(s, ssrc)) && LookupRtcpWindow(s, ssrc).start == StartOf(s, ssrc)
  {
  }

  /** A new session can take 2^31 - 1 calls of any kind before a counter can wrap. */
  lemma NewSessionLasts(p: Policy, s: SessionState, calls: seq<Call>)
    requires Good(p, s) && s.streams == [] && forall i :: 0 <= i < |calls| ==> Callable(p, calls[i])
    requires |calls| < E_BIT
    ensures Distinct(RtcpRunBlocks(p, s, calls))
  {
    hide RtcpRunBlocks, AdvancingRun;
    NothingSentYet(s);
    StartsStayWithin(p, s, calls, E_BIT);
    RtcpKeystreamIsNeverReused(p, s, calls);
  }

  /** Of these, the first 2^31 - 129 also leave every replay check free of 32-bit wrap-around. */
  lemma ChecksDoNotWrap(p: Policy, s: SessionState, calls: seq<Call>, ssrc: Ssrc, index: nat)
    requires Good(p, s) && s.streams == [] && forall i :: 0 <= i < |calls| ==> Callable(p, calls[i])
    requires |calls| < E_BIT - RD.WINDOW
    ensures var w := LookupRtcpWindow(Run(p, s, calls), ssrc);
            RD.WellFormed(w) && RD.CheckIndex32(w, index) == RD.CheckIndex(w, index)
  {
    hide AdvancingRun, Run, StartOf, Callable;
    NothingSentYet(s);
    StartsStayWithin(p, s, calls, E_BIT);
    GoodWindow(p, Run(p, s, calls), ssrc);
    assert StartOf(Run(p, s, calls), ssrc) <= E_BIT + |calls|;
  }
}
