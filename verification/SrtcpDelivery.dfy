/**
 SRTCP from sender to receiver over an arbitrary network: the index travels in the packet, so
 no assumption on loss, order or duplication is needed.  Both sessions may carry any other
 traffic meanwhile, RTP of the same stream included.
 */
module SrtcpDelivery {
  import opened Status
  import opened Bytes
  import opened Packets
  import opened SrtpDelivery
  import opened SrtpRuns
  import opened SrtpSteps
  import opened SrtpStreams
  import RD = ReplayDatabase

  predicate ReportFor(p: Policy, ssrc: Ssrc, pkt: seq<bv8>) {
    |pkt| >= RTCP_HEADER && RtcpSsrcOf(pkt) == ssrc && (p.rtcpConf ==> RtcpFits(pkt))
  }

  ghost predicate ReportsFor(p: Policy, ssrc: Ssrc, pkts: seq<seq<bv8>>) {
    forall k :: 0 <= k < |pkts| ==> ReportFor(p, ssrc, pkts[k])
  }

  // ---- the sender ----

  /** How many packets the stream has sent. */
  predicate HasSent(s: SessionState, ssrc: Ssrc, n: nat) {
    LookupRtcpWindow(s, ssrc).start == n
  }

  lemma SendOneRtcp(p: Policy, s: SessionState, ssrc: Ssrc, n: nat, pkt: seq<bv8>)
    requires Good(p, s) && HasSent(s, ssrc, n) && ReportFor(p, ssrc, pkt) && n + 1 < E_BIT
    ensures var o := ProtectRtcp(p, s, pkt);
            && o.status == Ok
            && o.pkt == SealRtcp(p.rtcp, p.rtcpConf, n + 1, pkt)
            && HasSent(o.session, ssrc, n + 1)
  {
    hide ProtectRtcp, SealRtcp, RtcpFits, Lookup, Find;
    ProtectRtcpEffect(p, s, pkt);
  }

  /** The k-th packet went out under index n + 1 + k. */
  ghost predicate SentRtcpFrom(p: Policy, ssrc: Ssrc, n: nat, pkts: seq<seq<bv8>>, os: seq<Outcome>) {
    && |os| == |pkts| && WellKeyed(p.rtcp) && n + |pkts| < E_BIT
    && forall k :: 0 <= k < |pkts| ==>
         && ReportFor(p, ssrc, pkts[k])
         && os[k].status == Ok
         && os[k].pkt == SealRtcp(p.rtcp, p.rtcpConf, n + 1 + k, pkts[k])
  }

  lemma SentRtcpCons(p: Policy, ssrc: Ssrc, n: nat, pkt: seq<bv8>, o: Outcome, pkts: seq<seq<bv8>>, os: seq<Outcome>)
    requires SentRtcpFrom(p, ssrc, n + 1, pkts, os) && ReportFor(p, ssrc, pkt)
    requires o.status == Ok && o.pkt == SealRtcp(p.rtcp, p.rtcpConf, n + 1, pkt)
    ensures SentRtcpFrom(p, ssrc, n, [pkt] + pkts, [o] + os)
  {
    hide RtcpFits, RtcpSsrcOf, SealRtcp;
    forall k | 0 <= k < |[pkt] + pkts|
      ensures ReportFor(p, ssrc, ([pkt] + pkts)[k])
      ensures ([o] + os)[k].status == Ok
      ensures ([o] + os)[k].pkt == SealRtcp(p.rtcp, p.rtcpConf, n + 1 + k, ([pkt] + pkts)[k])
    {
      if k > 0 {
        assert ReportFor(p, ssrc, pkts[k - 1]);
      }
    }
  }

  lemma ReportsTail(p: Policy, ssrc: Ssrc, pkts: seq<seq<bv8>>)
    requires ReportsFor(p, ssrc, pkts) && pkts != []
    ensures ReportFor(p, ssrc, pkts[0]) && ReportsFor(p, ssrc, pkts[1..])
  {
    hide ReportFor;
  }

  /** The n-th packet of a stream is sealed under index n, whatever else the session does in between. */
  lemma {:induction false} SendRtcpRun(p: Policy, s: SessionState, ssrc: Ssrc, n: nat, calls: seq<Call>)
    requires Good(p, s) && forall i :: 0 <= i < |calls| ==> Callable(p, calls[i])
    requires HasSent(s, ssrc, n) && OnlySendsRtcp(ssrc, calls)
    requires ReportsFor(p, ssrc, RtcpPackets(ssrc, calls)) && n + |RtcpPackets(ssrc, calls)| < E_BIT
    ensures SentRtcpFrom(p, ssrc, n, RtcpPackets(ssrc, calls), RtcpOutcomes(p, s, ssrc, calls))
    decreases |calls|
  {
    hide ProtectRtcp, SealRtcp, ReportFor, ReportsFor, HasSent, SentRtcpFrom, RtcpCallOf;
    if calls == [] {
      NothingSentRtcp(p, ssrc, n);
    } else {
      hide Step;
      var c, rest := calls[0], calls[1..];
      var s' := Step(p, s, c).session;
      if RtcpCallOf(c, ssrc) {
        ReportsTail(p, ssrc, RtcpPackets(ssrc, calls));
        assert RtcpPackets(ssrc, calls)[1..] == RtcpPackets(ssrc, rest);
        StepIsProtectRtcp(p, s, c);
        SendOneRtcp(p, s, ssrc, n, c.pkt);
        SendRtcpRun(p, s', ssrc, n + 1, rest);
        SentRtcpCons(p, ssrc, n, c.pkt, Step(p, s, c), RtcpPackets(ssrc, rest), RtcpOutcomes(p, s', ssrc, rest));
      } else {
        StepKeepsRtcpWindow(p, s, c, ssrc);
        StillSent(s, s', ssrc, n);
        SendRtcpRun(p, s', ssrc, n, rest);
      }
    }
  }

  lemma NothingSentRtcp(p: Policy, ssrc: Ssrc, n: nat)
    requires WellKeyed(p.rtcp) && n < E_BIT
    ensures SentRtcpFrom(p, ssrc, n, [], [])
  {
  }

  lemma StillSent(s: SessionState, s': SessionState, ssrc: Ssrc, n: nat)
    requires HasSent(s, ssrc, n) && LookupRtcpWindow(s', ssrc) == LookupRtcpWindow(s, ssrc)
    ensures HasSent(s', ssrc, n)
  {
    hide LookupRtcpWindow;
  }

  lemma StepIsProtectRtcp(p: Policy, s: SessionState, c: Call)
    requires Good(p, s) && c.CallProtectRtcp? && Callable(p, c)
    ensures Step(p, s, c) == ProtectRtcp(p, s, c.pkt)
  {
  }

  lemma StepIsUnprotectRtcp(p: Policy, s: SessionState, c: Call)
    requires Good(p, s) && c.CallUnprotectRtcp? && Callable(p, c)
    ensures Step(p, s, c) == UnprotectRtcp(p, s, c.pkt)
  {
  }

  // ---- the set-based receiver ----

  /** The indices accepted so far, and the largest of them. */
  datatype RtcpReceiver = RtcpReceiver(highest: nat, got: set<nat>)

  /** New, and at most 127 behind the largest. */
  predicate AcceptsRtcp(r: RtcpReceiver, index: nat) {
    index !in r.got && r.highest < index + RD.WINDOW
  }

  function GotRtcp(r: RtcpReceiver, index: nat): RtcpReceiver {
    RtcpReceiver(if index > r.highest then index else r.highest, r.got + {index})
  }

  function RtcpVerdicts(r: RtcpReceiver, ns: seq<nat>): (vs: seq<bool>)
    ensures |vs| == |ns|
    decreases |ns|
  {
    if ns == [] then []
    else
      var v := AcceptsRtcp(r, ns[0]);
      [v] + RtcpVerdicts(if v then GotRtcp(r, ns[0]) else r, ns[1..])
  }

  ghost predicate FollowsRtcp(s: SessionState, ssrc: Ssrc, r: RtcpReceiver) {
    var w := LookupRtcpWindow(s, ssrc);
    && w.start == (if r.highest < RD.WINDOW then 0 else r.highest - (RD.WINDOW - 1))
    && RD.Represents(w, r.got)
  }

  /**
   One delivery: a genuine packet is accepted if and only if its index is new and at most 127
   behind the largest accepted one, and then comes out as it went in; a refused packet leaves
   the session as it was.
   */
  lemma DeliverOneRtcp(p: Policy, q: Policy, s: SessionState, ssrc: Ssrc, r: RtcpReceiver, index: nat, pkt: seq<bv8>)
    requires WellKeyed(p.rtcp) && p.rtcp == q.rtcp && Good(q, s) && FollowsRtcp(s, ssrc, r)
    requires ReportFor(p, ssrc, pkt) && index < E_BIT
    ensures var o := UnprotectRtcp(q, s, SealRtcp(p.rtcp, p.rtcpConf, index, pkt));
            && (o.status == Ok <==> AcceptsRtcp(r, index))
            && (o.status == Ok ==> o.pkt == pkt && FollowsRtcp(o.session, ssrc, GotRtcp(r, index)))
            && (o.status != Ok ==> o.session == s && o.status == if index in r.got && r.highest < index + RD.WINDOW
                                                                 then ReplayFail else ReplayOld)
  {
    hide UnprotectRtcp, SealRtcp, OpenRtcp, RtcpIndexOf, Find, RD.AddIndex, RD.CheckIndex, RD.Represents, Lookup;
    hide RtcpCovered, RtcpTag, RtcpSsrcOf, RtcpFits;
    var sealed := SealRtcp(p.rtcp, p.rtcpConf, index, pkt);
    SealRtcpKeepsHeader(p.rtcp, p.rtcpConf, index, pkt);
    OpenSealRtcp(p.rtcp, p.rtcpConf, index, pkt);
    UnprotectRtcpEffect(q, s, sealed);
    var w := LookupRtcpWindow(s, ssrc);
    RD.CheckIsMembership(w, r.got, index);
    var o := UnprotectRtcp(q, s, sealed);
    if o.status == Ok {
      RD.AddKeepsSet(w, r.got, index);
    }
  }

  /** `sealed` are genuine packets with indices `ns`, made from `pkts`. */
  ghost predicate GenuineRtcp(p: Policy, ssrc: Ssrc, ns: seq<nat>, pkts: seq<seq<bv8>>, sealed: seq<seq<bv8>>) {
    && |ns| == |pkts| == |sealed|
    && WellKeyed(p.rtcp)
    && forall i :: 0 <= i < |ns| ==>
         && ReportFor(p, ssrc, pkts[i])
         && ns[i] < E_BIT
         && sealed[i] == SealRtcp(p.rtcp, p.rtcpConf, ns[i], pkts[i])
  }

  lemma GenuineRtcpTail(p: Policy, ssrc: Ssrc, ns: seq<nat>, pkts: seq<seq<bv8>>, sealed: seq<seq<bv8>>)
    requires GenuineRtcp(p, ssrc, ns, pkts, sealed) && ns != []
    ensures GenuineRtcp(p, ssrc, ns[1..], pkts[1..], sealed[1..])
    ensures ReportFor(p, ssrc, pkts[0]) && ns[0] < E_BIT
    ensures sealed[0] == SealRtcp(p.rtcp, p.rtcpConf, ns[0], pkts[0])
  {
    hide SealRtcp, RtcpSsrcOf, RtcpFits;
  }

  lemma StillFollowsRtcp(s: SessionState, s': SessionState, ssrc: Ssrc, r: RtcpReceiver)
    requires FollowsRtcp(s, ssrc, r) && LookupRtcpWindow(s', ssrc) == LookupRtcpWindow(s, ssrc)
    ensures FollowsRtcp(s', ssrc, r)
  {
    hide LookupRtcpWindow, RD.Represents;
  }

  /** Any run of deliveries among any other calls: every packet is treated exactly as the set-based receiver treats its index. */
  lemma {:induction false} DeliverRtcpRun(p: Policy, q: Policy, s: SessionState, ssrc: Ssrc, r: RtcpReceiver,
                                          ns: seq<nat>, pkts: seq<seq<bv8>>, calls: seq<Call>)
    requires p.rtcp == q.rtcp && Good(q, s) && forall i :: 0 <= i < |calls| ==> Callable(q, calls[i])
    requires FollowsRtcp(s, ssrc, r) && OnlyReceivesRtcp(ssrc, calls) && WellKeyed(p.rtcp)
    requires |ns| == |pkts| == |RtcpPackets(ssrc, calls)| && GenuineRtcp(p, ssrc, ns, pkts, RtcpPackets(ssrc, calls))
    ensures Faithful(RtcpOutcomes(q, s, ssrc, calls), RtcpVerdicts(r, ns), pkts)
    decreases |calls|
  {
    hide UnprotectRtcp, SealRtcp, ReportFor, FollowsRtcp, AcceptsRtcp, GotRtcp, GenuineRtcp, Faithful, RtcpCallOf;
    if calls == [] {
      NothingDelivered();
    } else {
      hide Step;
      var c, rest := calls[0], calls[1..];
      var o := Step(q, s, c);
      if RtcpCallOf(c, ssrc) {
        GenuineRtcpTail(p, ssrc, ns, pkts, RtcpPackets(ssrc, calls));
        assert RtcpPackets(ssrc, calls)[1..] == RtcpPackets(ssrc, rest);
        StepIsUnprotectRtcp(q, s, c);
        DeliverOneRtcp(p, q, s, ssrc, r, ns[0], pkts[0]);
        var r' := if AcceptsRtcp(r, ns[0]) then GotRtcp(r, ns[0]) else r;
        DeliverRtcpRun(p, q, o.session, ssrc, r', ns[1..], pkts[1..], rest);
        FaithfulCons(o, AcceptsRtcp(r, ns[0]), pkts[0],
                     RtcpOutcomes(q, o.session, ssrc, rest), RtcpVerdicts(r', ns[1..]), pkts[1..]);
        assert [pkts[0]] + pkts[1..] == pkts;
      } else {
        StepKeepsRtcpWindow(q, s, c, ssrc);
        StillFollowsRtcp(s, o.session, ssrc, r);
        DeliverRtcpRun(p, q, o.session, ssrc, r, ns, pkts, rest);
      }
    }
  }

  // ---- end to end ----

  lemma SentIsGenuineRtcp(p: Policy, ssrc: Ssrc, pkts: seq<seq<bv8>>, os: seq<Outcome>, order: seq<nat>)
    requires SentRtcpFrom(p, ssrc, 0, pkts, os) && forall i :: 0 <= i < |order| ==> order[i] < |pkts|
    ensures |os| == |pkts| && forall k :: 0 <= k < |os| ==> os[k].status == Ok
    ensures GenuineRtcp(p, ssrc, IndicesOf(1, order), Delivered(pkts, order), Delivered(Wire(os), order))
  {
    hide RtcpFits, RtcpSsrcOf, SealRtcp, IndicesOf, Delivered, Wire;
    var ns, ps, ws := IndicesOf(1, order), Delivered(pkts, order), Delivered(Wire(os), order);
    forall i | 0 <= i < |order|
      ensures ReportFor(p, ssrc, ps[i])
      ensures ns[i] < E_BIT
      ensures ws[i] == SealRtcp(p.rtcp, p.rtcpConf, ns[i], ps[i])
    {
      assert ReportFor(p, ssrc, pkts[order[i]]);
    }
  }

  lemma StartRtcp(s: SessionState, ssrc: Ssrc)
    requires Lookup(s, ssrc).None?
    ensures HasSent(s, ssrc, 0)
    ensures FollowsRtcp(s, ssrc, RtcpReceiver(0, {}))
  {
    RD.EmptyIsEmptySet();
  }

  /**
   Up to 2^31 - 1 packets of one sender, delivered in any order with any loss and duplication,
   among any other calls on both sessions: the receiver accepts exactly the deliveries whose
   index is new and at most 127 behind the largest accepted one, and every accepted packet
   equals the original.
   */
  lemma RtcpEndToEnd(p: Policy, q: Policy, sender: SessionState, receiver: SessionState, ssrc: Ssrc,
                     sends: seq<Call>, order: seq<nat>, receives: seq<Call>)
    requires p.rtcp == q.rtcp && Good(p, sender) && Good(q, receiver)
    requires forall i :: 0 <= i < |sends| ==> Callable(p, sends[i])
    requires forall i :: 0 <= i < |receives| ==> Callable(q, receives[i])
    requires Lookup(sender, ssrc).None? && Lookup(receiver, ssrc).None?
    requires OnlySendsRtcp(ssrc, sends) && OnlyReceivesRtcp(ssrc, receives)
    requires ReportsFor(p, ssrc, RtcpPackets(ssrc, sends)) && |RtcpPackets(ssrc, sends)| < E_BIT
    requires forall i :: 0 <= i < |order| ==> order[i] < |RtcpPackets(ssrc, sends)|
    requires RtcpPackets(ssrc, receives) == Delivered(Wire(RtcpOutcomes(p, sender, ssrc, sends)), order)
    ensures forall k :: 0 <= k < |RtcpPackets(ssrc, sends)| ==> RtcpOutcomes(p, sender, ssrc, sends)[k].status == Ok
    ensures Faithful(RtcpOutcomes(q, receiver, ssrc, receives),
                     RtcpVerdicts(RtcpReceiver(0, {}), IndicesOf(1, order)),
                     Delivered(RtcpPackets(ssrc, sends), order))
  {
    hide RtcpOutcomes, RtcpPackets, SealRtcp, ReportFor, ReportsFor, Lookup, RtcpVerdicts, OnlySendsRtcp, OnlyReceivesRtcp;
    hide GenuineRtcp, HasSent, FollowsRtcp, Faithful, SentRtcpFrom;
    StartRtcp(sender, ssrc);
    StartRtcp(receiver, ssrc);
    SendRtcpRun(p, sender, ssrc, 0, sends);
    SentIsGenuineRtcp(p, ssrc, RtcpPackets(ssrc, sends), RtcpOutcomes(p, sender, ssrc, sends), order);
    DeliverRtcpRun(p, q, receiver, ssrc, RtcpReceiver(0, {}), IndicesOf(1, order),
                   Delivered(RtcpPackets(ssrc, sends), order), receives);
  }

  // ---- what the set-based receiver guarantees ----

  /** No packet is accepted twice. */
  lemma {:induction false} RtcpNeverTwice(r: RtcpReceiver, ns: seq<nat>)
    ensures var vs := RtcpVerdicts(r, ns);
            && (forall i, j :: 0 <= i < j < |ns| && vs[i] && vs[j] ==> ns[i] != ns[j])
            && (forall i :: 0 <= i < |ns| && vs[i] ==> ns[i] !in r.got)
    decreases |ns|
  {
    if ns != [] {
      var r' := if AcceptsRtcp(r, ns[0]) then GotRtcp(r, ns[0]) else r;
      RtcpNeverTwice(r', ns[1..]);
      var vs := RtcpVerdicts(r, ns);
      assert forall i :: 0 < i < |ns| ==> vs[i] == RtcpVerdicts(r', ns[1..])[i - 1] && ns[i] == ns[1..][i - 1];
    }
  }

  /** Deliveries displaced by less than the window lose nothing: a first delivery is always accepted. */
  lemma {:induction false} RtcpFirstDeliveryAccepted(r: RtcpReceiver, ns: seq<nat>, i: nat)
    requires i < |ns| && ns[i] !in r.got && ns[i] !in ns[..i]
    requires r.highest < ns[i] + RD.WINDOW && forall j :: 0 <= j < i ==> ns[j] < ns[i] + RD.WINDOW
    ensures RtcpVerdicts(r, ns)[i]
    decreases |ns|
  {
    if i > 0 {
      var r' := if AcceptsRtcp(r, ns[0]) then GotRtcp(r, ns[0]) else r;
      assert ns[0] in ns[..i] && ns[1..][..i - 1] == ns[1..i];
      assert forall n :: n in ns[1..i] ==> n in ns[..i];
      RtcpFirstDeliveryAccepted(r', ns[1..], i - 1);
    }
  }
}
