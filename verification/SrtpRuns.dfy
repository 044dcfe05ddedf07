/**
 Runs of calls seen from one stream: which calls are its own, what comes out of them, and that
 all other calls leave its replay windows alone.
 */
module SrtpRuns {
  import opened Status
  import opened Bytes
  import opened KeyLimits
  import opened Packets
  import opened SrtpSteps
  import opened SrtpStreams
  import RX = ReplayExtended
  import RD = ReplayDatabase

  // ---- one stream's windows ----

  /** The RTP window of a stream; the one it will start with when it does not exist yet. */
  function LookupWindow(p: Policy, s: SessionState, ssrc: Ssrc): RX.Window {
    match Lookup(s, ssrc)
    case Some(st) => st.window
    case None => RX.EmptyWindow(p.windowLen)
  }

  predicate RtpCallOf(c: Call, ssrc: Ssrc) {
    (c.CallProtect? || c.CallUnprotect?) && |c.pkt| >= RTP_HEADER && SsrcOf(c.pkt) == ssrc
  }

  predicate RtcpCallOf(c: Call, ssrc: Ssrc) {
    (c.CallProtectRtcp? || c.CallUnprotectRtcp?) && |c.pkt| >= RTCP_HEADER && RtcpSsrcOf(c.pkt) == ssrc
  }

  lemma SameStreams(p: Policy, s: SessionState, s': SessionState, ssrc: Ssrc)
    requires s'.streams == s.streams
    ensures Lookup(s', ssrc) == Lookup(s, ssrc)
  {
  }

  /** RTP packets of other streams, and RTCP packets of any stream, leave a stream's RTP window alone. */
  lemma StepKeepsWindow(p: Policy, s: SessionState, c: Call, ssrc: Ssrc)
    requires Good(p, s) && Callable(p, c) && !RtpCallOf(c, ssrc)
    ensures LookupWindow(p, Step(p, s, c).session, ssrc) == LookupWindow(p, s, ssrc)
  {
    hide Protect, Unprotect, ProtectRtcp, UnprotectRtcp, Lookup, Seal, Open, SealRtcp, OpenRtcp, RtcpIndexOf;
    hide RX.EstimateIndex, RX.AddDelta, RX.CheckDelta, RX.EmptyWindow, RD.EmptyWindow, RD.AddIndex, RD.CheckIndex;
    if IsShort(c) {
      ShortPacket(p, s, c);
    } else {
      match c
      case CallProtect(pkt) => ProtectEffect(p, s, pkt);
      case CallUnprotect(pkt) =>
        UnprotectEffect(p, s, pkt);
        if Unprotect(p, s, pkt).status == Ok {
          UnprotectAccepted(p, s, pkt);
        } else {
          SameStreams(p, s, Unprotect(p, s, pkt).session, ssrc);
        }
      case CallProtectRtcp(pkt) => ProtectRtcpEffect(p, s, pkt);
      case CallUnprotectRtcp(pkt) =>
        UnprotectRtcpEffect(p, s, pkt);
        if UnprotectRtcp(p, s, pkt).status == Ok {
          UnprotectRtcpKeepsWindow(p, s, pkt);
        }
    }
  }

  /** RTP packets of any stream, and RTCP packets of other streams, leave a stream's RTCP window alone. */
  lemma StepKeepsRtcpWindow(p: Policy, s: SessionState, c: Call, ssrc: Ssrc)
    requires Good(p, s) && Callable(p, c) && !RtcpCallOf(c, ssrc)
    ensures LookupRtcpWindow(Step(p, s, c).session, ssrc) == LookupRtcpWindow(s, ssrc)
  {
    hide Protect, Unprotect, ProtectRtcp, UnprotectRtcp, Lookup, Seal, Open, SealRtcp, OpenRtcp, RtcpIndexOf;
    hide RX.EstimateIndex, RX.AddDelta, RX.CheckDelta, RX.EmptyWindow, RD.EmptyWindow, RD.AddIndex, RD.CheckIndex;
    if IsShort(c) {
      ShortPacket(p, s, c);
    } else {
      match c
      case CallProtect(pkt) => ProtectEffect(p, s, pkt);
      case CallUnprotect(pkt) =>
        UnprotectEffect(p, s, pkt);
        if Unprotect(p, s, pkt).status == Ok {
          UnprotectAccepted(p, s, pkt);
        } else {
          SameStreams(p, s, Unprotect(p, s, pkt).session, ssrc);
        }
      case CallProtectRtcp(pkt) => ProtectRtcpEffect(p, s, pkt);
      case CallUnprotectRtcp(pkt) => UnprotectRtcpEffect(p, s, pkt);
    }
  }

  // ---- the key limit ----

  /** More uses are left than `n`. */
  predicate MoreLeft(s: SessionState, n: nat) {
    n < s.limit.numLeft < UINT64
  }

  lemma LimitNotReached(s: SessionState)
    requires MoreLeft(s, 1)
    ensures !KeyUsedUp(s)
    ensures Update(s.limit).1.numLeft == s.limit.numLeft - 1
  {
  }

  /** Does the call count as a use of the key? */
  predicate UsesKey(p: Policy, s: SessionState, c: Call)
    requires Good(p, s) && Callable(p, c)
  {
    match c
    case CallProtect(pkt) => |pkt| >= RTP_HEADER
    case CallUnprotect(pkt) =>
      var st := Unprotect(p, s, pkt).status;
      st == Ok || st == KeyExpired || st == CipherFail
    case _ => false
  }

  function Uses(p: Policy, s: SessionState, calls: seq<Call>): nat
    requires Good(p, s) && forall i :: 0 <= i < |calls| ==> Callable(p, calls[i])
    decreases |calls|
  {
    if calls == [] then 0
    else (if UsesKey(p, s, calls[0]) then 1 else 0) + Uses(p, Step(p, s, calls[0]).session, calls[1..])
  }

  /** One use moves the shared limit one step; KeyExpired is returned exactly by the use that reaches the hard limit. */
  lemma StepLimit(p: Policy, s: SessionState, c: Call)
    requires Good(p, s) && Callable(p, c)
    ensures var o := Step(p, s, c);
            && o.session.limit == (if UsesKey(p, s, c) then Update(s.limit).1 else s.limit)
            && ((c.CallProtect? || c.CallUnprotect?) ==>
                  (o.status == KeyExpired <==> UsesKey(p, s, c) && Update(s.limit).0 == EventHardLimit))
  {
    hide Find, Seal, Open, SealRtcp, OpenRtcp, RtcpIndexOf, PayloadFits, SeqOf, Update;
    hide RX.EstimateIndex, RX.AddDelta, RD.AddIndex;
    hide ProtectRtcp, UnprotectRtcp, Protect, Unprotect;
    match c
    case CallProtect(pkt) => ProtectLimit(p, s, pkt);
    case CallUnprotect(pkt) => UnprotectLimit(p, s, pkt);
    case CallProtectRtcp(pkt) => ProtectRtcpLimit(p, s, pkt);
    case CallUnprotectRtcp(pkt) => UnprotectRtcpLimit(p, s, pkt);
  }

  /** A key that outlasts a run outlasts its first call and, after it, the rest. */
  lemma MoreLeftForRest(p: Policy, s: SessionState, calls: seq<Call>)
    requires Good(p, s) && calls != [] && forall i :: 0 <= i < |calls| ==> Callable(p, calls[i])
    requires MoreLeft(s, Uses(p, s, calls))
    ensures UsesKey(p, s, calls[0]) ==> !KeyUsedUp(s)
    ensures var s' := Step(p, s, calls[0]).session;
            MoreLeft(s', Uses(p, s', calls[1..]))
  {
    hide Step, UsesKey, Update, KeyUsedUp;
    StepLimit(p, s, calls[0]);
    if UsesKey(p, s, calls[0]) {
      LimitNotReached(s);
    }
  }

  lemma ProtectLimit(p: Policy, s: SessionState, pkt: seq<bv8>)
    requires Good(p, s)
    ensures var o := Protect(p, s, pkt);
            if |pkt| < RTP_HEADER then o.session.limit == s.limit && o.status == BadParam
            else o.session.limit == Update(s.limit).1 && (o.status == KeyExpired <==> Update(s.limit).0 == EventHardLimit)
  {
    hide Find, Seal, PayloadFits, SeqOf, Update, RX.EstimateIndex, RX.AddDelta;
  }

  lemma UnprotectLimit(p: Policy, s: SessionState, pkt: seq<bv8>)
    requires Good(p, s)
    ensures var o := Unprotect(p, s, pkt);
            var counts := o.status == Ok || o.status == KeyExpired || o.status == CipherFail;
            && o.session.limit == (if counts then Update(s.limit).1 else s.limit)
            && (o.status == KeyExpired <==> counts && Update(s.limit).0 == EventHardLimit)
  {
    hide Find, Open, SeqOf, Update, RX.EstimateIndex, RX.AddDelta;
  }

  lemma ProtectRtcpLimit(p: Policy, s: SessionState, pkt: seq<bv8>)
    requires Good(p, s) && |pkt| >= RTCP_HEADER
    ensures ProtectRtcp(p, s, pkt).session.limit == s.limit
  {
    hide Find, SealRtcp;
  }

  lemma UnprotectRtcpLimit(p: Policy, s: SessionState, pkt: seq<bv8>)
    requires Good(p, s) && |pkt| >= RTCP_HEADER + TRAILER + p.rtcp.tagLen
    ensures UnprotectRtcp(p, s, pkt).session.limit == s.limit
  {
    hide Find, OpenRtcp, RtcpIndexOf, RD.AddIndex, RD.CheckIndex;
  }

  // ---- the calls of one stream within a run ----

  /** The packets of the RTP calls of one stream, in order. */
  function RtpPackets(ssrc: Ssrc, calls: seq<Call>): seq<seq<bv8>>
    decreases |calls|
  {
    if calls == [] then []
    else if RtpCallOf(calls[0], ssrc) then [calls[0].pkt] + RtpPackets(ssrc, calls[1..])
    else RtpPackets(ssrc, calls[1..])
  }

  /** What those calls return, in a run that may contain any other calls. */
  function RtpOutcomes(p: Policy, s: SessionState, ssrc: Ssrc, calls: seq<Call>): (os: seq<Outcome>)
    requires Good(p, s) && forall i :: 0 <= i < |calls| ==> Callable(p, calls[i])
    ensures |os| == |RtpPackets(ssrc, calls)|
    decreases |calls|
  {
    if calls == [] then []
    else
      var o := Step(p, s, calls[0]);
      if RtpCallOf(calls[0], ssrc) then [o] + RtpOutcomes(p, o.session, ssrc, calls[1..])
      else RtpOutcomes(p, o.session, ssrc, calls[1..])
  }

  function RtcpPackets(ssrc: Ssrc, calls: seq<Call>): seq<seq<bv8>>
    decreases |calls|
  {
    if calls == [] then []
    else if RtcpCallOf(calls[0], ssrc) then [calls[0].pkt] + RtcpPackets(ssrc, calls[1..])
    else RtcpPackets(ssrc, calls[1..])
  }

  function RtcpOutcomes(p: Policy, s: SessionState, ssrc: Ssrc, calls: seq<Call>): (os: seq<Outcome>)
    requires Good(p, s) && forall i :: 0 <= i < |calls| ==> Callable(p, calls[i])
    ensures |os| == |RtcpPackets(ssrc, calls)|
    decreases |calls|
  {
    if calls == [] then []
    else
      var o := Step(p, s, calls[0]);
      if RtcpCallOf(calls[0], ssrc) then [o] + RtcpOutcomes(p, o.session, ssrc, calls[1..])
      else RtcpOutcomes(p, o.session, ssrc, calls[1..])
  }

  /** The stream only sends, or only receives, in this run. */
  predicate OnlySends(ssrc: Ssrc, calls: seq<Call>) {
    forall i :: 0 <= i < |calls| && RtpCallOf(calls[i], ssrc) ==> calls[i].CallProtect?
  }

  predicate OnlyReceives(ssrc: Ssrc, calls: seq<Call>) {
    forall i :: 0 <= i < |calls| && RtpCallOf(calls[i], ssrc) ==> calls[i].CallUnprotect?
  }

  predicate OnlySendsRtcp(ssrc: Ssrc, calls: seq<Call>) {
    forall i :: 0 <= i < |calls| && RtcpCallOf(calls[i], ssrc) ==> calls[i].CallProtectRtcp?
  }

  predicate OnlyReceivesRtcp(ssrc: Ssrc, calls: seq<Call>) {
    forall i :: 0 <= i < |calls| && RtcpCallOf(calls[i], ssrc) ==> calls[i].CallUnprotectRtcp?
  }
}
