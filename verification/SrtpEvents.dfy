/**
 What a session reports: SSRC collisions and key limits, and how long a key is in use over
 whole runs of calls.
 */
module SrtpEvents {
  import opened Status
  import opened Bytes
  import opened KeyLimits
  import opened Packets
  import opened SrtpSteps
  import opened SrtpRuns
  import opened SrtpStreams
  import RX = ReplayExtended
  import RD = ReplayDatabase

  // ---- directions ----

  predicate HasDirection(s: SessionState, ssrc: Ssrc, d: Direction) {
    Lookup(s, ssrc).Some? && Lookup(s, ssrc).value.direction == d
  }

  /** Once a stream sends or receives, no call turns it round. */
  lemma StepKeepsDirection(p: Policy, s: SessionState, c: Call, ssrc: Ssrc, d: Direction)
    requires Good(p, s) && Callable(p, c) && d != DirUnknown && HasDirection(s, ssrc, d)
    ensures HasDirection(Step(p, s, c).session, ssrc, d)
  {
    hide Protect, Unprotect, ProtectRtcp, UnprotectRtcp, Lookup, Seal, Open, SealRtcp, OpenRtcp, RtcpIndexOf;
    hide RX.EstimateIndex, RX.AddDelta, RX.CheckDelta, RD.AddIndex, RD.CheckIndex;
    if IsShort(c) {
      ShortPacket(p, s, c);
    } else {
      match c
      case CallProtect(pkt) => ProtectEffect(p, s, pkt);
      case CallUnprotect(pkt) =>
        UnprotectEffect(p, s, pkt);
        if Unprotect(p, s, pkt).status == Ok {
          UnprotectAccepted(p, s, pkt);
        } else {
          SameStreams(p, s, Unprotect(p, s, pkt).session, ssrc);
        }
      case CallProtectRtcp(pkt) => ProtectRtcpEffect(p, s, pkt);
      case CallUnprotectRtcp(pkt) =>
        UnprotectRtcpEffect(p, s, pkt);
        if UnprotectRtcp(p, s, pkt).status == Ok {
          UnprotectRtcpKeepsWindow(p, s, pkt);
        }
    }
  }

  lemma {:induction false} DirectionIsFinal(p: Policy, s: SessionState, calls: seq<Call>, ssrc: Ssrc, d: Direction)
    requires Good(p, s) && forall i :: 0 <= i < |calls| ==> Callable(p, calls[i])
    requires d != DirUnknown && HasDirection(s, ssrc, d)
    ensures HasDirection(Run(p, s, calls), ssrc, d)
    decreases |calls|
  {
    hide Step, HasDirection;
    if calls != [] {
      StepKeepsDirection(p, s, calls[0], ssrc, d);
      DirectionIsFinal(p, Step(p, s, calls[0]).session, calls[1..], ssrc, d);
    }
  }

  // ---- events ----

  /** The direction a call finds: the stream's, or that of the clone or the template it starts from. */
  function DirectionBefore(s: SessionState, c: Call, ssrc: Ssrc): Direction {
    match Lookup(s, ssrc)
    case Some(st) => st.direction
    case None => if c.CallProtect? then DirSender else s.templateDirection
  }

  /** The SSRC an event names: that of the stream, or the template's for a provisional one. */
  function Reporter(p: Policy, s: SessionState, ssrc: Ssrc): Ssrc {
    if Lookup(s, ssrc).Some? then ssrc else p.templateSsrc
  }

  lemma ProtectEvents(p: Policy, s: SessionState, pkt: seq<bv8>)
    requires Good(p, s) && |pkt| >= RTP_HEADER
    ensures Protect(p, s, pkt).session.events
            == s.events + CollisionEvents(DirectionBefore(s, CallProtect(pkt), SsrcOf(pkt)), DirSender, SsrcOf(pkt))
               + LimitEvents(Update(s.limit).0, SsrcOf(pkt))
  {
    hide Find, Seal, PayloadFits, SeqOf, RX.EstimateIndex, RX.CheckDelta, RX.AddDelta, LimitEvents, Update;
  }

  lemma UnprotectEvents(p: Policy, s: SessionState, pkt: seq<bv8>)
    requires Good(p, s) && |pkt| >= RTP_HEADER
    ensures var o := Unprotect(p, s, pkt);
            var who := Reporter(p, s, SsrcOf(pkt));
            o.session.events
            == s.events
               + (if o.session.limit == s.limit then [] else LimitEvents(Update(s.limit).0, who))
               + (if o.status == Ok then CollisionEvents(DirectionBefore(s, CallUnprotect(pkt), SsrcOf(pkt)), DirReceiver, who)
                  else [])
  {
    hide Find, Open, SeqOf, RX.EstimateIndex, RX.CheckDelta, RX.AddDelta, LimitEvents;
    UpdateMoves(s.limit);
  }

  lemma UpdateMoves(k: Limit)
    ensures Update(k).1 != k
  {
  }

  lemma RtcpEvents(p: Policy, s: SessionState, c: Call)
    requires Good(p, s) && Callable(p, c) && (c.CallProtectRtcp? || c.CallUnprotectRtcp?)
    ensures var o := Step(p, s, c);
            var ssrc := RtcpSsrcOf(c.pkt);
            o.session.events
            == s.events
               + if c.CallProtectRtcp? then CollisionEvents(DirectionBefore(s, c, ssrc), DirSender, ssrc)
                 else if o.status == Ok then CollisionEvents(DirectionBefore(s, c, ssrc), DirReceiver, Reporter(p, s, ssrc))
                 else []
  {
    hide Find, SealRtcp, OpenRtcp, RtcpIndexOf, RD.AddIndex, RD.CheckIndex, RtcpFits;
  }

  /** Did the call report an event of this kind? */
  predicate Reported(before: seq<Event>, after: seq<Event>, kind: EventKind) {
    |after| >= |before| && exists e :: e in after[|before|..] && e.kind == kind
  }

  /**
   A collision is reported by exactly those calls that use a stream against its direction: a
   sender's call on a receiving stream, whatever its outcome, and an accepted packet on a
   sending stream, or for a new stream under an outbound policy.
   */
  lemma CollisionReportedIff(p: Policy, s: SessionState, c: Call)
    requires Good(p, s) && Callable(p, c) && !IsShort(c)
    ensures var o := Step(p, s, c);
            var d := DirectionBefore(s, c, CallSsrc(p, c));
            Reported(s.events, o.session.events, SsrcCollision)
            <==> if c.CallProtect? || c.CallProtectRtcp? then d == DirReceiver else o.status == Ok && d == DirSender
  {
    hide Protect, Unprotect, ProtectRtcp, UnprotectRtcp, Reporter, DirectionBefore, LimitEvents, Update;
    var o := Step(p, s, c);
    match c
    case CallProtect(pkt) =>
      ProtectEvents(p, s, pkt);
      NoCollision(Update(s.limit).0, SsrcOf(pkt));
      Appended(s.events, CollisionEvents(DirectionBefore(s, c, SsrcOf(pkt)), DirSender, SsrcOf(pkt)),
               LimitEvents(Update(s.limit).0, SsrcOf(pkt)));
    case CallUnprotect(pkt) =>
      UnprotectEvents(p, s, pkt);
      var who := Reporter(p, s, SsrcOf(pkt));
      NoCollision(Update(s.limit).0, who);
      Appended(s.events, if o.session.limit == s.limit then [] else LimitEvents(Update(s.limit).0, who),
               if o.status == Ok then CollisionEvents(DirectionBefore(s, c, SsrcOf(pkt)), DirReceiver, who) else []);
    case CallProtectRtcp(pkt) =>
      RtcpEvents(p, s, c);
      Appended(s.events, CollisionEvents(DirectionBefore(s, c, RtcpSsrcOf(pkt)), DirSender, RtcpSsrcOf(pkt)), []);
    case CallUnprotectRtcp(pkt) =>
      RtcpEvents(p, s, c);
      Appended(s.events, if o.status == Ok then CollisionEvents(DirectionBefore(s, c, RtcpSsrcOf(pkt)), DirReceiver,
                                                                Reporter(p, s, RtcpSsrcOf(pkt))) else [], []);
  }

  lemma NoCollision(e: KeyEvent, ssrc: Ssrc)
    ensures forall x :: x in LimitEvents(e, ssrc) ==> x.kind != SsrcCollision
  {
  }

  lemma Appended(before: seq<Event>, a: seq<Event>, b: seq<Event>)
    ensures forall kind :: Reported(before, before + a + b, kind) <==> exists e :: (e in a || e in b) && e.kind == kind
    ensures before + a + [] == before + a
  {
    var after := before + a + b;
    assert after[|before|..] == a + b;
  }

  /** What one use leaves of a 64-bit count. */
  function UsesAfter(k: Limit): nat {
    (k.numLeft - 1) % 0x1_0000_0000_0000_0000
  }

  lemma LimitEventIs(k: Limit, ssrc: Ssrc)
    ensures (exists e :: e in LimitEvents(Update(k).0, ssrc) && e.kind == KeyHardLimit) <==> Update(k).0 == EventHardLimit
    ensures (exists e :: e in LimitEvents(Update(k).0, ssrc) && e.kind == KeySoftLimit) <==> 0 < UsesAfter(k) < 0x1_0000
    ensures forall e :: e in LimitEvents(Update(k).0, ssrc) ==> e.ssrc == ssrc
  {
    var events := LimitEvents(Update(k).0, ssrc);
    assert events != [] ==> events[0] in events;
  }

  lemma CollisionIsNoLimit(d: Direction, want: Direction, ssrc: Ssrc)
    ensures forall e :: e in CollisionEvents(d, want, ssrc) ==> e.kind == SsrcCollision && e.ssrc == ssrc
  {
  }

  /**
   The hard limit is reported by exactly those RTP calls that answer that the key has expired,
   and the soft limit by exactly those that leave the key some uses, but fewer than 2^16.
   */
  lemma LimitReportedIff(p: Policy, s: SessionState, c: Call)
    requires Good(p, s) && Callable(p, c) && !IsShort(c)
    ensures var o := Step(p, s, c);
            && (Reported(s.events, o.session.events, KeyHardLimit)
                <==> (c.CallProtect? || c.CallUnprotect?) && o.status == KeyExpired)
            && (Reported(s.events, o.session.events, KeySoftLimit) <==> UsesKey(p, s, c) && 0 < UsesAfter(s.limit) < 0x1_0000)
  {
    hide Protect, Unprotect, ProtectRtcp, UnprotectRtcp, Reporter, DirectionBefore, LimitEvents, CollisionEvents, Update, UsesAfter, Reported;
    var o := Step(p, s, c);
    StepLimit(p, s, c);
    UpdateMoves(s.limit);
    match c
    case CallProtect(pkt) =>
      ProtectEvents(p, s, pkt);
      var collisions := CollisionEvents(DirectionBefore(s, c, SsrcOf(pkt)), DirSender, SsrcOf(pkt));
      CollisionIsNoLimit(DirectionBefore(s, c, SsrcOf(pkt)), DirSender, SsrcOf(pkt));
      LimitEventIs(s.limit, SsrcOf(pkt));
      Appended(s.events, collisions, LimitEvents(Update(s.limit).0, SsrcOf(pkt)));
    case CallUnprotect(pkt) =>
      UnprotectEvents(p, s, pkt);
      var who := Reporter(p, s, SsrcOf(pkt));
      CollisionIsNoLimit(DirectionBefore(s, c, SsrcOf(pkt)), DirReceiver, who);
      LimitEventIs(s.limit, who);
      Appended(s.events, if o.session.limit == s.limit then [] else LimitEvents(Update(s.limit).0, who),
               if o.status == Ok then CollisionEvents(DirectionBefore(s, c, SsrcOf(pkt)), DirReceiver, who) else []);
    case CallProtectRtcp(pkt) =>
      RtcpEvents(p, s, c);
      CollisionIsNoLimit(DirectionBefore(s, c, RtcpSsrcOf(pkt)), DirSender, RtcpSsrcOf(pkt));
      Appended(s.events, CollisionEvents(DirectionBefore(s, c, RtcpSsrcOf(pkt)), DirSender, RtcpSsrcOf(pkt)), []);
    case CallUnprotectRtcp(pkt) =>
      RtcpEvents(p, s, c);
      CollisionIsNoLimit(DirectionBefore(s, c, RtcpSsrcOf(pkt)), DirReceiver, Reporter(p, s, RtcpSsrcOf(pkt)));
      Appended(s.events, if o.status == Ok then CollisionEvents(DirectionBefore(s, c, RtcpSsrcOf(pkt)), DirReceiver,
                                                                Reporter(p, s, RtcpSsrcOf(pkt))) else [], []);
  }

  /** Every event names the stream of the call, or the template's SSRC as long as the stream is provisional. */
  lemma EventsName(p: Policy, s: SessionState, c: Call, e: Event)
    requires Good(p, s) && Callable(p, c) && !IsShort(c)
    requires s.events <= Step(p, s, c).session.events && e in Step(p, s, c).session.events[|s.events|..]
    ensures e.ssrc == if c.CallProtect? || c.CallProtectRtcp? then CallSsrc(p, c) else Reporter(p, s, CallSsrc(p, c))
  {
    hide Protect, Unprotect, ProtectRtcp, UnprotectRtcp, Reporter, DirectionBefore, LimitEvents, CollisionEvents, Update, UsesAfter;
    match c
    case CallProtect(pkt) =>
      ProtectEvents(p, s, pkt);
      CollisionIsNoLimit(DirectionBefore(s, c, SsrcOf(pkt)), DirSender, SsrcOf(pkt));
      LimitEventIs(s.limit, SsrcOf(pkt));
    case CallUnprotect(pkt) =>
      UnprotectEvents(p, s, pkt);
      CollisionIsNoLimit(DirectionBefore(s, c, SsrcOf(pkt)), DirReceiver, Reporter(p, s, SsrcOf(pkt)));
      LimitEventIs(s.limit, Reporter(p, s, SsrcOf(pkt)));
    case CallProtectRtcp(pkt) =>
      RtcpEvents(p, s, c);
      CollisionIsNoLimit(DirectionBefore(s, c, RtcpSsrcOf(pkt)), DirSender, RtcpSsrcOf(pkt));
    case CallUnprotectRtcp(pkt) =>
      RtcpEvents(p, s, c);
      CollisionIsNoLimit(DirectionBefore(s, c, RtcpSsrcOf(pkt)), DirReceiver, Reporter(p, s, RtcpSsrcOf(pkt)));
  }

  /** The template takes the receiver's direction from the first accepted packet of a new stream, and only if it has none. */
  lemma TemplateDirection(p: Policy, s: SessionState, c: Call)
    requires Good(p, s) && Callable(p, c)
    ensures var o := Step(p, s, c);
            var accepted := (c.CallUnprotect? || c.CallUnprotectRtcp?) && o.status == Ok;
            o.session.templateDirection
            == if accepted && Lookup(s, CallSsrc(p, c)).None? && s.templateDirection == DirUnknown then DirReceiver
               else s.templateDirection
  {
    hide Find, Open, OpenRtcp, Seal, SealRtcp, SeqOf, SsrcOf, RtcpSsrcOf, RtcpIndexOf, PayloadFits, RtcpFits, Update;
    hide RX.EstimateIndex, RX.CheckDelta, RX.AddDelta, RD.AddIndex, RD.CheckIndex;
    hide Protect, Unprotect, ProtectRtcp, UnprotectRtcp;
    match c
    case CallProtect(pkt) => ProtectTemplate(p, s, pkt);
    case CallUnprotect(pkt) => UnprotectTemplate(p, s, pkt);
    case CallProtectRtcp(pkt) => ProtectRtcpTemplate(p, s, pkt);
    case CallUnprotectRtcp(pkt) => UnprotectRtcpTemplate(p, s, pkt);
  }

  lemma ProtectTemplate(p: Policy, s: SessionState, pkt: seq<bv8>)
    requires Good(p, s)
    ensures Protect(p, s, pkt).session.templateDirection == s.templateDirection
  {
    hide Find, Seal, SeqOf, SsrcOf, PayloadFits, Update, RX.EstimateIndex, RX.CheckDelta, RX.AddDelta;
  }

  lemma UnprotectTemplate(p: Policy, s: SessionState, pkt: seq<bv8>)
    requires Good(p, s)
    ensures var o := Unprotect(p, s, pkt);
            o.session.templateDirection
            == if o.status == Ok && Lookup(s, SsrcOf(pkt)).None? && s.templateDirection == DirUnknown then DirReceiver
               else s.templateDirection
  {
    hide Find, Open, SeqOf, SsrcOf, Update, RX.EstimateIndex, RX.CheckDelta, RX.AddDelta;
  }

  lemma ProtectRtcpTemplate(p: Policy, s: SessionState, pkt: seq<bv8>)
    requires Good(p, s) && |pkt| >= RTCP_HEADER
    ensures ProtectRtcp(p, s, pkt).session.templateDirection == s.templateDirection
  {
    hide Find, SealRtcp, RtcpSsrcOf, RtcpFits;
  }

  lemma UnprotectRtcpTemplate(p: Policy, s: SessionState, pkt: seq<bv8>)
    requires Good(p, s) && |pkt| >= RTCP_HEADER + TRAILER + p.rtcp.tagLen
    ensures var o := UnprotectRtcp(p, s, pkt);
            o.session.templateDirection
            == if o.status == Ok && Lookup(s, RtcpSsrcOf(pkt)).None? && s.templateDirection == DirUnknown then DirReceiver
               else s.templateDirection
  {
    hide Find, OpenRtcp, RtcpSsrcOf, RtcpIndexOf, RD.AddIndex, RD.CheckIndex;
  }

  // ---- the key over whole runs ----

  /** All streams of a session, senders and receivers, draw on one limit: it counts their uses together. */
  lemma {:induction false} RunLimit(p: Policy, s: SessionState, calls: seq<Call>)
    requires Good(p, s) && forall i :: 0 <= i < |calls| ==> Callable(p, calls[i])
    ensures Run(p, s, calls).limit == Updates(s.limit, Uses(p, s, calls))
    decreases |calls|
  {
    hide Step, Update, UsesKey;
    if calls != [] {
      var s' := Step(p, s, calls[0]).session;
      StepLimit(p, s, calls[0]);
      RunLimit(p, s', calls[1..]);
      if UsesKey(p, s, calls[0]) {
        OneUpdate(s.limit);
        UpdatesSplit(s.limit, 1, Uses(p, s', calls[1..]));
      }
    }
  }

  lemma OneUpdate(k: Limit)
    ensures Updates(k, 1) == Update(k).1
  {
    assert Updates(k, 0) == k;
  }

  /**
   The hard limit stops one call and no more.  The count wraps after it, and the calls never ask
   key_limit_check: the n-th use of a key set to `limit` is refused if and only if n is the limit.
   */
  lemma HardLimitStopsOneUse(p: Policy, s: SessionState, calls: seq<Call>, c: Call, limit: nat)
    requires Good(p, s) && (forall i :: 0 <= i < |calls| ==> Callable(p, calls[i])) && Callable(p, c)
    requires SOFT_LIMIT <= limit < UINT64 && s.limit == Limit(limit, Normal)
    requires (c.CallProtect? || c.CallUnprotect?) && UsesKey(p, Run(p, s, calls), c)
    requires Uses(p, s, calls) + 1 <= limit + UINT64 - SOFT_LIMIT
    ensures Step(p, Run(p, s, calls), c).status == KeyExpired <==> Uses(p, s, calls) + 1 == limit
  {
    hide Step, UsesKey, Uses, Run, Update, Updates;
    RunLimit(p, s, calls);
    StepLimit(p, Run(p, s, calls), c);
    HardEventIff(limit, Uses(p, s, calls) + 1);
  }
}
