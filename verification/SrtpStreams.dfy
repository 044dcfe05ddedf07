/**
 What each call does to the streams of a session, seen through lookup by SSRC; and the
 invariants of the stream list over arbitrary runs of calls.
 */
module SrtpStreams {
  import opened Status
  import opened Bytes
  import opened KeyLimits
  import opened Packets
  import opened SrtpSteps
  import RX = ReplayExtended
  import RD = ReplayDatabase

  datatype Option<T> = None | Some(value: T)

  function Lookup(s: SessionState, ssrc: Ssrc): (o: Option<StreamState>)
    ensures o.Some? ==> o.value.ssrc == ssrc
  {
    var i := Find(s.streams, ssrc);
    if i < |s.streams| then Some(s.streams[i]) else None
  }

  lemma FindIs(streams: seq<StreamState>, ssrc: Ssrc, i: nat)
    requires i < |streams| && streams[i].ssrc == ssrc
    requires forall k :: 0 <= k < i ==> streams[k].ssrc != ssrc
    ensures Find(streams, ssrc) == i
  {
  }

  lemma FindNone(streams: seq<StreamState>, ssrc: Ssrc)
    requires forall k :: 0 <= k < |streams| ==> streams[k].ssrc != ssrc
    ensures Find(streams, ssrc) == |streams|
  {
  }

  /** Storing a stream back where it was found changes the lookup of its own SSRC only. */
  lemma LookupReplace(s: SessionState, ssrc: Ssrc, st: StreamState, y: Ssrc)
    requires Find(s.streams, ssrc) < |s.streams| && st.ssrc == ssrc
    ensures Find(Replace(s, Find(s.streams, ssrc), st).streams, y) == Find(s.streams, y)
    ensures Lookup(Replace(s, Find(s.streams, ssrc), st), y) == if y == ssrc then Some(st) else Lookup(s, y)
  {
    hide Find;
    var i := Find(s.streams, ssrc);
    var after := Replace(s, i, st).streams;
    assert forall k :: 0 <= k < |after| ==> after[k].ssrc == s.streams[k].ssrc;
    var j := Find(s.streams, y);
    if j < |s.streams| {
      FindIs(after, y, j);
    } else {
      FindNone(after, y);
    }
  }

  lemma LookupPrepend(s: SessionState, st: StreamState, y: Ssrc)
    ensures Find(Prepend(s, st).streams, y) == if y == st.ssrc then 0 else 1 + Find(s.streams, y)
    ensures Lookup(Prepend(s, st), y) == if y == st.ssrc then Some(st) else Lookup(s, y)
  {
    assert Prepend(s, st).streams[1..] == s.streams;
  }

  // ---- srtp_protect ----

  /** The stream srtp_protect works on. */
  function SenderStream(p: Policy, s: SessionState, ssrc: Ssrc): (st: StreamState)
    requires Good(p, s)
    ensures GoodStream(p, st) && st.ssrc == ssrc
  {
    match Lookup(s, ssrc)
    case Some(st) => st
    case None => Clone(p, DirSender, ssrc)
  }

  /** The window after srtp_protect: an index is entered as soon as the check passes. */
  function SenderWindow(p: Policy, s: SessionState, pkt: seq<bv8>): RX.Window
    requires Good(p, s) && |pkt| >= RTP_HEADER
  {
    var st := SenderStream(p, s, SsrcOf(pkt));
    var e := RX.EstimateIndex(st.window.index, SeqOf(pkt));
    if !KeyUsedUp(s) && RX.CheckDelta(st.window, e.delta) == Ok then RX.AddDelta(st.window, e.delta) else st.window
  }

  function SenderStatus(p: Policy, s: SessionState, pkt: seq<bv8>): Status
    requires Good(p, s) && |pkt| >= RTP_HEADER
  {
    var st := SenderStream(p, s, SsrcOf(pkt));
    var check := RX.CheckDelta(st.window, RX.EstimateIndex(st.window.index, SeqOf(pkt)).delta);
    if KeyUsedUp(s) then KeyExpired
    else if check != Ok && (check != ReplayFail || !p.allowRepeat) then check
    else if p.rtpConf && !PayloadFits(pkt) then CipherFail
    else Ok
  }

  lemma ProtectOnEffect(p: Policy, s: SessionState, pkt: seq<bv8>)
    requires Good(p, s) && |pkt| >= RTP_HEADER && Lookup(s, SsrcOf(pkt)).Some?
    ensures var o := ProtectOn(p, s, Find(s.streams, SsrcOf(pkt)), pkt);
            var st := Lookup(s, SsrcOf(pkt)).value;
            var e := RX.EstimateIndex(st.window.index, SeqOf(pkt));
            && o.status == SenderStatus(p, s, pkt)
            && (o.status == Ok ==>
                  e.guess < INDEX_MAX && (p.rtpConf ==> PayloadFits(pkt))
                  && o.pkt == Seal(p.rtp, p.rtpConf, p.rtpAuth, e.guess, pkt))
            && o.session.limit == Update(s.limit).1
            && o.session.templateDirection == s.templateDirection
            && (forall y :: Lookup(o.session, y)
                  == if y == SsrcOf(pkt)
                     then Some(st.(direction := Claimed(st.direction, DirSender), window := SenderWindow(p, s, pkt)))
                     else Lookup(s, y))
  {
    hide Find, Seal, PayloadFits, SeqOf, RX.EstimateIndex, RX.CheckDelta, RX.AddDelta;
    var ssrc := SsrcOf(pkt);
    var i := Find(s.streams, ssrc);
    var st := s.streams[i];
    RX.GuessIs48Bit(st.window.index, SeqOf(pkt));
    var o := ProtectOn(p, s, i, pkt);
    var st' := st.(direction := Claimed(st.direction, DirSender), window := SenderWindow(p, s, pkt));
    assert o.session.streams == Replace(s, i, st').streams;
    forall y
      ensures Lookup(o.session, y) == if y == ssrc then Some(st') else Lookup(s, y)
    {
      LookupReplace(s, ssrc, st', y);
    }
  }

  /** srtp_protect changes one stream, uses the key once, and seals under the estimated index. */
  lemma ProtectEffect(p: Policy, s: SessionState, pkt: seq<bv8>)
    requires Good(p, s) && |pkt| >= RTP_HEADER
    ensures var o := Protect(p, s, pkt);
            var st := SenderStream(p, s, SsrcOf(pkt));
            var e := RX.EstimateIndex(st.window.index, SeqOf(pkt));
            && o.status == SenderStatus(p, s, pkt)
            && (o.status == Ok ==>
                  e.guess < INDEX_MAX && (p.rtpConf ==> PayloadFits(pkt))
                  && o.pkt == Seal(p.rtp, p.rtpConf, p.rtpAuth, e.guess, pkt))
            && o.session.limit == Update(s.limit).1
            && o.session.templateDirection == s.templateDirection
            && (forall y :: Lookup(o.session, y)
                  == if y == SsrcOf(pkt)
                     then Some(st.(direction := Claimed(st.direction, DirSender), window := SenderWindow(p, s, pkt)))
                     else Lookup(s, y))
  {
    hide Find, Seal, PayloadFits, SeqOf, RX.EstimateIndex, RX.CheckDelta, RX.AddDelta, ProtectOn, SenderStatus, SenderWindow;
    var ssrc := SsrcOf(pkt);
    if Lookup(s, ssrc).Some? {
      ProtectOnEffect(p, s, pkt);
    } else {
      var s' := Prepend(s, Clone(p, DirSender, ssrc));
      forall y
        ensures Lookup(s', y) == if y == ssrc then Some(Clone(p, DirSender, ssrc)) else Lookup(s, y)
      {
        LookupPrepend(s, Clone(p, DirSender, ssrc), y);
      }
      LookupPrepend(s, Clone(p, DirSender, ssrc), ssrc);
      ProtectOnEffect(p, s', pkt);
      SameSender(p, s, s', pkt);
    }
  }

  lemma SameSender(p: Policy, s: SessionState, s': SessionState, pkt: seq<bv8>)
    requires Good(p, s) && Good(p, s') && |pkt| >= RTP_HEADER && s.limit == s'.limit
    requires SenderStream(p, s, SsrcOf(pkt)) == SenderStream(p, s', SsrcOf(pkt))
    ensures SenderStatus(p, s, pkt) == SenderStatus(p, s', pkt)
    ensures SenderWindow(p, s, pkt) == SenderWindow(p, s', pkt)
  {
  }

  // ---- srtp_unprotect ----

  /** The stream a successful receive leaves behind. */
  function ReceivedStream(p: Policy, s: SessionState, ssrc: Ssrc, delta: int): StreamState
    requires Good(p, s)
    requires match Lookup(s, ssrc) case Some(st) => -delta < |st.window.bits| case None => 0 <= delta
  {
    match Lookup(s, ssrc)
    case Some(st) => st.(direction := Claimed(st.direction, DirReceiver), window := RX.AddDelta(st.window, delta))
    case None =>
      var st := Clone(p, Claimed(s.templateDirection, DirReceiver), ssrc);
      st.(window := RX.AddDelta(st.window, delta))
  }

  lemma AcceptEffect(p: Policy, s: SessionState, ssrc: Ssrc, delta: int)
    requires Good(p, s)
    requires match Lookup(s, ssrc) case Some(st) => -delta < |st.window.bits| case None => 0 <= delta
    ensures var s' := Accept(p, s, Find(s.streams, ssrc), ssrc, delta);
            && s'.limit == s.limit
            && forall y :: Lookup(s', y)
                 == if y == ssrc then Some(ReceivedStream(p, s, ssrc, delta)) else Lookup(s, y)
  {
    hide Find, RX.AddDelta;
    var s' := Accept(p, s, Find(s.streams, ssrc), ssrc, delta);
    var st' := ReceivedStream(p, s, ssrc, delta);
    if Lookup(s, ssrc).Some? {
      assert s'.streams == Replace(s, Find(s.streams, ssrc), st').streams;
      forall y ensures Lookup(s', y) == if y == ssrc then Some(st') else Lookup(s, y) {
        LookupReplace(s, ssrc, st', y);
      }
    } else {
      assert s'.streams == Prepend(s, st').streams;
      forall y ensures Lookup(s', y) == if y == ssrc then Some(st') else Lookup(s, y) {
        LookupPrepend(s, st', y);
      }
    }
  }

  /** The receiver's estimate, by lookup. */
  function LookupEstimate(s: SessionState, ssrc: Ssrc, seqNum: RX.SeqNum): RX.Estimate {
    match Lookup(s, ssrc)
    case Some(st) => RX.EstimateIndex(st.window.index, seqNum)
    case None => RX.Estimate(seqNum, seqNum)
  }

  function LookupCheck(p: Policy, s: SessionState, ssrc: Ssrc, delta: int): Status
    requires Good(p, s)
  {
    match Lookup(s, ssrc)
    case Some(st) => RX.CheckDelta(st.window, delta)
    case None => Ok
  }

  lemma EstimateFits(s: SessionState, ssrc: Ssrc, seqNum: RX.SeqNum)
    ensures LookupEstimate(s, ssrc, seqNum).guess < INDEX_MAX
  {
    if Lookup(s, ssrc).Some? {
      RX.GuessIs48Bit(Lookup(s, ssrc).value.window.index, seqNum);
    }
  }

  lemma CheckedIsInWindow(p: Policy, s: SessionState, ssrc: Ssrc, seqNum: RX.SeqNum)
    requires Good(p, s)
    requires LookupCheck(p, s, ssrc, LookupEstimate(s, ssrc, seqNum).delta) == Ok
    ensures var delta := LookupEstimate(s, ssrc, seqNum).delta;
            match Lookup(s, ssrc) case Some(st) => -delta < |st.window.bits| case None => 0 <= delta
  {
  }

  /**
   srtp_unprotect: refused packets leave the session as it was; a tag mismatch does too; an
   accepted packet changes the one stream and uses the key once.
   */
  lemma UnprotectEffect(p: Policy, s: SessionState, pkt: seq<bv8>)
    requires Good(p, s) && |pkt| >= RTP_HEADER
    ensures LookupEstimate(s, SsrcOf(pkt), SeqOf(pkt)).guess < INDEX_MAX
    ensures var o := Unprotect(p, s, pkt);
            var ssrc := SsrcOf(pkt);
            var e := LookupEstimate(s, ssrc, SeqOf(pkt));
            var check := LookupCheck(p, s, ssrc, e.delta);
            var result := Open(p.rtp, p.rtpConf, p.rtpAuth, e.guess, pkt);
            && o.status == (if check != Ok then check else if result == BadTag then AuthFail
                            else if KeyUsedUp(s) then KeyExpired else if result == BadPayload then CipherFail else Ok)
            && (check != Ok || result == BadTag ==> o.session == s)
            && (o.status == Ok ==> result == Authentic(o.pkt))
            && (check == Ok && result != BadTag ==> o.session.limit == Update(s.limit).1)
            && (o.status != Ok ==> o.session.streams == s.streams)
  {
    hide Find, Open, SeqOf, RX.EstimateIndex, RX.CheckDelta, RX.AddDelta, Accept;
    EstimateFits(s, SsrcOf(pkt), SeqOf(pkt));
    var o := Unprotect(p, s, pkt);
    if o.status == Ok {
      UnprotectAccepted(p, s, pkt);
    }
  }

  lemma UnprotectAccepted(p: Policy, s: SessionState, pkt: seq<bv8>)
    requires Good(p, s) && |pkt| >= RTP_HEADER && Unprotect(p, s, pkt).status == Ok
    ensures var o := Unprotect(p, s, pkt);
            var ssrc := SsrcOf(pkt);
            var delta := LookupEstimate(s, ssrc, SeqOf(pkt)).delta;
            && (match Lookup(s, ssrc) case Some(st) => -delta < |st.window.bits| case None => 0 <= delta)
            && o.session.limit == Update(s.limit).1
            && (forall y :: Lookup(o.session, y)
                  == if y == ssrc then Some(ReceivedStream(p, s, ssrc, delta)) else Lookup(s, y))
  {
    hide Find, Open, RX.EstimateIndex, RX.AddDelta, Accept, SeqOf;
    var ssrc := SsrcOf(pkt);
    var delta := LookupEstimate(s, ssrc, SeqOf(pkt)).delta;
    var i := Find(s.streams, ssrc);
    var used := UseKey(s, if i < |s.streams| then s.streams[i].ssrc else p.templateSsrc);
    CheckedIsInWindow(p, s, ssrc, SeqOf(pkt));
    assert Lookup(used, ssrc) == Lookup(s, ssrc);
    AcceptEffect(p, used, ssrc, delta);
    assert Unprotect(p, s, pkt).session == Accept(p, used, i, ssrc, delta);
    assert forall y :: Lookup(used, y) == Lookup(s, y);
  }

  // ---- RTCP ----

  function RtcpSenderStream(p: Policy, s: SessionState, ssrc: Ssrc): (st: StreamState)
    requires Good(p, s)
    ensures GoodStream(p, st) && st.ssrc == ssrc
  {
    match Lookup(s, ssrc)
    case Some(st) => st
    case None => Clone(p, s.templateDirection, ssrc)
  }

  lemma ProtectRtcpOnEffect(p: Policy, s: SessionState, pkt: seq<bv8>)
    requires Good(p, s) && |pkt| >= RTCP_HEADER && Lookup(s, RtcpSsrcOf(pkt)).Some?
    ensures var o := ProtectRtcpOn(p, s, Find(s.streams, RtcpSsrcOf(pkt)), pkt);
            var st := Lookup(s, RtcpSsrcOf(pkt)).value;
            var (status, index) := RD.Increment(st.rtcpWindow.start);
            && o.status == (if status != Ok then status else if p.rtcpConf && !RtcpFits(pkt) then CipherFail else Ok)
            && (o.status == Ok ==> index <= E_BIT && o.pkt == SealRtcp(p.rtcp, p.rtcpConf, index, pkt))
            && (forall y :: Lookup(o.session, y)
                  == if y == RtcpSsrcOf(pkt)
                     then Some(st.(direction := Claimed(st.direction, DirSender),
                                   rtcpWindow := st.rtcpWindow.(start := index)))
                     else Lookup(s, y))
  {
    hide Find, SealRtcp, RtcpFits;
    var ssrc := RtcpSsrcOf(pkt);
    var i := Find(s.streams, ssrc);
    var st := s.streams[i];
    var st' := st.(direction := Claimed(st.direction, DirSender),
                   rtcpWindow := st.rtcpWindow.(start := RD.Increment(st.rtcpWindow.start).1));
    var o := ProtectRtcpOn(p, s, i, pkt);
    assert o.session.streams == Replace(s, i, st').streams;
    forall y ensures Lookup(o.session, y) == if y == ssrc then Some(st') else Lookup(s, y) {
      LookupReplace(s, ssrc, st', y);
    }
  }

  /** srtp_protect_rtcp counts the index up and seals under the new value. */
  lemma ProtectRtcpEffect(p: Policy, s: SessionState, pkt: seq<bv8>)
    requires Good(p, s) && |pkt| >= RTCP_HEADER
    ensures var o := ProtectRtcp(p, s, pkt);
            var st := RtcpSenderStream(p, s, RtcpSsrcOf(pkt));
            var (status, index) := RD.Increment(st.rtcpWindow.start);
            && o.status == (if status != Ok then status else if p.rtcpConf && !RtcpFits(pkt) then CipherFail else Ok)
            && (o.status == Ok ==> index <= E_BIT && o.pkt == SealRtcp(p.rtcp, p.rtcpConf, index, pkt))
            && (forall y :: Lookup(o.session, y)
                  == if y == RtcpSsrcOf(pkt)
                     then Some(st.(direction := Claimed(st.direction, DirSender),
                                   rtcpWindow := st.rtcpWindow.(start := index)))
                     else Lookup(s, y))
  {
    hide Find, SealRtcp, RtcpFits, ProtectRtcpOn;
    var ssrc := RtcpSsrcOf(pkt);
    if Lookup(s, ssrc).Some? {
      ProtectRtcpOnEffect(p, s, pkt);
    } else {
      var st := Clone(p, s.templateDirection, ssrc);
      var s' := Prepend(s, st);
      forall y ensures Lookup(s', y) == if y == ssrc then Some(st) else Lookup(s, y) {
        LookupPrepend(s, st, y);
      }
      LookupPrepend(s, st, ssrc);
      ProtectRtcpOnEffect(p, s', pkt);
    }
  }

  function LookupRtcpWindow(s: SessionState, ssrc: Ssrc): RD.Window {
    match Lookup(s, ssrc)
    case Some(st) => st.rtcpWindow
    case None => RD.EmptyWindow()
  }

  /** srtp_unprotect_rtcp: an accepted packet enters its index, anything else leaves the session alone. */
  lemma UnprotectRtcpEffect(p: Policy, s: SessionState, pkt: seq<bv8>)
    requires Good(p, s) && |pkt| >= RTCP_HEADER + TRAILER + p.rtcp.tagLen
    ensures var o := UnprotectRtcp(p, s, pkt);
            var ssrc := RtcpSsrcOf(pkt);
            var index := RtcpIndexOf(p.rtcp, pkt);
            var w := LookupRtcpWindow(s, ssrc);
            && RD.WellFormed(w)
            && o.status == (if RD.CheckIndex(w, index) != Ok then RD.CheckIndex(w, index)
                            else match OpenRtcp(p.rtcp, pkt) case BadTag => AuthFail case BadPayload => CipherFail
                                   case Authentic(_) => Ok)
            && (o.status != Ok ==> o.session == s)
            && (o.status == Ok ==>
                  && OpenRtcp(p.rtcp, pkt) == Authentic(o.pkt)
                  && index >= w.start
                  && Lookup(o.session, ssrc).Some?
                  && Lookup(o.session, ssrc).value.rtcpWindow == RD.AddIndex(w, index)
                  && (forall y :: y != ssrc ==> Lookup(o.session, y) == Lookup(s, y)))
  {
    hide Find, OpenRtcp, RtcpIndexOf, RD.AddIndex, AcceptRtcp;
    var o := UnprotectRtcp(p, s, pkt);
    var ssrc := RtcpSsrcOf(pkt);
    var index := RtcpIndexOf(p.rtcp, pkt);
    if o.status == Ok {
      AcceptRtcpEffect(p, s, ssrc, index);
    }
  }

  /** The RTP window of a stream is not affected by RTCP packets; a new stream starts with an empty one. */
  lemma UnprotectRtcpKeepsWindow(p: Policy, s: SessionState, pkt: seq<bv8>)
    requires Good(p, s) && |pkt| >= RTCP_HEADER + TRAILER + p.rtcp.tagLen
    requires UnprotectRtcp(p, s, pkt).status == Ok
    ensures var o := UnprotectRtcp(p, s, pkt);
            var ssrc := RtcpSsrcOf(pkt);
            && Lookup(o.session, ssrc).Some?
            && Lookup(o.session, ssrc).value.window
               == (match Lookup(s, ssrc) case Some(st) => st.window case None => RX.EmptyWindow(p.windowLen))
            && Lookup(o.session, ssrc).value.direction
               == Claimed(match Lookup(s, ssrc) case Some(st) => st.direction case None => s.templateDirection, DirReceiver)
  {
    hide Find, OpenRtcp, RtcpIndexOf, RD.AddIndex, AcceptRtcp;
    AcceptRtcpEffect(p, s, RtcpSsrcOf(pkt), RtcpIndexOf(p.rtcp, pkt));
  }

  lemma AcceptRtcpEffect(p: Policy, s: SessionState, ssrc: Ssrc, index: nat)
    requires Good(p, s) && LookupRtcpWindow(s, ssrc).start <= index < E_BIT
    ensures var s' := AcceptRtcp(p, s, Find(s.streams, ssrc), ssrc, index);
            && Lookup(s', ssrc).Some?
            && Lookup(s', ssrc).value.rtcpWindow == RD.AddIndex(LookupRtcpWindow(s, ssrc), index)
            && Lookup(s', ssrc).value.window
               == (match Lookup(s, ssrc) case Some(st) => st.window case None => RX.EmptyWindow(p.windowLen))
            && Lookup(s', ssrc).value.direction
               == Claimed(match Lookup(s, ssrc) case Some(st) => st.direction case None => s.templateDirection, DirReceiver)
            && (forall y :: y != ssrc ==> Lookup(s', y) == Lookup(s, y))
  {
    hide Find, RD.AddIndex;
    var i := Find(s.streams, ssrc);
    var s' := AcceptRtcp(p, s, i, ssrc, index);
    var w := RD.AddIndex(LookupRtcpWindow(s, ssrc), index);
    if i < |s.streams| {
      var st := s.streams[i].(direction := Claimed(s.streams[i].direction, DirReceiver), rtcpWindow := w);
      assert s'.streams == Replace(s, i, st).streams;
      forall y ensures Lookup(s', y) == if y == ssrc then Some(st) else Lookup(s, y) {
        LookupReplace(s, ssrc, st, y);
      }
    } else {
      var st := Clone(p, Claimed(s.templateDirection, DirReceiver), ssrc).(rtcpWindow := w);
      assert s'.streams == Prepend(s, st).streams;
      forall y ensures Lookup(s', y) == if y == ssrc then Some(st) else Lookup(s, y) {
        LookupPrepend(s, st, y);
      }
    }
  }

  // ---- the stream list over runs ----

  /** No two streams of the session have the same SSRC. */
  ghost predicate UniqueSsrcs(s: SessionState) {
    forall i, j :: 0 <= i < j < |s.streams| ==> s.streams[i].ssrc != s.streams[j].ssrc
  }

  /** Either the list is as long as before with every SSRC in its place, or one new stream leads it. */
  ghost predicate ListStep(before: seq<StreamState>, after: seq<StreamState>, ssrc: Ssrc) {
    || (|after| == |before| && forall k :: 0 <= k < |before| ==> after[k].ssrc == before[k].ssrc)
    || (|after| == |before| + 1 && Find(before, ssrc) == |before| && after[0].ssrc == ssrc
        && forall k :: 0 <= k < |before| ==> after[k + 1].ssrc == before[k].ssrc)
  }

  /** Too short for an RTP header: refused before any stream is looked up. */
  predicate IsShort(c: Call) {
    (c.CallProtect? || c.CallUnprotect?) && |c.pkt| < RTP_HEADER
  }

  function CallSsrc(p: Policy, c: Call): Ssrc
    requires Callable(p, c) && !IsShort(c)
  {
    match c
    case CallProtect(pkt) => SsrcOf(pkt)
    case CallUnprotect(pkt) => SsrcOf(pkt)
    case CallProtectRtcp(pkt) => RtcpSsrcOf(pkt)
    case CallUnprotectRtcp(pkt) => RtcpSsrcOf(pkt)
  }

  lemma ProtectList(p: Policy, s: SessionState, pkt: seq<bv8>)
    requires Good(p, s) && |pkt| >= RTP_HEADER
    ensures ListStep(s.streams, Protect(p, s, pkt).session.streams, SsrcOf(pkt))
  {
    hide Find, Seal, PayloadFits, SeqOf, RX.EstimateIndex, RX.AddDelta, RX.CheckDelta;
    if Find(s.streams, SsrcOf(pkt)) == |s.streams| {
      assert Prepend(s, Clone(p, DirSender, SsrcOf(pkt))).streams[1..] == s.streams;
    }
  }

  lemma UnprotectList(p: Policy, s: SessionState, pkt: seq<bv8>)
    requires Good(p, s) && |pkt| >= RTP_HEADER
    ensures ListStep(s.streams, Unprotect(p, s, pkt).session.streams, SsrcOf(pkt))
  {
    hide Find, Open, SeqOf, RX.EstimateIndex, RX.AddDelta, RX.CheckDelta, Accept, ListStep;
    var i := Find(s.streams, SsrcOf(pkt));
    var o := Unprotect(p, s, pkt);
    if o.status == Ok {
      var used := UseKey(s, if i < |s.streams| then s.streams[i].ssrc else p.templateSsrc);
      CheckedIsInWindow(p, s, SsrcOf(pkt), SeqOf(pkt));
      AcceptList(p, used, SsrcOf(pkt), ReceiverEstimate(s, i, SeqOf(pkt)).delta);
    } else {
      assert o.session.streams == s.streams;
      SameList(s.streams, SsrcOf(pkt));
    }
  }

  lemma SameList(streams: seq<StreamState>, ssrc: Ssrc)
    ensures ListStep(streams, streams, ssrc)
  {
  }

  lemma AcceptList(p: Policy, s: SessionState, ssrc: Ssrc, delta: int)
    requires Good(p, s)
    requires match Lookup(s, ssrc) case Some(st) => -delta < |st.window.bits| case None => 0 <= delta
    ensures ListStep(s.streams, Accept(p, s, Find(s.streams, ssrc), ssrc, delta).streams, ssrc)
  {
    hide Find, RX.AddDelta;
  }

  lemma ProtectRtcpList(p: Policy, s: SessionState, pkt: seq<bv8>)
    requires Good(p, s) && |pkt| >= RTCP_HEADER
    ensures ListStep(s.streams, ProtectRtcp(p, s, pkt).session.streams, RtcpSsrcOf(pkt))
  {
    hide Find, SealRtcp;
    if Find(s.streams, RtcpSsrcOf(pkt)) == |s.streams| {
      assert Prepend(s, Clone(p, s.templateDirection, RtcpSsrcOf(pkt))).streams[1..] == s.streams;
    }
  }

  lemma UnprotectRtcpList(p: Policy, s: SessionState, pkt: seq<bv8>)
    requires Good(p, s) && |pkt| >= RTCP_HEADER + TRAILER + p.rtcp.tagLen
    ensures ListStep(s.streams, UnprotectRtcp(p, s, pkt).session.streams, RtcpSsrcOf(pkt))
  {
    hide Find, OpenRtcp, RtcpIndexOf, RD.AddIndex, AcceptRtcp;
    var o := UnprotectRtcp(p, s, pkt);
    if o.status == Ok {
      AcceptRtcpList(p, s, RtcpSsrcOf(pkt), RtcpIndexOf(p.rtcp, pkt));
    }
  }

  lemma AcceptRtcpList(p: Policy, s: SessionState, ssrc: Ssrc, index: nat)
    requires Good(p, s)
    requires RtcpWindowOf(s, Find(s.streams, ssrc)).start <= index < E_BIT
    ensures ListStep(s.streams, AcceptRtcp(p, s, Find(s.streams, ssrc), ssrc, index).streams, ssrc)
  {
    hide Find, RD.AddIndex;
  }

  lemma StepList(p: Policy, s: SessionState, c: Call)
    requires Good(p, s) && Callable(p, c)
    requires !IsShort(c)
    ensures ListStep(s.streams, Step(p, s, c).session.streams, CallSsrc(p, c))
  {
    hide ListStep, Protect, Unprotect, ProtectRtcp, UnprotectRtcp;
    match c
    case CallProtect(pkt) => ProtectList(p, s, pkt);
    case CallUnprotect(pkt) => UnprotectList(p, s, pkt);
    case CallProtectRtcp(pkt) => ProtectRtcpList(p, s, pkt);
    case CallUnprotectRtcp(pkt) => UnprotectRtcpList(p, s, pkt);
  }

  lemma ListStepKeepsUnique(s: SessionState, s': SessionState, ssrc: Ssrc)
    requires UniqueSsrcs(s) && ListStep(s.streams, s'.streams, ssrc)
    ensures UniqueSsrcs(s') && |s'.streams| >= |s.streams|
  {
    hide Find;
    if |s'.streams| == |s.streams| + 1 {
      forall i, j | 0 <= i < j < |s'.streams|
        ensures s'.streams[i].ssrc != s'.streams[j].ssrc
      {
        assert s'.streams[j].ssrc == s.streams[j - 1].ssrc;
        if i > 0 {
          assert s'.streams[i].ssrc == s.streams[i - 1].ssrc;
        }
      }
    }
  }

  function Run(p: Policy, s: SessionState, calls: seq<Call>): (s': SessionState)
    requires Good(p, s) && forall i :: 0 <= i < |calls| ==> Callable(p, calls[i])
    ensures Good(p, s')
    decreases |calls|
  {
    if calls == [] then s else Run(p, Step(p, s, calls[0]).session, calls[1..])
  }

  /** Over any run of the four calls no SSRC ever gets a second stream, and no stream is lost. */
  lemma {:induction false} RunKeepsUniqueSsrcs(p: Policy, s: SessionState, calls: seq<Call>)
    requires Good(p, s) && UniqueSsrcs(s)
    requires forall i :: 0 <= i < |calls| ==> Callable(p, calls[i])
    ensures UniqueSsrcs(Run(p, s, calls)) && |Run(p, s, calls).streams| >= |s.streams|
    decreases |calls|
  {
    hide Step, ListStep, CallSsrc;
    if calls != [] {
      var c := calls[0];
      var s' := Step(p, s, c).session;
      if IsShort(c) {
        ShortPacket(p, s, c);
      } else {
        StepList(p, s, c);
        ListStepKeepsUnique(s, s', CallSsrc(p, c));
      }
      RunKeepsUniqueSsrcs(p, s', calls[1..]);
    }
  }

  lemma ShortPacket(p: Policy, s: SessionState, c: Call)
    requires Good(p, s) && Callable(p, c)
    requires IsShort(c)
    ensures Step(p, s, c) == Outcome(BadParam, s, c.pkt)
  {
  }
}
