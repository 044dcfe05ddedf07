/**
 The calls of the SRTP data path as functions on session values: one session made from one
 wildcard policy, its streams cloned from the template as new SSRCs appear.
 */
module SrtpSteps {
  import opened Status
  import opened Bytes
  import opened KeyLimits
  import opened Packets
  import RX = ReplayExtended
  import RD = ReplayDatabase

  datatype Direction = DirUnknown | DirSender | DirReceiver
  datatype EventKind = SsrcCollision | KeySoftLimit | KeyHardLimit
  datatype Event = Event(ssrc: Ssrc, kind: EventKind)

  /** What the policy fixes for all streams of the session. */
  datatype Policy = Policy(
    rtp: Crypto, rtpConf: bool, rtpAuth: bool,
    rtcp: Crypto, rtcpConf: bool,
    allowRepeat: bool, windowLen: nat, templateSsrc: Ssrc)

  datatype StreamState = StreamState(ssrc: Ssrc, direction: Direction, window: RX.Window, rtcpWindow: RD.Window)

  /** The stream list, newest first; the key limit that all streams share; the events reported so far. */
  datatype SessionState = SessionState(
    templateDirection: Direction, streams: seq<StreamState>, limit: Limit, events: seq<Event>)

  datatype Outcome = Outcome(status: Status, session: SessionState, pkt: seq<bv8>)

  predicate GoodPolicy(p: Policy) {
    WellKeyed(p.rtp) && WellKeyed(p.rtcp) && 0 < p.windowLen <= 0x8000_0000
  }

  predicate GoodStream(p: Policy, st: StreamState) {
    RX.WellFormed(st.window) && |st.window.bits| == p.windowLen && RD.WellFormed(st.rtcpWindow)
  }

  ghost predicate Good(p: Policy, s: SessionState) {
    GoodPolicy(p) && forall i :: 0 <= i < |s.streams| ==> GoodStream(p, s.streams[i])
  }

  // ---- streams ----

  /** srtp_get_stream: the position of the first stream with this SSRC, or the length of the list. */
  function Find(streams: seq<StreamState>, ssrc: Ssrc): (i: nat)
    ensures i <= |streams|
    ensures i < |streams| ==> streams[i].ssrc == ssrc
    ensures forall k :: 0 <= k < i ==> streams[k].ssrc != ssrc
  {
    if streams == [] then 0
    else if streams[0].ssrc == ssrc then 0
    else
      var j := Find(streams[1..], ssrc);
      assert forall k :: 1 <= k < j + 1 ==> streams[k] == streams[1..][k - 1];
      j + 1
  }

  /** srtp_stream_clone */
  function Clone(p: Policy, direction: Direction, ssrc: Ssrc): (st: StreamState)
    requires GoodPolicy(p)
    ensures GoodStream(p, st)
  {
    StreamState(ssrc, direction, RX.EmptyWindow(p.windowLen), RD.EmptyWindow())
  }

  function Prepend(s: SessionState, st: StreamState): SessionState {
    s.(streams := [st] + s.streams)
  }

  function Replace(s: SessionState, i: nat, st: StreamState): SessionState
    requires i < |s.streams|
  {
    s.(streams := s.streams[i := st])
  }

  /** The direction after a call that needs `want`, and whether it collides with the one already taken. */
  function Claimed(direction: Direction, want: Direction): Direction {
    if direction == DirUnknown then want else direction
  }

  function CollisionEvents(direction: Direction, want: Direction, ssrc: Ssrc): seq<Event> {
    if direction != want && direction != DirUnknown then [Event(ssrc, SsrcCollision)] else []
  }

  function LimitEvents(e: KeyEvent, ssrc: Ssrc): seq<Event> {
    match e
    case EventNormal => []
    case EventSoftLimit => [Event(ssrc, KeySoftLimit)]
    case EventHardLimit => [Event(ssrc, KeyHardLimit)]
  }

  function Report(s: SessionState, events: seq<Event>): SessionState {
    s.(events := s.events + events)
  }

  /** One use of the key: the shared limit and its event. */
  function UseKey(s: SessionState, ssrc: Ssrc): SessionState {
    var (event, limit) := Update(s.limit);
    Report(s.(limit := limit), LimitEvents(event, ssrc))
  }

  predicate KeyUsedUp(s: SessionState) {
    Update(s.limit).0 == EventHardLimit
  }

  // ---- RTP ----

  /** srtp_protect */
  function Protect(p: Policy, s: SessionState, pkt: seq<bv8>): (o: Outcome)
    requires Good(p, s)
    ensures Good(p, o.session)
  {
    if |pkt| < RTP_HEADER then Outcome(BadParam, s, pkt)
    else
      var i := Find(s.streams, SsrcOf(pkt));
      if i < |s.streams| then ProtectOn(p, s, i, pkt)
      else ProtectOn(p, Prepend(s, Clone(p, DirSender, SsrcOf(pkt))), 0, pkt)
  }

  /** The rest of srtp_protect, once the stream is known. */
  function ProtectOn(p: Policy, s: SessionState, i: nat, pkt: seq<bv8>): (o: Outcome)
    requires Good(p, s) && i < |s.streams| && |pkt| >= RTP_HEADER
    ensures Good(p, o.session)
  {
    var st := s.streams[i];
    var claimed := Report(Replace(s, i, st.(direction := Claimed(st.direction, DirSender))),
                          CollisionEvents(st.direction, DirSender, st.ssrc));
    var used := UseKey(claimed, st.ssrc);
    if KeyUsedUp(s) then Outcome(KeyExpired, used, pkt)
    else
      var e := RX.EstimateIndex(st.window.index, SeqOf(pkt));
      var check := RX.CheckDelta(st.window, e.delta);
      if check != Ok && (check != ReplayFail || !p.allowRepeat) then Outcome(check, used, pkt)
      else
        RX.GuessIs48Bit(st.window.index, SeqOf(pkt));
        var window := if check == Ok then RX.AddDelta(st.window, e.delta) else st.window;
        var added := Replace(used, i, used.streams[i].(window := window));
        if p.rtpConf && !PayloadFits(pkt) then Outcome(CipherFail, added, pkt)
        else Outcome(Ok, added, Seal(p.rtp, p.rtpConf, p.rtpAuth, e.guess, pkt))
  }

  /** The estimate srtp_unprotect starts from; for an unknown SSRC index and difference are the sequence number. */
  function ReceiverEstimate(s: SessionState, i: nat, seqNum: RX.SeqNum): RX.Estimate
    requires i <= |s.streams|
  {
    if i < |s.streams| then RX.EstimateIndex(s.streams[i].window.index, seqNum) else RX.Estimate(seqNum, seqNum)
  }

  /** srtp_unprotect */
  function Unprotect(p: Policy, s: SessionState, pkt: seq<bv8>): (o: Outcome)
    requires Good(p, s)
    ensures Good(p, o.session)
  {
    if |pkt| < RTP_HEADER then Outcome(BadParam, s, pkt)
    else
      var i := Find(s.streams, SsrcOf(pkt));
      var e := ReceiverEstimate(s, i, SeqOf(pkt));
      var check := if i < |s.streams| then RX.CheckDelta(s.streams[i].window, e.delta) else Ok;
      if check != Ok then Outcome(check, s, pkt)
      else
        assert e.guess < INDEX_MAX by {
          if i < |s.streams| { RX.GuessIs48Bit(s.streams[i].window.index, SeqOf(pkt)); }
        }
        var result := Open(p.rtp, p.rtpConf, p.rtpAuth, e.guess, pkt);
        if result == BadTag then Outcome(AuthFail, s, pkt)
        else
          var used := UseKey(s, if i < |s.streams| then s.streams[i].ssrc else p.templateSsrc);
          if KeyUsedUp(s) then Outcome(KeyExpired, used, pkt)
          else if result == BadPayload then Outcome(CipherFail, used, pkt)
          else Outcome(Ok, Accept(p, used, i, SsrcOf(pkt), e.delta), result.pkt)
  }

  /** Direction check, cloning of a provisional stream, and the entry in the replay database. */
  function Accept(p: Policy, s: SessionState, i: nat, ssrc: Ssrc, delta: int): (s': SessionState)
    ensures Good(p, s')
    requires Good(p, s) && i <= |s.streams|
    requires if i < |s.streams| then -delta < |s.streams[i].window.bits| else 0 <= delta
  {
    if i < |s.streams| then
      var st := s.streams[i];
      Report(Replace(s, i, st.(direction := Claimed(st.direction, DirReceiver), window := RX.AddDelta(st.window, delta))),
             CollisionEvents(st.direction, DirReceiver, st.ssrc))
    else
      var direction := Claimed(s.templateDirection, DirReceiver);
      var st := Clone(p, direction, ssrc);
      Report(Prepend(s.(templateDirection := direction), st.(window := RX.AddDelta(st.window, delta))),
             CollisionEvents(s.templateDirection, DirReceiver, p.templateSsrc))
  }

  // ---- RTCP ----

  /** srtp_protect_rtcp, for a packet that holds at least its header */
  function ProtectRtcp(p: Policy, s: SessionState, pkt: seq<bv8>): (o: Outcome)
    requires Good(p, s) && |pkt| >= RTCP_HEADER
    ensures Good(p, o.session)
  {
    var i := Find(s.streams, RtcpSsrcOf(pkt));
    if i < |s.streams| then ProtectRtcpOn(p, s, i, pkt)
    else ProtectRtcpOn(p, Prepend(s, Clone(p, s.templateDirection, RtcpSsrcOf(pkt))), 0, pkt)
  }

  function ProtectRtcpOn(p: Policy, s: SessionState, i: nat, pkt: seq<bv8>): (o: Outcome)
    requires Good(p, s) && i < |s.streams| && |pkt| >= RTCP_HEADER
    ensures Good(p, o.session)
  {
    var st := s.streams[i];
    var (status, index) := RD.Increment(st.rtcpWindow.start);
    var counted := Report(Replace(s, i, st.(direction := Claimed(st.direction, DirSender),
                                            rtcpWindow := st.rtcpWindow.(start := index))),
                          CollisionEvents(st.direction, DirSender, st.ssrc));
    if status != Ok then Outcome(status, counted, pkt)
    else if p.rtcpConf && !RtcpFits(pkt) then Outcome(CipherFail, counted, pkt)
    else Outcome(Ok, counted, SealRtcp(p.rtcp, p.rtcpConf, index, pkt))
  }

  /** The window an RTCP packet is checked against; the template's own is never added to. */
  function RtcpWindowOf(s: SessionState, i: nat): RD.Window
    requires i <= |s.streams|
  {
    if i < |s.streams| then s.streams[i].rtcpWindow else RD.EmptyWindow()
  }

  /** srtp_unprotect_rtcp, for a packet that holds at least header, trailer and tag */
  function UnprotectRtcp(p: Policy, s: SessionState, pkt: seq<bv8>): (o: Outcome)
    requires Good(p, s) && |pkt| >= RTCP_HEADER + TRAILER + p.rtcp.tagLen
    ensures Good(p, o.session)
  {
    var i := Find(s.streams, RtcpSsrcOf(pkt));
    var index := RtcpIndexOf(p.rtcp, pkt);
    var check := RD.CheckIndex(RtcpWindowOf(s, i), index);
    if check != Ok then Outcome(check, s, pkt)
    else
      match OpenRtcp(p.rtcp, pkt)
      case BadTag => Outcome(AuthFail, s, pkt)
      case BadPayload => Outcome(CipherFail, s, pkt)
      case Authentic(plain) => Outcome(Ok, AcceptRtcp(p, s, i, RtcpSsrcOf(pkt), index), plain)
  }

  function AcceptRtcp(p: Policy, s: SessionState, i: nat, ssrc: Ssrc, index: nat): (s': SessionState)
    ensures Good(p, s')
    requires Good(p, s) && i <= |s.streams|
    requires RtcpWindowOf(s, i).start <= index < E_BIT
  {
    var window := RD.AddIndex(RtcpWindowOf(s, i), index);
    if i < |s.streams| then
      var st := s.streams[i];
      Report(Replace(s, i, st.(direction := Claimed(st.direction, DirReceiver), rtcpWindow := window)),
             CollisionEvents(st.direction, DirReceiver, st.ssrc))
    else
      var direction := Claimed(s.templateDirection, DirReceiver);
      Report(Prepend(s.(templateDirection := direction), Clone(p, direction, ssrc).(rtcpWindow := window)),
             CollisionEvents(s.templateDirection, DirReceiver, p.templateSsrc))
  }

  // ---- runs of calls ----

  datatype Call =
    | CallProtect(pkt: seq<bv8>)
    | CallUnprotect(pkt: seq<bv8>)
    | CallProtectRtcp(pkt: seq<bv8>)
    | CallUnprotectRtcp(pkt: seq<bv8>)

  /** The RTCP calls demand that the packet holds the fields they read. */
  predicate Callable(p: Policy, c: Call) {
    match c
    case CallProtectRtcp(pkt) => |pkt| >= RTCP_HEADER
    case CallUnprotectRtcp(pkt) => |pkt| >= RTCP_HEADER + TRAILER + p.rtcp.tagLen
    case _ => true
  }

  function Step(p: Policy, s: SessionState, c: Call): (o: Outcome)
    requires Good(p, s) && Callable(p, c)
    ensures Good(p, o.session)
  {
    match c
    case CallProtect(pkt) => Protect(p, s, pkt)
    case CallUnprotect(pkt) => Unprotect(p, s, pkt)
    case CallProtectRtcp(pkt) => ProtectRtcp(p, s, pkt)
    case CallUnprotectRtcp(pkt) => UnprotectRtcp(p, s, pkt)
  }
}
