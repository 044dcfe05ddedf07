/**
 The session and its streams as the library keeps them: objects updated in place, ciphers and
 authenticators shared by pointer, the stream list linked by `next`.  Every call is proved to
 do what the function of the same name in `SrtpSteps` says.
 */
module SrtpSession {
  import opened Status
  import opened Bytes
  import opened CounterMode
  import opened HmacSha1
  import opened KeyLimits
  import opened Packets
  import opened PacketBuffers
  import opened SrtpSteps
  import opened SrtpStreams
  import SrtpEvents
  import SrtpRuns
  import RX = ReplayExtended
  import RD = ReplayDatabase

  // ---- the crypto kernel ----

  /** The use counts of cipher and auth types, and which allocations are live. */
  class Kernel {
    var icmRefs: int
    var hmacRefs: int
    ghost var live: set<object>

    constructor ()
      ensures icmRefs == 0 && hmacRefs == 0 && live == {}
    {
      icmRefs, hmacRefs, live := 0, 0, {};
    }

    /** crypto_alloc, as far as the bookkeeping goes, of one or more blocks of memory. */
    ghost method Alloc(blocks: set<object>)
      requires blocks !! live
      modifies this`live
      ensures live == old(live) + blocks
    {
      live := live + blocks;
    }

    /** crypto_free: only a live object may be freed. */
    ghost method Free(o: object)
      requires o in live
      modifies this`live
      ensures live == old(live) - {o}
    {
      live := live - {o};
    }

    method AllocIcm(enc: Block -> Block, salt: seq<bv8>) returns (c: Icm)
      requires |salt| == 14
      modifies this`live, this`icmRefs
      ensures fresh(c) && c.Valid() && c.enc == enc && c.offset == salt + [0, 0]
      ensures live == old(live) + {c} && icmRefs == old(icmRefs) + 1
    {
      c := new Icm(enc, salt);
      Alloc({c});
      icmRefs := icmRefs + 1;
    }

    method FreeIcm(c: Icm)
      requires c in live
      modifies this`live, this`icmRefs
      ensures live == old(live) - {c} && icmRefs == old(icmRefs) - 1
    {
      Free(c);
      icmRefs := icmRefs - 1;
    }

    /** hmac_alloc: keys and tags longer than a digest are refused, and nothing is allocated. */
    method AllocHmac(keyLen: nat, outLen: nat) returns (status: Status, a: HmacContext?)
      modifies this`live, this`hmacRefs
      ensures status == if keyLen > KEY_MAX || outLen > HmacSha1.TAG_MAX then BadParam else Ok
      ensures status == Ok ==> a != null && a.Apart() && fresh(a.Footprint())
      ensures status == Ok ==> live == old(live) + {a} && hmacRefs == old(hmacRefs) + 1
      ensures status != Ok ==> a == null && live == old(live) && hmacRefs == old(hmacRefs)
    {
      if keyLen > KEY_MAX {
        return BadParam, null;
      }
      if outLen > HmacSha1.TAG_MAX {
        return BadParam, null;
      }
      status := Ok;
      a := new HmacContext();
      Alloc({a});
      hmacRefs := hmacRefs + 1;
    }

    method FreeHmac(a: HmacContext)
      requires a in live
      modifies this`live, this`hmacRefs
      ensures live == old(live) - {a} && hmacRefs == old(hmacRefs) - 1
    {
      Free(a);
      hmacRefs := hmacRefs - 1;
    }
  }

  // ---- streams ----

  /** Tag lengths and security services, copied from the template into every stream. */
  datatype Services = Services(
    rtpConf: bool, rtpAuth: bool, rtcpConf: bool, rtpTagLen: nat, rtcpTagLen: nat, allowRepeat: bool)

  class Stream {
    const ssrc: Ssrc
    const rtpCipher: Icm
    const rtpAuth: HmacContext
    const rtcpCipher: Icm
    const rtcpAuth: HmacContext
    const limit: KeyLimit
    const services: Services
    const rdbx: RX.Rdbx
    const rdb: RD.Rdb
    var direction: Direction
    var next: Stream?

    /** What belongs to this stream alone. */
    ghost function Own(): set<object> {
      {this, rdbx, rdbx.bitmask.word, rdb, rdb.bitmask.word}
    }

    /** The blocks of memory behind it: the record itself and the words of its replay window. */
    ghost function Memory(): set<object> {
      {this, rdbx.bitmask.word}
    }

    /** What all streams of a session share with the template. */
    ghost function Shared(): set<object> {
      Crypts() + {limit}
    }

    ghost function Crypts(): set<object> {
      {rtpCipher, rtcpCipher} + rtpAuth.Footprint() + rtcpAuth.Footprint()
    }

    ghost predicate Valid()
      reads Own()
    {
      rdbx.Valid() && rdb.Valid() && rdbx.bitmask.word != rdb.bitmask.word
    }

    ghost function View(): (v: StreamState)
      reads Own()
      ensures v.ssrc == ssrc
    {
      StreamState(ssrc, direction, rdbx.Contents(), rdb.Contents())
    }

    /** Ciphers, authenticators and services are those of policy `p`. */
    ghost predicate Keyed(p: Policy)
      reads Shared()
    {
      CryptsKeyed(p) && limit.Valid()
    }

    ghost predicate CryptsKeyed(p: Policy)
      reads Crypts()
    {
      RtpKeyed(p) && RtcpKeyed(p)
    }

    ghost predicate RtpKeyed(p: Policy)
      reads rtpCipher, rtpAuth.Footprint()
    {
      rtpCipher.Valid() && CipherFor(rtpCipher, p.rtp) && AuthFor(rtpAuth, p.rtp)
    }

    ghost predicate RtcpKeyed(p: Policy)
      reads rtcpCipher, rtcpAuth.Footprint()
    {
      rtcpCipher.Valid() && CipherFor(rtcpCipher, p.rtcp) && AuthFor(rtcpAuth, p.rtcp)
    }

    ghost predicate Serves(p: Policy) {
      services == Services(p.rtpConf, p.rtpAuth, p.rtcpConf, p.rtp.tagLen, p.rtcp.tagLen, p.allowRepeat)
    }

    /** The pointers of this stream lead to different objects. */
    ghost predicate Apart() {
      && rtpCipher != rtcpCipher
      && rtpAuth.Footprint() !! rtcpAuth.Footprint()
      && Own() !! Crypts() && limit !in Own() + Crypts()
    }

    ghost predicate SharesWith(template: Stream) {
      && rtpCipher == template.rtpCipher && rtpAuth == template.rtpAuth
      && rtcpCipher == template.rtcpCipher && rtcpAuth == template.rtcpAuth
      && limit == template.limit && services == template.services
    }

    ghost predicate ApartFrom(template: Stream) {
      Own() !! template.Own() && Own() !! template.Shared()
    }

    /** The first stream of a session, made from its policy. */
    constructor (ssrc: Ssrc, rtpCipher: Icm, rtpAuth: HmacContext, rtcpCipher: Icm, rtcpAuth: HmacContext,
                 limit: KeyLimit, services: Services, windowSize: nat)
      requires 0 < windowSize <= 0x7fff_ffff
      ensures Valid() && fresh(Own()) && next == null
      ensures this.rtpCipher == rtpCipher && this.rtpAuth == rtpAuth && this.limit == limit
      ensures this.rtcpCipher == rtcpCipher && this.rtcpAuth == rtcpAuth && this.services == services
      ensures View() == StreamState(ssrc, DirUnknown, RX.EmptyWindow((windowSize + 31) / 32 * 32), RD.EmptyWindow())
    {
      this.ssrc := ssrc;
      this.rtpCipher, this.rtpAuth := rtpCipher, rtpAuth;
      this.rtcpCipher, this.rtcpAuth := rtcpCipher, rtcpAuth;
      this.limit, this.services := limit, services;
      this.direction := DirUnknown;
      this.next := null;
      this.rdbx := new RX.Rdbx(windowSize);
      this.rdb := new RD.Rdb();
    }

    /** srtp_stream_clone: pointers copied, replay databases new, the window as long as the template's. */
    constructor Clone(template: Stream, ssrc: Ssrc)
      requires 0 < template.rdbx.bitmask.Len() <= 0x7fff_ffff
      ensures Valid() && fresh(Own()) && next == null
      ensures rtpCipher == template.rtpCipher && rtpAuth == template.rtpAuth && limit == template.limit
      ensures rtcpCipher == template.rtcpCipher && rtcpAuth == template.rtcpAuth && services == template.services
      ensures View() == StreamState(ssrc, template.direction, RX.EmptyWindow(template.rdbx.bitmask.Len()), RD.EmptyWindow())
    {
      this.ssrc := ssrc;
      this.rtpCipher, this.rtpAuth := template.rtpCipher, template.rtpAuth;
      this.rtcpCipher, this.rtcpAuth := template.rtcpCipher, template.rtcpAuth;
      this.limit, this.services := template.limit, template.services;
      this.direction := template.direction;
      this.next := null;
      this.rdbx := new RX.Rdbx(template.rdbx.bitmask.word.Length * 32);
      this.rdb := new RD.Rdb();
    }
  }

  // ---- lists of streams ----

  /** The stream after position `i - 1` of a chain. */
  ghost function At(list: seq<Stream>, i: nat): Stream? {
    if i < |list| then list[i] else null
  }

  /** Everything that belongs to the streams of a list. */
  ghost function OwnOf(list: seq<Stream>): set<object> {
    set st: Stream, o: object | st in list && o in st.Own() :: o
  }

  /** What srtp_stream_alloc and rdbx_init take from the heap for one stream. */
  ghost function OwnedBy(list: seq<Stream>): set<object> {
    set st: Stream, o: object | st in list && o in st.Memory() :: o
  }

  lemma OwnIn(list: seq<Stream>, i: nat)
    requires i < |list|
    ensures list[i] in list[i].Own()
    ensures list[i].Own() <= OwnOf(list) && list[i].Memory() <= OwnedBy(list)
  {
    assert list[i] in list;
  }

  lemma ListIn(list: seq<Stream>)
    ensures forall st :: st in list ==> st in OwnOf(list)
  {
    forall st: Stream | st in list
      ensures st in OwnOf(list)
    {
      assert st in st.Own();
    }
  }

  lemma OwnCons(st: Stream, list: seq<Stream>)
    ensures OwnOf([st] + list) == st.Own() + OwnOf(list)
    ensures OwnedBy([st] + list) == st.Memory() + OwnedBy(list)
  {
    assert forall x :: x in [st] + list <==> x == st || x in list;
  }

  /** The list hangs on `head`, linked by `next`. */
  ghost predicate Linked(head: Stream?, list: seq<Stream>)
    reads list
  {
    head == At(list, 0) && forall i :: 0 <= i < |list| ==> list[i].next == At(list, i + 1)
  }

  lemma LinkedCons(st: Stream, list: seq<Stream>)
    requires Linked(st.next, list)
    ensures Linked(st, [st] + list)
  {
  }

  /** Every stream shares the template's pointers, and no two have anything else in common. */
  ghost predicate Separate(template: Stream, list: seq<Stream>) {
    && (forall i :: 0 <= i < |list| ==> list[i].SharesWith(template) && list[i].ApartFrom(template))
    && (forall i, j :: 0 <= i < j < |list| ==> list[i].Own() !! list[j].Own())
  }

  lemma SeparateCons(template: Stream, st: Stream, list: seq<Stream>)
    requires Separate(template, list) && st.SharesWith(template) && st.ApartFrom(template) && st.Own() !! OwnOf(list)
    ensures Separate(template, [st] + list)
  {
    hide Stream.Own, Stream.SharesWith, Stream.ApartFrom, OwnOf;
    forall i | 0 <= i < |list|
      ensures st.Own() !! list[i].Own()
    {
      OwnIn(list, i);
    }
  }

  ghost predicate AllValid(list: seq<Stream>, windowLen: nat)
    reads OwnOf(list)
  {
    forall i :: 0 <= i < |list| ==> ValidAt(list, i, windowLen)
  }

  ghost predicate ValidAt(list: seq<Stream>, i: nat, windowLen: nat)
    requires i < |list|
    reads OwnOf(list)
  {
    OwnIn(list, i);
    list[i].Valid() && list[i].rdbx.bitmask.Len() == windowLen
  }

  lemma AllValidCons(st: Stream, list: seq<Stream>, windowLen: nat)
    requires AllValid(list, windowLen) && st.Valid() && st.rdbx.bitmask.Len() == windowLen
    ensures AllValid([st] + list, windowLen)
  {
    hide Stream.Own, Stream.Valid, OwnOf;
    forall j | 0 <= j < |[st] + list|
      ensures ValidAt([st] + list, j, windowLen)
    {
      if j > 0 {
        assert ValidAt(list, j - 1, windowLen);
      }
    }
  }

  ghost function ViewAt(list: seq<Stream>, i: nat): StreamState
    requires i < |list|
    reads OwnOf(list)
  {
    OwnIn(list, i);
    list[i].View()
  }

  ghost function Views(list: seq<Stream>): (vs: seq<StreamState>)
    reads OwnOf(list)
    ensures |vs| == |list|
    ensures forall i :: 0 <= i < |list| ==> vs[i] == ViewAt(list, i)
  {
    seq(|list|, i requires 0 <= i < |list| reads OwnOf(list) => ViewAt(list, i))
  }

  lemma ViewsCons(st: Stream, list: seq<Stream>)
    ensures Views([st] + list) == [st.View()] + Views(list)
  {
    hide Stream.Own, OwnOf, Views;
    forall i | 0 <= i < |list|
      ensures Views([st] + list)[i + 1] == Views(list)[i]
    {
      assert ViewAt([st] + list, i + 1) == ViewAt(list, i);
    }
    assert ViewAt([st] + list, 0) == st.View();
  }

  // ---- the session ----

  /** The policy as the caller of srtp_create gives it. */
  datatype Config = Config(
    rtp: Crypto, rtpConf: bool, rtpAuth: bool, rtcp: Crypto, rtcpConf: bool,
    inbound: bool, windowSize: nat, allowRepeat: nat, ssrc: Ssrc)

  predicate Acceptable(c: Config) {
    (c.windowSize == 0 || 64 <= c.windowSize < 0x8000) && c.allowRepeat <= 1
  }

  function WindowOf(c: Config): nat {
    if c.windowSize == 0 then 128 else c.windowSize
  }

  /** The policy in force: the replay window is rounded up to whole words. */
  function PolicyOf(c: Config): Policy {
    Policy(c.rtp, c.rtpConf, c.rtpAuth, c.rtcp, c.rtcpConf, c.allowRepeat == 1, (WindowOf(c) + 31) / 32 * 32, c.ssrc)
  }

  function NewSession(c: Config): SessionState {
    SessionState(if c.inbound then DirReceiver else DirSender, [], Limit(0xffff_ffff_ffff, Normal), [])
  }

  /** Window size 0 stands for 128; any other is rounded up to a multiple of 32, and no policy asks for more than 2^15. */
  lemma WindowInForce(c: Config)
    requires Acceptable(c)
    ensures var len := PolicyOf(c).windowLen;
            && len % 32 == 0 && 64 <= len <= 0x8000
            && (if c.windowSize == 0 then len == 128 else c.windowSize <= len < c.windowSize + 32)
  {
  }

  /** The key of a new session lasts: of its first 2^63 uses, over any calls, only number 2^48 - 1 is refused. */
  lemma NewKeyLasts(c: Config, calls: seq<Call>, call: Call)
    requires WellKeyed(c.rtp) && WellKeyed(c.rtcp) && Acceptable(c)
    requires (forall i :: 0 <= i < |calls| ==> Callable(PolicyOf(c), calls[i])) && Callable(PolicyOf(c), call)
    requires Good(PolicyOf(c), NewSession(c)) && (call.CallProtect? || call.CallUnprotect?)
    requires SrtpRuns.UsesKey(PolicyOf(c), Run(PolicyOf(c), NewSession(c), calls), call)
    requires SrtpRuns.Uses(PolicyOf(c), NewSession(c), calls) < 0x8000_0000_0000_0000
    ensures Step(PolicyOf(c), Run(PolicyOf(c), NewSession(c), calls), call).status == KeyExpired
            <==> SrtpRuns.Uses(PolicyOf(c), NewSession(c), calls) + 1 == 0xffff_ffff_ffff
  {
    hide Step, Run, PolicyOf, SrtpRuns.UsesKey, SrtpRuns.Uses;
    SrtpEvents.HardLimitStopsOneUse(PolicyOf(c), NewSession(c), calls, call, 0xffff_ffff_ffff);
  }

  /** A new session has no streams, and takes its direction from the kind of policy. */
  lemma StartsEmpty(c: Config)
    requires WellKeyed(c.rtp) && WellKeyed(c.rtcp) && Acceptable(c)
    ensures var s := NewSession(c);
            && Good(PolicyOf(c), s) && s.streams == [] && s.events == []
            && s.templateDirection == if c.inbound then DirReceiver else DirSender
  {
    WindowInForce(c);
  }

  class Session {
    const kernel: Kernel
    const template: Stream
    var head: Stream?
    var events: seq<Event>
    ghost const policy: Policy
    ghost var list: seq<Stream>   // the streams from the head on
    ghost var repr: set<object>   // everything the session works on, apart from itself

    /** The bare session around its template; the calls below are for sessions that `Create` made. */
    constructor (kernel: Kernel, template: Stream, ghost policy: Policy)
      ensures this.kernel == kernel && this.template == template && this.policy == policy
      ensures head == null && list == [] && events == [] && repr == template.Own() + template.Shared()
    {
      this.kernel, this.template, this.policy := kernel, template, policy;
      head, list, events, repr := null, [], [], template.Own() + template.Shared();
    }

    ghost predicate HoldsPolicy() {
      && GoodPolicy(policy) && policy.windowLen <= 0x8000
      && template.Serves(policy) && template.ssrc == policy.templateSsrc
      && template.rdbx.bitmask.Len() == policy.windowLen
    }

    ghost function Footprint(): set<object>
      reads this
    {
      {this} + repr
    }

    ghost predicate Valid()
      reads Footprint()
    {
      ListIn(list);
      && repr == template.Own() + template.Shared() + OwnOf(list)
      && HoldsPolicy() && template.Apart() && template.Valid() && template.Keyed(policy)
      && template.View().rtcpWindow == RD.EmptyWindow()
      && Linked(head, list) && Separate(template, list) && AllValid(list, policy.windowLen)
    }

    /** The session as a value. */
    ghost function State(): SessionState
      requires Valid()
      reads Footprint()
    {
      SessionState(template.direction, Views(list), template.limit.Contents(), events)
    }

    lemma StateIsGood()
      requires Valid()
      ensures Good(policy, State())
    {
      hide Stream.Keyed, Stream.Apart, Linked, Separate;
      forall i | 0 <= i < |list|
        ensures GoodStream(policy, State().streams[i])
      {
        assert ValidAt(list, i, policy.windowLen) && State().streams[i] == ViewAt(list, i);
      }
    }

    /** srtp_get_stream: down the list until the SSRC is found. */
    method GetStream(ssrc: Ssrc) returns (st: Stream?, ghost i: nat)
      requires Valid()
      ensures i == Find(State().streams, ssrc)
      ensures st == At(list, Find(State().streams, ssrc))
    {
      hide Stream.Apart, Stream.Valid, Stream.View, Stream.Own, Stream.Shared, OwnOf, HoldsPolicy;
      hide AllValid, Separate, Find, Stream.Keyed, Views;
      st, i := head, 0;
      while st != null && st.ssrc != ssrc
        invariant i <= |list| && st == At(list, i)
        invariant forall k :: 0 <= k < i ==> list[k].ssrc != ssrc
        decreases |list| - i
      {
        st := st.next;
        i := i + 1;
      }
      assert forall k :: 0 <= k < |list| ==> State().streams[k].ssrc == ViewAt(list, k).ssrc == list[k].ssrc;
      if i < |list| {
        FindIs(State().streams, ssrc, i);
      } else {
        FindNone(State().streams, ssrc);
      }
    }

    // ---- memory ----

    /** What the session has allocated and must free. */
    ghost function Owned(): set<object>
      reads this
    {
      Base() + OwnedBy(list)
    }

    ghost function Base(): set<object> {
      template.Memory() + {this, template.limit,
       template.rtpCipher, template.rtpAuth, template.rtcpCipher, template.rtcpAuth}
    }

    ghost predicate Accounted()
      reads this, kernel
    {
      Owned() <= kernel.live
    }

    /** A session works on no other sessions, and not on the kernel. */
    lemma NotInRepr(list: seq<Stream>)
      ensures {this, kernel} !! template.Own() + template.Shared() + OwnOf(list)
    {
    }

    lemma EmptyLength(n: nat)
      ensures |RX.EmptyWindow(n).bits| == n
    {
    }

    /** srtp_stream_clone, and what the caller then stores in the new stream. */
    method NewStream(ssrc: Ssrc, direction: Direction) returns (st: Stream)
      requires HoldsPolicy()
      modifies kernel`live
      ensures fresh(st.Own()) && st.next == head && st.SharesWith(template)
      ensures st.Valid() && st.rdbx.bitmask.Len() == policy.windowLen
      ensures st.View() == SrtpSteps.Clone(policy, direction, ssrc)
      ensures kernel.live == old(kernel.live) + st.Memory() && st.Memory() !! old(kernel.live)
    {
      hide Stream.Keyed, Stream.Apart, RX.EmptyWindow, RD.EmptyWindow;
      st := new Stream.Clone(template, ssrc);
      EmptyLength(policy.windowLen);
      st.direction := direction;
      st.next := head;
      assert st !in kernel.live && st.rdbx.bitmask.word !in kernel.live;
      kernel.Alloc(st.Memory());
    }

    /** Puts a stream at the head of the list. */
    method Link(st: Stream)
      requires Valid() && st.Valid() && st.rdbx.bitmask.Len() == policy.windowLen
      requires st.next == head && st.SharesWith(template) && st.Own() !! Footprint()
      modifies this`head, this`list, this`repr
      ensures Valid() && list == [st] + old(list) && repr == st.Own() + old(repr)
      ensures State() == Prepend(old(State()), old(st.View()))
    {
      hide Stream.Keyed, Stream.Valid, Stream.Apart, Stream.View, Stream.Own, Stream.Shared;
      hide Linked, Separate, AllValid, Views, OwnOf;
      NotInRepr(list);
      LinkedCons(st, list);
      SeparateCons(template, st, list);
      AllValidCons(st, list, policy.windowLen);
      ViewsCons(st, list);
      OwnCons(st, list);
      head, list, repr := st, [st] + list, st.Own() + repr;
      ListIn(list);
    }

    /** A new stream for `ssrc` at the head of the list. */
    method AddClone(ssrc: Ssrc, direction: Direction) returns (st: Stream)
      requires Valid() && Accounted()
      modifies this`head, this`list, this`repr, kernel`live
      ensures Valid() && Accounted()
      ensures list == [st] + old(list) && fresh(st.Own()) && repr == st.Own() + old(repr)
      ensures State() == Prepend(old(State()), SrtpSteps.Clone(policy, direction, ssrc))
      ensures kernel.live - Owned() == old(kernel.live - Owned())
    {
      hide Valid, State, Stream.Valid, Stream.View, Stream.Own, Stream.Shared, Stream.Memory, OwnOf, OwnedBy, HoldsPolicy;
      Foreign();
      PolicyHeld();
      st := NewStream(ssrc, direction);
      assert State() == old(State());
      OwnCons(st, list);
      Link(st);
    }

    lemma PolicyHeld()
      requires Valid()
      ensures HoldsPolicy()
    {
    }
  
    // ---- steps that several calls share ----

    /** The direction check, with its collision event. */
    method ClaimDirection(st: Stream, want: Direction)
      modifies this`events, st`direction
      ensures st.direction == Claimed(old(st.direction), want)
      ensures events == old(events) + CollisionEvents(old(st.direction), want, st.ssrc)
    {
      if st.direction != want {
        if st.direction == DirUnknown {
          st.direction := want;
        } else {
          events := events + [Event(st.ssrc, SsrcCollision)];
        }
      }
    }

    /** key_limit_update and the event it may cause. */
    method CountKeyUse(st: Stream) returns (expired: bool)
      requires st.limit.Valid()
      modifies this`events, st.limit
      ensures st.limit.Valid()
      ensures var (event, limit) := Update(old(st.limit.Contents()));
              && st.limit.Contents() == limit
              && events == old(events) + LimitEvents(event, st.ssrc)
              && expired == (event == EventHardLimit)
    {
      var event := st.limit.UpdateLimit();
      match event
      case EventNormal =>
        expired := false;
      case EventSoftLimit =>
        events := events + [Event(st.ssrc, KeySoftLimit)];
        expired := false;
      case EventHardLimit =>
        events := events + [Event(st.ssrc, KeyHardLimit)];
        expired := true;
    }

    /** The index estimate, its replay check, and its entry in the database, as the sender does them. */
    method EnterIndex(st: Stream, seqNum: RX.SeqNum) returns (status: Status, est: nat)
      requires st.Valid()
      modifies st.rdbx`index, st.rdbx.bitmask.word
      ensures st.Valid() && est < INDEX_MAX
      ensures var w := old(st.rdbx.Contents());
              var e := RX.EstimateIndex(w.index, seqNum);
              var check := RX.CheckDelta(w, e.delta);
              && est == e.guess
              && status == (if check != Ok && (check != ReplayFail || !st.services.allowRepeat) then check else Ok)
              && st.View() == old(st.View()).(window := if check == Ok then RX.AddDelta(w, e.delta) else w)
    {
      hide RX.EstimateIndex, RX.AddDelta;
      var e := RX.EstimateIndex(st.rdbx.index, seqNum);
      RX.GuessIs48Bit(st.rdbx.index, seqNum);
      est := e.guess;
      status := st.rdbx.Check(e.delta);
      if status != Ok {
        if status != ReplayFail || !st.services.allowRepeat {
          return;
        }
        return Ok, est;
      }
      st.rdbx.AddIndex(e.delta);
    }

    /** What srtp_protect does to its stream before it touches the packet. */
    method Admit(st: Stream, seqNum: RX.SeqNum) returns (status: Status, est: nat)
      requires st.Valid() && st.limit.Valid() && st.Apart()
      modifies this`events, st`direction, st.limit, st.rdbx`index, st.rdbx.bitmask.word
      ensures st.Valid() && st.limit.Valid() && est < INDEX_MAX
      ensures var v := old(st.View());
              var e := RX.EstimateIndex(v.window.index, seqNum);
              var check := RX.CheckDelta(v.window, e.delta);
              var (event, limit) := Update(old(st.limit.Contents()));
              && status == (if event == EventHardLimit then KeyExpired
                            else if check != Ok && (check != ReplayFail || !st.services.allowRepeat) then check else Ok)
              && (status == Ok ==> est == e.guess)
              && st.View() == v.(direction := Claimed(v.direction, DirSender),
                                 window := if event != EventHardLimit && check == Ok then RX.AddDelta(v.window, e.delta)
                                           else v.window)
              && st.limit.Contents() == limit
              && events == old(events) + CollisionEvents(v.direction, DirSender, st.ssrc) + LimitEvents(event, st.ssrc)
    {
      hide RX.EstimateIndex, RX.AddDelta, RX.CheckDelta, Update, RX.Rdbx.Valid, RX.Rdbx.Contents, RD.Rdb.Contents, RD.Rdb.Valid;
      ClaimDirection(st, DirSender);
      var expired := CountKeyUse(st);
      if expired {
        return KeyExpired, 0;
      }
      status, est := EnterIndex(st, seqNum);
    }
  
    lemma SharedKeys(st: Stream, p: Policy)
      requires st.SharesWith(template)
      ensures st.Keyed(p) == template.Keyed(p) && st.Shared() == template.Shared()
      ensures template.Serves(p) ==> st.Serves(p)
      ensures template.Apart() && st.ApartFrom(template) ==> st.Apart()
      ensures template in template.Own() && (template.Apart() ==> template.Own() !! template.Shared())
    {
    }

    /** A call that changes one stream, and what all share, leaves the session in order. */
    twostate lemma OneStreamChanged(i: nat)
      requires old(Valid()) && i < |list| && list == old(list) && repr == old(repr) && head == old(head)
      requires forall o :: o in old(repr) && o !in list[i].Own() && o !in template.Shared() ==> unchanged(o)
      requires list[i].next == old(list[i].next) && list[i].Valid() && list[i].Keyed(policy)
      ensures Valid()
      ensures State() == old(State()).(streams := old(State()).streams[i := list[i].View()],
                                       limit := template.limit.Contents(), events := events)
    {
      hide Stream.Valid, Stream.Keyed, Stream.View, Stream.Own, Stream.Shared, Stream.Apart, Stream.Memory, OwnOf, HoldsPolicy;
      hide Views;
      NotInRepr(list);
      OwnIn(list, i);
      assert list[i].Own() !! template.Own();
      forall k | 0 <= k < |list| && k != i
        ensures ValidAt(list, k, policy.windowLen)
        ensures ViewAt(list, k) == old(ViewAt(list, k))
        ensures list[k].next == old(list[k].next)
      {
        OwnIn(list, k);
        assert old(ValidAt(list, k, policy.windowLen));
      }
      assert old(ValidAt(list, i, policy.windowLen));
      assert ValidAt(list, i, policy.windowLen);
      SharedKeys(list[i], policy);
      assert Views(list) == old(Views(list))[i := list[i].View()];
    }

    // ---- srtp_protect ----

    /** The buffer holds a packet of `len` octets with room for a tag, and the extension length can be read. */
    ghost predicate RtpBuffer(buf: array<bv8>, len: nat)
      reads buf
    {
      && RTP_HEADER <= len < LENGTH_MAX && len + template.services.rtpTagLen <= buf.Length
      && (HasExtension(buf[0]) ==> FixedLength(buf[0]) + 4 <= buf.Length)
    }

    /** A stream the session can work with: keyed, and sharing nothing with the session and the buffer. */
    ghost predicate Ready(st: Stream, buf: object)
      reads st.Own(), st.Shared()
    {
      && GoodPolicy(policy) && st.Valid() && st.Keyed(policy) && st.Serves(policy) && st.Apart()
      && st.services == template.services
      && {buf, this} !! st.Own() + st.Shared()
    }

    /** What a ready stream's own memory is separated from. */
    lemma ReadyApart(st: Stream, buf: object)
      requires Ready(st, buf)
      ensures Ready(st, this) && buf !in st.Own() + st.Shared()
      ensures st.Own() !! st.Crypts() && st.limit !in st.Own() + st.Crypts()
      ensures {buf, this} !! st.Own() + st.Crypts() + {st.limit}
      ensures st.rtpCipher != st.rtcpCipher && st.rtpAuth.Footprint() !! st.rtcpAuth.Footprint()
      ensures GoodPolicy(policy) && st.CryptsKeyed(policy) && st.Serves(policy) && st.services == template.services
    {
      hide Stream.Own, HmacContext.Footprint, Stream.Valid, Stream.RtpKeyed, Stream.RtcpKeyed;
    }

    lemma NotInAuth(st: Stream, buf: object)
      requires Ready(st, buf)
      ensures this !in st.rtpAuth.Footprint() + st.rtcpAuth.Footprint()
    {
      hide Stream.Own, Stream.Valid, Stream.Keyed, Stream.Serves, Stream.Apart, GoodPolicy;
    }

    /** Being ready, taken apart and put together again: the last line does not depend on the heap. */
    lemma ReadyIff(st: Stream, buf: object)
      ensures Ready(st, buf)
              <==> && st.Valid() && st.CryptsKeyed(policy) && st.limit.Valid()
                   && GoodPolicy(policy) && st.Serves(policy) && st.Apart() && st.services == template.services
                   && {buf, this} !! st.Own() + st.Shared()
    {
      hide Stream.Own, Stream.Shared, Stream.Valid, Stream.CryptsKeyed, Stream.Apart, Stream.Serves;
    }

    /** The memory of a stream is allocated, and split into its parts. */
    lemma InUse(st: Stream)
      ensures forall o: object :: o in st.Own() + st.Crypts() ==> allocated(o)
      ensures st.Crypts() == {st.rtpCipher, st.rtcpCipher} + st.rtpAuth.Footprint() + st.rtcpAuth.Footprint()
      ensures st.Shared() == st.Crypts() + {st.limit}
      ensures {st, st.rdbx, st.rdbx.bitmask.word, st.rdb, st.rdb.bitmask.word} <= st.Own()
      ensures {st.rtpCipher, st.rtcpCipher} !! st.rtpAuth.Footprint() + st.rtcpAuth.Footprint()
    {
    }

    lemma ReadyFor(st: Stream, buf: object)
      requires Ready(st, this) && buf !in st.Own() + st.Shared()
      ensures Ready(st, buf)
    {
      hide Stream.Own, HmacContext.Footprint, Stream.Valid, Stream.Keyed;
    }

    /** New contents of ciphers and authenticators leave a stream ready, if the keys are still in place. */
    twostate lemma CryptsChanged(st: Stream)
      requires old(Ready(st, this)) && st.CryptsKeyed(policy)
      requires unchanged(st.Own())
      requires unchanged(st.limit)
      ensures Ready(st, this) && st.View() == old(st.View()) && st.limit.Contents() == old(st.limit.Contents())
    {
      hide Stream.Own, HmacContext.Footprint, Stream.Valid, Stream.View, Stream.CryptsKeyed;
    }

    /** The last part of srtp_protect on a stream: only ciphers and buffer change. */
    method SealStream(st: Stream, buf: array<bv8>, len: nat, est: nat) returns (status: Status, newLen: nat)
      requires Ready(st, buf) && RtpBuffer(buf, len) && st.ssrc == SsrcOf(buf[..len]) && est < INDEX_MAX
      modifies st.rtpCipher, st.rtpAuth.Footprint(), buf
      ensures Ready(st, buf) && newLen <= buf.Length
      ensures st.View() == old(st.View()) && st.limit.Contents() == old(st.limit.Contents())
      ensures status == if policy.rtpConf && !PayloadFits(old(buf[..len])) then CipherFail else Ok
      ensures buf[..newLen] == if status == Ok then Seal(policy.rtp, policy.rtpConf, policy.rtpAuth, est, old(buf[..len]))
                               else old(buf[..len])
      ensures buf[newLen..] == old(buf[newLen..])
    {
      hide Ready, Stream.View, HmacContext.Keyed, Seal, PayloadFits, Icm.Valid, HasExtension, FixedLength, SsrcOf, Stream.RtcpKeyed;
      hide Stream.Own, HmacContext.Footprint, Stream.Crypts, Stream.Shared;
      ReadyApart(st, buf);
      InUse(st);
      ghost var pkt := buf[..len];
      status, newLen := SealInPlace(st.rtpCipher, st.rtpAuth, policy.rtp, st.services.rtpConf, st.services.rtpAuth,
                                    st.services.rtpTagLen, st.ssrc, est, buf, len);
      CryptsChanged(st);
      ReadyFor(st, buf);
      if status != Ok {
        assert buf[..len] == pkt;
      }
    }

    /** srtp_protect on the stream it has found. */
    method ProtectStream(st: Stream, buf: array<bv8>, len: nat, ghost s: SessionState, ghost i: nat)
      returns (status: Status, newLen: nat)
      requires Ready(st, buf) && RtpBuffer(buf, len) && st.ssrc == SsrcOf(buf[..len])
      requires Good(policy, s) && i < |s.streams| && s.streams[i] == st.View()
      requires s.limit == st.limit.Contents() && s.events == events
      modifies this`events, st`direction, st.rdbx`index, st.rdbx.bitmask.word, st.limit
      modifies st.rtpCipher, st.rtpAuth.Footprint(), buf
      ensures Ready(st, buf) && newLen <= buf.Length
      ensures ProtectOn(policy, s, i, old(buf[..len]))
              == Outcome(status, s.(streams := s.streams[i := st.View()], limit := st.limit.Contents(), events := events),
                         buf[..newLen])
      ensures buf[newLen..] == old(buf[newLen..])
    {
      hide RX.EstimateIndex, RX.AddDelta, RX.CheckDelta, Update, RX.Rdbx.Valid, RX.Rdbx.Contents, RD.Rdb.Contents, RD.Rdb.Valid;
      hide Seal, PayloadFits, HasExtension, FixedLength, SeqOf, SsrcOf, ProtectOn, Stream.View, Ready, Stream.Own;
      hide HmacContext.Footprint, Stream.Shared, Stream.Crypts;
      NotInAuth(st, buf);
      ghost var pkt := buf[..len];
      assert pkt[0] == buf[0];
      ProtectOnParts(policy, s, i, pkt);
      var est;
      status, est := AdmitReady(st, SeqOf(buf[..len]), buf);
      assert buf[..len] == pkt;
      if status != Ok {
        return status, len;
      }
      status, newLen := SealStream(st, buf, len, est);
    }

    /** Admit keeps the stream ready. */
    method AdmitReady(st: Stream, seqNum: RX.SeqNum, buf: array<bv8>) returns (status: Status, est: nat)
      requires Ready(st, buf)
      modifies this`events, st`direction, st.limit, st.rdbx`index, st.rdbx.bitmask.word
      ensures Ready(st, buf) && est < INDEX_MAX
      ensures var v := old(st.View());
              var e := RX.EstimateIndex(v.window.index, seqNum);
              var check := RX.CheckDelta(v.window, e.delta);
              var (event, limit) := Update(old(st.limit.Contents()));
              && status == (if event == EventHardLimit then KeyExpired
                            else if check != Ok && (check != ReplayFail || !policy.allowRepeat) then check else Ok)
              && (status == Ok ==> est == e.guess)
              && st.View() == v.(direction := Claimed(v.direction, DirSender),
                                 window := if event != EventHardLimit && check == Ok then RX.AddDelta(v.window, e.delta)
                                           else v.window)
              && st.limit.Contents() == limit
              && events == old(events) + CollisionEvents(v.direction, DirSender, st.ssrc) + LimitEvents(event, st.ssrc)
    {
      hide RX.EstimateIndex, RX.AddDelta, RX.CheckDelta, Update, Ready, Stream.View, Stream.Valid, Stream.CryptsKeyed;
      hide Stream.Own, HmacContext.Footprint, Stream.Crypts, Stream.Shared, Stream.Apart, KeyLimit.Contents, KeyLimit.Valid;
      ReadyApart(st, buf);
      ReadyIff(st, buf);
      InUse(st);
      status, est := Admit(st, seqNum);
      ReadyIff(st, buf);
    }

    /** The streams of a session are ready to work on a buffer that is not part of it. */
    lemma ReadyAt(i: nat, buf: object)
      requires Valid() && i < |list| && buf !in repr
      ensures Ready(list[i], buf) && list[i].Own() <= repr && list[i].Shared() == template.Shared() <= repr
      ensures list[i].Own() !! template.Shared() && list[i].limit == template.limit
      ensures list[i].rdbx.bitmask.Len() == policy.windowLen
    {
      hide Stream.Own, Stream.Shared, Stream.Apart, Stream.Keyed, Stream.Serves, Linked, OwnOf;
      NotInRepr(list);
      OwnIn(list, i);
      SharedKeys(list[i], policy);
      assert ValidAt(list, i, policy.windowLen);
    }

    lemma Members(st: Stream)
      ensures {st, st.rdbx, st.rdbx.bitmask.word, st.rdb, st.rdb.bitmask.word} <= st.Own()
      ensures {st.limit, st.rtpCipher, st.rtcpCipher} <= st.Shared()
      ensures st.rtpAuth.Footprint() <= st.Shared() && st.rtcpAuth.Footprint() <= st.Shared()
    {
    }

    /** The session's own memory holds neither another session nor the kernel. */
    lemma Foreign()
      requires Valid()
      ensures this !in repr && kernel !in Footprint()
    {
      hide Stream.Own, Stream.Shared, OwnOf;
      NotInRepr(list);
    }

    /** srtp_protect once the stream is found. */
    method ProtectAt(st: Stream, buf: array<bv8>, len: nat, ghost i: nat) returns (status: Status, newLen: nat)
      requires Valid() && i < |list| && st == list[i] && buf !in Footprint()
      requires RtpBuffer(buf, len) && st.ssrc == SsrcOf(buf[..len])
      modifies Footprint(), buf
      ensures Valid() && list == old(list) && repr == old(repr) && newLen <= buf.Length
      ensures Good(policy, old(State()))
      ensures ProtectOn(policy, old(State()), i, old(buf[..len])) == Outcome(status, State(), buf[..newLen])
      ensures buf[newLen..] == old(buf[newLen..])
    {
      hide Valid, State, Ready, ProtectOn, Stream.Own, Stream.Shared, Stream.Keyed, Stream.Valid, Stream.View;
      hide HmacContext.Footprint, SsrcOf, HasExtension, FixedLength;
      Members(st);
      Foreign();
      ReadyAt(i, buf);
      StateIsGood();
      StateAt(i);
      ghost var s := State();
      status, newLen := ProtectStream(st, buf, len, s, i);
      ReadyIs(st, buf);
      OneStreamChanged(i);
    }

    lemma StateAt(i: nat)
      requires Valid() && i < |list|
      ensures |State().streams| == |list| && State().streams[i] == list[i].View()
      ensures State().limit == list[i].limit.Contents() && State().events == events
    {
    }

    lemma ReadyIs(st: Stream, buf: object)
      requires Ready(st, buf)
      ensures st.Valid() && st.Keyed(policy) && st.Serves(policy) && st.services == template.services
      ensures {buf, this} !! st.Own() + st.Shared() && GoodPolicy(policy)
    {
    }

    lemma ViewDirection(st: Stream)
      ensures st.View().direction == st.direction
    {
    }

    /** srtp_protect */
    method Protect(buf: array<bv8>, len: nat) returns (status: Status, newLen: nat)
      requires Valid() && Accounted() && buf !in Footprint() && len <= buf.Length
      requires len >= RTP_HEADER ==> RtpBuffer(buf, len)
      modifies Footprint(), kernel`live, buf
      ensures Valid() && Accounted() && newLen <= buf.Length
      ensures Good(policy, old(State()))
      ensures SrtpSteps.Protect(policy, old(State()), old(buf[..len])) == Outcome(status, State(), buf[..newLen])
      ensures buf[newLen..] == old(buf[newLen..])
      ensures kernel.live - Owned() == old(kernel.live - Owned()) && fresh(repr - old(repr))
    {
      hide Valid, State, ProtectOn, Stream.Own, Stream.View, SsrcOf, Base, OwnedBy;
      StateIsGood();
      if len < RTP_HEADER {
        return BadParam, len;
      }
      var ssrc := SsrcOf(buf[..len]);
      var st, i := GetStream(ssrc);
      StateLength();
      if st == null {
        st := AddClone(ssrc, DirSender);
        i := 0;
        ViewSsrc(st);
      }
      Foreign();
      status, newLen := ProtectAt(st, buf, len, i);
    }

    lemma StateLength()
      requires Valid()
      ensures |State().streams| == |list| && forall i :: 0 <= i < |list| ==> State().streams[i].ssrc == list[i].ssrc
    {
      assert forall i :: 0 <= i < |list| ==> State().streams[i] == ViewAt(list, i);
    }

    lemma ViewSsrc(st: Stream)
      requires Valid() && list != [] && st == list[0]
      ensures State().streams != [] && State().streams[0].ssrc == st.ssrc
    {
      StateAt(0);
    }

    // ---- srtp_protect_rtcp ----

    /** Room for trailer and tag, and for the one octet that is cleared even when the tag is empty. */
    function RtcpRoom(tagLen: nat): nat {
      TRAILER + if tagLen == 0 then 1 else tagLen
    }

    ghost predicate RtcpBuffer(buf: array<bv8>, len: nat) {
      RTCP_HEADER <= len < LENGTH_MAX && len + RtcpRoom(template.services.rtcpTagLen) <= buf.Length
    }

    /** rdb_increment and rdb_get_value. */
    method CountRtcp(st: Stream, buf: array<bv8>) returns (status: Status, index: nat)
      requires Ready(st, buf)
      modifies st.rdb`windowStart
      ensures Ready(st, buf) && st.limit.Contents() == old(st.limit.Contents())
      ensures (status, index) == RD.Increment(old(st.View().rtcpWindow.start))
      ensures st.View() == old(st.View()).(rtcpWindow := old(st.View().rtcpWindow).(start := index))
    {
      hide RX.Rdbx.Contents, RX.Rdbx.Valid, Stream.CryptsKeyed;
      status := st.rdb.Advance();
      index := st.rdb.windowStart;
    }

    /** ClaimDirection keeps the stream ready. */
    method ClaimReady(st: Stream, want: Direction, ghost buf: object)
      requires Ready(st, buf)
      modifies this`events, st`direction
      ensures Ready(st, buf) && st.limit.Contents() == old(st.limit.Contents())
      ensures st.View() == old(st.View()).(direction := Claimed(old(st.direction), want))
      ensures events == old(events) + CollisionEvents(old(st.direction), want, st.ssrc)
    {
      hide RX.Rdbx.Valid, RX.Rdbx.Contents, RD.Rdb.Contents, RD.Rdb.Valid, Ready, Stream.CryptsKeyed;
      hide HmacContext.Footprint, Stream.Crypts, Stream.Shared, Stream.Apart, KeyLimit.Contents, KeyLimit.Valid;
      ReadyApart(st, buf);
      ReadyIff(st, buf);
      InUse(st);
      ClaimDirection(st, want);
      ReadyIff(st, buf);
    }

    /** Writes the trailer's encryption bit. */
    method MarkTrailer(st: Stream, buf: array<bv8>, len: nat)
      requires Ready(st, buf) && RtcpBuffer(buf, len)
      modifies buf
      ensures Ready(st, buf) && st.View() == old(st.View()) && st.limit.Contents() == old(st.limit.Contents())
      ensures buf[..len] == old(buf[..len]) && buf[len + TRAILER..] == old(buf[len + TRAILER..])
      ensures buf[len..len + TRAILER] == [if policy.rtcpConf then 0x80 else 0, 0, 0, 0]
    {
      hide Ready, Stream.Valid, Stream.View, Stream.CryptsKeyed;
      hide Stream.Own, HmacContext.Footprint, Stream.Crypts, Stream.Shared, Stream.Apart, KeyLimit.Contents, KeyLimit.Valid;
      ReadyApart(st, buf);
      ReadyIff(st, buf);
      InUse(st);
      StartTrailer(buf, len, st.services.rtcpConf);
      ReadyIff(st, buf);
    }

    /** The last part of srtp_protect_rtcp on a stream, the index being known. */
    method SealRtcpStream(st: Stream, buf: array<bv8>, len: nat, index: nat) returns (status: Status, newLen: nat)
      requires Ready(st, buf) && RtcpBuffer(buf, len) && st.ssrc == RtcpSsrcOf(buf[..len]) && index <= E_BIT
      requires buf[len..len + TRAILER] == [if policy.rtcpConf then 0x80 else 0, 0, 0, 0]
      modifies st.rtcpCipher, st.rtcpAuth.Footprint(), buf
      ensures Ready(st, buf) && newLen <= buf.Length
      ensures st.View() == old(st.View()) && st.limit.Contents() == old(st.limit.Contents())
      ensures status == if policy.rtcpConf && !RtcpFits(old(buf[..len])) then CipherFail else Ok
      ensures buf[..newLen] == if status == Ok then SealRtcp(policy.rtcp, policy.rtcpConf, index, old(buf[..len]))
                               else old(buf[..len])
      ensures var past := len + RtcpRoom(template.services.rtcpTagLen); buf[past..] == old(buf[past..])
    {
      hide Ready, Stream.View, HmacContext.Keyed, SealRtcp, RtcpFits, Icm.Valid, RtcpSsrcOf, Stream.RtpKeyed;
      hide Stream.Own, HmacContext.Footprint, Stream.Crypts, Stream.Shared;
      ReadyApart(st, buf);
      InUse(st);
      status, newLen := FinishRtcp(st.rtcpCipher, st.rtcpAuth, policy.rtcp, st.services.rtcpConf,
                                   st.services.rtcpTagLen, st.ssrc, index, buf, len);
      CryptsChanged(st);
      ReadyFor(st, buf);
    }

    /** The first part of srtp_protect_rtcp on a stream: direction, encryption bit, and the next index. */
    method AdmitRtcp(st: Stream, buf: array<bv8>, len: nat) returns (status: Status, index: nat)
      requires Ready(st, buf) && RtcpBuffer(buf, len)
      modifies this`events, st`direction, st.rdb`windowStart, buf
      ensures Ready(st, buf) && st.limit.Contents() == old(st.limit.Contents())
      ensures (status, index) == RD.Increment(old(st.View().rtcpWindow.start))
      ensures var v := old(st.View());
              && st.View() == v.(direction := Claimed(v.direction, DirSender), rtcpWindow := v.rtcpWindow.(start := index))
              && events == old(events) + CollisionEvents(v.direction, DirSender, st.ssrc)
      ensures buf[..len] == old(buf[..len])
      ensures buf[len..len + TRAILER] == [if policy.rtcpConf then 0x80 else 0, 0, 0, 0]
      ensures var past := len + RtcpRoom(template.services.rtcpTagLen); buf[past..] == old(buf[past..])
    {
      hide Stream.View, Ready, Stream.Own, Stream.Shared, RD.Increment;
      ghost var before := buf[..];
      ViewDirection(st);
      ClaimReady(st, DirSender, buf);
      assert buf[..] == before;
      MarkTrailer(st, buf, len);
      ghost var marked := buf[..];
      SameTail(marked, before, len + TRAILER, len + RtcpRoom(template.services.rtcpTagLen));
      status, index := CountRtcp(st, buf);
      assert buf[..] == marked;
    }

    /** srtp_protect_rtcp on the stream it has found. */
    method ProtectRtcpStream(st: Stream, buf: array<bv8>, len: nat, ghost s: SessionState, ghost i: nat)
      returns (status: Status, newLen: nat)
      requires Ready(st, buf) && RtcpBuffer(buf, len) && st.ssrc == RtcpSsrcOf(buf[..len])
      requires Good(policy, s) && i < |s.streams| && s.streams[i] == st.View()
      requires s.limit == st.limit.Contents() && s.events == events
      modifies this`events, st`direction, st.rdb`windowStart
      modifies st.rtcpCipher, st.rtcpAuth.Footprint(), buf
      ensures Ready(st, buf) && newLen <= buf.Length
      ensures ProtectRtcpOn(policy, s, i, old(buf[..len]))
              == Outcome(status, s.(streams := s.streams[i := st.View()], limit := st.limit.Contents(), events := events),
                         buf[..newLen])
      ensures var past := len + RtcpRoom(template.services.rtcpTagLen); buf[past..] == old(buf[past..])
    {
      hide SealRtcp, RtcpFits, RtcpSsrcOf, ProtectRtcpOn, Stream.View, Ready, Stream.Own, Stream.Shared;
      hide RD.Increment, RtcpRoom;
      ProtectRtcpOnParts(policy, s, i, buf[..len]);
      var index;
      status, index := AdmitRtcp(st, buf, len);
      if status != Ok {
        return status, len;
      }
      status, newLen := SealRtcpStream(st, buf, len, index);
    }

    /** srtp_protect_rtcp once the stream is found. */
    method ProtectRtcpAt(st: Stream, buf: array<bv8>, len: nat, ghost i: nat) returns (status: Status, newLen: nat)
      requires Valid() && i < |list| && st == list[i] && buf !in Footprint()
      requires RtcpBuffer(buf, len) && st.ssrc == RtcpSsrcOf(buf[..len])
      modifies Footprint(), buf
      ensures Valid() && list == old(list) && repr == old(repr) && newLen <= buf.Length
      ensures Good(policy, old(State()))
      ensures ProtectRtcpOn(policy, old(State()), i, old(buf[..len])) == Outcome(status, State(), buf[..newLen])
      ensures var past := len + RtcpRoom(template.services.rtcpTagLen); buf[past..] == old(buf[past..])
    {
      hide Valid, State, Ready, ProtectRtcpOn, Stream.Own, Stream.Shared, Stream.Keyed, Stream.Valid, Stream.View;
      hide HmacContext.Footprint, RtcpSsrcOf, RtcpRoom;
      Members(st);
      Foreign();
      ReadyAt(i, buf);
      StateIsGood();
      StateAt(i);
      ghost var s := State();
      status, newLen := ProtectRtcpStream(st, buf, len, s, i);
      ReadyIs(st, buf);
      OneStreamChanged(i);
    }

    /** srtp_protect_rtcp */
    method ProtectRtcp(buf: array<bv8>, len: nat) returns (status: Status, newLen: nat)
      requires Valid() && Accounted() && buf !in Footprint()
      requires RtcpBuffer(buf, len)
      modifies Footprint(), kernel`live, buf
      ensures Valid() && Accounted() && newLen <= buf.Length
      ensures Good(policy, old(State()))
      ensures SrtpSteps.ProtectRtcp(policy, old(State()), old(buf[..len])) == Outcome(status, State(), buf[..newLen])
      ensures var past := len + RtcpRoom(template.services.rtcpTagLen); buf[past..] == old(buf[past..])
      ensures kernel.live - Owned() == old(kernel.live - Owned()) && fresh(repr - old(repr))
    {
      hide Valid, State, ProtectRtcpOn, Stream.Own, Stream.View, RtcpSsrcOf, Base, OwnedBy, RtcpRoom;
      StateIsGood();
      var ssrc := RtcpSsrcOf(buf[..len]);
      var st, i := GetStream(ssrc);
      StateLength();
      if st == null {
        TemplateDirection();
        st := AddClone(ssrc, template.direction);
        i := 0;
        ViewSsrc(st);
      }
      Foreign();
      status, newLen := ProtectRtcpAt(st, buf, len, i);
    }

    lemma TemplateDirection()
      requires Valid()
      ensures State().templateDirection == template.direction
    {
    }

    // ---- srtp_unprotect ----

    /** A call that changes no stream, only what all share. */
    twostate lemma NoStreamChanged()
      requires old(Valid()) && list == old(list) && repr == old(repr) && head == old(head)
      requires forall o :: o in old(repr) && o !in template.Shared() ==> unchanged(o)
      requires template.Keyed(policy)
      ensures Valid()
      ensures State() == old(State()).(limit := template.limit.Contents(), events := events)
    {
      hide Stream.Valid, Stream.Keyed, Stream.View, Stream.Own, Stream.Shared, Stream.Apart, Stream.Memory, OwnOf, HoldsPolicy;
      hide Views;
      NotInRepr(list);
      SharedKeys(template, policy);
      forall k | 0 <= k < |list|
        ensures ValidAt(list, k, policy.windowLen)
        ensures ViewAt(list, k) == old(ViewAt(list, k))
        ensures list[k].next == old(list[k].next)
      {
        OwnIn(list, k);
        assert old(ValidAt(list, k, policy.windowLen));
      }
      assert Views(list) == old(Views(list));
    }

    /** The tag check of srtp_unprotect, after the initial vector is set. */
    method VerifyStream(st: Stream, ssrc: Ssrc, buf: array<bv8>, len: nat, est: nat) returns (bad: bool)
      requires Ready(st, buf) && RtpBuffer(buf, len) && est < INDEX_MAX
      modifies st.rtpCipher, st.rtpAuth.Footprint()
      ensures Ready(st, buf) && StartsAt(st.rtpCipher, policy.rtp, ssrc, est)
      ensures st.View() == old(st.View()) && st.limit.Contents() == old(st.limit.Contents()) && buf[..] == old(buf[..])
      ensures bad <==> WrongTag(policy.rtp, policy.rtpAuth, est, buf[..len])
    {
      hide Ready, Stream.View, HmacContext.Keyed, RtpTag, Icm.Valid, HasExtension, FixedLength, SsrcOf, Stream.RtcpKeyed, StartsAt;
      hide Stream.Own, HmacContext.Footprint, Stream.Crypts, Stream.Shared;
      ReadyApart(st, buf);
      InUse(st);
      SetPacketIv(st.rtpCipher, policy.rtp, ssrc, est);
      bad := false;
      if st.services.rtpAuth {
        bad := TagIsBad(st.rtpAuth, policy.rtp, est, buf, len, st.services.rtpTagLen);
      }
      CryptsChanged(st);
      ReadyFor(st, buf);
    }

    /** CountKeyUse keeps the stream ready and the cipher where it is. */
    method CountReady(st: Stream, ghost ssrc: Ssrc, ghost est: nat, buf: array<bv8>) returns (expired: bool)
      requires Ready(st, buf) && est < INDEX_MAX && StartsAt(st.rtpCipher, policy.rtp, ssrc, est)
      modifies this`events, st.limit
      ensures Ready(st, buf) && StartsAt(st.rtpCipher, policy.rtp, ssrc, est) && st.View() == old(st.View())
      ensures var (event, limit) := Update(old(st.limit.Contents()));
              && st.limit.Contents() == limit
              && events == old(events) + LimitEvents(event, st.ssrc)
              && expired == (event == EventHardLimit)
    {
      hide Update, Ready, Stream.View, Stream.Valid, Stream.CryptsKeyed, StartsAt;
      hide Stream.Own, HmacContext.Footprint, Stream.Crypts, Stream.Shared, Stream.Apart, KeyLimit.Contents, KeyLimit.Valid;
      ReadyApart(st, buf);
      ReadyIff(st, buf);
      InUse(st);
      expired := CountKeyUse(st);
      ReadyIff(st, buf);
    }

    /** The decryption of srtp_unprotect. */
    method DecryptStream(st: Stream, ssrc: Ssrc, buf: array<bv8>, len: nat, ghost est: nat) returns (status: Status)
      requires Ready(st, buf) && RtpBuffer(buf, len) && ssrc == SsrcOf(buf[..len])
      requires est < INDEX_MAX && StartsAt(st.rtpCipher, policy.rtp, ssrc, est)
      modifies st.rtpCipher, buf
      ensures Ready(st, buf) && st.View() == old(st.View()) && st.limit.Contents() == old(st.limit.Contents())
      ensures var pkt := old(buf[..len]);
              var n := len - policy.rtp.tagLen;
              var result := Open(policy.rtp, policy.rtpConf, false, est, pkt);
              && status == (if result == BadPayload then CipherFail else Ok)
              && (status == Ok ==> result == Authentic(buf[..n]) && buf[n..] == old(buf[n..]))
              && (status != Ok ==> buf[..] == old(buf[..]))
    {
      hide Ready, Stream.View, HmacContext.Keyed, Open, Icm.Valid, HasExtension, FixedLength, SsrcOf, Stream.RtcpKeyed, StartsAt;
      hide Stream.Own, HmacContext.Footprint, Stream.Crypts, Stream.Shared;
      ReadyApart(st, buf);
      InUse(st);
      status := DecryptInPlace(st.rtpCipher, policy.rtp, st.services.rtpConf, ssrc, est, buf, len, st.services.rtpTagLen);
      CryptsChanged(st);
      ReadyFor(st, buf);
    }

    /** The checks of srtp_unprotect on a stream or on the template: the tag, then the key limit. */
    method AuthenticateStream(st: Stream, ssrc: Ssrc, buf: array<bv8>, len: nat, est: nat) returns (status: Status)
      requires Ready(st, buf) && RtpBuffer(buf, len) && est < INDEX_MAX
      modifies this`events, st.limit, st.rtpCipher, st.rtpAuth.Footprint()
      ensures Ready(st, buf) && StartsAt(st.rtpCipher, policy.rtp, ssrc, est) && st.View() == old(st.View())
      ensures buf[..] == old(buf[..])
      ensures var bad := Open(policy.rtp, policy.rtpConf, policy.rtpAuth, est, buf[..len]) == BadTag;
              var (event, limit) := Update(old(st.limit.Contents()));
              && status == (if bad then AuthFail else if event == EventHardLimit then KeyExpired else Ok)
              && st.limit.Contents() == (if bad then old(st.limit.Contents()) else limit)
              && events == old(events) + (if bad then [] else LimitEvents(event, st.ssrc))
    {
      hide Update, Stream.View, Stream.Own, Ready, StartsAt, Open, WrongTag, HasExtension, FixedLength, LimitEvents;
      ReadyIs(st, buf);
      TagDecides(policy.rtp, policy.rtpConf, policy.rtpAuth, est, buf[..len]);
      var bad := VerifyStream(st, ssrc, buf, len, est);
      if bad {
        return AuthFail;
      }
      var expired := CountReady(st, ssrc, est, buf);
      return if expired then KeyExpired else Ok;
    }

    /** srtp_unprotect from the initial vector to the decryption. */
    method OpenStream(st: Stream, ssrc: Ssrc, buf: array<bv8>, len: nat, est: nat) returns (status: Status)
      requires Ready(st, buf) && RtpBuffer(buf, len) && ssrc == SsrcOf(buf[..len]) && est < INDEX_MAX
      modifies this`events, st.limit, st.rtpCipher, st.rtpAuth.Footprint(), buf
      ensures Ready(st, buf) && st.View() == old(st.View())
      ensures var pkt := old(buf[..len]);
              var n := len - policy.rtp.tagLen;
              var result := Open(policy.rtp, policy.rtpConf, policy.rtpAuth, est, pkt);
              var (event, limit) := Update(old(st.limit.Contents()));
              && status == (if result == BadTag then AuthFail
                            else if event == EventHardLimit then KeyExpired
                            else if result == BadPayload then CipherFail else Ok)
              && st.limit.Contents() == (if result == BadTag then old(st.limit.Contents()) else limit)
              && events == old(events) + (if result == BadTag then [] else LimitEvents(event, st.ssrc))
              && (status == Ok ==> result == Authentic(buf[..n]) && buf[n..] == old(buf[n..]))
              && (status != Ok ==> buf[..] == old(buf[..]))
    {
      hide Update, Stream.View, Stream.Own, Ready, StartsAt, Open, RtpTag, SsrcOf, HasExtension, FixedLength;
      hide HmacContext.Footprint, Stream.Shared, Stream.Crypts, LimitEvents, WrongTag;
      hide Stream.Keyed, Stream.Valid, Stream.Serves, KeyLimit.Contents, GoodPolicy, WellKeyed;
      NotInAuth(st, buf);
      ghost var pkt := buf[..len];
      ReadyIs(st, buf);
      TagDecides(policy.rtp, policy.rtpConf, policy.rtpAuth, est, pkt);
      status := AuthenticateStream(st, ssrc, buf, len, est);
      assert buf[..len] == pkt;
      if status != Ok {
        return;
      }
      status := DecryptStream(st, ssrc, buf, len, est);
    }

    lemma ReadyTemplate(buf: object)
      requires Valid() && buf !in repr
      ensures Ready(template, buf) && template.Own() !! template.Shared() && template.Own() + template.Shared() <= repr
    {
      hide Stream.Own, Stream.Shared, Stream.Apart, Stream.Keyed, Stream.Serves, Linked, OwnOf;
      NotInRepr(list);
      SharedKeys(template, policy);
    }

    /** OpenStream on a stream of the session or on the template: it counts one use of the key, unless the tag is bad. */
    method OpenOn(st: Stream, ghost i: nat, ssrc: Ssrc, buf: array<bv8>, len: nat, est: nat) returns (status: Status)
      requires Valid() && (st == template || (i < |list| && st == list[i])) && buf !in Footprint()
      requires RtpBuffer(buf, len) && ssrc == SsrcOf(buf[..len]) && est < INDEX_MAX
      modifies this`events, template.Shared(), buf
      ensures Valid()
      ensures var result := Open(policy.rtp, policy.rtpConf, policy.rtpAuth, est, old(buf[..len]));
              var n := len - policy.rtp.tagLen;
              && State() == (if result == BadTag then old(State()) else UseKey(old(State()), st.ssrc))
              && status == (if result == BadTag then AuthFail
                            else if KeyUsedUp(old(State())) then KeyExpired
                            else if result == BadPayload then CipherFail else Ok)
              && (status == Ok ==> result == Authentic(buf[..n]) && buf[n..] == old(buf[n..]))
              && (status != Ok ==> buf[..] == old(buf[..]))
    {
      hide Valid, State, Ready, Update, Open, Stream.Own, Stream.Shared, Stream.Keyed, Stream.Valid, Stream.View;
      hide HmacContext.Footprint, SsrcOf, HasExtension, FixedLength;
      Members(st);
      Foreign();
      if st == template {
        ReadyTemplate(buf);
      } else {
        ReadyAt(i, buf);
      }
      StateOfShared();
      status := OpenStream(st, ssrc, buf, len, est);
      ReadyIs(st, buf);
      if st != template {
        AlikeAt(i);
        SharedKeys(st, policy);
      }
      NoStreamChanged();
    }

    lemma StateOfShared()
      requires Valid()
      ensures State().limit == template.limit.Contents() && State().events == events
    {
    }

    twostate lemma AlikeAt(i: nat)
      requires old(Valid()) && i < |list| && list == old(list)
      ensures list[i].SharesWith(template)
    {
      hide Stream.Own, Stream.Shared, Stream.Apart, Stream.Keyed, Stream.SharesWith;
    }

    // ---- what a receiver does with a packet that has been opened ----

    /** The direction check on a stream of the list. */
    method ClaimAt(st: Stream, ghost i: nat)
      requires Valid() && i < |list| && st == list[i]
      modifies this`events, st`direction
      ensures Valid()
      ensures i < |old(State()).streams| && old(State()).streams[i] == old(st.View())
      ensures var v := old(st.View());
              State() == Report(Replace(old(State()), i, v.(direction := Claimed(v.direction, DirReceiver))),
                                CollisionEvents(v.direction, DirReceiver, st.ssrc))
      ensures st.View().window == old(st.View().window) && st.View().rtcpWindow == old(st.View().rtcpWindow)
    {
      hide Valid, State, Ready, Stream.Own, Stream.Shared, Stream.Keyed, Stream.Valid, Stream.View;
      Members(st);
      Foreign();
      ViewDirection(st);
      StateAt(i);
      ReadyAt(i, this);
      ClaimReady(st, DirReceiver, this);
      ReadyIs(st, this);
      OneStreamChanged(i);
    }

    /** The direction check on the template, for a packet of a new stream. */
    method ClaimTemplate()
      requires Valid()
      modifies this`events, template`direction
      ensures Valid()
      ensures var d := old(State()).templateDirection;
              State() == Report(old(State()).(templateDirection := Claimed(d, DirReceiver)),
                                CollisionEvents(d, DirReceiver, policy.templateSsrc))
    {
      hide Valid, State, Ready, Stream.Own, Stream.Shared, Stream.Keyed, Stream.Valid, Stream.View;
      Members(template);
      Foreign();
      ViewDirection(template);
      StateOfShared();
      TemplateDirection();
      ReadyTemplate(this);
      ClaimReady(template, DirReceiver, this);
      ReadyIs(template, this);
      ViewDirection(template);
      TemplateChanged();
    }

    /** A call that changes only what belongs to the template. */
    twostate lemma TemplateChanged()
      requires old(Valid()) && list == old(list) && repr == old(repr) && head == old(head)
      requires forall o :: o in old(repr) && o !in template.Own() ==> unchanged(o)
      requires template.Valid() && template.View().rtcpWindow == old(template.View().rtcpWindow)
      ensures Valid() && template.ssrc == policy.templateSsrc
      ensures State() == old(State()).(templateDirection := template.direction, events := events)
    {
      hide Stream.Valid, Stream.Keyed, Stream.View, Stream.Own, Stream.Shared, Stream.Apart, Stream.Memory, OwnOf;
      hide Views;
      NotInRepr(list);
      SharedKeys(template, policy);
      Members(template);
      forall k | 0 <= k < |list|
        ensures ValidAt(list, k, policy.windowLen)
        ensures ViewAt(list, k) == old(ViewAt(list, k))
        ensures list[k].next == old(list[k].next)
      {
        OwnIn(list, k);
        assert old(ValidAt(list, k, policy.windowLen));
      }
      assert Views(list) == old(Views(list));
    }

    /** rdbx_add_index on a stream, which stays ready. */
    method AddIndexReady(st: Stream, delta: int)
      requires Ready(st, this) && -delta < st.rdbx.bitmask.Len()
      modifies st.rdbx`index, st.rdbx.bitmask.word
      ensures Ready(st, this) && st.limit.Contents() == old(st.limit.Contents())
      ensures st.View() == old(st.View()).(window := RX.AddDelta(old(st.View().window), delta))
    {
      hide RD.Rdb.Contents, RD.Rdb.Valid, Ready, Stream.CryptsKeyed, RX.AddDelta;
      hide HmacContext.Footprint, Stream.Crypts, Stream.Shared, Stream.Apart, KeyLimit.Contents, KeyLimit.Valid;
      ReadyApart(st, this);
      ReadyIff(st, this);
      InUse(st);
      st.rdbx.AddIndex(delta);
      ReadyIff(st, this);
    }

    /** rdbx_add_index on a stream of the list. */
    method AddIndexAt(st: Stream, ghost i: nat, delta: int)
      requires Valid() && i < |list| && st == list[i] && -delta < policy.windowLen
      modifies st.rdbx`index, st.rdbx.bitmask.word
      ensures Valid()
      ensures i < |old(State()).streams| && GoodStream(policy, old(State()).streams[i])
      ensures var v := old(State()).streams[i];
              State() == Replace(old(State()), i, v.(window := RX.AddDelta(v.window, delta)))
    {
      hide Valid, State, Ready, Stream.Own, Stream.Shared, Stream.Keyed, Stream.Valid, Stream.View, RX.AddDelta;
      hide HmacContext.Footprint, GoodPolicy, Stream.Serves;
      Members(st);
      Foreign();
      StateIsGood();
      StateAt(i);
      ReadyAt(i, this);
      AddIndexReady(st, delta);
      ReadyIs(st, this);
      OneStreamChanged(i);
    }

    // ---- srtp_unprotect as a whole ----

    /** The estimate, the index difference and the replay check of srtp_unprotect. */
    method CheckReplay(st: Stream?, ghost i: nat, seqNum: RX.SeqNum) returns (status: Status, est: nat, delta: int)
      requires Valid() && i <= |list| && st == At(list, i)
      ensures i <= |State().streams| && est < INDEX_MAX
      ensures RX.Estimate(delta, est) == ReceiverEstimate(State(), i, seqNum)
      ensures GoodPolicy(policy)
      ensures st != null ==> GoodStream(policy, State().streams[i])
                             && status == RX.CheckDelta(State().streams[i].window, delta)
      ensures st == null ==> status == Ok
    {
      hide Valid, State, RX.EstimateIndex, RX.CheckDelta, Stream.Own, Stream.Shared, Stream.Keyed, Ready;
      Foreign();
      StateIsGood();
      StateLength();
      if st == null {
        return Ok, seqNum, seqNum;
      }
      StateAt(i);
      ReadyAt(i, this);
      ReadyIs(st, this);
      var e := RX.EstimateIndex(st.rdbx.index, seqNum);
      RX.GuessIs48Bit(st.rdbx.index, seqNum);
      est, delta := e.guess, e.delta;
      ghost var s := State();
      status := st.rdbx.Check(delta);
      assert State() == s;
    }

    /** The end of srtp_unprotect for a new stream: the template's direction, a clone, and the entry of the index. */
    method AcceptNew(ssrc: Ssrc, delta: nat)
      requires Valid() && Accounted()
      modifies Footprint(), kernel`live
      ensures Valid() && Accounted()
      ensures Good(policy, old(State())) && |old(State()).streams| == |old(list)|
      ensures State() == Accept(policy, old(State()), |old(list)|, ssrc, delta)
      ensures kernel.live - Owned() == old(kernel.live - Owned()) && fresh(repr - old(repr))
    {
      hide Valid, State, Ready, Stream.Own, Stream.Shared, Stream.View, Base, OwnedBy, RX.AddDelta, Accept, Prepend, Report;
      hide Claimed, CollisionEvents, SrtpSteps.Clone, HmacContext.Footprint, Good, GoodStream, GoodPolicy;
      ghost var s := State();
      StateIsGood();
      StateLength();
      Foreign();
      ReadyTemplate(this);
      Members(template);
      ClaimTemplate();
      TemplateDirection();
      AcceptNewIs(policy, s, ssrc, delta);
      var st := AddClone(ssrc, template.direction);
      Members(st);
      Foreign();
      AddIndexAt(st, 0, delta);
    }

    /** The end of srtp_unprotect for a known stream. */
    method AcceptKnown(st: Stream, ghost i: nat, delta: int)
      requires Valid() && Accounted() && i < |list| && st == list[i] && -delta < policy.windowLen
      modifies Footprint()
      ensures Valid() && Accounted() && list == old(list) && repr == old(repr)
      ensures Good(policy, old(State())) && i < |old(State()).streams| && -delta < |old(State()).streams[i].window.bits|
      ensures State() == Accept(policy, old(State()), i, st.ssrc, delta)
    {
      hide Valid, State, Ready, Stream.Own, Stream.Shared, Stream.View, Base, OwnedBy, RX.AddDelta, Accept, Report, Replace;
      hide Claimed, CollisionEvents, HmacContext.Footprint, Good, GoodStream, GoodPolicy;
      StateIsGood();
      StateAt(i);
      Foreign();
      ReadyAt(i, this);
      Members(st);
      AcceptKnownIs(policy, State(), i, st.ssrc, delta);
      ClaimAt(st, i);
      AddIndexAt(st, i, delta);
    }

    lemma TemplateParts()
      requires Valid()
      ensures template.Own() + template.Shared() <= repr
      ensures template.services.rtpTagLen == policy.rtp.tagLen <= TAG_LIMIT
      ensures template.services.rtcpTagLen == policy.rtcp.tagLen <= TAG_LIMIT
      ensures template.ssrc == policy.templateSsrc
    {
      hide Stream.Own, Stream.Shared, Stream.Apart, Stream.Keyed, Linked, OwnOf;
    }

    /** srtp_unprotect once the replay check has passed. */
    method UnprotectOn(st: Stream?, ghost i: nat, ssrc: Ssrc, delta: int, est: nat, buf: array<bv8>, len: nat)
      returns (status: Status, newLen: nat)
      requires Valid() && Accounted() && i <= |list| && st == At(list, i) && buf !in Footprint()
      requires RtpBuffer(buf, len) && ssrc == SsrcOf(buf[..len]) && est < INDEX_MAX
      requires -delta < policy.windowLen && if st == null then 0 <= delta else st.ssrc == ssrc
      modifies Footprint(), kernel`live, buf
      ensures Valid() && Accounted() && newLen <= buf.Length
      ensures Checked(policy, old(State()), i, delta, est, old(buf[..len]))
      ensures AfterCheck(policy, old(State()), i, delta, est, old(buf[..len])) == Outcome(status, State(), buf[..newLen])
      ensures buf[newLen..] == old(buf[newLen..])
      ensures kernel.live - Owned() == old(kernel.live - Owned()) && fresh(repr - old(repr))
    {
      hide Valid, State, Ready, Stream.Own, Stream.Shared, Stream.View, Base, OwnedBy, Accept, Good, GoodPolicy, GoodStream;
      hide Open, SsrcOf, UseKey, KeyUsedUp, HasExtension, FixedLength, HmacContext.Footprint;
      ghost var pkt, s := buf[..len], State();
      Foreign();
      TemplateParts();
      StateIsGood();
      StateLength();
      CheckedIs(policy, s, i, delta, est, pkt);
      status := OpenOn(if st == null then template else st, i, ssrc, buf, len, est);
      if status != Ok {
        assert buf[..len] == pkt;
        return status, len;
      }
      newLen := len - template.services.rtpTagLen;
      if st == null {
        AcceptNew(ssrc, delta);
      } else {
        AcceptKnown(st, i, delta);
      }
    }

    /** srtp_unprotect */
    method Unprotect(buf: array<bv8>, len: nat) returns (status: Status, newLen: nat)
      requires Valid() && Accounted() && buf !in Footprint() && len <= buf.Length
      requires len >= RTP_HEADER ==> RtpBuffer(buf, len)
      modifies Footprint(), kernel`live, buf
      ensures Valid() && Accounted() && newLen <= buf.Length
      ensures Good(policy, old(State()))
      ensures SrtpSteps.Unprotect(policy, old(State()), old(buf[..len])) == Outcome(status, State(), buf[..newLen])
      ensures buf[newLen..] == old(buf[newLen..])
      ensures kernel.live - Owned() == old(kernel.live - Owned()) && fresh(repr - old(repr))
    {
      hide Valid, State, Ready, Stream.Own, Stream.Shared, Stream.View, Base, OwnedBy, AfterCheck, Good, GoodPolicy, GoodStream;
      hide RX.EstimateIndex, RX.CheckDelta, SsrcOf, SeqOf, SrtpSteps.Unprotect, HasExtension, FixedLength, Checked;
      StateIsGood();
      UnprotectParts(policy, State(), buf[..len]);
      if len < RTP_HEADER {
        return BadParam, len;
      }
      var ssrc, seqNum := SsrcOf(buf[..len]), SeqOf(buf[..len]);
      var st, i := GetStream(ssrc);
      StateLength();
      var est, delta;
      status, est, delta := CheckReplay(st, i, seqNum);
      if status != Ok {
        return status, len;
      }
      status, newLen := UnprotectOn(st, i, ssrc, delta, est, buf, len);
    }

    // ---- srtp_unprotect_rtcp ----

    /** The buffer holds a packet with room for header, trailer and tag: the fields the call reads. */
    ghost predicate RtcpInput(buf: array<bv8>, len: nat) {
      RTCP_HEADER + TRAILER + template.services.rtcpTagLen <= len <= buf.Length && len < LENGTH_MAX
    }

    /** The tag check of srtp_unprotect_rtcp, after the initial vector is set. */
    method VerifyRtcpStream(st: Stream, ssrc: Ssrc, buf: array<bv8>, len: nat, index: nat) returns (bad: bool)
      requires Ready(st, buf) && RtcpInput(buf, len) && index < E_BIT
      modifies st.rtcpCipher, st.rtcpAuth.Footprint()
      ensures Ready(st, buf) && StartsAt(st.rtcpCipher, policy.rtcp, ssrc, index)
      ensures st.View() == old(st.View()) && st.limit.Contents() == old(st.limit.Contents()) && buf[..] == old(buf[..])
      ensures bad <==> WrongRtcpTag(policy.rtcp, buf[..len])
    {
      hide Ready, Stream.View, HmacContext.Keyed, RtcpTag, Icm.Valid, Stream.RtpKeyed, StartsAt;
      hide Stream.Own, HmacContext.Footprint, Stream.Crypts, Stream.Shared;
      ReadyApart(st, buf);
      InUse(st);
      SetPacketIv(st.rtcpCipher, policy.rtcp, ssrc, index);
      bad := RtcpTagIsBad(st.rtcpAuth, policy.rtcp, buf, len, st.services.rtcpTagLen);
      CryptsChanged(st);
      ReadyFor(st, buf);
    }

    /** The decryption of srtp_unprotect_rtcp, the tag being good. */
    method DecryptRtcpStream(st: Stream, ssrc: Ssrc, encrypted: bool, ghost index: nat, buf: array<bv8>, len: nat)
      returns (status: Status)
      requires Ready(st, buf) && RtcpInput(buf, len) && ssrc == RtcpSsrcOf(buf[..len]) && st.services.rtcpTagLen == policy.rtcp.tagLen
      requires index == RtcpIndexOf(policy.rtcp, buf[..len]) && encrypted == RtcpEncrypted(policy.rtcp, buf[..len])
      requires StartsAt(st.rtcpCipher, policy.rtcp, ssrc, index) && !WrongRtcpTag(policy.rtcp, buf[..len])
      modifies st.rtcpCipher, buf
      ensures Ready(st, buf) && st.View() == old(st.View()) && st.limit.Contents() == old(st.limit.Contents())
      ensures var result := OpenRtcp(policy.rtcp, old(buf[..len]));
              var n := len - policy.rtcp.tagLen - TRAILER;
              && status == (if result == BadPayload then CipherFail else Ok)
              && (status == Ok ==> result == Authentic(buf[..n]) && buf[n..] == old(buf[n..]))
              && (status != Ok ==> result == BadPayload && buf[..] == old(buf[..]))
    {
      hide Ready, Stream.View, HmacContext.Keyed, OpenRtcp, RtcpTag, Icm.Valid, Stream.RtpKeyed, StartsAt;
      hide RtcpSsrcOf, RtcpIndexOf, RtcpEncrypted;
      hide Stream.Own, HmacContext.Footprint, Stream.Crypts, Stream.Shared;
      ReadyApart(st, buf);
      InUse(st);
      RightTag(policy.rtcp, buf[..len]);
      status := DecryptRtcpInPlace(st.rtcpCipher, policy.rtcp, encrypted, ssrc, index, buf, len, st.services.rtcpTagLen);
      CryptsChanged(st);
      ReadyFor(st, buf);
    }

    /** srtp_unprotect_rtcp from the initial vector to the decryption. */
    method OpenRtcpStream(st: Stream, ssrc: Ssrc, encrypted: bool, index: nat, buf: array<bv8>, len: nat)
      returns (status: Status)
      requires Ready(st, buf) && RtcpInput(buf, len) && ssrc == RtcpSsrcOf(buf[..len]) && st.services.rtcpTagLen == policy.rtcp.tagLen
      requires index == RtcpIndexOf(policy.rtcp, buf[..len]) && encrypted == RtcpEncrypted(policy.rtcp, buf[..len])
      modifies st.rtcpCipher, st.rtcpAuth.Footprint(), buf
      ensures Ready(st, buf) && st.View() == old(st.View()) && st.limit.Contents() == old(st.limit.Contents())
      ensures var result := OpenRtcp(policy.rtcp, old(buf[..len]));
              var n := len - policy.rtcp.tagLen - TRAILER;
              && status == (match result case BadTag => AuthFail case BadPayload => CipherFail case Authentic(_) => Ok)
              && (status == Ok ==> result == Authentic(buf[..n]) && buf[n..] == old(buf[n..]))
              && (status != Ok ==> buf[..] == old(buf[..]))
    {
      hide Stream.View, Stream.Own, Ready, StartsAt, OpenRtcp, WrongRtcpTag, RtcpSsrcOf, RtcpIndexOf, RtcpEncrypted;
      ghost var pkt := buf[..len];
      ReadyIs(st, buf);
      RtcpTagDecides(policy.rtcp, pkt);
      var bad := VerifyRtcpStream(st, ssrc, buf, len, index);
      assert buf[..len] == pkt;
      if bad {
        return AuthFail;
      }
      status := DecryptRtcpStream(st, ssrc, encrypted, index, buf, len);
    }

    /** OpenRtcpStream on a stream of the session or on the template. */
    method OpenRtcpOn(st: Stream, ghost i: nat, ssrc: Ssrc, encrypted: bool, index: nat, buf: array<bv8>, len: nat)
      returns (status: Status)
      requires Valid() && (st == template || (i < |list| && st == list[i])) && buf !in Footprint()
      requires RtcpInput(buf, len) && ssrc == RtcpSsrcOf(buf[..len]) && template.services.rtcpTagLen == policy.rtcp.tagLen
      requires index == RtcpIndexOf(policy.rtcp, buf[..len]) && encrypted == RtcpEncrypted(policy.rtcp, buf[..len])
      modifies template.Shared(), buf
      ensures Valid() && State() == old(State()) && GoodPolicy(policy)
      ensures var result := OpenRtcp(policy.rtcp, old(buf[..len]));
              var n := len - policy.rtcp.tagLen - TRAILER;
              && status == (match result case BadTag => AuthFail case BadPayload => CipherFail case Authentic(_) => Ok)
              && (status == Ok ==> result == Authentic(buf[..n]) && buf[n..] == old(buf[n..]))
              && (status != Ok ==> buf[..] == old(buf[..]))
    {
      hide Valid, State, Ready, OpenRtcp, Stream.Own, Stream.Shared, Stream.Keyed, Stream.Valid, Stream.View;
      hide HmacContext.Footprint, RtcpSsrcOf, RtcpIndexOf, RtcpEncrypted;
      Members(st);
      Foreign();
      if st == template {
        ReadyTemplate(buf);
      } else {
        ReadyAt(i, buf);
      }
      StateOfShared();
      ReadyIs(st, buf);
      status := OpenRtcpStream(st, ssrc, encrypted, index, buf, len);
      ReadyIs(st, buf);
      if st != template {
        AlikeAt(i);
        SharedKeys(st, policy);
      }
      NoStreamChanged();
    }

    /** rdb_add_index on a stream, which stays ready. */
    method AddRtcpReady(st: Stream, index: nat)
      requires Ready(st, this) && st.View().rtcpWindow.start <= index < E_BIT
      modifies st.rdb`windowStart, st.rdb.bitmask.word
      ensures Ready(st, this) && st.limit.Contents() == old(st.limit.Contents())
      ensures RD.WellFormed(old(st.View().rtcpWindow))
      ensures st.View() == old(st.View()).(rtcpWindow := RD.AddIndex(old(st.View().rtcpWindow), index))
    {
      hide RX.Rdbx.Contents, RX.Rdbx.Valid, Ready, Stream.CryptsKeyed, RD.AddIndex;
      hide HmacContext.Footprint, Stream.Crypts, Stream.Shared, Stream.Apart, KeyLimit.Contents, KeyLimit.Valid;
      ReadyApart(st, this);
      ReadyIff(st, this);
      InUse(st);
      st.rdb.Add(index);
      ReadyIff(st, this);
    }

    /** rdb_add_index on a stream of the list. */
    method AddRtcpAt(st: Stream, ghost i: nat, index: nat)
      requires Valid() && i < |list| && st == list[i] && st.View().rtcpWindow.start <= index < E_BIT
      modifies st.rdb`windowStart, st.rdb.bitmask.word
      ensures Valid()
      ensures i < |old(State()).streams| && GoodStream(policy, old(State()).streams[i])
      ensures var v := old(State()).streams[i];
              && v.rtcpWindow.start <= index
              && State() == Replace(old(State()), i, v.(rtcpWindow := RD.AddIndex(v.rtcpWindow, index)))
    {
      hide Valid, State, Ready, Stream.Own, Stream.Shared, Stream.Keyed, Stream.Valid, Stream.View, RD.AddIndex;
      hide HmacContext.Footprint, GoodPolicy, Stream.Serves;
      Members(st);
      Foreign();
      StateIsGood();
      StateAt(i);
      ReadyAt(i, this);
      AddRtcpReady(st, index);
      ReadyIs(st, this);
      OneStreamChanged(i);
    }

    /** The end of srtp_unprotect_rtcp for a new stream. */
    method AcceptRtcpNew(ssrc: Ssrc, index: nat)
      requires Valid() && Accounted() && index < E_BIT
      modifies Footprint(), kernel`live
      ensures Valid() && Accounted()
      ensures Good(policy, old(State())) && |old(State()).streams| == |old(list)|
      ensures State() == AcceptRtcp(policy, old(State()), |old(list)|, ssrc, index)
      ensures kernel.live - Owned() == old(kernel.live - Owned()) && fresh(repr - old(repr))
    {
      hide Valid, State, Ready, Stream.Own, Stream.Shared, Stream.View, Base, OwnedBy, RD.AddIndex, AcceptRtcp, Prepend, Report;
      hide Claimed, CollisionEvents, SrtpSteps.Clone, HmacContext.Footprint, Good, GoodStream, GoodPolicy;
      ghost var s := State();
      StateIsGood();
      StateLength();
      Foreign();
      ReadyTemplate(this);
      Members(template);
      ClaimTemplate();
      TemplateDirection();
      AcceptRtcpNewIs(policy, s, ssrc, index);
      var st := AddClone(ssrc, template.direction);
      Members(st);
      Foreign();
      StateAt(0);
      AddRtcpAt(st, 0, index);
    }

    /** The end of srtp_unprotect_rtcp for a known stream. */
    method AcceptRtcpKnown(st: Stream, ghost i: nat, index: nat)
      requires Valid() && Accounted() && i < |list| && st == list[i]
      requires st.View().rtcpWindow.start <= index < E_BIT
      modifies Footprint()
      ensures Valid() && Accounted() && list == old(list) && repr == old(repr)
      ensures Good(policy, old(State())) && i < |old(State()).streams| && old(State()).streams[i].rtcpWindow.start <= index
      ensures State() == AcceptRtcp(policy, old(State()), i, st.ssrc, index)
    {
      hide Valid, State, Ready, Stream.Own, Stream.Shared, Stream.View, Base, OwnedBy, RD.AddIndex, AcceptRtcp, Report, Replace;
      hide Claimed, CollisionEvents, HmacContext.Footprint, Good, GoodStream, GoodPolicy;
      StateIsGood();
      StateAt(i);
      Foreign();
      ReadyAt(i, this);
      Members(st);
      AcceptRtcpKnownIs(policy, State(), i, st.ssrc, index);
      ClaimAt(st, i);
      AddRtcpAt(st, i, index);
    }

    /** rdb_check on the stream, or on the template, whose database stays empty. */
    method CheckRtcp(st: Stream?, ghost i: nat, index: nat) returns (status: Status)
      requires Valid() && i <= |list| && st == At(list, i)
      ensures i <= |State().streams| && Good(policy, State())
      ensures RD.WellFormed(RtcpWindowOf(State(), i)) && status == RD.CheckIndex(RtcpWindowOf(State(), i), index)
      ensures st != null ==> st.View().rtcpWindow == RtcpWindowOf(State(), i)
    {
      hide Valid, State, RD.CheckIndex, Stream.Own, Stream.Shared, Stream.Keyed, Ready, RX.Rdbx.Contents, RX.Rdbx.Valid;
      Foreign();
      StateIsGood();
      StateLength();
      ghost var s := State();
      if st == null {
        EmptyTemplate();
        ReadyTemplate(this);
        ReadyIs(template, this);
        status := template.rdb.Check(index);
      } else {
        StateAt(i);
        ReadyAt(i, this);
        ReadyIs(st, this);
        status := st.rdb.Check(index);
      }
      assert State() == s;
    }

    lemma EmptyTemplate()
      requires Valid()
      ensures template.View().rtcpWindow == RD.EmptyWindow()
    {
    }

    /** srtp_unprotect_rtcp once the replay check has passed. */
    method UnprotectRtcpOn(st: Stream?, ghost i: nat, ssrc: Ssrc, encrypted: bool, index: nat, buf: array<bv8>, len: nat)
      returns (status: Status, newLen: nat)
      requires Valid() && Accounted() && i <= |list| && st == At(list, i) && buf !in Footprint()
      requires RtcpInput(buf, len) && ssrc == RtcpSsrcOf(buf[..len]) && template.services.rtcpTagLen == policy.rtcp.tagLen
      requires index == RtcpIndexOf(policy.rtcp, buf[..len]) && encrypted == RtcpEncrypted(policy.rtcp, buf[..len])
      requires st != null ==> st.ssrc == ssrc && st.View().rtcpWindow.start <= index
      modifies Footprint(), kernel`live, buf
      ensures Valid() && Accounted() && newLen <= buf.Length
      ensures Good(policy, old(State())) && i <= |old(State()).streams|
      ensures RtcpWindowOf(old(State()), i).start <= index
      ensures AfterRtcpCheck(policy, old(State()), i, old(buf[..len])) == Outcome(status, State(), buf[..newLen])
      ensures buf[newLen..] == old(buf[newLen..])
      ensures kernel.live - Owned() == old(kernel.live - Owned()) && fresh(repr - old(repr))
    {
      hide Valid, State, Ready, Stream.Own, Stream.Shared, Stream.View, Base, OwnedBy, AcceptRtcp, GoodPolicy, GoodStream, Good;
      hide OpenRtcp, RtcpSsrcOf, RtcpIndexOf, RtcpEncrypted, HmacContext.Footprint;
      Foreign();
      TemplateParts();
      StateIsGood();
      StateLength();
      ghost var pkt := buf[..len];
      if st != null {
        StateAt(i);
      }
      status := OpenRtcpOn(if st == null then template else st, i, ssrc, encrypted, index, buf, len);
      if status != Ok {
        assert buf[..len] == pkt;
        return status, len;
      }
      newLen := len - (template.services.rtcpTagLen + TRAILER);
      if st == null {
        AcceptRtcpNew(ssrc, index);
      } else {
        StateAt(i);
        AcceptRtcpKnown(st, i, index);
      }
    }

    /** srtp_unprotect_rtcp */
    method UnprotectRtcp(buf: array<bv8>, len: nat) returns (status: Status, newLen: nat)
      requires Valid() && Accounted() && buf !in Footprint() && RtcpInput(buf, len)
      modifies Footprint(), kernel`live, buf
      ensures Valid() && Accounted() && newLen <= buf.Length
      ensures Good(policy, old(State())) && |old(buf[..len])| >= RTCP_HEADER + TRAILER + policy.rtcp.tagLen
      ensures SrtpSteps.UnprotectRtcp(policy, old(State()), old(buf[..len])) == Outcome(status, State(), buf[..newLen])
      ensures buf[newLen..] == old(buf[newLen..])
      ensures kernel.live - Owned() == old(kernel.live - Owned()) && fresh(repr - old(repr))
    {
      hide Valid, State, Ready, Stream.Own, Stream.Shared, Stream.View, Base, OwnedBy, GoodPolicy, GoodStream, Good;
      hide AfterRtcpCheck, RtcpSsrcOf, RtcpIndexOf, RtcpEncrypted, RD.CheckIndex, RD.EmptyWindow, SrtpSteps.UnprotectRtcp;
      hide Owned, Accounted, HmacContext.Footprint;
      TemplateParts();
      StateIsGood();
      StateLength();
      UnprotectRtcpParts(policy, State(), buf[..len]);
      var ssrc := RtcpSsrcOf(buf[..len]);
      var st, i := GetStream(ssrc);
      var encrypted, index := ReadTrailer(buf, policy.rtcp, len, template.services.rtcpTagLen);
      status := CheckRtcp(st, i, index);
      if status != Ok {
        assert repr - old(repr) == {};
        return status, len;
      }
      CheckedRtcp(State(), i, index);
      status, newLen := UnprotectRtcpOn(st, i, ssrc, encrypted, index, buf, len);
    }

    lemma CheckedRtcp(s: SessionState, i: nat, index: nat)
      requires i <= |s.streams| && RD.WellFormed(RtcpWindowOf(s, i))
      ensures RD.CheckIndex(RtcpWindowOf(s, i), index) == Ok ==> RtcpWindowOf(s, i).start <= index
    {
    }

    // ---- creation and deallocation ----

    /** crypto_kernel_alloc_cipher and crypto_kernel_alloc_auth for one half of a stream. */
    static method AllocHalf(kernel: Kernel, c: Crypto) returns (cipher: Icm, auth: HmacContext)
      requires WellKeyed(c)
      modifies kernel
      ensures fresh(cipher) && cipher.Valid() && CipherFor(cipher, c)
      ensures fresh(auth.Footprint()) && auth.Apart()
      ensures kernel.live == old(kernel.live) + {cipher, auth} && {cipher, auth} !! old(kernel.live)
      ensures kernel.icmRefs == old(kernel.icmRefs) + 1 && kernel.hmacRefs == old(kernel.hmacRefs) + 1
    {
      hide HmacContext.Apart, Icm.Valid;
      cipher := kernel.AllocIcm(c.enc, c.salt[..14]);
      assert c.salt == c.salt[..14] + [0, 0];
      var status;
      status, auth := kernel.AllocHmac(|c.authKey|, c.tagLen);
    }

    /** Both halves, and the key limit. */
    static method AllocParts(kernel: Kernel, c: Config) returns (parts: Parts)
      requires WellKeyed(c.rtp) && WellKeyed(c.rtcp)
      modifies kernel
      ensures parts.Distinct() && fresh(parts.Objects())
      ensures parts.rtpCipher.Valid() && CipherFor(parts.rtpCipher, c.rtp)
      ensures parts.rtcpCipher.Valid() && CipherFor(parts.rtcpCipher, c.rtcp)
      ensures kernel.live == old(kernel.live) + parts.Blocks() && parts.Blocks() !! old(kernel.live)
      ensures kernel.icmRefs == old(kernel.icmRefs) + 2 && kernel.hmacRefs == old(kernel.hmacRefs) + 2
    {
      hide HmacContext.Apart, Icm.Valid, CipherFor, WellKeyed;
      var rtpCipher, rtpAuth := AllocHalf(kernel, c.rtp);
      var limit := new KeyLimit();
      kernel.Alloc({limit});
      var rtcpCipher, rtcpAuth := AllocHalf(kernel, c.rtcp);
      parts := Parts(rtpCipher, rtpAuth, limit, rtcpCipher, rtcpAuth);
    }

    /** Limit and authenticators made ready: key_limit_set and the keys of srtp_stream_init. */
    static method InitParts(parts: Parts, c: Config)
      requires WellKeyed(c.rtp) && WellKeyed(c.rtcp) && parts.Distinct()
      modifies parts.limit, parts.rtpAuth.Footprint(), parts.rtcpAuth.Footprint()
      ensures AuthFor(parts.rtpAuth, c.rtp) && AuthFor(parts.rtcpAuth, c.rtcp)
      ensures parts.limit.Contents() == Limit(0xffff_ffff_ffff, Normal)
    {
      hide HmacContext.Keyed, HmacContext.Apart;
      var status := parts.limit.Set(0xffff_ffff_ffff);
      KeyAuth(parts.rtpAuth, c.rtp);
      KeyAuth(parts.rtcpAuth, c.rtcp);
    }

    /** auth_init with the derived key. */
    static method KeyAuth(auth: HmacContext, c: Crypto)
      requires WellKeyed(c) && auth.Apart()
      modifies auth.Footprint()
      ensures AuthFor(auth, c)
    {
      hide HmacContext.Keyed;
      var status := auth.Init(c.authKey);
    }

    /** The template stream from its parts. */
    static method NewTemplate(parts: Parts, c: Config) returns (template: Stream)
      requires WellKeyed(c.rtp) && WellKeyed(c.rtcp) && Acceptable(c) && parts.Distinct()
      requires parts.rtpCipher.Valid() && CipherFor(parts.rtpCipher, c.rtp) && AuthFor(parts.rtpAuth, c.rtp)
      requires parts.rtcpCipher.Valid() && CipherFor(parts.rtcpCipher, c.rtcp) && AuthFor(parts.rtcpAuth, c.rtcp)
      requires parts.limit.Contents() == Limit(0xffff_ffff_ffff, Normal)
      ensures fresh(template.Own()) && template.Valid() && template.Keyed(PolicyOf(c)) && template.Apart()
      ensures template.Shared() == parts.Objects() && template.limit == parts.limit
      ensures template.Serves(PolicyOf(c)) && template.ssrc == c.ssrc
      ensures template.View() == StreamState(c.ssrc, if c.inbound then DirReceiver else DirSender,
                                             RX.EmptyWindow(PolicyOf(c).windowLen), RD.EmptyWindow())
      ensures {template.rtpCipher, template.rtpAuth, template.limit, template.rtcpCipher, template.rtcpAuth} == parts.Blocks()
    {
      hide HmacContext.Keyed, CipherFor, Stream.Keyed, Stream.Apart, Stream.Serves, Stream.Valid, Stream.View, Stream.Own;
      ghost var objects := parts.Objects();
      template := RawTemplate(parts, c);
      assert template.Own() !! objects;
      TemplateKeyed(template, parts, c);
    }

    /** srtp_stream_init without the keys, and the direction that srtp_add_stream sets. */
    static method RawTemplate(parts: Parts, c: Config) returns (template: Stream)
      requires Acceptable(c)
      ensures fresh(template.Own()) && template.Valid() && template.ssrc == c.ssrc
      ensures parts == Parts(template.rtpCipher, template.rtpAuth, template.limit, template.rtcpCipher, template.rtcpAuth)
      ensures template.services == Services(c.rtpConf, c.rtpAuth, c.rtcpConf, c.rtp.tagLen, c.rtcp.tagLen, c.allowRepeat == 1)
      ensures template.View() == StreamState(c.ssrc, if c.inbound then DirReceiver else DirSender,
                                             RX.EmptyWindow(PolicyOf(c).windowLen), RD.EmptyWindow())
    {
      hide RX.EmptyWindow, RD.EmptyWindow, RX.Rdbx.Contents, RD.Rdb.Contents;
      var services := Services(c.rtpConf, c.rtpAuth, c.rtcpConf, c.rtp.tagLen, c.rtcp.tagLen, c.allowRepeat == 1);
      template := new Stream(c.ssrc, parts.rtpCipher, parts.rtpAuth, parts.rtcpCipher, parts.rtcpAuth, parts.limit,
                             services, WindowOf(c));
      template.direction := if c.inbound then DirReceiver else DirSender;
    }

    static lemma TemplateKeyed(template: Stream, parts: Parts, c: Config)
      requires WellKeyed(c.rtp) && WellKeyed(c.rtcp) && Acceptable(c) && parts.Distinct()
      requires parts.rtpCipher.Valid() && CipherFor(parts.rtpCipher, c.rtp) && AuthFor(parts.rtpAuth, c.rtp)
      requires parts.rtcpCipher.Valid() && CipherFor(parts.rtcpCipher, c.rtcp) && AuthFor(parts.rtcpAuth, c.rtcp)
      requires parts.limit.Contents() == Limit(0xffff_ffff_ffff, Normal)
      requires parts == Parts(template.rtpCipher, template.rtpAuth, template.limit, template.rtcpCipher, template.rtcpAuth)
      requires template.services == Services(c.rtpConf, c.rtpAuth, c.rtcpConf, c.rtp.tagLen, c.rtcp.tagLen, c.allowRepeat == 1)
      requires template.Own() !! parts.Objects()
      ensures template.Keyed(PolicyOf(c)) && template.Apart() && template.Serves(PolicyOf(c))
    {
      hide HmacContext.Keyed, Stream.Own;
    }

    /** The session around a new template. */
    static method Wrap(kernel: Kernel, template: Stream, c: Config) returns (session: Session)
      requires WellKeyed(c.rtp) && WellKeyed(c.rtcp) && Acceptable(c)
      requires template.Valid() && template.Keyed(PolicyOf(c)) && template.Apart() && template.Serves(PolicyOf(c))
      requires template.limit.Contents() == Limit(0xffff_ffff_ffff, Normal) && template.ssrc == c.ssrc
      requires template.View() == StreamState(c.ssrc, if c.inbound then DirReceiver else DirSender,
                                              RX.EmptyWindow(PolicyOf(c).windowLen), RD.EmptyWindow())
      ensures fresh(session) && session.kernel == kernel && session.policy == PolicyOf(c) && session.template == template
      ensures session.Valid() && session.State() == NewSession(c) && session.list == []
      ensures session.repr == template.Own() + template.Shared()
    {
      hide Stream.Valid, Stream.Keyed, Stream.Apart, Stream.Serves, Stream.View, Session.Valid, Session.State, PolicyOf;
      session := new Session(kernel, template, PolicyOf(c));
      session.ValidEmpty(c);
    }

    /** A session without streams is in order once its template is. */
    lemma ValidEmpty(c: Config)
      requires list == [] && head == null && events == [] && repr == template.Own() + template.Shared()
      requires WellKeyed(c.rtp) && WellKeyed(c.rtcp) && Acceptable(c) && policy == PolicyOf(c)
      requires template.Valid() && template.Keyed(policy) && template.Apart() && template.Serves(policy)
      requires template.limit.Contents() == Limit(0xffff_ffff_ffff, Normal) && template.ssrc == c.ssrc
      requires template.View() == StreamState(c.ssrc, if c.inbound then DirReceiver else DirSender,
                                              RX.EmptyWindow(policy.windowLen), RD.EmptyWindow())
      ensures Valid() && State() == NewSession(c)
    {
      hide Stream.Keyed, Stream.Own, Stream.Shared, Stream.Apart, Stream.Serves, Stream.Valid;
      assert OwnOf(list) == {};
      EmptyLength(policy.windowLen);
      assert |template.View().window.bits| == template.rdbx.bitmask.Len();
      RoundedUp(WindowOf(c));
    }

    lemma RoundedUp(n: nat)
      requires 0 < n < 0x8000
      ensures 0 < (n + 31) / 32 * 32 <= 0x8000
    {
    }

    /** Template and session, once ciphers, authenticators and limit are ready. */
    static method Build(kernel: Kernel, parts: Parts, c: Config) returns (session: Session)
      requires WellKeyed(c.rtp) && WellKeyed(c.rtcp) && Acceptable(c) && parts.Distinct()
      requires parts.rtpCipher.Valid() && CipherFor(parts.rtpCipher, c.rtp) && AuthFor(parts.rtpAuth, c.rtp)
      requires parts.rtcpCipher.Valid() && CipherFor(parts.rtcpCipher, c.rtcp) && AuthFor(parts.rtcpAuth, c.rtcp)
      requires parts.limit.Contents() == Limit(0xffff_ffff_ffff, Normal)
      modifies kernel`live
      ensures fresh(session) && session.kernel == kernel && session.policy == PolicyOf(c)
      ensures session.Valid() && session.State() == NewSession(c)
      ensures session.repr == session.template.Own() + parts.Objects() && fresh(session.template.Own())
      ensures session.Owned() == parts.Blocks() + session.Memory()
      ensures kernel.live == old(kernel.live) + session.Memory() && session.Memory() !! old(kernel.live)
    {
      hide CipherFor, AuthFor, Session.Valid, Session.State, Stream.Valid, Stream.Keyed, Stream.Apart, Stream.Serves, Stream.View;
      hide Stream.Own, Stream.Shared, HmacContext.Footprint, Parts.Distinct, Parts.Objects, PolicyOf;
      var template := NewTemplate(parts, c);
      session := Wrap(kernel, template, c);
      session.Members(template);
      session.Foreign();
      NoneOwned();
      assert session.Memory() !! kernel.live;
      kernel.Alloc(session.Memory());
    }

    /** The memory of the session record and its template, without what the streams share. */
    ghost function Memory(): set<object> {
      template.Memory() + {this}
    }

    /** Keys and limit set, then template and session. */
    static method Complete(kernel: Kernel, parts: Parts, c: Config, ghost before: set<object>) returns (session: Session)
      requires kernel.live == before + parts.Blocks() && parts.Blocks() !! before
      requires WellKeyed(c.rtp) && WellKeyed(c.rtcp) && Acceptable(c) && parts.Distinct()
      requires parts.rtpCipher.Valid() && CipherFor(parts.rtpCipher, c.rtp)
      requires parts.rtcpCipher.Valid() && CipherFor(parts.rtcpCipher, c.rtcp)
      modifies kernel`live, parts.limit, parts.rtpAuth.Footprint(), parts.rtcpAuth.Footprint()
      ensures fresh(session) && fresh(session.repr - parts.Objects())
      ensures session.kernel == kernel && session.policy == PolicyOf(c)
      ensures session.Valid() && session.State() == NewSession(c)
      ensures kernel.live == before + session.Owned() && session.Owned() !! before && session.Accounted()
    {
      hide CipherFor, AuthFor, Session.Valid, Session.State, Stream.Own, HmacContext.Footprint, Parts.Distinct;
      hide Session.Owned, Session.Memory, Parts.Objects, Parts.Blocks, Icm.Valid, WellKeyed, Acceptable;
      PartsInside(kernel, parts);
      InitParts(parts, c);
      session := Build(kernel, parts, c);
    }

    /**
     srtp_create for one wildcard policy.  A policy with a bad window size or repeat flag is
     refused after the ciphers, authenticators and the limit have been allocated; they are not
     freed again.
     */
    static method Create(kernel: Kernel, c: Config)
      returns (status: Status, session: Session?, ghost blocks: set<object>)
      requires WellKeyed(c.rtp) && WellKeyed(c.rtcp)
      modifies kernel
      ensures status == if Acceptable(c) then Ok else BadParam
      ensures kernel.live == old(kernel.live) + blocks && blocks !! old(kernel.live)
      ensures kernel.icmRefs == old(kernel.icmRefs) + 2 && kernel.hmacRefs == old(kernel.hmacRefs) + 2
      ensures status != Ok ==> session == null && |blocks| == 5
      ensures status == Ok ==>
                && session != null && fresh(session) && fresh(session.repr)
                && session.Valid() && session.Accounted() && blocks == session.Owned()
                && session.kernel == kernel && session.policy == PolicyOf(c) && session.State() == NewSession(c)
    {
      hide CipherFor, AuthFor, Session.Valid, Session.State, Stream.Own, HmacContext.Footprint, Parts.Distinct;
      hide Session.Owned, Session.Memory, Parts.Objects, Parts.Blocks, Icm.Valid, Session.Accounted;
      session := null;
      var parts := AllocParts(kernel, c);
      blocks := parts.Blocks();
      FiveBlocks(parts);
      if c.windowSize != 0 && (c.windowSize < 64 || c.windowSize >= 0x8000) {
        return BadParam, session, blocks;
      }
      if c.allowRepeat != 0 && c.allowRepeat != 1 {
        return BadParam, session, blocks;
      }
      PartsInside(kernel, parts);
      session := Complete(kernel, parts, c, old(kernel.live));
      blocks := session.Owned();
      status := Ok;
    }

    /** What srtp_stream_dealloc frees: whatever is not the template's. */
    ghost function Unshared(st: Stream): set<object> {
      UnsharedRtp(st) + UnsharedRtcp(st) + st.Memory()
    }

    ghost function UnsharedRtp(st: Stream): set<object> {
      (if st.rtpCipher != template.rtpCipher then {st.rtpCipher} else {})
      + (if st.rtpAuth != template.rtpAuth then {st.rtpAuth} else {})
      + (if st.limit != template.limit then {st.limit} else {})
    }

    ghost function UnsharedRtcp(st: Stream): set<object> {
      (if st.rtcpCipher != template.rtcpCipher then {st.rtcpCipher} else {})
      + (if st.rtcpAuth != template.rtcpAuth then {st.rtcpAuth} else {})
    }

    static function One(b: bool): nat {
      if b then 1 else 0
    }

    /** srtp_stream_dealloc */
    method StreamDealloc(st: Stream)
      requires Unshared(st) <= kernel.live && UnsharedRtp(st) !! UnsharedRtcp(st)
      modifies kernel
      ensures kernel.live == old(kernel.live) - Unshared(st)
      ensures kernel.icmRefs == old(kernel.icmRefs) - One(st.rtpCipher != template.rtpCipher)
                                - One(st.rtcpCipher != template.rtcpCipher)
      ensures kernel.hmacRefs == old(kernel.hmacRefs) - One(st.rtpAuth != template.rtpAuth)
                                 - One(st.rtcpAuth != template.rtcpAuth)
    {
      hide UnsharedRtp, UnsharedRtcp;
      MemoryApart(st);
      FreeRtp(st);
      FreeRtcp(st);
      kernel.Free(st.rdbx.bitmask.word);
      kernel.Free(st);
    }

    lemma MemoryApart(st: Stream)
      ensures st.Memory() !! UnsharedRtp(st) + UnsharedRtcp(st)
    {
    }

    method FreeRtp(st: Stream)
      requires UnsharedRtp(st) <= kernel.live
      modifies kernel
      ensures kernel.live == old(kernel.live) - UnsharedRtp(st)
      ensures kernel.icmRefs == old(kernel.icmRefs) - One(st.rtpCipher != template.rtpCipher)
      ensures kernel.hmacRefs == old(kernel.hmacRefs) - One(st.rtpAuth != template.rtpAuth)
    {
      if st.rtpCipher != template.rtpCipher {
        kernel.FreeIcm(st.rtpCipher);
      }
      if st.rtpAuth != template.rtpAuth {
        kernel.FreeHmac(st.rtpAuth);
      }
      if st.limit != template.limit {
        kernel.Free(st.limit);
      }
    }

    method FreeRtcp(st: Stream)
      requires UnsharedRtcp(st) <= kernel.live
      modifies kernel
      ensures kernel.live == old(kernel.live) - UnsharedRtcp(st)
      ensures kernel.icmRefs == old(kernel.icmRefs) - One(st.rtcpCipher != template.rtcpCipher)
      ensures kernel.hmacRefs == old(kernel.hmacRefs) - One(st.rtcpAuth != template.rtcpAuth)
    {
      if st.rtcpCipher != template.rtcpCipher {
        kernel.FreeIcm(st.rtcpCipher);
      }
      if st.rtcpAuth != template.rtcpAuth {
        kernel.FreeHmac(st.rtcpAuth);
      }
    }

    /** The streams of the list have only their own memory to give back. */
    lemma UnsharedAt(i: nat)
      requires Valid() && i < |list|
      ensures Unshared(list[i]) == list[i].Memory() && list[i].SharesWith(template)
      ensures UnsharedRtp(list[i]) == {} && UnsharedRtcp(list[i]) == {}
      ensures list[i].Memory() !! Base() && list[i].Memory() <= OwnedBy(list)
      ensures list[i].next == At(list, i + 1)
    {
      hide AllValid, Stream.Keyed, Stream.Valid, Stream.Apart, Stream.Own, Stream.Shared, Stream.Memory, OwnOf, Base, HoldsPolicy;
      OwnIn(list, i);
      OwnMemory(list[i]);
    }

    lemma OwnMemory(st: Stream)
      requires st.Own() !! template.Own()
      ensures st.Memory() !! Base()
    {
      assert template in template.Own() && template.rdbx.bitmask.word in template.Own();
    }

    /** One more stream of the list. */
    lemma OwnedByNext(i: nat)
      requires Valid() && i < |list|
      ensures list[i].Memory() !! OwnedBy(list[..i])
      ensures OwnedBy(list[..i + 1]) == OwnedBy(list[..i]) + list[i].Memory()
    {
      hide AllValid, Stream.Keyed, Stream.Valid, HmacContext.Footprint, Linked, Stream.Apart, Stream.ApartFrom, Stream.SharesWith;
      assert list[..i + 1] == list[..i] + [list[i]];
      assert list[i].Memory() <= list[i].Own();
      forall o | o in OwnedBy(list[..i])
        ensures o !in list[i].Memory()
      {
        var st: Stream :| st in list[..i] && o in st.Memory();
        var k :| 0 <= k < i && list[k] == st;
        assert st.Memory() <= st.Own();
      }
    }

    /** The stream list of srtp_dealloc, freed one by one. */
    method DeallocStreams()
      requires Valid() && Accounted()
      modifies kernel
      ensures kernel.live == old(kernel.live) - OwnedBy(list)
      ensures kernel.icmRefs == old(kernel.icmRefs) && kernel.hmacRefs == old(kernel.hmacRefs)
    {
      hide Valid, OwnedBy, Unshared, UnsharedRtp, UnsharedRtcp, Stream.Memory;
      Foreign();
      StartOfList();
      var st := head;
      ghost var i := 0;
      while st != null
        invariant i <= |list| && st == At(list, i)
        invariant Valid()
        invariant OwnedBy(list) <= old(kernel.live) && kernel.live == old(kernel.live) - OwnedBy(list[..i])
        invariant kernel.icmRefs == old(kernel.icmRefs) && kernel.hmacRefs == old(kernel.hmacRefs)
        decreases |list| - i
      {
        UnsharedAt(i);
        OwnedByNext(i);
        var next := st.next;
        StreamDealloc(st);
        st := next;
        i := i + 1;
      }
      assert list[..i] == list;
    }

    lemma StartOfList()
      requires Valid()
      ensures head == At(list, 0) && OwnedBy(list[..0]) == {}
    {
      assert list[..0] == [];
    }

    /** srtp_dealloc: every block the session owns is freed, exactly once, and the use counts go back. */
    method Dealloc()
      requires Valid() && Accounted()
      modifies kernel
      ensures kernel.live == old(kernel.live) - old(Owned())
      ensures kernel.icmRefs == old(kernel.icmRefs) - 2 && kernel.hmacRefs == old(kernel.hmacRefs) - 2
    {
      hide Valid, OwnedBy;
      BaseApart();
      DeallocStreams();
      kernel.FreeHmac(template.rtcpAuth);
      kernel.FreeIcm(template.rtcpCipher);
      kernel.Free(template.limit);
      kernel.FreeIcm(template.rtpCipher);
      kernel.FreeHmac(template.rtpAuth);
      kernel.Free(template.rdbx.bitmask.word);
      kernel.Free(template);
      kernel.Free(this);
    }

    /** The blocks of template and session are no stream's, and differ from each other. */
    lemma BaseApart()
      requires Valid()
      ensures Base() !! OwnedBy(list)
      ensures template.rtpCipher != template.rtcpCipher && template.rtpAuth != template.rtcpAuth
    {
      hide AllValid, Stream.Keyed, Stream.Valid, Linked;
      assert template.rtpAuth in template.rtpAuth.Footprint() && template.rtcpAuth in template.rtcpAuth.Footprint();
      forall o | o in OwnedBy(list)
        ensures o !in Base()
      {
        var i :| 0 <= i < |list| && o in list[i].Memory();
        UnsharedAt(i);
      }
    }

    // ---- the life of a session ----

    /** A buffer of its own for one packet, with room for everything the calls may append or read. */
    static method Buffer(pkt: seq<bv8>) returns (buf: array<bv8>)
      ensures fresh(buf) && buf.Length == |pkt| + 100 && buf[..|pkt|] == pkt
    {
      buf := new bv8[|pkt| + 100];
      WriteOctets(buf, 0, pkt);
      assert buf[..] == pkt + buf[|pkt|..];
    }

    lemma RoomFor(buf: array<bv8>, pkt: seq<bv8>)
      requires Valid() && |pkt| < LENGTH_MAX && buf.Length == |pkt| + 100 && buf[..|pkt|] == pkt
      ensures |pkt| >= RTP_HEADER ==> RtpBuffer(buf, |pkt|)
      ensures |pkt| >= RTCP_HEADER ==> RtcpBuffer(buf, |pkt|)
      ensures |pkt| >= RTCP_HEADER + TRAILER + policy.rtcp.tagLen ==> RtcpInput(buf, |pkt|)
    {
      hide Valid, FixedLength, HasExtension;
      TemplateParts();
      LowNibble(buf[0]);
    }

    /** One call, on a copy of the packet. */
    method Serve(c: Call) returns (status: Status, pkt: seq<bv8>)
      requires Valid() && Accounted() && Callable(policy, c) && |c.pkt| < LENGTH_MAX
      modifies Footprint(), kernel`live
      ensures Valid() && Accounted()
      ensures Good(policy, old(State())) && Step(policy, old(State()), c) == Outcome(status, State(), pkt)
      ensures kernel.live - Owned() == old(kernel.live - Owned()) && fresh(repr - old(repr))
    {
      hide Valid, State, Owned, Good, RtpBuffer, RtcpBuffer, RtcpInput, RtcpRoom;
      hide SrtpSteps.Protect, SrtpSteps.Unprotect, SrtpSteps.ProtectRtcp, SrtpSteps.UnprotectRtcp;
      StateIsGood();
      var buf := Buffer(c.pkt);
      ghost var s := State();
      assert s == old(State());
      RoomFor(buf, c.pkt);
      var len;
      match c {
        case CallProtect(_) => status, len := Protect(buf, |c.pkt|);
        case CallUnprotect(_) => status, len := Unprotect(buf, |c.pkt|);
        case CallProtectRtcp(_) => status, len := ProtectRtcp(buf, |c.pkt|);
        case CallUnprotectRtcp(_) => status, len := UnprotectRtcp(buf, |c.pkt|);
      }
      pkt := buf[..len];
    }

    /** Any number of calls: the session goes through the states that `Run` describes. */
    method ServeAll(calls: seq<Call>)
      requires Valid() && Accounted()
      requires forall k :: 0 <= k < |calls| ==> Callable(policy, calls[k]) && |calls[k].pkt| < LENGTH_MAX
      modifies Footprint(), kernel`live
      ensures Valid() && Accounted()
      ensures Good(policy, old(State())) && State() == Run(policy, old(State()), calls)
      ensures kernel.live - Owned() == old(kernel.live - Owned())
    {
      hide Valid, State, Owned, Good, Step, Callable;
      StateIsGood();
      ghost var s := State();
      ghost var others := kernel.live - Owned();
      assert calls[0..] == calls;
      for i := 0 to |calls|
        invariant Valid() && Accounted() && Good(policy, State()) && fresh(repr - old(repr))
        invariant Run(policy, State(), calls[i..]) == Run(policy, s, calls)
        invariant kernel.live - Owned() == others
      {
        assert calls[i..][0] == calls[i] && calls[i..][1..] == calls[i + 1..];
        var status, pkt := Serve(calls[i]);
        StateIsGood();
      }
    }

    /**
     From creation over any run of calls to deallocation: nothing stays allocated and nothing
     is freed twice, and the use counts are what they were.
     */
    static method Lifetime(kernel: Kernel, c: Config, calls: seq<Call>) returns (ghost end: SessionState)
      requires WellKeyed(c.rtp) && WellKeyed(c.rtcp) && Acceptable(c)
      requires forall k :: 0 <= k < |calls| ==> Callable(PolicyOf(c), calls[k]) && |calls[k].pkt| < LENGTH_MAX
      modifies kernel
      ensures kernel.live == old(kernel.live)
      ensures kernel.icmRefs == old(kernel.icmRefs) && kernel.hmacRefs == old(kernel.hmacRefs)
      ensures Good(PolicyOf(c), NewSession(c)) && end == Run(PolicyOf(c), NewSession(c), calls) && UniqueSsrcs(end)
    {
      hide Session.Valid, Session.State, Session.Owned, PolicyOf, Good, Run, Callable, UniqueSsrcs;
      var status, session, blocks := Create(kernel, c);
      session.StateIsGood();
      NewIsUnique(c);
      session.Foreign();
      session.ServeAll(calls);
      end := session.State();
      RunKeepsUniqueSsrcs(PolicyOf(c), NewSession(c), calls);
      session.Dealloc();
    }
  }

  lemma NewIsUnique(c: Config)
    ensures UniqueSsrcs(NewSession(c))
  {
  }

  lemma NoneOwned()
    ensures OwnedBy([]) == {}
  {
  }

  /** The objects a session's streams share. */
  datatype Parts = Parts(rtpCipher: Icm, rtpAuth: HmacContext, limit: KeyLimit, rtcpCipher: Icm, rtcpAuth: HmacContext) {
    ghost predicate Distinct() {
      && rtpCipher != rtcpCipher && rtpAuth.Footprint() !! rtcpAuth.Footprint()
      && rtpAuth.Apart() && rtcpAuth.Apart()
    }

    ghost function Objects(): set<object> {
      {rtpCipher, rtcpCipher} + rtpAuth.Footprint() + rtcpAuth.Footprint() + {limit}
    }

    /** One block of memory each. */
    ghost function Blocks(): set<object> {
      {rtpCipher, rtpAuth, limit, rtcpCipher, rtcpAuth}
    }
  }

  lemma FiveBlocks(parts: Parts)
    requires parts.Distinct()
    ensures |parts.Blocks()| == 5
  {
    var a: object, b: object, c: object, d: object, e: object
      := parts.rtpCipher, parts.rtpAuth, parts.limit, parts.rtcpCipher, parts.rtcpAuth;
    assert parts.rtpAuth in parts.rtpAuth.Footprint() && parts.rtcpAuth in parts.rtcpAuth.Footprint();
    assert b != e;
    assert parts.Blocks() == {a} + {b} + {c} + {d} + {e};
  }

  lemma PartsInside(kernel: Kernel, parts: Parts)
    ensures kernel !in parts.Objects()
    ensures parts.limit in parts.Objects()
    ensures parts.rtpAuth.Footprint() <= parts.Objects() && parts.rtcpAuth.Footprint() <= parts.Objects()
    ensures parts.rtpCipher !in parts.rtpAuth.Footprint() + parts.rtcpAuth.Footprint()
    ensures parts.rtcpCipher !in parts.rtpAuth.Footprint() + parts.rtcpAuth.Footprint()
  {
  }

  ghost predicate WrongRtcpTag(c: Crypto, sealed: seq<bv8>)
    requires WellKeyed(c) && |sealed| >= c.tagLen
  {
    var n := |sealed| - c.tagLen;
    sealed[n..] != RtcpTag(c, sealed[..n])
  }

  lemma RightTag(c: Crypto, sealed: seq<bv8>)
    requires WellKeyed(c) && |sealed| >= c.tagLen && !WrongRtcpTag(c, sealed)
    ensures sealed[|sealed| - c.tagLen..] == RtcpTag(c, sealed[..|sealed| - c.tagLen])
  {
  }

  lemma RtcpTagDecides(c: Crypto, sealed: seq<bv8>)
    requires |sealed| >= RTCP_HEADER + TRAILER + c.tagLen && WellKeyed(c)
    ensures OpenRtcp(c, sealed) == BadTag <==> WrongRtcpTag(c, sealed)
  {
    hide RtcpTag, CryptPayload, RtcpSsrcOf, RtcpIndexOf, RtcpEncrypted;
  }

  /** What srtp_unprotect_rtcp makes of a packet whose index has passed the replay check. */
  ghost function AfterRtcpCheck(p: Policy, s: SessionState, i: nat, pkt: seq<bv8>): Outcome
    requires Good(p, s) && |pkt| >= RTCP_HEADER + TRAILER + p.rtcp.tagLen && i <= |s.streams|
    requires RtcpWindowOf(s, i).start <= RtcpIndexOf(p.rtcp, pkt)
  {
    match OpenRtcp(p.rtcp, pkt)
    case BadTag => Outcome(AuthFail, s, pkt)
    case BadPayload => Outcome(CipherFail, s, pkt)
    case Authentic(plain) => Outcome(Ok, AcceptRtcp(p, s, i, RtcpSsrcOf(pkt), RtcpIndexOf(p.rtcp, pkt)), plain)
  }

  /** The outcome of UnprotectRtcp, written out. */
  lemma UnprotectRtcpParts(p: Policy, s: SessionState, pkt: seq<bv8>)
    requires Good(p, s) && |pkt| >= RTCP_HEADER + TRAILER + p.rtcp.tagLen
    ensures var o := SrtpSteps.UnprotectRtcp(p, s, pkt);
            var i := Find(s.streams, RtcpSsrcOf(pkt));
            var index := RtcpIndexOf(p.rtcp, pkt);
            && RD.WellFormed(RtcpWindowOf(s, i))
            && var check := RD.CheckIndex(RtcpWindowOf(s, i), index);
               if check != Ok then o == Outcome(check, s, pkt)
               else RtcpWindowOf(s, i).start <= index && o == AfterRtcpCheck(p, s, i, pkt)
  {
    hide OpenRtcp, RtcpSsrcOf, RtcpIndexOf, AcceptRtcp, Find;
  }

  /** AcceptRtcp on the values, step by step. */
  lemma AcceptRtcpKnownIs(p: Policy, s: SessionState, i: nat, ssrc: Ssrc, index: nat)
    requires Good(p, s) && i < |s.streams| && s.streams[i].rtcpWindow.start <= index < E_BIT
    ensures var v := s.streams[i];
            var claimed := Report(Replace(s, i, v.(direction := Claimed(v.direction, DirReceiver))),
                                  CollisionEvents(v.direction, DirReceiver, v.ssrc));
            && GoodStream(p, v)
            && |claimed.streams| == |s.streams|
            && GoodStream(p, claimed.streams[i]) && claimed.streams[i].rtcpWindow == v.rtcpWindow
            && AcceptRtcp(p, s, i, ssrc, index)
               == Replace(claimed, i, claimed.streams[i].(rtcpWindow := RD.AddIndex(claimed.streams[i].rtcpWindow, index)))
  {
    hide RD.AddIndex;
  }

  lemma AcceptRtcpNewIs(p: Policy, s: SessionState, ssrc: Ssrc, index: nat)
    requires Good(p, s) && index < E_BIT
    ensures var d := Claimed(s.templateDirection, DirReceiver);
            var claimed := Report(s.(templateDirection := d), CollisionEvents(s.templateDirection, DirReceiver, p.templateSsrc));
            var cloned := Prepend(claimed, SrtpSteps.Clone(p, d, ssrc));
            && claimed.templateDirection == d
            && cloned.streams != [] && GoodStream(p, cloned.streams[0]) && cloned.streams[0].rtcpWindow.start == 0
            && AcceptRtcp(p, s, |s.streams|, ssrc, index)
               == Replace(cloned, 0, cloned.streams[0].(rtcpWindow := RD.AddIndex(cloned.streams[0].rtcpWindow, index)))
  {
    hide RD.AddIndex, RX.EmptyWindow;
  }

  /** A packet whose estimated index has passed the replay check. */
  ghost predicate Checked(p: Policy, s: SessionState, i: nat, delta: int, est: nat, pkt: seq<bv8>) {
    && Good(p, s) && |pkt| >= RTP_HEADER && est < INDEX_MAX && i <= |s.streams|
    && (if i < |s.streams| then -delta < |s.streams[i].window.bits| else 0 <= delta)
  }

  /** What srtp_unprotect then makes of it. */
  ghost function AfterCheck(p: Policy, s: SessionState, i: nat, delta: int, est: nat, pkt: seq<bv8>): Outcome
    requires Checked(p, s, i, delta, est, pkt)
  {
    var result := Open(p.rtp, p.rtpConf, p.rtpAuth, est, pkt);
    var used := UseKey(s, if i < |s.streams| then s.streams[i].ssrc else p.templateSsrc);
    if result == BadTag then Outcome(AuthFail, s, pkt)
    else if KeyUsedUp(s) then Outcome(KeyExpired, used, pkt)
    else if result == BadPayload then Outcome(CipherFail, used, pkt)
    else Outcome(Ok, Accept(p, used, i, SsrcOf(pkt), delta), result.pkt)
  }

  lemma CheckedIs(p: Policy, s: SessionState, i: nat, delta: int, est: nat, pkt: seq<bv8>)
    requires Good(p, s) && |pkt| >= RTP_HEADER && est < INDEX_MAX && i <= |s.streams|
    requires -delta < p.windowLen && (i == |s.streams| ==> 0 <= delta)
    ensures Checked(p, s, i, delta, est, pkt)
    ensures var used := UseKey(s, if i < |s.streams| then s.streams[i].ssrc else p.templateSsrc);
            Good(p, used) && used.streams == s.streams
  {
    assert i < |s.streams| ==> GoodStream(p, s.streams[i]);
  }

  /** The outcome of Unprotect, written out. */
  lemma UnprotectParts(p: Policy, s: SessionState, pkt: seq<bv8>)
    requires Good(p, s)
    ensures var o := SrtpSteps.Unprotect(p, s, pkt);
            if |pkt| < RTP_HEADER then o == Outcome(BadParam, s, pkt)
            else
              var i := Find(s.streams, SsrcOf(pkt));
              var e := ReceiverEstimate(s, i, SeqOf(pkt));
              var check := if i < |s.streams| then RX.CheckDelta(s.streams[i].window, e.delta) else Ok;
              e.guess < INDEX_MAX &&
              if check != Ok then o == Outcome(check, s, pkt)
              else
                && -e.delta < p.windowLen && (i == |s.streams| ==> 0 <= e.delta)
                && Checked(p, s, i, e.delta, e.guess, pkt)
                && o == AfterCheck(p, s, i, e.delta, e.guess, pkt)
  {
    hide Open, SsrcOf, SeqOf, Accept, RX.EstimateIndex, Find;
    if |pkt| >= RTP_HEADER {
      var i := Find(s.streams, SsrcOf(pkt));
      if i < |s.streams| {
        RX.GuessIs48Bit(s.streams[i].window.index, SeqOf(pkt));
      }
    }
  }

  /** Accept on the values, step by step. */
  lemma AcceptKnownIs(p: Policy, s: SessionState, i: nat, ssrc: Ssrc, delta: int)
    requires Good(p, s) && i < |s.streams| && -delta < p.windowLen
    ensures var v := s.streams[i];
            var claimed := Report(Replace(s, i, v.(direction := Claimed(v.direction, DirReceiver))),
                                  CollisionEvents(v.direction, DirReceiver, v.ssrc));
            && GoodStream(p, v) && -delta < |v.window.bits|
            && |claimed.streams| == |s.streams|
            && GoodStream(p, claimed.streams[i])
            && Accept(p, s, i, ssrc, delta)
               == Replace(claimed, i, claimed.streams[i].(window := RX.AddDelta(claimed.streams[i].window, delta)))
  {
    hide RX.AddDelta;
  }

  lemma AcceptNewIs(p: Policy, s: SessionState, ssrc: Ssrc, delta: nat)
    requires Good(p, s)
    ensures var d := Claimed(s.templateDirection, DirReceiver);
            var claimed := Report(s.(templateDirection := d), CollisionEvents(s.templateDirection, DirReceiver, p.templateSsrc));
            var cloned := Prepend(claimed, SrtpSteps.Clone(p, d, ssrc));
            && claimed.templateDirection == d && p.windowLen > 0
            && cloned.streams != [] && GoodStream(p, cloned.streams[0])
            && Accept(p, s, |s.streams|, ssrc, delta)
               == Replace(cloned, 0, cloned.streams[0].(window := RX.AddDelta(cloned.streams[0].window, delta)))
  {
    hide RX.AddDelta, RX.EmptyWindow, RD.EmptyWindow;
  }

  /** A tag is expected, and the packet carries another one. */
  ghost predicate WrongTag(c: Crypto, auth: bool, index: nat, sealed: seq<bv8>)
    requires index < INDEX_MAX && |sealed| >= RTP_HEADER && WellKeyed(c)
  {
    var n := |sealed| - c.tagLen;
    auth && sealed[n..] != RtpTag(c, index, sealed[..n])
  }

  /** BadTag stands for the tag alone; with a good tag the rest decides. */
  lemma TagDecides(c: Crypto, conf: bool, auth: bool, index: nat, sealed: seq<bv8>)
    requires index < INDEX_MAX && |sealed| >= RTP_HEADER && WellKeyed(c)
    ensures var bad := WrongTag(c, auth, index, sealed);
            var whole, rest := Open(c, conf, auth, index, sealed), Open(c, conf, false, index, sealed);
            && (whole == BadTag <==> bad)
            && (!bad ==> whole == rest && rest != BadTag)
  {
    hide RtpTag, PayloadStart, CryptPayload;
  }

  /** The outcome of ProtectOn, written out. */
  lemma ProtectOnParts(p: Policy, s: SessionState, i: nat, pkt: seq<bv8>)
    requires Good(p, s) && i < |s.streams| && |pkt| >= RTP_HEADER
    ensures var v := s.streams[i];
            var e := RX.EstimateIndex(v.window.index, SeqOf(pkt));
            var check := RX.CheckDelta(v.window, e.delta);
            var (event, limit) := Update(s.limit);
            var window := if event != EventHardLimit && check == Ok then RX.AddDelta(v.window, e.delta) else v.window;
            var o := ProtectOn(p, s, i, pkt);
            && e.guess < INDEX_MAX
            && o.status == (if event == EventHardLimit then KeyExpired
                            else if check != Ok && (check != ReplayFail || !p.allowRepeat) then check
                            else if p.rtpConf && !PayloadFits(pkt) then CipherFail else Ok)
            && o.session.templateDirection == s.templateDirection
            && o.session.streams == s.streams[i := v.(direction := Claimed(v.direction, DirSender), window := window)]
            && o.session.limit == limit
            && o.session.events == s.events + CollisionEvents(v.direction, DirSender, v.ssrc) + LimitEvents(event, v.ssrc)
            && o.pkt == if o.status == Ok then Seal(p.rtp, p.rtpConf, p.rtpAuth, e.guess, pkt) else pkt
  {
    hide RX.EstimateIndex, RX.AddDelta, RX.CheckDelta, Update, Seal, PayloadFits, SeqOf;
    RX.GuessIs48Bit(s.streams[i].window.index, SeqOf(pkt));
  }

  /** The outcome of ProtectRtcpOn, written out. */
  lemma ProtectRtcpOnParts(p: Policy, s: SessionState, i: nat, pkt: seq<bv8>)
    requires Good(p, s) && i < |s.streams| && |pkt| >= RTCP_HEADER
    ensures var v := s.streams[i];
            var (counted, index) := RD.Increment(v.rtcpWindow.start);
            var o := ProtectRtcpOn(p, s, i, pkt);
            && o.status == (if counted != Ok then counted else if p.rtcpConf && !RtcpFits(pkt) then CipherFail else Ok)
            && (counted == Ok ==> index <= E_BIT)
            && o.session.templateDirection == s.templateDirection
            && o.session.streams == s.streams[i := v.(direction := Claimed(v.direction, DirSender),
                                                      rtcpWindow := v.rtcpWindow.(start := index))]
            && o.session.limit == s.limit
            && o.session.events == s.events + CollisionEvents(v.direction, DirSender, v.ssrc)
            && o.pkt == if o.status == Ok then SealRtcp(p.rtcp, p.rtcpConf, index, pkt) else pkt
  {
    hide SealRtcp, RtcpFits;
  }
}
