/**
 Senders that count their sequence numbers up, as a sender is meant to: their keystream is never
 reused, also under a policy that allows repeats, and whatever else the session does.
 */
module SrtpSenders {
  import opened Status
  import opened Bytes
  import opened CounterMode
  import opened KeyLimits
  import opened Packets
  import opened Sequences
  import opened SrtpDelivery
  import opened SrtpKeystream
  import opened SrtpRuns
  import opened SrtpSteps
  import opened SrtpStreams
  import RX = ReplayExtended

  /** The stream protects some packet in this run. */
  ghost predicate SendsIn(ssrc: Ssrc, calls: seq<Call>) {
    exists i :: 0 <= i < |calls| && calls[i].CallProtect? && RtpCallOf(calls[i], ssrc)
  }

  /** Stream `ssrc` only sends, with indices that count up from `t`, the next one its window expects. */
  ghost predicate CountsFrom(p: Policy, s: SessionState, ssrc: Ssrc, t: nat, calls: seq<Call>) {
    && OnlySends(ssrc, calls)
    && SendsNext(p, s, ssrc, t)
    && PacketsFrom(p, ssrc, t, RtpPackets(ssrc, calls))
    && t + |RtpPackets(ssrc, calls)| <= INDEX_MAX
  }

  /** So does every stream that sends at all; those that only receive may do anything. */
  ghost predicate Counting(p: Policy, s: SessionState, first: Ssrc -> nat, calls: seq<Call>) {
    forall y :: SendsIn(y, calls) ==> CountsFrom(p, s, y, first(y), calls)
  }

  /** The index the sender expects is the one it encrypts under. */
  lemma SenderIndexIs(p: Policy, s: SessionState, ssrc: Ssrc, t: nat, pkt: seq<bv8>)
    requires Good(p, s) && SendsNext(p, s, ssrc, t) && PacketFor(p, ssrc, t, pkt) && t < INDEX_MAX
    ensures SenderIndex(p, s, pkt) == t
  {
    hide PayloadFits, SeqOf, SsrcOf, Lookup, RX.EstimateIndex, RX.EmptyWindow;
    SenderHasWindow(p, s, ssrc);
    if LookupWindow(p, s, ssrc).index + 1 == t {
      NextIsExact(t - 1);
    } else {
      FirstIndex(p.windowLen, t);
    }
  }

  /** A call of another stream, or none that protects or unprotects, leaves the count where it was. */
  lemma CountsOn(p: Policy, s: SessionState, ssrc: Ssrc, t: nat, calls: seq<Call>)
    requires Good(p, s) && calls != [] && Callable(p, calls[0]) && !RtpCallOf(calls[0], ssrc)
    requires CountsFrom(p, s, ssrc, t, calls)
    ensures CountsFrom(p, Step(p, s, calls[0]).session, ssrc, t, calls[1..])
  {
    hide Step, SendsNext, PacketsFrom, RtpCallOf, LookupWindow;
    StepKeepsWindow(p, s, calls[0], ssrc);
    StillNext(p, s, Step(p, s, calls[0]).session, ssrc, t);
  }

  /** A packet of the stream goes out under the next index. */
  lemma CountsUpOne(p: Policy, s: SessionState, ssrc: Ssrc, t: nat, calls: seq<Call>)
    requires Good(p, s) && calls != [] && Callable(p, calls[0])
    requires calls[0].CallProtect? && RtpCallOf(calls[0], ssrc) && !KeyUsedUp(s)
    requires CountsFrom(p, s, ssrc, t, calls)
    ensures PacketFor(p, ssrc, t, calls[0].pkt) && t < INDEX_MAX
    ensures SenderIndex(p, s, calls[0].pkt) == t
    ensures CountsFrom(p, Step(p, s, calls[0]).session, ssrc, t + 1, calls[1..])
  {
    hide Step, Protect, SendsNext, PacketsFrom, PacketFor, LookupWindow, SenderIndex, KeyUsedUp, Seal;
    PacketsTail(p, ssrc, t, RtpPackets(ssrc, calls));
    assert RtpPackets(ssrc, calls)[1..] == RtpPackets(ssrc, calls[1..]);
    SenderIndexIs(p, s, ssrc, t, calls[0].pkt);
    StepIsProtect(p, s, calls[0]);
    SendOne(p, s, ssrc, t, calls[0].pkt);
  }

  /** Where the streams will go on counting after the first call of the run. */
  function NextFirst(first: Ssrc -> nat, c: Call): Ssrc -> nat {
    (y: Ssrc) => if c.CallProtect? && RtpCallOf(c, y) then first(y) + 1 else first(y)
  }

  lemma SendsInRest(ssrc: Ssrc, calls: seq<Call>)
    requires calls != []
    ensures SendsIn(ssrc, calls[1..]) ==> SendsIn(ssrc, calls)
    ensures calls[0].CallProtect? && RtpCallOf(calls[0], ssrc) ==> SendsIn(ssrc, calls)
  {
    hide RtpCallOf;
    if SendsIn(ssrc, calls[1..]) {
      var i :| 0 <= i < |calls[1..]| && calls[1..][i].CallProtect? && RtpCallOf(calls[1..][i], ssrc);
      assert calls[i + 1] == calls[1..][i];
    }
  }

  lemma CountingStep(p: Policy, s: SessionState, first: Ssrc -> nat, calls: seq<Call>)
    requires Good(p, s) && calls != [] && Callable(p, calls[0]) && Counting(p, s, first, calls)
    requires UsesKey(p, s, calls[0]) ==> !KeyUsedUp(s)
    ensures Counting(p, Step(p, s, calls[0]).session, NextFirst(first, calls[0]), calls[1..])
  {
    hide Step, SendsIn, RtpCallOf, CountsFrom, UsesKey, KeyUsedUp, Callable;
    var c := calls[0];
    forall y | SendsIn(y, calls[1..])
      ensures CountsFrom(p, Step(p, s, c).session, y, NextFirst(first, c)(y), calls[1..])
    {
      SendsInRest(y, calls);
      if RtpCallOf(c, y) {
        OnlySendsHead(p, s, y, first(y), calls);
        SendUsesKey(p, s, c, y);
        CountsUpOne(p, s, y, first(y), calls);
      } else {
        CountsOn(p, s, y, first(y), calls);
      }
    }
  }

  lemma OnlySendsHead(p: Policy, s: SessionState, ssrc: Ssrc, t: nat, calls: seq<Call>)
    requires calls != [] && CountsFrom(p, s, ssrc, t, calls) && RtpCallOf(calls[0], ssrc)
    ensures calls[0].CallProtect?
  {
  }

  /** The labels of the first call carry the index its stream has come to. */
  lemma CallLabelsCount(p: Policy, s: SessionState, first: Ssrc -> nat, calls: seq<Call>)
    requires Good(p, s) && calls != [] && Callable(p, calls[0]) && Counting(p, s, first, calls)
    requires UsesKey(p, s, calls[0]) ==> !KeyUsedUp(s)
    ensures Distinct(CallLabels(p, s, calls[0]))
    ensures forall l :: l in CallLabels(p, s, calls[0]) ==>
              l.index == first(l.ssrc) && NextFirst(first, calls[0])(l.ssrc) == l.index + 1
  {
    hide Protect, CallBlocks, SenderIndex, CountsFrom, KeyUsedUp, SendsIn;
    var c := calls[0];
    if Encrypts(p, s, c) {
      SendsInRest(SsrcOf(c.pkt), calls);
      CountsUpOne(p, s, SsrcOf(c.pkt), first(SsrcOf(c.pkt)), calls);
    }
  }

  lemma {:induction false} CountingLabels(p: Policy, s: SessionState, first: Ssrc -> nat, calls: seq<Call>)
    requires Good(p, s) && forall i :: 0 <= i < |calls| ==> Callable(p, calls[i])
    requires Counting(p, s, first, calls) && MoreLeft(s, Uses(p, s, calls))
    ensures Distinct(RunLabels(p, s, calls))
    ensures forall l :: l in RunLabels(p, s, calls) ==> l.index >= first(l.ssrc)
    decreases |calls|
  {
    hide Step, CallLabels, Counting, Uses, UsesKey, MoreLeft, KeyUsedUp, RtpCallOf;
    if calls != [] {
      var c := calls[0];
      var s', first' := Step(p, s, c).session, NextFirst(first, c);
      MoreLeftForRest(p, s, calls);
      CountingStep(p, s, first, calls);
      CallLabelsCount(p, s, first, calls);
      CountingLabels(p, s', first', calls[1..]);
      assert forall y :: first'(y) >= first(y);
      DistinctSum(CallLabels(p, s, c), RunLabels(p, s', calls[1..]));
    }
  }

  /**
   Under any policy, one that allows repeats among them, and in any session: as long as every
   stream that sends counts its sequence numbers up, no keystream is used twice, over any
   number of rollovers and whatever other streams receive meanwhile.
   */
  lemma CountingNeverReuses(p: Policy, s: SessionState, first: Ssrc -> nat, calls: seq<Call>)
    requires Good(p, s) && forall i :: 0 <= i < |calls| ==> Callable(p, calls[i])
    requires Counting(p, s, first, calls) && MoreLeft(s, Uses(p, s, calls))
    ensures Distinct(RunBlocks(p, s, calls))
  {
    hide RunBlocks, RunLabels, Counting, Labelled, Uses, MoreLeft;
    RunLabelled(p, s, calls);
    CountingLabels(p, s, first, calls);
    DistinctBlocks(p.rtp, RunLabels(p, s, calls), RunBlocks(p, s, calls));
  }

  // ---- a repeat that is let through ----

  lemma WindowAfterSend(p: Policy, s: SessionState, pkt: seq<bv8>)
    requires Good(p, s) && |pkt| >= RTP_HEADER && !KeyUsedUp(s)
    requires var w := LookupWindow(p, s, SsrcOf(pkt));
             RX.WellFormed(w) ==> RX.CheckDelta(w, RX.EstimateIndex(w.index, SeqOf(pkt)).delta) == Ok
    ensures var w := LookupWindow(p, s, SsrcOf(pkt));
            && RX.WellFormed(w)
            && -RX.EstimateIndex(w.index, SeqOf(pkt)).delta < |w.bits|
            && LookupWindow(p, Protect(p, s, pkt).session, SsrcOf(pkt))
               == RX.AddDelta(w, RX.EstimateIndex(w.index, SeqOf(pkt)).delta)
    ensures Protect(p, s, pkt).status == if p.rtpConf && !PayloadFits(pkt) then CipherFail else Ok
    ensures SenderIndex(p, s, pkt) == RX.EstimateIndex(LookupWindow(p, s, SsrcOf(pkt)).index, SeqOf(pkt)).guess
  {
    hide Protect, Seal, PayloadFits, SeqOf, SsrcOf, Lookup, KeyUsedUp, RX.EstimateIndex, RX.AddDelta, RX.EmptyWindow;
    SenderHasWindow(p, s, SsrcOf(pkt));
    ProtectEffect(p, s, pkt);
  }

  /** One packet sent: the key has one use less, and its first label is that of its index. */
  lemma SendPayload(p: Policy, s: SessionState, pkt: seq<bv8>, n: nat)
    requires Good(p, s) && p.rtpConf && SendsPayload(CallProtect(pkt)) && MoreLeft(s, n + 1)
    requires var w := LookupWindow(p, s, SsrcOf(pkt));
             RX.WellFormed(w) ==> RX.CheckDelta(w, RX.EstimateIndex(w.index, SeqOf(pkt)).delta) == Ok
    ensures !KeyUsedUp(s) && MoreLeft(Protect(p, s, pkt).session, n)
    ensures CallLabels(p, s, CallProtect(pkt)) != []
    ensures CallLabels(p, s, CallProtect(pkt))[0] == Label(SsrcOf(pkt), SenderIndex(p, s, pkt), 0)
  {
    hide Protect, CallLabels, PayloadFits, PayloadStart, SeqOf, SsrcOf, LookupWindow, KeyUsedUp, SenderIndex, Update;
    hide RX.CheckDelta, RX.EstimateIndex, RX.AddDelta;
    LimitNotReached(s);
    ProtectLimit(p, s, pkt);
    WindowAfterSend(p, s, pkt);
    EncryptsSome(p, s, pkt);
  }

  /**
   Packets with sequence numbers 65535, 0 and again 65535 on a new stream: the third is late
   across a rollover, and is encrypted under the index of the first, under every policy.
   */
  lemma LateRepeatReuses(p: Policy, s: SessionState, a: seq<bv8>, b: seq<bv8>, c: seq<bv8>)
    requires Good(p, s) && s.streams == [] && p.rtpConf && MoreLeft(s, 3)
    requires SendsPayload(CallProtect(a)) && SendsPayload(CallProtect(b)) && SendsPayload(CallProtect(c))
    requires SsrcOf(a) == SsrcOf(b) == SsrcOf(c)
    requires SeqOf(a) == 0xffff && SeqOf(b) == 0 && SeqOf(c) == 0xffff
    ensures !Distinct(RunBlocks(p, s, [CallProtect(a), CallProtect(b), CallProtect(c)]))
  {
    hide Protect, CallLabels, PayloadFits, PayloadStart, SeqOf, SsrcOf, LookupWindow, KeyUsedUp, SenderIndex, RunBlocks, MoreLeft;
    hide RX.CheckDelta, RX.EstimateIndex, RX.AddDelta, RX.EmptyWindow;
    var calls := [CallProtect(a), CallProtect(b), CallProtect(c)];
    LateRepeatPasses(p.windowLen);
    NewStream(p, s, SsrcOf(a));
    FirstIndex(p.windowLen, 0xffff);
    SendPayload(p, s, a, 2);
    WindowAfterSend(p, s, a);
    var s1 := Protect(p, s, a).session;
    ForwardPasses(LookupWindow(p, s1, SsrcOf(a)), 1);
    SendPayload(p, s1, b, 1);
    WindowAfterSend(p, s1, b);
    var s2 := Protect(p, s1, b).session;
    SendPayload(p, s2, c, 0);
    WindowAfterSend(p, s2, c);
    var la, lb, lc := CallLabels(p, s, calls[0]), CallLabels(p, s1, calls[1]), CallLabels(p, s2, calls[2]);
    assert la[0] == lc[0];
    ThreeCalls(p, s, a, b, c);
    assert (la + lb + lc)[0] == (la + lb + lc)[|la + lb|];
    ReuseIffIndexRepeats(p, s, calls);
  }

  lemma NewStream(p: Policy, s: SessionState, ssrc: Ssrc)
    requires Good(p, s) && s.streams == []
    ensures LookupWindow(p, s, ssrc) == RX.EmptyWindow(p.windowLen)
  {
  }

  lemma RunLabelsCons(p: Policy, s: SessionState, pkt: seq<bv8>, rest: seq<Call>)
    requires Good(p, s) && forall i :: 0 <= i < |rest| ==> rest[i].CallProtect?
    ensures RunLabels(p, s, [CallProtect(pkt)] + rest)
            == CallLabels(p, s, CallProtect(pkt)) + RunLabels(p, Protect(p, s, pkt).session, rest)
  {
    hide Protect, CallLabels;
    assert ([CallProtect(pkt)] + rest)[1..] == rest;
  }

  lemma ThreeCalls(p: Policy, s: SessionState, a: seq<bv8>, b: seq<bv8>, c: seq<bv8>)
    requires Good(p, s)
    ensures var s1 := Protect(p, s, a).session;
            var s2 := Protect(p, s1, b).session;
            RunLabels(p, s, [CallProtect(a), CallProtect(b), CallProtect(c)])
            == CallLabels(p, s, CallProtect(a)) + CallLabels(p, s1, CallProtect(b)) + CallLabels(p, s2, CallProtect(c))
  {
    hide Protect, CallLabels, RunLabels, Good, Callable, PacketLabels;
    var s1 := Protect(p, s, a).session;
    var s2 := Protect(p, s1, b).session;
    var x, y, z := CallProtect(a), CallProtect(b), CallProtect(c);
    assert [x] + [y, z] == [x, y, z] && [y] + [z] == [y, z] && [z] + [] == [z];
    RunLabelsCons(p, s, a, [y, z]);
    RunLabelsCons(p, s1, b, [z]);
    RunLabelsCons(p, s2, c, []);
    NoLabels(p, Protect(p, s2, c).session);
  }

  lemma NoLabels(p: Policy, s: SessionState)
    requires Good(p, s)
    ensures RunLabels(p, s, []) == []
  {
  }
}
