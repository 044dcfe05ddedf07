/**
 The extended replay database: a 64-bit packet index of which only 16 bits travel on the
 wire, and a sliding bitmask of the recently accepted indices.
 */
module ReplayExtended {
  import opened Status
  import opened Bytes
  import opened BitVectors
  import opened Sequences

  const SEQ_MEDIAN: nat := 0x8000
  const SEQ_MAX: nat := 0x10000
  const ROC_MAX: nat := 0x1_0000_0000

  type SeqNum = s: nat | s < SEQ_MAX

  // ---- estimating the index from 16 bits ----

  /** A guessed packet index, and the difference the code returns beside it. */
  datatype Estimate = Estimate(delta: int, guess: nat)

  /** index_guess: `delta` is what the function returns, `guess` what it stores. */
  function IndexGuess(local: nat, s: SeqNum): Estimate {
    var localRoc, localSeq := local / SEQ_MAX % ROC_MAX, local % SEQ_MAX;
    if localSeq < SEQ_MEDIAN then
      if s - localSeq > SEQ_MEDIAN then
        Estimate(SEQ_MAX - s + localSeq, (localRoc - 1) % ROC_MAX * SEQ_MAX + s)
      else
        Estimate(s - localSeq, localRoc * SEQ_MAX + s)
    else if localSeq - SEQ_MEDIAN > s then
      Estimate(SEQ_MAX - localSeq + s, (localRoc + 1) % ROC_MAX * SEQ_MAX + s)
    else
      Estimate(s - localSeq, localRoc * SEQ_MAX + s)
  }

  /** rdbx_estimate_index */
  function EstimateIndex(index: nat, s: SeqNum): Estimate {
    if index > SEQ_MEDIAN then IndexGuess(index, s) else Estimate(s - index % SEQ_MAX, s)
  }

  lemma GuessIs48Bit(index: nat, s: SeqNum)
    ensures EstimateIndex(index, s).guess < INDEX_MAX
  {
    var roc := index / SEQ_MAX % ROC_MAX;
    assert 0 <= roc < ROC_MAX && 0 <= (roc + 1) % ROC_MAX < ROC_MAX && 0 <= (roc - 1) % ROC_MAX < ROC_MAX;
  }

  /** Index and sequence number sit on either side of a rollover, the sequence number on the older side. */
  predicate LateAcrossRollover(index: nat, s: SeqNum) {
    index > SEQ_MEDIAN && index % SEQ_MAX < SEQ_MEDIAN && s - index % SEQ_MAX > SEQ_MEDIAN
  }

  /** The sequence number sits on the newer side of a rollover. */
  predicate AheadAcrossRollover(index: nat, s: SeqNum) {
    index % SEQ_MAX - SEQ_MEDIAN > s
  }

  /** A 48-bit index, from which the guess need not be carried beyond 48 bits. */
  predicate Guessable(index: nat, s: SeqNum) {
    index < INDEX_MAX && (AheadAcrossRollover(index, s) ==> index + SEQ_MAX < INDEX_MAX)
  }

  lemma SameResidueDistance(a: nat, b: nat)
    requires a % SEQ_MAX == b % SEQ_MAX && a != b
    ensures Abs(a - b) >= SEQ_MAX
  {
    assert a - b == (a / SEQ_MAX - b / SEQ_MAX) * SEQ_MAX;
  }

  /** Where the guess lies relative to the index, and what the returned difference says about it. */
  lemma EstimateLocates(index: nat, s: SeqNum)
    requires Guessable(index, s)
    ensures var e := EstimateIndex(index, s);
            && e.guess % SEQ_MAX == s
            && e.guess < INDEX_MAX
            && e.delta == (if LateAcrossRollover(index, s) then index - e.guess else e.guess - index)
            && (index > SEQ_MEDIAN ==> Abs(e.guess - index) <= SEQ_MEDIAN)
            && (index <= SEQ_MEDIAN ==> e.guess == s)
            && (LateAcrossRollover(index, s) ==> e.guess < index)
            && -0x8000 <= e.delta < SEQ_MAX
  {
    var roc := index / SEQ_MAX;
    assert index == roc * SEQ_MAX + index % SEQ_MAX;
    assert roc < ROC_MAX;
    assert AheadAcrossRollover(index, s) ==> roc < ROC_MAX - 1;
    var e := EstimateIndex(index, s);
    if index > SEQ_MEDIAN {
      assert roc % ROC_MAX == roc;
      if index % SEQ_MAX < SEQ_MEDIAN {
        assert roc > 0;
      }
      assert e.guess == roc * SEQ_MAX + s || e.guess == (roc - 1) * SEQ_MAX + s || e.guess == (roc + 1) * SEQ_MAX + s;
    }
  }

  /** The condition is exact: otherwise the guess wraps to the other end of the 48 bits. */
  lemma GuessIsNearIff(index: nat, s: SeqNum)
    requires SEQ_MEDIAN < index < INDEX_MAX
    ensures Abs(EstimateIndex(index, s).guess - index) <= SEQ_MEDIAN <==> Guessable(index, s)
  {
    if Guessable(index, s) {
      EstimateLocates(index, s);
    } else {
      assert index / SEQ_MAX == ROC_MAX - 1;
      assert EstimateIndex(index, s).guess == s;
    }
  }

  /** The guess is a closest index, among all that have the sequence number of the packet. */
  lemma EstimateIsClosest(index: nat, s: SeqNum, other: nat)
    requires Guessable(index, s)
    requires other % SEQ_MAX == s
    ensures EstimateIndex(index, s).guess % SEQ_MAX == s
    ensures Abs(EstimateIndex(index, s).guess - index) <= Abs(other - index)
  {
    EstimateLocates(index, s);
    var g := EstimateIndex(index, s).guess;
    if other != g {
      SameResidueDistance(other, g);
    }
  }

  /** Any true 48-bit index less than 2^15 away is recovered from its low 16 bits. */
  lemma EstimateRecovers(index: nat, actual: nat)
    requires index < INDEX_MAX && actual < INDEX_MAX && Abs(actual - index) < SEQ_MEDIAN
    ensures Guessable(index, actual % SEQ_MAX)
    ensures EstimateIndex(index, actual % SEQ_MAX).guess == actual
  {
    NearIsGuessable(index, actual);
    EstimateLocates(index, actual % SEQ_MAX);
    var g := EstimateIndex(index, actual % SEQ_MAX).guess;
    if g != actual {
      SameResidueDistance(g, actual);
    }
  }

  lemma NearIsGuessable(index: nat, actual: nat)
    requires index < INDEX_MAX && actual < INDEX_MAX && Abs(actual - index) < SEQ_MEDIAN
    ensures Guessable(index, actual % SEQ_MAX)
  {
    if AheadAcrossRollover(index, actual % SEQ_MAX) {
      var i, j := index / SEQ_MAX, actual / SEQ_MAX;
      assert index == i * SEQ_MAX + index % SEQ_MAX && actual == j * SEQ_MAX + actual % SEQ_MAX;
      assert i < j < ROC_MAX;
    }
  }

  /**
   The documented result, "the difference between guess and local", is returned exactly
   when the packet is not late across a rollover.
   */
  lemma DeltaIsDifferenceIff(index: nat, s: SeqNum)
    requires Guessable(index, s)
    ensures var e := EstimateIndex(index, s);
            (e.delta == e.guess - index) <==> !LateAcrossRollover(index, s)
  {
    EstimateLocates(index, s);
  }

  /** A late packet just after a rollover: the guess is one below the index, the returned difference is +1. */
  lemma LateDeltaHasWrongSign()
    ensures EstimateIndex(0x10000, 0xffff) == Estimate(1, 0xffff)
  {
  }

  // ---- the sliding window ----

  datatype Window = Window(index: nat, bits: seq<bool>)

  predicate WellFormed(w: Window) {
    w.index < UINT64 && 0 < |w.bits| <= 0x8000_0000
  }

  function EmptyWindow(len: nat): (w: Window)
    ensures 0 < len <= 0x8000_0000 ==> WellFormed(w)
    ensures |w.bits| == len
  {
    Window(0, seq(len, _ => false))
  }

  /** rdbx_check */
  function CheckDelta(w: Window, delta: int): Status
    requires WellFormed(w)
  {
    var at := |w.bits| - 1 + delta;
    if delta > 0 then Ok
    else if at < 0 then ReplayOld
    else if w.bits[at] then ReplayFail
    else Ok
  }

  /** rdbx_add_index; the advance of the index sees only 16 bits of `delta`, the shift sees all of it. */
  function AddDelta(w: Window, delta: int): (w': Window)
    requires WellFormed(w) && -delta < |w.bits|
    ensures WellFormed(w') && |w'.bits| == |w.bits|
  {
    if delta > 0 then
      Window((w.index + delta % SEQ_MAX) % UINT64, Shifted(w.bits, delta)[|w.bits| - 1 := true])
    else
      w.(bits := w.bits[|w.bits| - 1 + delta := true])
  }

  /** A window stands for the set of all positions ever accepted. */
  ghost predicate Represents(w: Window, accepted: set<int>) {
    && WellFormed(w)
    && (forall k :: 0 <= k < |w.bits| ==> (w.bits[k] <==> w.index - (|w.bits| - 1) + k in accepted))
    && (forall p :: p in accepted ==> p <= w.index)
  }

  /** What rdbx_check answers, in terms of that set. */
  lemma CheckIsMembership(w: Window, accepted: set<int>, delta: int)
    requires Represents(w, accepted)
    ensures CheckDelta(w, delta) == Ok <==> w.index + delta !in accepted && -delta < |w.bits|
    ensures CheckDelta(w, delta) == ReplayFail <==> w.index + delta in accepted && -delta < |w.bits|
    ensures CheckDelta(w, delta) == ReplayOld <==> -delta >= |w.bits|
  {
    if delta <= 0 && |w.bits| - 1 + delta >= 0 {
      assert w.index - (|w.bits| - 1) + (|w.bits| - 1 + delta) == w.index + delta;
    }
  }

  /** Adding an index moves the window without losing what it stands for. */
  lemma AddKeepsSet(w: Window, accepted: set<int>, delta: int)
    requires Represents(w, accepted)
    requires -|w.bits| < delta < SEQ_MAX
    requires w.index + delta < UINT64
    ensures Represents(AddDelta(w, delta), accepted + {w.index + delta})
    ensures AddDelta(w, delta).index == if delta > 0 then w.index + delta else w.index
    ensures |AddDelta(w, delta).bits| == |w.bits|
  {
    var n := |w.bits|;
    var w' := AddDelta(w, delta);
    forall k | 0 <= k < n
      ensures w'.bits[k] <==> w'.index - (n - 1) + k in accepted + {w.index + delta}
    {
      if delta > 0 {
        if k + delta < n {
          assert w.bits[k + delta] <==> w.index - (n - 1) + (k + delta) in accepted;
        } else {
          assert w'.index - (n - 1) + k > w.index;
        }
      }
    }
  }

  lemma EmptyWindowIsEmptySet(len: nat)
    requires 0 < len <= 0x8000_0000
    ensures Represents(EmptyWindow(len), {})
  {
  }

  // ---- runs of check-then-add ----

  /** The window after offering the differences one by one, adding those that pass the check. */
  function RunChecked(w: Window, deltas: seq<int>): (w': Window)
    requires WellFormed(w)
    ensures WellFormed(w') && |w'.bits| == |w.bits|
    decreases |deltas|
  {
    if deltas == [] then w
    else if CheckDelta(w, deltas[0]) == Ok then RunChecked(AddDelta(w, deltas[0]), deltas[1..])
    else RunChecked(w, deltas[1..])
  }

  /** The positions accepted on the way, oldest first. */
  function AcceptedInRun(w: Window, deltas: seq<int>): seq<int>
    requires WellFormed(w)
    decreases |deltas|
  {
    if deltas == [] then []
    else if CheckDelta(w, deltas[0]) == Ok then
      [w.index + deltas[0]] + AcceptedInRun(AddDelta(w, deltas[0]), deltas[1..])
    else AcceptedInRun(w, deltas[1..])
  }

  lemma {:induction false} RunRefinesSet(w: Window, accepted: set<int>, deltas: seq<int>)
    requires Represents(w, accepted)
    requires forall i :: 0 <= i < |deltas| ==> deltas[i] < SEQ_MAX
    requires w.index + SEQ_MAX * |deltas| <= UINT64
    ensures var passed := AcceptedInRun(w, deltas);
            && Represents(RunChecked(w, deltas), accepted + SetOf(passed))
            && Distinct(passed)
            && forall p :: p in passed ==> p !in accepted
    decreases |deltas|
  {
    if deltas == [] {
      assert accepted + SetOf(AcceptedInRun(w, deltas)) == accepted;
    } else {
      var d, rest := deltas[0], deltas[1..];
      CheckIsMembership(w, accepted, d);
      if CheckDelta(w, d) == Ok {
        AddKeepsSet(w, accepted, d);
        var w', accepted' := AddDelta(w, d), accepted + {w.index + d};
        RunRefinesSet(w', accepted', rest);
        var passed := AcceptedInRun(w', rest);
        assert AcceptedInRun(w, deltas) == [w.index + d] + passed;
        assert accepted' + SetOf(passed) == accepted + SetOf([w.index + d] + passed);
      } else {
        RunRefinesSet(w, accepted, rest);
      }
    }
  }

  /**
   Replay protection over whole runs from a new database: nothing is accepted twice, and at
   the end the check passes exactly the positions that were not accepted and are not older
   than the window.  2^48 calls is the lifetime of a key.
   */
  lemma ReplayProtection(len: nat, deltas: seq<int>, next: int)
    requires 0 < len <= 0x8000_0000
    requires forall i :: 0 <= i < |deltas| ==> deltas[i] < SEQ_MAX
    requires |deltas| <= INDEX_MAX
    ensures var passed := AcceptedInRun(EmptyWindow(len), deltas);
            var end := RunChecked(EmptyWindow(len), deltas);
            && Distinct(passed)
            && (forall p :: p in passed ==> p <= end.index)
            && |end.bits| == len
            && (CheckDelta(end, next) == Ok <==> end.index + next !in passed && -next < len)
            && (CheckDelta(end, next) == ReplayFail <==> end.index + next in passed && -next < len)
  {
    EmptyWindowIsEmptySet(len);
    RunRefinesSet(EmptyWindow(len), {}, deltas);
    var passed := AcceptedInRun(EmptyWindow(len), deltas);
    assert {} + SetOf(passed) == SetOf(passed);
    assert forall p :: p in passed ==> p in SetOf(passed);
    CheckIsMembership(RunChecked(EmptyWindow(len), deltas), SetOf(passed), next);
  }

  // ---- the database itself ----

  class Rdbx {
    var index: nat
    const bitmask: BitVector

    ghost predicate Valid()
      reads this
    {
      index < UINT64 && 0 < bitmask.Len() <= 0x8000_0000
    }

    ghost function Contents(): (w: Window)
      reads this, bitmask.word
      ensures Valid() ==> WellFormed(w)
      ensures |w.bits| == bitmask.Len()
    {
      Window(index, bitmask.Contents())
    }

    constructor (ws: nat)
      requires 0 < ws <= 0x7fff_ffff
      ensures Valid() && Contents() == EmptyWindow((ws + 31) / 32 * 32)
      ensures fresh(bitmask) && fresh(bitmask.word)
    {
      bitmask := new BitVector.Alloc(ws);
      index := 0;
    }

    /** rdbx_init: the window size is rounded up to whole words. */
    static method Init(ws: nat) returns (status: Status, r: Rdbx?)
      requires ws <= 0x7fff_ffff
      ensures (status == BadParam && r == null) || (status == Ok && r != null)
      ensures status == Ok <==> ws > 0
      ensures r != null ==> fresh(r) && fresh(r.bitmask) && fresh(r.bitmask.word)
      ensures r != null ==> r.Valid() && r.Contents() == EmptyWindow((ws + 31) / 32 * 32)
    {
      if ws == 0 {
        return BadParam, null;
      }
      r := new Rdbx(ws);
      status := Ok;
    }

    method Check(delta: int) returns (status: Status)
      requires Valid()
      ensures status == CheckDelta(Contents(), delta)
    {
      if delta > 0 {
        return Ok;
      }
      if bitmask.word.Length * 32 - 1 + delta < 0 {
        return ReplayOld;
      }
      var seen := bitmask.GetBit(bitmask.word.Length * 32 - 1 + delta);
      status := if seen then ReplayFail else Ok;
    }

    method AddIndex(delta: int)
      requires Valid()
      requires -delta < bitmask.Len()
      modifies this`index, bitmask.word
      ensures Valid() && Contents() == AddDelta(old(Contents()), delta)
    {
      if delta > 0 {
        index := (index + delta % SEQ_MAX) % UINT64;
        bitmask.LeftShift(delta);
        bitmask.SetBit(bitmask.word.Length * 32 - 1);
      } else {
        bitmask.SetBit(bitmask.word.Length * 32 - 1 + delta);
      }
    }
  }
}
