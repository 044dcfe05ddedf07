/**
 The 128-bit replay database of SRTCP.  The receiver keeps a window of accepted 31-bit
 indices; the sender uses the same record as a counter of the indices it has given out.
 */
module ReplayDatabase {
  import opened Status
  import opened Bytes
  import opened BitVectors
  import opened Sequences

  const WINDOW: nat := 128

  datatype Window = Window(start: nat, bits: seq<bool>)

  predicate WellFormed(w: Window) {
    w.start < UINT32 && |w.bits| == WINDOW
  }

  function EmptyWindow(): (w: Window)
    ensures WellFormed(w)
  {
    Window(0, seq(WINDOW, _ => false))
  }

  /** rdb_check */
  function CheckIndex(w: Window, p: nat): Status
    requires WellFormed(w)
  {
    if p >= w.start + WINDOW then Ok
    else if p < w.start then ReplayOld
    else if w.bits[p - w.start] then ReplayFail
    else Ok
  }

  /** The same with the end of the window computed in 32 bits, as the code computes it. */
  function CheckIndex32(w: Window, p: nat): Status
    requires WellFormed(w)
  {
    if p >= (w.start + WINDOW) % UINT32 then Ok
    else if p < w.start then ReplayOld
    else if w.bits[p - w.start] then ReplayFail
    else Ok
  }

  /** The two agree on all 31-bit indices exactly when the end of the window has 32 bits. */
  lemma CheckWrapsIff(w: Window)
    requires WellFormed(w)
    ensures (forall p :: 0 <= p < E_BIT ==> CheckIndex32(w, p) == CheckIndex(w, p)) <==> w.start + WINDOW < UINT32
  {
    if w.start + WINDOW >= UINT32 {
      assert CheckIndex32(w, E_BIT - 1) == Ok && CheckIndex(w, E_BIT - 1) == ReplayOld;
    }
  }

  /** rdb_add_index, under its documented assumption that the index is not below the window. */
  function AddIndex(w: Window, p: nat): (w': Window)
    requires WellFormed(w) && w.start <= p < E_BIT
    ensures WellFormed(w')
  {
    var delta := p - w.start;
    if delta < WINDOW then
      w.(bits := w.bits[delta := true])
    else
      var shift := delta - (WINDOW - 1);
      Window(w.start + shift, Shifted(w.bits, shift)[WINDOW - 1 := true])
  }

  /** The window stands for the set of all indices ever accepted. */
  ghost predicate Represents(w: Window, accepted: set<nat>) {
    && WellFormed(w)
    && (forall k :: 0 <= k < WINDOW ==> (w.bits[k] <==> w.start + k in accepted))
    && (forall p :: p in accepted ==> p < w.start + WINDOW)
  }

  lemma CheckIsMembership(w: Window, accepted: set<nat>, p: nat)
    requires Represents(w, accepted)
    ensures CheckIndex(w, p) == Ok <==> p >= w.start && p !in accepted
    ensures CheckIndex(w, p) == ReplayFail <==> p >= w.start && p in accepted
    ensures CheckIndex(w, p) == ReplayOld <==> p < w.start
  {
    if w.start <= p < w.start + WINDOW {
      assert w.start + (p - w.start) == p;
    }
  }

  lemma AddKeepsSet(w: Window, accepted: set<nat>, p: nat)
    requires Represents(w, accepted)
    requires w.start <= p < E_BIT
    ensures Represents(AddIndex(w, p), accepted + {p})
    ensures AddIndex(w, p).start >= w.start
    ensures AddIndex(w, p).start == if p < w.start + WINDOW then w.start else p - (WINDOW - 1)
  {
    var w' := AddIndex(w, p);
    var shift := w'.start - w.start;
    forall k | 0 <= k < WINDOW
      ensures w'.bits[k] <==> w'.start + k in accepted + {p}
    {
      if shift > 0 && k + shift < WINDOW {
        assert w.bits[k + shift] <==> w.start + (k + shift) in accepted;
      } else if shift > 0 && k < WINDOW - 1 {
        assert w'.start + k >= w.start + WINDOW;
      }
    }
  }

  /** The newest index ends the window, and 127 older ones are inside it. */
  lemma WindowAfter(w: Window, p: nat, q: nat)
    requires WellFormed(w) && w.start + 128 <= p < 0x8000_0000
    ensures AddIndex(w, p).start == p - 127
    ensures CheckIndex(AddIndex(w, p), q) == ReplayOld <==> q + 127 < p
    ensures CheckIndex(AddIndex(w, p), p) == ReplayFail
  {
  }

  lemma EmptyIsEmptySet()
    ensures Represents(EmptyWindow(), {})
  {
  }

  // ---- runs of check-then-add ----

  function RunChecked(w: Window, indices: seq<nat>): (w': Window)
    requires WellFormed(w)
    requires forall i :: 0 <= i < |indices| ==> indices[i] < E_BIT
    ensures WellFormed(w')
    decreases |indices|
  {
    if indices == [] then w
    else if CheckIndex(w, indices[0]) == Ok then RunChecked(AddIndex(w, indices[0]), indices[1..])
    else RunChecked(w, indices[1..])
  }

  function AcceptedInRun(w: Window, indices: seq<nat>): seq<nat>
    requires WellFormed(w)
    requires forall i :: 0 <= i < |indices| ==> indices[i] < E_BIT
    decreases |indices|
  {
    if indices == [] then []
    else if CheckIndex(w, indices[0]) == Ok then
      [indices[0]] + AcceptedInRun(AddIndex(w, indices[0]), indices[1..])
    else AcceptedInRun(w, indices[1..])
  }

  lemma {:induction false} RunRefinesSet(w: Window, accepted: set<nat>, indices: seq<nat>)
    requires Represents(w, accepted)
    requires forall i :: 0 <= i < |indices| ==> indices[i] < E_BIT
    ensures var passed := AcceptedInRun(w, indices);
            && Represents(RunChecked(w, indices), accepted + SetOf(passed))
            && RunChecked(w, indices).start >= w.start
            && Distinct(passed)
            && forall p :: p in passed ==> p !in accepted && p in indices
    decreases |indices|
  {
    if indices == [] {
      assert accepted + SetOf(AcceptedInRun(w, indices)) == accepted;
    } else {
      var p, rest := indices[0], indices[1..];
      CheckIsMembership(w, accepted, p);
      if CheckIndex(w, p) == Ok {
        AddKeepsSet(w, accepted, p);
        var w', accepted' := AddIndex(w, p), accepted + {p};
        RunRefinesSet(w', accepted', rest);
        var passed := AcceptedInRun(w', rest);
        assert AcceptedInRun(w, indices) == [p] + passed;
        assert accepted' + SetOf(passed) == accepted + SetOf([p] + passed);
      } else {
        RunRefinesSet(w, accepted, rest);
      }
    }
  }

  // ---- the sender's counter ----

  /** rdb_increment: the test is made on the old value, the increment in any case. */
  function Increment(start: nat): (Status, nat) {
    (if start > 0x7fff_ffff then KeyExpired else Ok, (start + 1) % UINT32)
  }

  function Increments(n: nat): nat {
    if n == 0 then 0 else Increment(Increments(n - 1)).1
  }

  lemma {:induction false} IncrementsIs(n: nat)
    requires n < UINT32
    ensures Increments(n) == n
  {
    if n > 0 {
      IncrementsIs(n - 1);
    }
  }

  /**
   The n-th increment of a new counter yields n.  The first 2^31 succeed, one more than
   there are 31-bit indices, and the following 2^31 - 1 report an expired key.
   */
  lemma IncrementCounts(n: nat)
    requires 0 < n < UINT32
    ensures Increment(Increments(n - 1)) == (if n <= E_BIT then Ok else KeyExpired, n)
  {
    IncrementsIs(n - 1);
  }

  /** After 2^32 increments the counter starts again, and gives out index 1 a second time. */
  lemma CounterWraps()
    ensures Increment(Increments(UINT32)) == (Ok, 1)
  {
    IncrementsIs(UINT32 - 1);
    assert Increments(UINT32) == Increment(UINT32 - 1).1;
  }

  class Rdb {
    var windowStart: nat
    const bitmask: BitVector

    ghost predicate Valid()
      reads this
    {
      windowStart < UINT32 && bitmask.Len() == WINDOW
    }

    ghost function Contents(): (w: Window)
      reads this, bitmask.word
      ensures Valid() ==> WellFormed(w)
    {
      Window(windowStart, bitmask.Contents())
    }

    /** rdb_init */
    constructor ()
      ensures Valid() && Contents() == EmptyWindow()
      ensures fresh(bitmask) && fresh(bitmask.word)
    {
      bitmask := new BitVector.Alloc(WINDOW);
      windowStart := 0;
    }

    method Check(p: nat) returns (status: Status)
      requires Valid()
      ensures status == CheckIndex(Contents(), p)
    {
      if p >= windowStart + WINDOW {
        return Ok;
      }
      if p < windowStart {
        return ReplayOld;
      }
      var seen := bitmask.GetBit(p - windowStart);
      status := if seen then ReplayFail else Ok;
    }

    method Add(p: nat)
      requires Valid()
      requires windowStart <= p < E_BIT
      modifies this`windowStart, bitmask.word
      ensures Valid() && Contents() == AddIndex(old(Contents()), p)
    {
      hide BitsOf;
      var delta := p - windowStart;
      if delta < WINDOW {
        bitmask.SetBit(delta);
      } else {
        delta := delta - (WINDOW - 1);
        bitmask.LeftShift(delta);
        bitmask.SetBit(WINDOW - 1);
        windowStart := windowStart + delta;
      }
    }

    method Advance() returns (status: Status)
      requires Valid()
      modifies this`windowStart
      ensures Valid() && (status, windowStart) == Increment(old(windowStart))
    {
      var before := windowStart;
      windowStart := (windowStart + 1) % UINT32;
      status := if before > 0x7fff_ffff then KeyExpired else Ok;
    }
  }
}
