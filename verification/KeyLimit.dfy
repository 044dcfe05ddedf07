/** The key usage limit: a countdown with a soft and a hard limit. */
module KeyLimits {
  import opened Status
  import opened Bytes

  const SOFT_LIMIT: nat := 0x1_0000

  datatype KeyState = Normal | PastSoftLimit | Expired
  datatype KeyEvent = EventNormal | EventSoftLimit | EventHardLimit
  datatype Limit = Limit(numLeft: nat, state: KeyState)

  /** key_limit_update; the count wraps at zero like the 64-bit field it models. */
  function Update(k: Limit): (KeyEvent, Limit) {
    var left := (k.numLeft - 1) % UINT64;
    if left >= SOFT_LIMIT then
      (EventNormal, k.(numLeft := left))
    else
      var state := if k.state == Normal then PastSoftLimit else k.state;
      if left < 1 then (EventHardLimit, Limit(left, Expired)) else (EventSoftLimit, Limit(left, state))
  }

  function Updates(k: Limit, n: nat): Limit {
    if n == 0 then k else Update(Updates(k, n - 1)).1
  }

  /** The event of the n-th update, counted from 1. */
  function EventOf(k: Limit, n: nat): KeyEvent
    requires n > 0
  {
    Update(Updates(k, n - 1)).0
  }

  function Rank(s: KeyState): nat {
    match s
    case Normal => 0
    case PastSoftLimit => 1
    case Expired => 2
  }

  /** From a limit set to `s`, until the count wraps. */
  lemma {:induction false} Lifecycle(s: nat, n: nat)
    requires SOFT_LIMIT <= s < UINT64 && n <= s
    ensures Updates(Limit(s, Normal), n)
            == Limit(s - n, if n == s then Expired else if s - n < SOFT_LIMIT then PastSoftLimit else Normal)
    ensures n > 0 ==> EventOf(Limit(s, Normal), n)
                      == if n <= s - SOFT_LIMIT then EventNormal else if n < s then EventSoftLimit else EventHardLimit
  {
    if n > 0 {
      Lifecycle(s, n - 1);
    }
  }

  /** The state never moves back, whatever the count does; so an expired key stays expired. */
  lemma {:induction false} NeverRevives(k: Limit, n: nat)
    ensures Rank(Updates(k, n).state) >= Rank(k.state)
    ensures k.state == Expired ==> Updates(k, n).state == Expired
  {
    if n > 0 {
      NeverRevives(k, n - 1);
    }
  }

  /** key_limit_check refuses exactly from the update that hits the hard limit on, for ever. */
  lemma ExpiredExactlyFromHardLimit(s: nat, n: nat)
    requires SOFT_LIMIT <= s < UINT64
    ensures Updates(Limit(s, Normal), n).state == Expired <==> n >= s
  {
    if n < s {
      Lifecycle(s, n);
    } else {
      Lifecycle(s, s);
      UpdatesSplit(Limit(s, Normal), s, n - s);
      NeverRevives(Updates(Limit(s, Normal), s), n - s);
    }
  }

  /**
   Past the hard limit the count has wrapped, and updates report normal use again: only
   key_limit_check tells that the key is used up.
   */
  lemma {:induction false} NormalAfterWrap(s: nat, n: nat)
    requires SOFT_LIMIT <= s < UINT64 && s < n <= s + UINT64 - SOFT_LIMIT
    ensures EventOf(Limit(s, Normal), n) == EventNormal
    ensures Updates(Limit(s, Normal), n) == Limit(s + UINT64 - n, Expired)
    decreases n
  {
    if n == s + 1 {
      Lifecycle(s, s);
    } else {
      NormalAfterWrap(s, n - 1);
    }
  }

  /** Of all updates until the count comes near zero again, exactly the s-th reports the hard limit. */
  lemma HardEventIff(s: nat, n: nat)
    requires SOFT_LIMIT <= s < UINT64 && 0 < n <= s + UINT64 - SOFT_LIMIT
    ensures EventOf(Limit(s, Normal), n) == EventHardLimit <==> n == s
  {
    if n <= s {
      Lifecycle(s, n);
    } else {
      NormalAfterWrap(s, n);
    }
  }

  lemma {:induction false} UpdatesSplit(k: Limit, a: nat, b: nat)
    ensures Updates(k, a + b) == Updates(Updates(k, a), b)
  {
    if b > 0 {
      UpdatesSplit(k, a, b - 1);
    }
  }

  class KeyLimit {
    var numLeft: nat
    var state: KeyState

    ghost predicate Valid()
      reads this
    {
      numLeft < UINT64
    }

    ghost function Contents(): Limit
      reads this
    {
      Limit(numLeft, state)
    }

    /** The allocated record before key_limit_set; its fields are not yet meaningful. */
    constructor ()
      ensures Valid()
    {
      numLeft := 0;
      state := Normal;
    }

    method Set(s: nat) returns (status: Status)
      requires s < UINT64
      modifies this
      ensures status == if s < SOFT_LIMIT then BadParam else Ok
      ensures Contents() == if s < SOFT_LIMIT then old(Contents()) else Limit(s, Normal)
      ensures old(Valid()) ==> Valid()
    {
      if s < SOFT_LIMIT {
        return BadParam;
      }
      numLeft := s;
      state := Normal;
      status := Ok;
    }

    method Check() returns (status: Status)
      ensures status == if state == Expired then KeyExpired else Ok
    {
      if state == Expired {
        return KeyExpired;
      }
      return Ok;
    }

    method UpdateLimit() returns (event: KeyEvent)
      requires Valid()
      modifies this
      ensures Valid() && (event, Contents()) == Update(old(Contents()))
    {
      numLeft := (numLeft - 1) % UINT64;
      if numLeft >= SOFT_LIMIT {
        return EventNormal;
      }
      if state == Normal {
        state := PastSoftLimit;
      }
      if numLeft < 1 {
        state := Expired;
        return EventHardLimit;
      }
      return EventSoftLimit;
    }
  }
}
