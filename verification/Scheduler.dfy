/**
 The round-robin scheduler (kernel/process.c): the next runnable slot after the
 last one dispatched, and how long a runnable slot can be passed over.
 */
module Scheduler {
  import opened VmTypes
  import Bytes

  datatype State = Running | BlockedOnFutex | BlockedOnSleep | Stopped

  datatype Slot = Slot(used: bool, state: State, wakeTick: nat)

  predicate Ready(slot: Slot) {
    slot.used && slot.state.Running?
  }

  /** The slot `offset` places after `last`, around the table. */
  function Ahead(last: int, offset: int, n: nat): (slot: nat)
    requires n > 0
    ensures slot < n
  {
    (last + offset) % n
  }

  /** The first ready slot in cyclic order after `last`, from `offset` places on. */
  function Next(slots: seq<Slot>, last: int, offset: nat): (slot: Option<nat>)
    requires |slots| > 0 && 1 <= offset <= |slots| + 1
    ensures slot.Some? ==> slot.value < |slots| && Ready(slots[slot.value])
    decreases |slots| + 1 - offset
  {
    if offset > |slots| then None
    else if Ready(slots[Ahead(last, offset, |slots|)]) then Some(Ahead(last, offset, |slots|))
    else Next(slots, last, offset + 1)
  }

  function Select(slots: seq<Slot>, last: int): Option<nat>
    requires |slots| > 0
  {
    Next(slots, last, 1)
  }

  /** A timed sleeper whose tick has come. */
  predicate Due(slot: Slot, now: nat) {
    slot.used && slot.wakeTick != 0 && slot.wakeTick <= now && (slot.state.BlockedOnFutex? || slot.state.BlockedOnSleep?)
  }

  function Woken(slot: Slot, now: nat): Slot {
    if Due(slot, now) then slot.(state := Running, wakeTick := 0) else slot
  }

  function AllWoken(slots: seq<Slot>, now: nat): (awake: seq<Slot>)
    ensures |awake| == |slots| && forall i :: 0 <= i < |slots| ==> awake[i] == Woken(slots[i], now)
  {
    seq(|slots|, i requires 0 <= i < |slots| => Woken(slots[i], now))
  }

  class Table {
    var slots: seq<Slot>
    var lastSlot: int
    var currentSlot: int

    constructor (n: nat)
      ensures |slots| == n && lastSlot == -1 && currentSlot == -1
      ensures forall i :: 0 <= i < n ==> slots[i] == Slot(false, Stopped, 0)
    {
      slots, lastSlot, currentSlot := seq(n, _ => Slot(false, Stopped, 0)), -1, -1;
    }

    method WakeTimers(now: nat)
      modifies this`slots
      ensures slots == AllWoken(old(slots), now)
    {
      var index := 0;
      while index < |slots|
        invariant 0 <= index <= |slots| == old(|slots|)
        invariant forall i :: 0 <= i < index ==> slots[i] == Woken(old(slots[i]), now)
        invariant forall i :: index <= i < |slots| ==> slots[i] == old(slots[i])
      {
        if Due(slots[index], now) {
          slots := slots[index := slots[index].(state := Running, wakeTick := 0)];
        }
        index := index + 1;
      }
    }

    /**
     process_schedule up to entering user mode.  `killed` says whether delivering
     a pending signal ends the selected process; then nothing is dispatched and
     the search starts from the same place next time.
     */
    method Schedule(now: nat, killed: bool) returns (dispatched: Option<nat>)
      requires |slots| > 0
      modifies this
      ensures |slots| == old(|slots|)
      ensures var awake := AllWoken(old(slots), now);
        && dispatched == (if killed then None else Select(awake, old(lastSlot)))
        && lastSlot == (if dispatched.Some? then dispatched.value else old(lastSlot))
        && currentSlot == (if dispatched.Some? then dispatched.value
                           else if Select(awake, old(lastSlot)).None? then -1 else old(currentSlot))
        && slots == match Select(awake, old(lastSlot))
                    case Some(k) => if killed then awake[k := awake[k].(state := Stopped)] else awake
                    case None => awake
    {
      WakeTimers(now);
      ghost var awake := AllWoken(old(slots), now);
      var selected := -1;
      var offset := 1;
      while offset <= |slots|
        invariant 1 <= offset <= |slots| + 1 && slots == awake
        invariant selected == -1 && Select(slots, lastSlot) == Next(slots, lastSlot, offset)
      {
        var slot := (lastSlot + offset) % |slots|;
        if slots[slot].used && slots[slot].state.Running? {
          selected := slot;
          break;
        }
        offset := offset + 1;
      }
      if selected < 0 {
        currentSlot := -1;
        return None;
      }
      if killed {
        slots := slots[selected := slots[selected].(state := Stopped)];
        return None;
      }
      currentSlot, lastSlot := selected, selected;
      return Some(selected);
    }
  }

  // ----- runs

  /** One call: the table as the search sees it, and whether a signal ends the selected process. */
  datatype Call = Call(slots: seq<Slot>, killed: bool)

  function Dispatch(call: Call, last: int): Option<nat>
    requires |call.slots| > 0
  {
    if call.killed then None else Select(call.slots, last)
  }

  /** Calls over a table of `n` slots; lasts[i] is the last dispatched slot before call i. */
  ghost predicate Run(n: nat, calls: seq<Call>, lasts: seq<int>) {
    && n > 0 && |lasts| == |calls| + 1
    && (forall i :: 0 <= i < |calls| ==> |calls[i].slots| == n)
    && forall i: nat {:trigger calls[i]} :: i < |calls| ==>
         lasts[i + 1] == match Dispatch(calls[i], lasts[i]) case Some(u) => u case None => lasts[i]
  }

  /** Slot `s` is ready at call `i`, and no signal ends it there. */
  ghost predicate StaysReady(calls: seq<Call>, lasts: seq<int>, s: nat, i: nat) {
    && i < |calls| && i < |lasts| && s < |calls[i].slots| && Ready(calls[i].slots[s])
    && (calls[i].killed ==> Select(calls[i].slots, lasts[i]) != Some(s))
  }

  ghost predicate DispatchedAt(calls: seq<Call>, lasts: seq<int>, i: nat, u: nat) {
    i < |calls| && i < |lasts| && |calls[i].slots| > 0 && Dispatch(calls[i], lasts[i]) == Some(u)
  }

  /** Dispatches in calls a .. b - 1. */
  ghost function Dispatches(calls: seq<Call>, lasts: seq<int>, a: nat, b: nat): nat
    requires a <= b <= |calls| < |lasts| && forall i :: 0 <= i < |calls| ==> |calls[i].slots| > 0
  {
    if a == b then 0
    else Dispatches(calls, lasts, a, b - 1) + if Dispatch(calls[b - 1], lasts[b - 1]).Some? then 1 else 0
  }

  /** The search stops no later than at a slot known to be ready. */
  lemma {:induction false} StopsBy(slots: seq<Slot>, last: int, offset: nat, k: nat)
    requires |slots| > 0 && 1 <= offset <= k <= |slots| && Ready(slots[Ahead(last, k, |slots|)])
    ensures exists j: nat :: offset <= j <= k && Next(slots, last, offset) == Some(Ahead(last, j, |slots|))
    decreases k - offset
  {
    if Ready(slots[Ahead(last, offset, |slots|)]) {
      assert Next(slots, last, offset) == Some(Ahead(last, offset, |slots|));
    } else if offset < k {
      StopsBy(slots, last, offset + 1, k);
    }
  }

  lemma AheadTwice(last: int, k: int, j: int, n: nat)
    requires n > 0
    ensures Ahead(Ahead(last, k, n), j, n) == Ahead(last, k + j, n)
  {
    var q := (last + k) / n;
    assert last + k == q * n + (last + k) % n;
    MultiplesVanish((last + k) % n + j, q, n);
    assert (last + k) % n + j + q * n == last + k + j;
  }

  /** The last dispatched slot has moved from `start` to `last`, `k` places on. */
  ghost predicate MovedBy(start: int, last: int, k: nat, n: nat)
    requires n > 0
  {
    last == if k == 0 then start else Ahead(start, k, n)
  }

  lemma AheadOf(start: int, last: int, k: nat, j: nat, n: nat)
    requires n > 0 && MovedBy(start, last, k, n)
    ensures Ahead(last, j, n) == Ahead(start, k + j, n)
  {
    if k > 0 {
      AheadTwice(start, k, j, n);
    }
  }

  lemma MultiplesVanish(x: int, q: int, n: nat)
    requires n > 0
    ensures (x + q * n) % n == x % n
  {
    var a, b := x / n, x % n;
    assert x + q * n == (a + q) * n + b;
    Remainder(x + q * n, a + q, b, n);
  }

  lemma Remainder(x: int, q: int, r: int, n: nat)
    requires n > 0 && x == q * n + r && 0 <= r < n
    ensures x % n == r
  {
    var q2, r2 := x / n, x % n;
    assert x == q2 * n + r2;
    assert (q - q2) * n == r2 - r;
    if q > q2 {
      Bytes.NextMultiple(n, 0, q - q2);
    } else if q < q2 {
      Bytes.NextMultiple(n, 0, q2 - q);
    }
  }

  /** How far slot `s` is ahead of `last`. */
  lemma Offset(last: int, s: nat, n: nat) returns (k: nat)
    requires s < n
    ensures 1 <= k <= n && Ahead(last, k, n) == s
  {
    k := (s - last - 1) % n + 1;
    var q := (s - last - 1) / n;
    assert s - last - 1 == q * n + (s - last - 1) % n;
    MultiplesVanish(last + k, q, n);
    assert last + k + q * n == s;
    Remainder(s, 0, s, n);
  }

  /**
   While a ready slot `s`, `distance` places ahead, is not dispatched, every
   dispatch moves forward and stays short of it.
   */
  lemma {:induction false} MovesForward(n: nat, calls: seq<Call>, lasts: seq<int>, a: nat, b: nat, s: nat, distance: nat)
    returns (k: nat)
    requires Run(n, calls, lasts) && a <= b <= |calls| && s < n
    requires 1 <= distance <= n && Ahead(lasts[a], distance, n) == s
    requires forall i: nat :: a <= i < b ==> StaysReady(calls, lasts, s, i) && !DispatchedAt(calls, lasts, i, s)
    ensures k < distance && MovedBy(lasts[a], lasts[b], k, n) && Dispatches(calls, lasts, a, b) <= k
    decreases b
  {
    hide Ahead;
    if a == b {
      k := 0;
    } else {
      k := MovesForward(n, calls, lasts, a, b - 1, s, distance);
      var call, last := calls[b - 1], lasts[b - 1];
      assert StaysReady(calls, lasts, s, b - 1) && !DispatchedAt(calls, lasts, b - 1, s);
      AheadOf(lasts[a], last, k, distance - k, n);
      StopsBy(call.slots, last, 1, distance - k);
      var j: nat :| 1 <= j <= distance - k && Select(call.slots, last) == Some(Ahead(last, j, n));
      if Dispatch(call, last).Some? {
        AheadOf(lasts[a], last, k, j, n);
        k := k + j;
      }
    }
  }

  /**
   Bounded bypass: between two dispatches of one slot, every other slot that
   was ready throughout has been dispatched.
   */
  lemma NoDoubleBypass(n: nat, calls: seq<Call>, lasts: seq<int>, a: nat, b: nat, t: nat, s: nat)
    requires Run(n, calls, lasts) && a < b < |calls| && t < n && s < n && s != t
    requires DispatchedAt(calls, lasts, a, t) && DispatchedAt(calls, lasts, b, t)
    requires forall i: nat :: a < i <= b ==> StaysReady(calls, lasts, s, i)
    ensures exists c: nat :: a < c < b && DispatchedAt(calls, lasts, c, s)
  {
    assert lasts[a + 1] == t by { assert |calls[a].slots| == n; }
    if forall c: nat :: a < c < b ==> !DispatchedAt(calls, lasts, c, s) {
      var distance := Offset(t, s, n);
      var k := MovesForward(n, calls, lasts, a + 1, b, s, distance);
      var call, last := calls[b], lasts[b];
      assert StaysReady(calls, lasts, s, b);
      AheadOf(t, last, k, distance - k, n);
      StopsBy(call.slots, last, 1, distance - k);
      var j: nat :| 1 <= j <= distance - k && Select(call.slots, last) == Some(Ahead(last, j, n));
      AheadOf(t, last, k, j, n);
      Elsewhere(t, k + j, distance, s, n);
      assert false;
    }
  }

  /** Slots strictly between `t` and another slot are not `t`. */
  lemma Elsewhere(t: nat, k: nat, distance: nat, s: nat, n: nat)
    requires t < n && 1 <= k <= distance <= n && Ahead(t, distance, n) == s && s != t
    ensures Ahead(t, k, n) != t
  {
    if t + k < n {
      Remainder(t + k, 0, t + k, n);
    } else {
      Remainder(t + k, 1, t + k - n, n);
    }
  }

  /** A slot that stays ready is dispatched before `n` dispatches of others have gone by. */
  lemma DispatchedSoon(n: nat, calls: seq<Call>, lasts: seq<int>, a: nat, b: nat, s: nat)
    requires Run(n, calls, lasts) && a <= b <= |calls| && s < n
    requires forall i: nat :: a <= i < b ==> StaysReady(calls, lasts, s, i)
    requires Dispatches(calls, lasts, a, b) >= n
    ensures exists c: nat :: a <= c < b && DispatchedAt(calls, lasts, c, s)
  {
    if forall c: nat :: a <= c < b ==> !DispatchedAt(calls, lasts, c, s) {
      var distance := Offset(lasts[a], s, n);
      var k := MovesForward(n, calls, lasts, a, b, s, distance);
      assert false;
    }
  }
}
