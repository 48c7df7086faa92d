/**
 The futex system call (kernel/process.c): the process table, blocking on a
 word that still holds the expected value, and waking the first waiters in
 slot order.
 */
module Futex {
  import opened VmTypes

  const FUTEX_WAIT := 0
  const FUTEX_WAKE := 1

  const EAGAIN := 11
  const EFAULT := 14
  const ENOSYS := 38

  /** A 32-bit word of user memory: address space and address. */
  type Word = (nat, nat)

  datatype RunState = Ready | BlockedOnFutex | Other

  datatype Slot = Slot(used: bool, state: RunState, space: nat, futexAddress: nat)

  /** The word the process in this slot sleeps on. */
  function SleepsOn(slot: Slot): Option<Word> {
    if slot.used && slot.state.BlockedOnFutex? then Some((slot.space, slot.futexAddress)) else None
  }

  function Waits(slots: seq<Slot>): (waits: seq<Option<Word>>)
    ensures |waits| == |slots| && forall i :: 0 <= i < |slots| ==> waits[i] == SleepsOn(slots[i])
  {
    seq(|slots|, i requires 0 <= i < |slots| => SleepsOn(slots[i]))
  }

  /** How many of the waits are on `word`. */
  function Sleepers(waits: seq<Option<Word>>, word: Word): nat {
    if waits == [] then 0
    else Sleepers(waits[..|waits| - 1], word) + if waits[|waits| - 1] == Some(word) then 1 else 0
  }

  /** Wakes the first `count` sleepers on `word`, in slot order. */
  function Woken(waits: seq<Option<Word>>, word: Word, count: int): (woken: seq<Option<Word>>)
    ensures |woken| == |waits|
  {
    if waits == [] then []
    else
      var n := |waits| - 1;
      var rest := waits[..n];
      Woken(rest, word, count) + [if waits[n] == Some(word) && Sleepers(rest, word) < count then None else waits[n]]
  }

  /** A slot is woken exactly when it sleeps on the word and fewer than `count` lower slots do. */
  lemma {:induction false} WokenAt(waits: seq<Option<Word>>, word: Word, count: int, i: nat)
    requires i < |waits|
    ensures Woken(waits, word, count)[i] ==
      if waits[i] == Some(word) && Sleepers(waits[..i], word) < count then None else waits[i]
  {
    var n := |waits| - 1;
    if i < n {
      WokenAt(waits[..n], word, count, i);
      assert waits[..n][..i] == waits[..i];
    }
  }

  lemma {:induction false} SleepersBound(waits: seq<Option<Word>>, word: Word)
    ensures Sleepers(waits, word) <= |waits|
    ensures Sleepers(waits, word) == 0 <==> Some(word) !in waits
  {
    if waits != [] {
      SleepersBound(waits[..|waits| - 1], word);
      assert waits == waits[..|waits| - 1] + [waits[|waits| - 1]];
    }
  }

  /** A count no smaller than the table wakes every sleeper on the word and nobody else. */
  lemma WakeAll(waits: seq<Option<Word>>, word: Word, count: int)
    requires |waits| <= count
    ensures forall i :: 0 <= i < |waits| ==>
      Woken(waits, word, count)[i] == if waits[i] == Some(word) then None else waits[i]
  {
    forall i: nat | i < |waits|
      ensures Woken(waits, word, count)[i] == if waits[i] == Some(word) then None else waits[i]
    {
      WokenAt(waits, word, count, i);
      SleepersBound(waits[..i], word);
    }
  }

  lemma WokenStep(waits: seq<Option<Word>>, word: Word)
    requires waits != []
    ensures var n := |waits| - 1;
      var rest := waits[..n];
      Woken(waits, word, 1) ==
        Woken(rest, word, 1) + [if waits[n] == Some(word) && Sleepers(rest, word) < 1 then None else waits[n]]
  {
  }

  /** A wake of one releases the lowest sleeping slot and leaves every other slot alone. */
  lemma {:induction false} WakeOne(waits: seq<Option<Word>>, word: Word)
    ensures Some(word) !in waits ==> Woken(waits, word, 1) == waits
    ensures Some(word) in waits ==>
      exists first: nat :: FirstSleeper(waits, word, first) && Woken(waits, word, 1) == waits[first := None]
  {
    hide Woken, Sleepers;
    if waits == [] {
    } else {
      var n := |waits| - 1;
      var rest := waits[..n];
      WokenStep(waits, word);
      WakeOne(rest, word);
      SleepersBound(rest, word);
      assert waits == rest + [waits[n]];
      if Some(word) in rest {
        var first: nat :| FirstSleeper(rest, word, first) && Woken(rest, word, 1) == rest[first := None];
        assert FirstSleeper(waits, word, first);
        assert Woken(waits, word, 1) == waits[first := None];
      } else if waits[n] == Some(word) {
        assert FirstSleeper(waits, word, n);
        assert Woken(waits, word, 1) == waits[n := None];
      } else {
        assert Woken(waits, word, 1) == waits;
      }
    }
  }

  ghost predicate FirstSleeper(waits: seq<Option<Word>>, word: Word, first: nat) {
    first < |waits| && waits[first] == Some(word) && forall i :: 0 <= i < first ==> waits[i] != Some(word)
  }

  lemma {:induction false} SleepersPrefix(waits: seq<Option<Word>>, word: Word, i: nat, j: nat)
    requires i <= j <= |waits|
    ensures Sleepers(waits[..i], word) <= Sleepers(waits[..j], word)
    decreases j
  {
    if i < j {
      assert waits[..j][..j - 1] == waits[..j - 1];
      SleepersPrefix(waits, word, i, j - 1);
    }
  }

  /** The conversion of the wake count to a signed 32-bit integer. */
  function SignedCount(value: nat): int
    requires value < 0x1_0000_0000
  {
    if value < 0x8000_0000 then value else value - 0x1_0000_0000
  }

  /** How many waiters a wake releases. */
  function Released(sleepers: nat, count: int): nat {
    if count <= 0 then 0 else if sleepers < count then sleepers else count
  }

  class ProcessTable {
    const slots: array<Slot>

    constructor (size: nat)
      ensures slots.Length == size && fresh(slots)
      ensures forall i :: 0 <= i < size ==> slots[i] == Slot(false, Other, 0, 0)
    {
      slots := new Slot[size](_ => Slot(false, Other, 0, 0));
    }

    /** The wait half: the caller sleeps exactly when the word is readable and holds `value`. */
    method Wait(memory: map<Word, nat>, caller: nat, address: nat, value: nat) returns (result: int)
      requires caller < slots.Length && slots[caller].used
      modifies slots
      ensures var word := (old(slots[caller].space), address);
        && (result == 0 <==> word in memory && memory[word] == value)
        && (result == -EFAULT <==> word !in memory)
        && (result == 0 || result == -EFAULT || result == -EAGAIN)
        && Waits(slots[..]) ==
             if result == 0 then old(Waits(slots[..]))[caller := Some(word)] else old(Waits(slots[..]))
      ensures result != 0 ==> slots[..] == old(slots[..])
    {
      var process := slots[caller];
      if (process.space, address) !in memory {
        return -EFAULT;
      }
      if memory[(process.space, address)] != value {
        return -EAGAIN;
      }
      slots[caller] := process.(state := BlockedOnFutex, futexAddress := address);
      return 0;
    }

    /** The wake half: the first `value` sleepers on the caller's word, and how many there were. */
    method Wake(caller: nat, address: nat, value: nat) returns (woken: nat)
      requires caller < slots.Length && value < 0x1_0000_0000
      modifies slots
      ensures var word := (old(slots[caller].space), address);
        && Waits(slots[..]) == Woken(old(Waits(slots[..])), word, SignedCount(value))
        && woken == Released(Sleepers(old(Waits(slots[..])), word), SignedCount(value))
    {
      hide Woken, Sleepers, Waits, Scan;
      var space := slots[caller].space;
      ghost var before := Waits(slots[..]);
      ghost var word := (space, address);
      var count := SignedCount(value);
      woken := 0;
      var index := 0;
      ScanStarts(before, word, count);
      while index < slots.Length && woken < count
        invariant 0 <= index <= slots.Length
        invariant woken == Released(Sleepers(before[..index], word), count)
        invariant Waits(slots[..]) == Scan(before, word, count, index)
        invariant forall j :: index <= j < slots.Length ==> slots[j] == old(slots[j])
      {
        var waiter := slots[index];
        ScanStep(before, word, count, index);
        if waiter.used && waiter.state.BlockedOnFutex? && waiter.space == space && waiter.futexAddress == address {
          ghost var scanned := slots[..];
          WaitsUpdate(scanned, index, waiter.(state := Ready));
          slots[index] := waiter.(state := Ready);
          assert slots[..] == scanned[index := waiter.(state := Ready)];
          woken := woken + 1;
        }
        index := index + 1;
      }
      ScanEnds(before, word, count, index);
    }

    /** The system call: the low seven bits of the operation select wait, wake or an error. */
    method SystemCall(memory: map<Word, nat>, caller: nat, address: nat, operation: int, value: nat)
      returns (result: int)
      requires caller < slots.Length && slots[caller].used && value < 0x1_0000_0000
      modifies slots
      ensures var word, before := (old(slots[caller].space), address), old(Waits(slots[..]));
        match operation % 128
        case 0 =>
          && (result == 0 <==> word in memory && memory[word] == value)
          && Waits(slots[..]) == if result == 0 then before[caller := Some(word)] else before
        case 1 =>
          && result == Released(Sleepers(before, word), SignedCount(value))
          && Waits(slots[..]) == Woken(before, word, SignedCount(value))
        case _ => result == -ENOSYS && Waits(slots[..]) == before
    {
      var selected := operation % 128;
      if selected == FUTEX_WAIT {
        result := Wait(memory, caller, address, value);
      } else if selected == FUTEX_WAKE {
        result := Wake(caller, address, value);
      } else {
        result := -ENOSYS;
      }
    }
  }

  lemma WaitsUpdate(slots: seq<Slot>, i: nat, slot: Slot)
    requires i < |slots|
    ensures Waits(slots[i := slot]) == Waits(slots)[i := SleepsOn(slot)]
  {
  }

  /** The waits after a wake has looked at the first `index` slots. */
  ghost function Scan(waits: seq<Option<Word>>, word: Word, count: int, index: nat): seq<Option<Word>>
    requires index <= |waits|
  {
    Woken(waits[..index], word, count) + waits[index..]
  }

  lemma ScanStarts(waits: seq<Option<Word>>, word: Word, count: int)
    ensures Scan(waits, word, count, 0) == waits && Released(Sleepers(waits[..0], word), count) == 0
  {
  }

  lemma ScanStep(waits: seq<Option<Word>>, word: Word, count: int, index: nat)
    requires index < |waits| && Released(Sleepers(waits[..index], word), count) < count
    ensures Sleepers(waits[..index + 1], word) ==
      Sleepers(waits[..index], word) + if waits[index] == Some(word) then 1 else 0
    ensures Scan(waits, word, count, index + 1) ==
      if waits[index] == Some(word) then Scan(waits, word, count, index)[index := None]
      else Scan(waits, word, count, index)
  {
    assert waits[..index + 1][..index] == waits[..index];
  }

  lemma ScanEnds(waits: seq<Option<Word>>, word: Word, count: int, index: nat)
    requires index <= |waits| && (index == |waits| || Released(Sleepers(waits[..index], word), count) >= count)
    ensures Scan(waits, word, count, index) == Woken(waits, word, count)
    ensures Released(Sleepers(waits[..index], word), count) == Released(Sleepers(waits, word), count)
  {
    assert waits[..|waits|] == waits;
    if index == |waits| {
      assert waits[index..] == [];
    } else {
      EnoughWoken(waits, word, count, index);
      SleepersPrefix(waits, word, index, |waits|);
    }
  }

  /** Once `count` sleepers were seen, the rest of the table stays as it is. */
  lemma EnoughWoken(waits: seq<Option<Word>>, word: Word, count: int, index: nat)
    requires index <= |waits| && (count <= 0 || Sleepers(waits[..index], word) >= count)
    ensures Woken(waits, word, count) == Woken(waits[..index], word, count) + waits[index..]
  {
    var left, right := Woken(waits, word, count), Woken(waits[..index], word, count) + waits[index..];
    forall i: nat | i < |waits| ensures left[i] == right[i] {
      WokenAt(waits, word, count, i);
      if i < index {
        WokenAt(waits[..index], word, count, i);
        assert waits[..index][..i] == waits[..i];
      } else {
        SleepersPrefix(waits, word, index, i);
      }
    }
  }
}
