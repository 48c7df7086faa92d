/**
 Static thread-local storage of the ELF loader (kernel/process.c): where each
 module's block goes, below the thread pointer.
 */
module TlsLayout {
  import opened VmTypes
  import Bytes

  const TLS_MAX := 16 * 1024 * 1024
  const TCB_SIZE := 64
  const MAX_OBJECTS := 128
  const DTV_ENTRIES := 129
  const DTV_SIZE := 8 * 129

  /** The TLS fields of a loaded object. */
  datatype TlsObject = TlsObject(
    image: nat, fileSize: nat, memorySize: nat, alignment: nat, offset: nat, moduleId: nat)

  /** A power of two, in the sense of the test `a & (a - 1)`. */
  predicate PowerOfTwo(a: nat) {
    a == 1 || (a > 1 && a % 2 == 0 && PowerOfTwo(a / 2))
  }

  /** Of two powers of two the smaller divides the larger. */
  lemma {:induction false} PowersDivide(a: nat, b: nat)
    requires PowerOfTwo(a) && PowerOfTwo(b) && a <= b
    ensures b % a == 0
  {
    if a > 1 {
      PowersDivide(a / 2, b / 2);
      var q := b / 2 / (a / 2);
      assert b / 2 == a / 2 * q;
      assert b == a * q by {
        assert a == 2 * (a / 2) && b == 2 * (b / 2);
      }
      MultipleModulo(a, q);
    }
  }

  lemma MultipleModulo(a: nat, q: nat)
    requires a > 0
    ensures a * q % a == 0
  {
    Bytes.QuotientUnique(a * q, a, q, 0);
  }

  function Alignment(o: TlsObject): (alignment: nat)
    ensures alignment > 0
  {
    if o.alignment == 0 then 1 else o.alignment
  }

  function RoundUp(value: nat, alignment: nat): (result: nat)
    requires alignment > 0
    ensures value <= result < value + alignment
  {
    RoundUpFacts(value, alignment);
    (value + alignment - 1) / alignment * alignment
  }

  lemma RoundUpFacts(value: nat, alignment: nat)
    requires alignment > 0
    ensures var result := (value + alignment - 1) / alignment * alignment;
      value <= result < value + alignment && result % alignment == 0
  {
    var sum := value + alignment - 1;
    var q := sum / alignment;
    assert sum == q * alignment + sum % alignment;
    MultipleModulo(alignment, q);
    assert alignment * q == q * alignment;
  }

  lemma RoundedUp(value: nat, alignment: nat)
    requires alignment > 0
    ensures RoundUp(value, alignment) % alignment == 0
  {
    RoundUpFacts(value, alignment);
  }

  lemma RoundUpAtLeast(value: nat, alignment: nat)
    requires value > 0 && alignment > 0
    ensures RoundUp(value, alignment) >= alignment
  {
    var q := (value + alignment - 1) / alignment;
    assert q >= 1 by { Bytes.QuotientUnique(alignment, alignment, 1, 0); }
  }

  predicate HasTls(o: TlsObject) {
    o.memorySize > 0
  }

  /** align_tls_size in 64-bit arithmetic. */
  method AlignSize(value: nat, alignment: nat) returns (ok: bool, result: nat)
    ensures ok <==> PowerOfTwo(alignment) && value <= WORD - alignment
    ensures ok ==> alignment > 0 && result == RoundUp(value, alignment)
  {
    result := 0;
    ok := PowerOfTwo(alignment) && value <= WORD - 1 - (alignment - 1);
    if ok {
      result := RoundUp(value, alignment);
    }
  }

  /** The end of the blocks placed so far, or none when one did not fit. */
  function CursorAfter(objects: seq<TlsObject>): Option<nat> {
    if objects == [] then Some(0)
    else
      var n := |objects| - 1;
      var o := objects[n];
      match CursorAfter(objects[..n])
      case None => None
      case Some(cursor) =>
        if !HasTls(o) then Some(cursor)
        else if PowerOfTwo(Alignment(o)) && RoundUp(cursor + o.memorySize, Alignment(o)) <= TLS_MAX
        then Some(RoundUp(cursor + o.memorySize, Alignment(o)))
        else None
  }

  /** The largest alignment asked for, at least 16. */
  function LargestAlignment(objects: seq<TlsObject>): (largest: nat)
    ensures largest >= 16
  {
    if objects == [] then 16
    else
      var n := |objects| - 1;
      var rest := LargestAlignment(objects[..n]);
      if HasTls(objects[n]) && Alignment(objects[n]) > rest then Alignment(objects[n]) else rest
  }

  /** What the layout leaves alone. */
  predicate SameRequest(a: TlsObject, b: TlsObject) {
    a.image == b.image && a.fileSize == b.fileSize && a.memorySize == b.memorySize && a.alignment == b.alignment
  }

  /** The first `n` objects are placed in order, with modules 1 .. next - 1. */
  ghost predicate Placed(objects: seq<TlsObject>, n: nat, cursor: nat, largest: nat, next: nat) {
    && n <= |objects| && 1 <= next <= n + 1 && cursor <= TLS_MAX && PowerOfTwo(largest) && largest >= 16
    && (forall i :: 0 <= i < n && HasTls(objects[i]) ==> PlacedOne(objects[i], cursor, largest, next))
    && (forall i :: 0 <= i < n && !HasTls(objects[i]) ==> objects[i].moduleId == 0)
    && (forall i, j :: 0 <= i < j < n && HasTls(objects[i]) && HasTls(objects[j]) ==> Follows(objects[i], objects[j]))
    && (forall m :: 1 <= m < next ==> HasModule(objects, n, m))
  }

  ghost predicate HasModule(objects: seq<TlsObject>, n: nat, m: int)
    requires n <= |objects|
  {
    exists i :: 0 <= i < n && HasTls(objects[i]) && objects[i].moduleId == m
  }

  ghost predicate PlacedOne(o: TlsObject, cursor: nat, largest: nat, next: nat) {
    && 1 <= o.moduleId < next && o.memorySize <= o.offset <= cursor
    && PowerOfTwo(Alignment(o)) && Alignment(o) <= largest && o.offset % Alignment(o) == 0
  }

  /** The later block lies entirely below the earlier one. */
  ghost predicate Follows(a: TlsObject, b: TlsObject) {
    a.moduleId < b.moduleId && a.offset + b.memorySize <= b.offset
  }

  /** layout_static_tls */
  method LayoutStaticTls(objects: array<TlsObject>) returns (ok: bool, staticSize: nat, ghost modules: nat)
    requires forall i :: 0 <= i < objects.Length ==> objects[i].moduleId == 0 && objects[i].alignment < WORD
    modifies objects
    ensures forall i :: 0 <= i < objects.Length ==> SameRequest(objects[i], old(objects[i]))
    ensures var request := old(objects[..]);
      ok <==> CursorAfter(request).Some? &&
              RoundUp(CursorAfter(request).value, LargestAlignment(request)) <= TLS_MAX
    ensures ok ==> staticSize == RoundUp(CursorAfter(old(objects[..])).value, LargestAlignment(old(objects[..])))
    ensures ok ==> Placed(objects[..], objects.Length, staticSize, LargestAlignment(old(objects[..])), modules + 1)
  {
    hide Placed, PowerOfTwo, RoundUp, CursorAfter, LargestAlignment;
    ghost var request := objects[..];
    var cursor, largest, moduleId := 0, 16, 1;
    modules, staticSize := 0, 0;
    var index := 0;
    NothingPlaced(objects[..]);
    assert request[..0] == [];
    while index < objects.Length
      invariant 0 <= index <= objects.Length
      invariant forall i :: 0 <= i < objects.Length ==> SameRequest(objects[i], request[i])
      invariant forall i :: index <= i < objects.Length ==> objects[i] == request[i]
      invariant CursorAfter(request[..index]) == Some(cursor) && largest == LargestAlignment(request[..index])
      invariant Placed(objects[..], index, cursor, largest, moduleId) && largest < WORD
    {
      ghost var before := objects[..];
      var o := objects[index];
      LayoutStep(request, index);
      PlacedBounds(before, index, cursor, largest, moduleId);
      if HasTls(o) {
        var alignment := Alignment(o);
        if o.memorySize > TLS_MAX || cursor > TLS_MAX - o.memorySize {
          StaysNone(request, index + 1);
          return false, 0, 0;
        }
        var fits, offset := AlignSize(cursor + o.memorySize, alignment);
        RoundUpAtLeast(cursor + o.memorySize, alignment);
        if !fits || offset > TLS_MAX {
          StaysNone(request, index + 1);
          return false, 0, 0;
        }
        objects[index] := o.(offset := offset, moduleId := moduleId);
        PlaceNext(before, index, cursor, largest, moduleId, objects[index]);
        assert objects[..] == before[index := objects[index]];
        cursor := offset;
        if alignment > largest {
          largest := alignment;
        }
        moduleId := moduleId + 1;
      } else {
        SkipNext(before, index, cursor, largest, moduleId);
      }
      index := index + 1;
    }
    assert request[..index] == request;
    PlacedBounds(objects[..], index, cursor, largest, moduleId);
    modules := moduleId - 1;
    if cursor > 0 {
      RoundUpAtLeast(cursor, largest);
    }
    ok, staticSize := AlignSize(cursor, largest);
    ok := ok && staticSize <= TLS_MAX;
    if ok {
      LargerCursor(objects[..], index, cursor, staticSize, largest, moduleId);
    }
  }

  lemma NothingPlaced(objects: seq<TlsObject>)
    ensures Placed(objects, 0, 0, 16, 1) && CursorAfter([]) == Some(0) && LargestAlignment([]) == 16
  {
    assert PowerOfTwo(2) && PowerOfTwo(4) && PowerOfTwo(8);
  }

  lemma PlacedBounds(objects: seq<TlsObject>, n: nat, cursor: nat, largest: nat, next: nat)
    requires Placed(objects, n, cursor, largest, next)
    ensures cursor <= TLS_MAX && PowerOfTwo(largest) && largest >= 16 && next <= n + 1
  {
  }

  lemma LayoutStep(request: seq<TlsObject>, n: nat)
    requires n < |request|
    ensures var o := request[n];
      var before := CursorAfter(request[..n]);
      && LargestAlignment(request[..n + 1]) ==
           (if HasTls(o) && Alignment(o) > LargestAlignment(request[..n]) then Alignment(o)
            else LargestAlignment(request[..n]))
      && (before.Some? && !HasTls(o) ==> CursorAfter(request[..n + 1]) == before)
      && (before.Some? && HasTls(o) ==>
            var end := RoundUp(before.value + o.memorySize, Alignment(o));
            CursorAfter(request[..n + 1]) == if PowerOfTwo(Alignment(o)) && end <= TLS_MAX then Some(end) else None)
  {
    assert request[..n + 1][..n] == request[..n];
  }

  lemma {:induction false} StaysNone(objects: seq<TlsObject>, n: nat)
    requires n <= |objects| && CursorAfter(objects[..n]).None?
    ensures CursorAfter(objects).None?
    decreases |objects| - n
  {
    if n < |objects| {
      assert objects[..n + 1][..n] == objects[..n];
      StaysNone(objects, n + 1);
    } else {
      assert objects[..n] == objects;
    }
  }

  lemma PlaceNext(objects: seq<TlsObject>, n: nat, cursor: nat, largest: nat, next: nat, o: TlsObject)
    requires n < |objects| && Placed(objects, n, cursor, largest, next) && HasTls(o)
    requires PowerOfTwo(Alignment(o)) && o.moduleId == next
    requires o.offset == RoundUp(cursor + o.memorySize, Alignment(o)) <= TLS_MAX
    ensures var largest' := if Alignment(o) > largest then Alignment(o) else largest;
      Placed(objects[n := o], n + 1, o.offset, largest', next + 1)
  {
    hide PowerOfTwo, RoundUp;
    RoundedUp(cursor + o.memorySize, Alignment(o));
    var placed := objects[n := o];
    var largest' := if Alignment(o) > largest then Alignment(o) else largest;
    forall i | 0 <= i < n + 1 && HasTls(placed[i]) ensures PlacedOne(placed[i], o.offset, largest', next + 1) {
      if i < n {
        assert PlacedOne(objects[i], cursor, largest, next);
      }
    }
    forall i | 0 <= i < n && HasTls(placed[i]) ensures Follows(placed[i], o) {
      assert PlacedOne(objects[i], cursor, largest, next);
    }
    var k := n + 1;
    forall m | 1 <= m < next + 1 ensures HasModule(placed, k, m) {
      if m == next {
        assert placed[n].moduleId == m;
      } else {
        assert HasModule(objects, n, m);
        var i :| 0 <= i < n && HasTls(objects[i]) && objects[i].moduleId == m;
        assert placed[i].moduleId == m;
      }
    }
  }

  lemma SkipNext(objects: seq<TlsObject>, n: nat, cursor: nat, largest: nat, next: nat)
    requires n < |objects| && Placed(objects, n, cursor, largest, next) && !HasTls(objects[n]) && objects[n].moduleId == 0
    ensures Placed(objects, n + 1, cursor, largest, next)
  {
    hide PowerOfTwo;
    var k := n + 1;
    forall m | 1 <= m < next ensures HasModule(objects, k, m) {
      assert HasModule(objects, n, m);
    }
  }

  lemma LargerCursor(objects: seq<TlsObject>, n: nat, cursor: nat, larger: nat, largest: nat, next: nat)
    requires Placed(objects, n, cursor, largest, next) && cursor <= larger <= TLS_MAX
    ensures Placed(objects, n, larger, largest, next)
  {
    forall i | 0 <= i < n && HasTls(objects[i]) ensures PlacedOne(objects[i], larger, largest, next) {
      assert PlacedOne(objects[i], cursor, largest, next);
    }
  }

  // ----- the blocks of one thread

  /** Where a module's block starts in the thread with this thread pointer. */
  function BlockAt(tp: nat, o: TlsObject): int {
    tp - o.offset
  }

  /** Blocks of different modules do not overlap. */
  lemma BlocksDisjoint(objects: seq<TlsObject>, cursor: nat, largest: nat, next: nat, tp: nat, i: nat, j: nat)
    requires Placed(objects, |objects|, cursor, largest, next) && i < |objects| && j < |objects| && i != j
    requires HasTls(objects[i]) && HasTls(objects[j])
    ensures || BlockAt(tp, objects[i]) + objects[i].memorySize <= BlockAt(tp, objects[j])
            || BlockAt(tp, objects[j]) + objects[j].memorySize <= BlockAt(tp, objects[i])
    ensures objects[i].moduleId != objects[j].moduleId
  {
    if i < j {
      assert Follows(objects[i], objects[j]);
    } else {
      assert Follows(objects[j], objects[i]);
    }
  }

  /** Blocks lie inside the static area and are aligned as asked, in every thread whose mapping is page aligned. */
  lemma BlockInside(objects: seq<TlsObject>, size: nat, largest: nat, next: nat, mapping: nat, i: nat)
    requires Placed(objects, |objects|, size, largest, next) && i < |objects| && HasTls(objects[i])
    requires size % largest == 0 && largest <= PAGE_SIZE && mapping % PAGE_SIZE == 0
    ensures var block := BlockAt(mapping + size, objects[i]);
      && mapping <= block && block + objects[i].memorySize <= mapping + size
      && block % Alignment(objects[i]) == 0
  {
    var o := objects[i];
    assert PlacedOne(o, size, largest, next);
    assert PowerOfTwo(PAGE_SIZE) by {
      assert PowerOfTwo(2) && PowerOfTwo(4) && PowerOfTwo(8) && PowerOfTwo(16) && PowerOfTwo(32) && PowerOfTwo(64);
      assert PowerOfTwo(128) && PowerOfTwo(256) && PowerOfTwo(512) && PowerOfTwo(1024) && PowerOfTwo(2048);
    }
    var a := Alignment(o);
    PowersDivide(a, largest);
    PowersDivide(a, PAGE_SIZE);
    DividesMultiple(a, largest, size);
    DividesMultiple(a, PAGE_SIZE, mapping);
    DifferenceDivisible(a, mapping, size, o.offset);
  }

  lemma DividesMultiple(a: nat, b: nat, c: nat)
    requires a > 0 && b > 0 && b % a == 0 && c % b == 0
    ensures c % a == 0
  {
    var p, q := b / a, c / b;
    assert b == a * p && c == b * q;
    assert c == a * (p * q);
    MultipleModulo(a, p * q);
  }

  lemma DifferenceDivisible(a: nat, x: nat, y: nat, z: nat)
    requires a > 0 && x % a == 0 && y % a == 0 && z % a == 0 && z <= x + y
    ensures (x + y - z) % a == 0
  {
    var p, q, r := x / a, y / a, z / a;
    assert x == a * p && y == a * q && z == a * r;
    assert x + y - z == a * (p + q - r);
    assert p + q < r ==> a * (p + q - r) < 0;
    MultipleModulo(a, p + q - r);
  }
}
