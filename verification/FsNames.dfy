/** Path names of NovaFS (kernel/filesystem.c): validity, parents, symlink targets. */
module FsNames {
  import opened VmTypes

  type Name = seq<byte>

  const NAME_MAX := 95
  const SLASH: byte := 47
  const DOT: byte := 46

  /** name[i..j] is one component of the path. */
  ghost predicate Segment(name: Name, i: int, j: int) {
    && 0 <= i <= j <= |name|
    && (i == 0 || name[i - 1] == SLASH) && (j == |name| || name[j] == SLASH)
    && forall k :: i <= k < j ==> name[k] != SLASH
  }

  ghost predicate GoodSegment(name: Name, i: int, j: int)
    requires 0 <= i <= j <= |name|
  {
    i < j && name[i..j] != [DOT, DOT]
  }

  ghost predicate Printable(name: Name) {
    forall i :: 0 <= i < |name| ==> 32 <= name[i] <= 126
  }

  /** A usable path: printable, of bounded length, no empty and no ".." component. */
  ghost predicate Valid(name: Name) {
    && 0 < |name| <= NAME_MAX && Printable(name)
    && forall i, j :: Segment(name, i, j) ==> GoodSegment(name, i, j)
  }

  lemma SegmentStart(name: Name, i: int, i2: int, j: int)
    requires Segment(name, i, j) && Segment(name, i2, j)
    ensures i == i2
  {
  }

  method ValidName(name: Name) returns (ok: bool)
    ensures ok <==> Valid(name)
  {
    var length := |name|;
    if length == 0 || length > NAME_MAX {
      return false;
    }
    var segment := 0;
    var index := 0;
    while index < length
      invariant 0 <= segment <= index <= length
      invariant segment == 0 || name[segment - 1] == SLASH
      invariant forall k :: segment <= k < index ==> name[k] != SLASH
      invariant forall k :: 0 <= k < index ==> 32 <= name[k] <= 126
      invariant forall i, j :: Segment(name, i, j) && j < index ==> GoodSegment(name, i, j)
    {
      var character := name[index];
      if character < 32 || character > 126 {
        return false;
      }
      if character == SLASH {
        assert Segment(name, segment, index);
        if index == segment || (index - segment == 2 && name[segment] == DOT && name[segment + 1] == DOT) {
          assert !GoodSegment(name, segment, index);
          return false;
        }
        forall i, j | Segment(name, i, j) && j == index ensures GoodSegment(name, i, j) {
          SegmentStart(name, i, segment, index);
          assert name[segment..index][0] == name[segment];
          assert index - segment == 2 ==> name[segment..index][1] == name[segment + 1];
        }
        segment := index + 1;
      }
      index := index + 1;
    }
    assert Segment(name, segment, length);
    assert segment < length ==> name[segment..length][0] == name[segment];
    assert length - segment == 2 ==> name[segment..length][1] == name[segment + 1];
    assert length - segment == 2 && name[segment] == DOT && name[segment + 1] == DOT ==> name[segment..length] == [DOT, DOT];
    ok := segment < length && !(length - segment == 2 && name[segment] == DOT && name[segment + 1] == DOT);
    forall i, j | ok && Segment(name, i, j) ensures GoodSegment(name, i, j) {
      if j == length {
        SegmentStart(name, i, segment, length);
      }
    }
  }

  /** The position of the last slash, or -1. */
  function LastSlash(name: Name): (position: int)
    ensures -1 <= position < |name|
    ensures position >= 0 ==> name[position] == SLASH
    ensures forall k :: position < k < |name| ==> name[k] != SLASH
  {
    if name == [] then -1
    else if name[|name| - 1] == SLASH then |name| - 1
    else LastSlash(name[..|name| - 1])
  }

  /** The directory part of a nested name. */
  function Parent(name: Name): Option<Name> {
    if LastSlash(name) < 0 then None else Some(name[..LastSlash(name)])
  }

  method FindLastSlash(name: Name) returns (position: int)
    ensures position == LastSlash(name)
  {
    position := -1;
    var index := 0;
    while index < |name|
      invariant 0 <= index <= |name|
      invariant position == LastSlash(name[..index])
    {
      assert name[..index + 1][..index] == name[..index];
      if name[index] == SLASH {
        position := index;
      }
      index := index + 1;
    }
    assert name[..index] == name;
  }

  /** A valid nested name has a non-empty parent. */
  lemma ParentNonEmpty(name: Name)
    requires Valid(name) && LastSlash(name) >= 0
    ensures LastSlash(name) > 0
  {
    assert LastSlash(name) == 0 ==> Segment(name, 0, 0);
  }

  ghost predicate ValidTarget(target: Name) {
    Valid(if |target| > 0 && target[0] == SLASH then target[1..] else target)
  }

  method ValidSymlinkTarget(target: Name) returns (ok: bool)
    ensures ok <==> ValidTarget(target)
  {
    ok := ValidName(if |target| > 0 && target[0] == SLASH then target[1..] else target);
  }

  /** The name a symlink called `name` leads to. */
  ghost function Followed(name: Name, target: Name): (next: Option<Name>)
    ensures next.Some? ==> Valid(next.value)
  {
    if !ValidTarget(target) then None
    else
      var next :=
        if target[0] == SLASH then Some(target[1..])
        else if LastSlash(name) <= 0 then Some(target)
        else if LastSlash(name) + 1 + |target| > NAME_MAX then None
        else Some(name[..LastSlash(name)] + [SLASH] + target);
      if next.Some? && Valid(next.value) then next else None
  }

  method Follow(name: Name, target: Name) returns (next: Option<Name>)
    ensures next == Followed(name, target)
  {
    var ok := ValidSymlinkTarget(target);
    if !ok {
      return None;
    }
    var resolved := target;
    if target[0] == SLASH {
      resolved := target[1..];
    } else {
      var directory := FindLastSlash(name);
      if directory > 0 {
        if directory + 1 + |target| > NAME_MAX {
          return None;
        }
        resolved := name[..directory] + [SLASH] + target;
      }
    }
    ok := ValidName(resolved);
    next := if ok then Some(resolved) else None;
  }
}
