/** The kernel heap (kernel/heap.c) as a row of blocks: first fit, split, coalesce. */
module HeapBlocks {
  import opened VmTypes

  const HEAP_START := 0x0200_0000
  const HEAP_END := 0x3E00_0000
  const HEADER := 32
  const ALIGNMENT := 16

  /** A block: the address of its header, the size of its payload, whether it is free. */
  datatype Block = Block(start: nat, size: nat, free: bool)

  /** Rounds up to 16 in 64-bit arithmetic. */
  function AlignSize(size: nat): nat {
    (size + ALIGNMENT - 1) % WORD / ALIGNMENT * ALIGNMENT
  }

  /** The aligned size holds the request exactly when rounding up does not wrap. */
  lemma AlignSizeHolds(size: nat)
    requires size < WORD
    ensures AlignSize(size) % ALIGNMENT == 0
    ensures AlignSize(size) >= size <==> size <= WORD - ALIGNMENT
    ensures size <= WORD - ALIGNMENT ==> AlignSize(size) < size + ALIGNMENT
  {
  }

  function End(b: Block): nat {
    b.start + HEADER + b.size
  }

  function Payload(b: Block): nat {
    b.start + HEADER
  }

  /** The blocks follow one another without gaps from `from` to `to`. */
  ghost predicate Tiles(blocks: seq<Block>, from: nat, to: nat) {
    if blocks == [] then from == to
    else
      && blocks[0].start == from && from % ALIGNMENT == 0 && blocks[0].size % ALIGNMENT == 0
      && Tiles(blocks[1..], End(blocks[0]), to)
  }

  /** No two neighbours are both free. */
  ghost predicate Coalesced(blocks: seq<Block>) {
    |blocks| < 2 || (!(blocks[0].free && blocks[1].free) && Coalesced(blocks[1..]))
  }

  /** The heap: its blocks tile it exactly and free neighbours have been merged. */
  ghost predicate BlocksOk(blocks: seq<Block>) {
    |blocks| > 0 && Tiles(blocks, HEAP_START, HEAP_END) && Coalesced(blocks)
  }

  /** The allocated blocks in address order. */
  ghost function Live(blocks: seq<Block>): seq<Block> {
    if blocks == [] then [] else LiveOne(blocks[0]) + Live(blocks[1..])
  }

  ghost function LiveOne(b: Block): seq<Block> {
    if b.free then [] else [b]
  }

  const INITIAL := Block(HEAP_START, HEAP_END - HEAP_START - HEADER, true)

  // ----- rows joined and taken apart

  lemma {:induction false} TilesJoin(a: seq<Block>, b: seq<Block>, from: nat, middle: nat, to: nat)
    requires Tiles(a, from, middle) && Tiles(b, middle, to)
    ensures Tiles(a + b, from, to)
  {
    if a == [] {
      assert a + b == b;
    } else {
      TilesJoin(a[1..], b, End(a[0]), middle, to);
      assert (a + b)[1..] == a[1..] + b;
    }
  }

  lemma {:induction false} TilesPart(blocks: seq<Block>, i: nat, from: nat, to: nat)
    requires Tiles(blocks, from, to) && i < |blocks|
    ensures Tiles(blocks[..i], from, blocks[i].start) && Tiles(blocks[i..], blocks[i].start, to)
    ensures from <= blocks[i].start && End(blocks[i]) <= to && blocks[i].start % ALIGNMENT == 0
  {
    if i == 0 {
      TilesOrder(blocks, from, to);
    } else {
      TilesPart(blocks[1..], i - 1, End(blocks[0]), to);
      assert blocks[..i][1..] == blocks[1..][..i - 1];
    }
  }

  lemma {:induction false} TilesOrder(blocks: seq<Block>, from: nat, to: nat)
    requires Tiles(blocks, from, to)
    ensures from <= to && (blocks != [] ==> End(blocks[0]) <= to)
  {
    if blocks != [] {
      TilesOrder(blocks[1..], End(blocks[0]), to);
    }
  }

  /** Blocks follow one another, so distinct blocks never overlap, headers included. */
  lemma BlocksApart(blocks: seq<Block>, i: nat, j: nat, from: nat, to: nat)
    requires Tiles(blocks, from, to) && i < j < |blocks|
    ensures End(blocks[i]) <= blocks[j].start
  {
    TilesPart(blocks, i, from, to);
    var rest := blocks[i..];
    TilesPart(rest[1..], j - i - 1, End(blocks[i]), to);
  }

  lemma {:induction false} CoalescedJoin(a: seq<Block>, b: seq<Block>)
    ensures Coalesced(a + b) <==>
      Coalesced(a) && Coalesced(b) && (a == [] || b == [] || !(a[|a| - 1].free && b[0].free))
  {
    if a == [] {
      assert a + b == b;
    } else {
      CoalescedJoin(a[1..], b);
      assert (a + b)[1..] == a[1..] + b;
    }
  }

  lemma {:induction false} LiveJoin(a: seq<Block>, b: seq<Block>)
    ensures Live(a + b) == Live(a) + Live(b)
  {
    hide LiveOne;
    if a == [] {
      assert a + b == b;
    } else {
      LiveJoin(a[1..], b);
      assert (a + b)[1..] == a[1..] + b;
      assert LiveOne(a[0]) + (Live(a[1..]) + Live(b)) == (LiveOne(a[0]) + Live(a[1..])) + Live(b);
    }
  }

  /** Once every block is free again, the heap is the single block it started as. */
  lemma AllFreeIsInitial(blocks: seq<Block>)
    requires BlocksOk(blocks) && Live(blocks) == []
    ensures blocks == [INITIAL]
  {
    LiveFirst(blocks);
    if |blocks| > 1 {
      LiveFirst(blocks[1..]);
      assert false;
    }
    assert Tiles(blocks[1..], End(blocks[0]), HEAP_END);
  }

  lemma LiveFirst(blocks: seq<Block>)
    requires blocks != [] && Live(blocks) == []
    ensures blocks[0].free && Live(blocks[1..]) == []
  {
  }

  lemma One(b: Block)
    ensures Coalesced([b]) && Live([b]) == LiveOne(b)
    ensures b.start % ALIGNMENT == 0 && b.size % ALIGNMENT == 0 ==> Tiles([b], b.start, End(b))
    ensures Live([]) == [] && Coalesced([])
  {
    assert [b][1..] == [];
  }

  /** A row around block `i`. */
  lemma Around(blocks: seq<Block>, i: nat, from: nat, to: nat)
    requires Tiles(blocks, from, to) && i < |blocks|
    ensures var a, b, c := blocks[..i], blocks[i], blocks[i + 1..];
      && blocks == a + [b] + c && Tiles(a, from, b.start) && Tiles(c, End(b), to) && b.start % ALIGNMENT == 0
      && b.size % ALIGNMENT == 0 && Live(blocks) == Live(a) + LiveOne(b) + Live(c)
      && (Coalesced(blocks) ==> Coalesced(a) && Coalesced(c))
      && (Coalesced(blocks) && b.free && a != [] ==> !a[i - 1].free)
      && (Coalesced(blocks) && b.free && c != [] ==> !c[0].free)
  {
    hide Live, Coalesced;
    var a, b, c := blocks[..i], blocks[i], blocks[i + 1..];
    TilesPart(blocks, i, from, to);
    assert blocks[i..] == [b] + c && blocks[i..][1..] == c;
    assert blocks == a + ([b] + c) && blocks == a + [b] + c;
    One(b);
    LiveJoin(a, [b] + c);
    LiveJoin([b], c);
    CoalescedJoin(a, [b] + c);
    CoalescedJoin([b], c);
  }

  // ----- allocation

  /** The first free block of at least `size` bytes, from block `from` on. */
  function FirstFit(blocks: seq<Block>, size: nat, from: nat): (index: Option<nat>)
    requires from <= |blocks|
    ensures index.Some? ==> from <= index.value < |blocks| && Fits(blocks[index.value], size)
    ensures index.Some? ==> forall k :: from <= k < index.value ==> !Fits(blocks[k], size)
    ensures index.None? ==> forall k :: from <= k < |blocks| ==> !Fits(blocks[k], size)
    decreases |blocks| - from
  {
    if from == |blocks| then None
    else if Fits(blocks[from], size) then Some(from)
    else FirstFit(blocks, size, from + 1)
  }

  predicate Fits(b: Block, size: nat) {
    b.free && b.size >= size
  }

  /** What becomes of a block when its first `size` bytes are split off. */
  function Parts(b: Block, size: nat): (parts: seq<Block>)
    ensures |parts| > 0
  {
    if b.size < size + HEADER + ALIGNMENT then [b]
    else [b.(size := size), Block(b.start + HEADER + size, b.size - size - HEADER, true)]
  }

  function SplitAt(blocks: seq<Block>, i: nat, size: nat): (split: seq<Block>)
    requires i < |blocks|
    ensures i < |split|
  {
    blocks[..i] + Parts(blocks[i], size) + blocks[i + 1..]
  }

  /** heap_alloc on block `i`: split it, take the front. */
  function TakeAt(blocks: seq<Block>, i: nat, size: nat): (taken: seq<Block>)
    requires i < |blocks|
    ensures i < |taken|
  {
    var split := SplitAt(blocks, i, size);
    split[i := split[i].(free := false)]
  }

  /** The parts of a free block tile it; what is split off is free. */
  lemma PartsTile(b: Block, size: nat)
    requires Fits(b, size) && size % ALIGNMENT == 0 && b.start % ALIGNMENT == 0 && b.size % ALIGNMENT == 0
    ensures var parts := Parts(b, size);
      && parts[0].start == b.start && parts[0].size >= size && parts[0].size % ALIGNMENT == 0
      && Tiles(parts[1..], End(parts[0]), End(b)) && Coalesced(parts[1..]) && Live(parts[1..]) == []
      && (|parts| > 1 ==> parts[|parts| - 1].free && |parts| == 2)
  {
    var parts := Parts(b, size);
    if |parts| > 1 {
      assert parts[1..] == [parts[1]];
      One(parts[1]);
    }
  }

  /** A row rebuilt around a taken block. */
  lemma Rebuilt(a: seq<Block>, front: Block, back: seq<Block>, c: seq<Block>, middle: nat)
    requires Tiles(a, HEAP_START, front.start) && Tiles([front], front.start, End(front))
    requires Tiles(back, End(front), middle) && Tiles(c, middle, HEAP_END)
    requires Coalesced(a) && Coalesced(back) && Coalesced(c) && !front.free && Live(back) == []
    requires back != [] && c != [] ==> !(back[|back| - 1].free && c[0].free)
    ensures BlocksOk(a + ([front] + (back + c)))
    ensures Live(a + ([front] + (back + c))) == Live(a) + [front] + Live(c)
  {
    hide Live, Coalesced, Tiles;
    TilesJoin(back, c, End(front), middle, HEAP_END);
    TilesJoin([front], back + c, front.start, End(front), HEAP_END);
    TilesJoin(a, [front] + (back + c), HEAP_START, front.start, HEAP_END);
    CoalescedJoin(back, c);
    RebuiltCoalesced(a, front, back + c);
    RebuiltLive(a, front, back, c);
  }

  lemma RebuiltCoalesced(a: seq<Block>, front: Block, rest: seq<Block>)
    requires Coalesced(a) && Coalesced(rest) && !front.free
    ensures Coalesced(a + ([front] + rest))
  {
    hide Coalesced, Live, Tiles;
    One(front);
    CoalescedJoin([front], rest);
    var tail := [front] + rest;
    assert tail[0] == front;
    CoalescedJoin(a, tail);
  }

  lemma RebuiltLive(a: seq<Block>, front: Block, back: seq<Block>, c: seq<Block>)
    requires !front.free && Live(back) == []
    ensures Live(a + ([front] + (back + c))) == Live(a) + [front] + Live(c)
  {
    hide Live, Coalesced, Tiles;
    One(front);
    LiveJoin(back, c);
    assert Live(back + c) == Live(c);
    LiveJoin([front], back + c);
    LiveJoin(a, [front] + (back + c));
    assert Live(a) + ([front] + Live(c)) == Live(a) + [front] + Live(c);
  }

  lemma TakeShape(blocks: seq<Block>, i: nat, size: nat)
    requires i < |blocks|
    ensures var parts := Parts(blocks[i], size);
      var front := parts[0].(free := false);
      TakeAt(blocks, i, size) == blocks[..i] + ([front] + (parts[1..] + blocks[i + 1..]))
  {
  }

  /** Taking a block keeps the tiling and adds exactly one live block, large enough. */
  lemma TakeKeeps(blocks: seq<Block>, i: nat, size: nat)
    requires BlocksOk(blocks) && i < |blocks| && Fits(blocks[i], size) && size % ALIGNMENT == 0
    ensures var taken := TakeAt(blocks, i, size);
      && BlocksOk(taken) && taken[i].start == blocks[i].start && taken[i].size >= size && !taken[i].free
      && Live(blocks) == Live(blocks[..i]) + Live(blocks[i + 1..])
      && Live(taken) == Live(blocks[..i]) + [taken[i]] + Live(blocks[i + 1..])
  {
    hide Live, Coalesced, Tiles, TakeAt, Parts;
    var a, b, c := blocks[..i], blocks[i], blocks[i + 1..];
    var parts := Parts(b, size);
    var front := parts[0].(free := false);
    Around(blocks, i, HEAP_START, HEAP_END);
    TakeShape(blocks, i, size);
    PartsTile(b, size);
    One(front);
    Rebuilt(a, front, parts[1..], c, End(b));
    assert Live(a) + LiveOne(b) == Live(a);
  }

  // ----- release

  /** merge_next */
  function MergeAt(blocks: seq<Block>, i: nat): (merged: seq<Block>)
    requires i < |blocks|
    ensures i < |merged|
  {
    if i + 1 == |blocks| || !blocks[i + 1].free then blocks
    else blocks[..i] + [Merged(blocks[i], blocks[i + 1])] + blocks[i + 2..]
  }

  function Merged(b: Block, next: Block): Block {
    b.(size := b.size + HEADER + next.size)
  }

  /** heap_free on block `i`. */
  function FreeAt(blocks: seq<Block>, i: nat): seq<Block>
    requires i < |blocks|
  {
    if blocks[i].free then blocks
    else
      var merged := MergeAt(blocks[i := blocks[i].(free := true)], i);
      if i > 0 && merged[i - 1].free then MergeAt(merged, i - 1) else merged
  }

  /** Two neighbours merged cover what they covered. */
  lemma MergedTiles(b: Block, next: Block)
    requires b.start % ALIGNMENT == 0 && b.size % ALIGNMENT == 0 && next.size % ALIGNMENT == 0 && End(b) == next.start
    ensures Tiles([Merged(b, next)], b.start, End(next)) && End(Merged(b, next)) == End(next)
    ensures Merged(b, next).start == b.start && Merged(b, next).free == b.free
  {
    assert [Merged(b, next)][1..] == [];
  }

  lemma MergeShape(blocks: seq<Block>, i: nat)
    requires i + 1 < |blocks| && blocks[i + 1].free
    ensures MergeAt(blocks, i) == blocks[..i] + ([Merged(blocks[i], blocks[i + 1])] + blocks[i + 2..])
  {
  }

  /** Merging a free block with a free successor keeps the tiling and every live block. */
  lemma MergeKeeps(blocks: seq<Block>, i: nat)
    requires Tiles(blocks, HEAP_START, HEAP_END) && i < |blocks| && blocks[i].free
    ensures Tiles(MergeAt(blocks, i), HEAP_START, HEAP_END) && Live(MergeAt(blocks, i)) == Live(blocks)
  {
    hide Live, Tiles, Merged, Coalesced;
    if i + 1 < |blocks| && blocks[i + 1].free {
      hide MergeAt;
      var a, b, next, c := blocks[..i], blocks[i], blocks[i + 1], blocks[i + 2..];
      var joined, rest := Merged(b, next), blocks[i + 1..];
      MergeShape(blocks, i);
      Around(blocks, i, HEAP_START, HEAP_END);
      Around(rest, 0, End(b), HEAP_END);
      FirstStarts(rest, End(b), HEAP_END);
      assert rest[0] == next && rest[1..] == c;
      MergedTiles(b, next);
      TilesJoin([joined], c, b.start, End(next), HEAP_END);
      TilesJoin(a, [joined] + c, HEAP_START, b.start, HEAP_END);
      MergedLive(a, b, next, joined, c, rest);
    }
  }

  lemma MergedLive(a: seq<Block>, b: Block, next: Block, joined: Block, c: seq<Block>, rest: seq<Block>)
    requires b.free && next.free && joined.free && rest == [next] + c
    ensures Live(a + ([joined] + c)) == Live(a + [b] + rest)
  {
    hide Live, Coalesced, Tiles;
    One(b);
    One(next);
    One(joined);
    LiveJoin([joined], c);
    LiveJoin(a, [joined] + c);
    LiveJoin([next], c);
    LiveJoin(a + [b], rest);
    LiveJoin(a, [b]);
    assert [] + Live(c) == Live(c) && Live(a) + [] == Live(a);
  }

  lemma FirstStarts(blocks: seq<Block>, from: nat, to: nat)
    requires Tiles(blocks, from, to) && blocks != []
    ensures blocks[0].start == from
  {
  }

  /** Both sides of a free block are coalesced; only the pairs with the block itself may be free. */
  ghost predicate CoalescedAround(blocks: seq<Block>, i: nat)
    requires i < |blocks|
  {
    Coalesced(blocks[..i]) && Coalesced(blocks[i + 1..]) && blocks[i].free
  }

  lemma MergedForward(blocks: seq<Block>, i: nat)
    requires i < |blocks| && CoalescedAround(blocks, i)
    ensures var merged := MergeAt(blocks, i);
      Coalesced(merged[..i]) && Coalesced(merged[i..]) && merged[i].free && merged[..i] == blocks[..i]
  {
    hide Coalesced;
    One(blocks[i]);
    var merged := MergeAt(blocks, i);
    var c := blocks[i + 1..];
    assert merged[..i] == blocks[..i];
    if merged == blocks {
      assert merged[i..] == [blocks[i]] + c;
      CoalescedJoin([blocks[i]], c);
    } else {
      var joined := Merged(blocks[i], blocks[i + 1]);
      One(joined);
      assert c == [c[0]] + c[1..] && blocks[i + 2..] == c[1..];
      CoalescedJoin([c[0]], c[1..]);
      assert merged[i..] == [joined] + c[1..];
      CoalescedJoin([joined], c[1..]);
    }
  }

  lemma MergedBackward(blocks: seq<Block>, i: nat)
    requires 0 < i < |blocks| && Coalesced(blocks[..i]) && Coalesced(blocks[i..]) && blocks[i].free
    ensures blocks[i - 1].free ==> Coalesced(MergeAt(blocks, i - 1))
    ensures !blocks[i - 1].free ==> Coalesced(blocks)
  {
    hide Coalesced, MergeAt;
    assert blocks == blocks[..i] + blocks[i..];
    if !blocks[i - 1].free {
      CoalescedJoin(blocks[..i], blocks[i..]);
    } else {
      JoinedPair(blocks, i);
    }
  }

  /** Two free blocks joined have no free neighbour if neither had another. */
  lemma JoinedPair(blocks: seq<Block>, i: nat)
    requires 0 < i < |blocks| && Coalesced(blocks[..i]) && Coalesced(blocks[i..])
    requires blocks[i - 1].free && blocks[i].free
    ensures Coalesced(MergeAt(blocks, i - 1))
  {
    var a, c := blocks[..i - 1], blocks[i + 1..];
    var joined := Merged(blocks[i - 1], blocks[i]);
    assert MergeAt(blocks, i - 1) == a + ([joined] + c);
    assert blocks[..i] == a + [blocks[i - 1]] && blocks[i..] == [blocks[i]] + c;
    assert Coalesced([joined]);
    hide Coalesced, MergeAt;
    CoalescedJoin(a, [blocks[i - 1]]);
    CoalescedJoin([blocks[i]], c);
    CoalescedJoin([joined], c);
    CoalescedJoin(a, [joined] + c);
  }

  /** Freeing keeps the heap tiled and coalesced and removes exactly one live block. */
  lemma FreeKeeps(blocks: seq<Block>, i: nat)
    requires BlocksOk(blocks) && i < |blocks| && !blocks[i].free
    ensures BlocksOk(FreeAt(blocks, i))
    ensures Live(blocks) == Live(blocks[..i]) + [blocks[i]] + Live(blocks[i + 1..])
    ensures Live(FreeAt(blocks, i)) == Live(blocks[..i]) + Live(blocks[i + 1..])
  {
    hide Live, Coalesced, Tiles, MergeAt;
    var a, b, c := blocks[..i], blocks[i], blocks[i + 1..];
    var marked := blocks[i := b.(free := true)];
    Around(blocks, i, HEAP_START, HEAP_END);
    MarkedFree(blocks, i);
    assert marked[..i] == a && marked[i + 1..] == c;
    MergeKeeps(marked, i);
    MergedForward(marked, i);
    var merged := MergeAt(marked, i);
    if i > 0 {
      MergedBackward(merged, i);
      if merged[i - 1].free {
        MergeKeeps(merged, i - 1);
      }
    } else {
      assert merged[i..] == merged;
    }
  }

  /** Clearing the allocation mark alone: still tiled, one live block fewer. */
  lemma MarkedFree(blocks: seq<Block>, i: nat)
    requires Tiles(blocks, HEAP_START, HEAP_END) && i < |blocks|
    ensures var marked := blocks[i := blocks[i].(free := true)];
      Tiles(marked, HEAP_START, HEAP_END) && Live(marked) == Live(blocks[..i]) + Live(blocks[i + 1..])
  {
    hide Live, Coalesced, Tiles;
    var a, b, c := blocks[..i], blocks[i], blocks[i + 1..];
    var freed := b.(free := true);
    Around(blocks, i, HEAP_START, HEAP_END);
    One(freed);
    assert blocks[i := freed] == a + ([freed] + c);
    TilesJoin([freed], c, b.start, End(b), HEAP_END);
    TilesJoin(a, [freed] + c, HEAP_START, b.start, HEAP_END);
    LiveJoin([freed], c);
    LiveJoin(a, [freed] + c);
    assert [] + Live(c) == Live(c);
  }

  function FreeBytes(blocks: seq<Block>): nat {
    if blocks == [] then 0
    else FreeBytes(blocks[..|blocks| - 1]) + if blocks[|blocks| - 1].free then blocks[|blocks| - 1].size else 0
  }
}
