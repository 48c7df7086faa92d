/** The kernel heap (kernel/heap.c): block headers in memory, linked both ways, split and merged in place. */
module KernelHeap {
  import opened VmTypes
  import opened HeapBlocks

  /** A header in memory; 0 stands for a null link. */
  datatype Header = Header(size: nat, previous: nat, next: nat, free: bool)

  /** The links of the headers at the addresses of `chain` are mutually inverse. */
  ghost predicate Linked(headers: map<nat, Header>, chain: seq<nat>) {
    forall i: nat :: i < |chain| ==> LinkOk(headers, chain, i)
  }

  ghost predicate LinkOk(headers: map<nat, Header>, chain: seq<nat>, i: nat)
    requires i < |chain|
  {
    && chain[i] in headers && chain[i] > 0
    && headers[chain[i]].next == (if i + 1 < |chain| then chain[i + 1] else 0)
    && headers[chain[i]].previous == (if i > 0 then chain[i - 1] else 0)
  }

  ghost function BlockAt(headers: map<nat, Header>, a: nat): Block {
    if a in headers then Block(a, headers[a].size, headers[a].free) else Block(a, 0, false)
  }

  /** The blocks the headers along the chain describe. */
  ghost function BlocksOf(headers: map<nat, Header>, chain: seq<nat>): (blocks: seq<Block>)
    ensures |blocks| == |chain| && forall i: nat :: i < |chain| ==> blocks[i] == BlockAt(headers, chain[i])
  {
    seq(|chain|, i requires 0 <= i < |chain| => BlockAt(headers, chain[i]))
  }

  class Heap {
    var headers: map<nat, Header>
    var firstBlock: nat
    ghost var chain: seq<nat>   // the header addresses in order

    ghost predicate Valid()
      reads this
    {
      && |chain| > 0 && firstBlock == chain[0] && Linked(headers, chain)
      && BlocksOk(Blocks())
    }

    ghost function Blocks(): seq<Block>
      reads this
    {
      BlocksOf(headers, chain)
    }

    constructor ()
      ensures firstBlock == 0 && headers == map[] && chain == []
    {
      headers, firstBlock, chain := map[], 0, [];
    }

    /** heap_init */
    method Initialize()
      modifies this
      ensures Valid() && Blocks() == [INITIAL]
    {
      firstBlock := HEAP_START;
      headers := headers[HEAP_START := Header(HEAP_END - HEAP_START - HEADER, 0, 0, true)];
      chain := [HEAP_START];
      assert Blocks() == [INITIAL];
      assert [INITIAL][1..] == [];
    }

    /** split_block on the block at position `i` of the chain. */
    method SplitBlock(block: nat, size: nat, ghost i: nat)
      requires Valid() && i < |chain| && block == chain[i] && size <= Blocks()[i].size
      modifies this`headers, this`chain
      ensures Linked(headers, chain) && i < |chain| && |chain| > 0 && chain[0] == old(chain[0]) && chain[i] == block
      ensures Blocks() == SplitAt(old(Blocks()), i, size)
    {
      ChainOrder(headers, chain);
      ghost var before := Blocks();
      ChainMember(headers, chain, i);
      if headers[block].size < size + HEADER + ALIGNMENT {
        assert SplitAt(before, i, size) == before;
        return;
      }
      assert LinkOk(headers, chain, i);
      var remainder := block + HEADER + size;
      var next := headers[block].next;
      ghost var h0, c0 := headers, chain;
      headers := headers[remainder := Header(headers[block].size - size - HEADER, block, next, true)];
      if next != 0 {
        assert LinkOk(h0, c0, i + 1);
        headers := headers[next := headers[next].(previous := remainder)];
      }
      headers := headers[block := headers[block].(next := remainder, size := size)];
      chain := chain[..i + 1] + [remainder] + chain[i + 1..];
      SplitLinked(h0, c0, headers, chain, i, size);
    }

    /** merge_next on the block at position `i` of the chain. */
    method MergeNext(block: nat, ghost i: nat)
      requires |chain| > 0 && Linked(headers, chain) && Tiles(Blocks(), HEAP_START, HEAP_END)
      requires i < |chain| && block == chain[i]
      modifies this`headers, this`chain
      ensures Linked(headers, chain) && i < |chain| && chain[..i + 1] == old(chain[..i + 1])
      ensures Blocks() == MergeAt(old(Blocks()), i)
    {
      ChainOrder(headers, chain);
      assert LinkOk(headers, chain, i);
      var next := headers[block].next;
      if next == 0 {
        return;
      }
      assert LinkOk(headers, chain, i + 1);
      if !headers[next].free {
        return;
      }
      ghost var h0, c0 := headers, chain;
      headers := headers[block := headers[block].(size := headers[block].size + HEADER + headers[next].size,
                                                  next := headers[next].next)];
      var after := headers[block].next;
      if after != 0 {
        assert LinkOk(h0, c0, i + 2);
        headers := headers[after := headers[after].(previous := block)];
      }
      chain := chain[..i + 1] + chain[i + 2..];
      MergeLinked(h0, c0, headers, chain, i);
    }

    /** heap_alloc: the payload address, or 0 when the request is empty or nothing fits. */
    method Allocate(size: nat) returns (pointer: nat)
      requires (firstBlock == 0 || Valid()) && size < WORD
      modifies this`headers, this`chain
      ensures firstBlock == 0 ==> pointer == 0 && headers == old(headers) && chain == old(chain)
      ensures firstBlock != 0 ==> Valid()
      ensures firstBlock != 0 ==> var fit := FirstFit(old(Blocks()), AlignSize(size), 0);
        if size == 0 || fit.None? then pointer == 0 && Blocks() == old(Blocks())
        else Blocks() == TakeAt(old(Blocks()), fit.value, AlignSize(size)) && pointer == Payload(Blocks()[fit.value])
      ensures pointer != 0 ==> exists b: Block ::
        && b.start + HEADER == pointer && pointer % ALIGNMENT == 0 && (size <= WORD - ALIGNMENT ==> size <= b.size)
        && Gained(old(Live(Blocks())), Live(Blocks()), b)
    {
      if size == 0 || firstBlock == 0 {
        return 0;
      }
      var aligned := AlignSize(size);
      AlignSizeHolds(size);
      var block := firstBlock;
      ghost var i := 0;
      while block != 0
        invariant i <= |chain| && block == (if i < |chain| then chain[i] else 0)
        invariant FirstFit(Blocks(), aligned, 0) == FirstFit(Blocks(), aligned, i)
        decreases |chain| - i
      {
        assert LinkOk(headers, chain, i);
        if headers[block].free && headers[block].size >= aligned {
          Served(Blocks(), i, aligned, size);
          TakeBlock(block, aligned, i);
          return block + HEADER;
        }
        assert i + 1 < |chain| ==> LinkOk(headers, chain, i + 1);
        block := headers[block].next;
        i := i + 1;
      }
      assert i < |chain| ==> LinkOk(headers, chain, i);
      return 0;
    }

    /** Splits the fitting block at position `i` and marks its front as taken. */
    method TakeBlock(block: nat, size: nat, ghost i: nat)
      requires Valid() && i < |chain| && block == chain[i] && Fits(Blocks()[i], size) && size % ALIGNMENT == 0
      modifies this`headers, this`chain
      ensures Valid() && Blocks() == TakeAt(old(Blocks()), i, size)
    {
      hide Tiles, Live, Coalesced, Linked, BlocksOf, SplitAt;
      ghost var before := Blocks();
      TakeKeeps(before, i, size);
      SplitOk(before, i, size);
      SplitBlock(block, size, i);
      ChainOrder(headers, chain);
      ChainMember(headers, chain, i);
      ghost var h0 := headers;
      headers := headers[block := headers[block].(free := false)];
      MarkLinked(h0, headers, chain, i, false);
    }

    /** heap_free on a pointer that heap_alloc returned, or on one it ignores. */
    method Free(pointer: nat, ghost i: nat)
      requires Valid()
      requires HEAP_START < pointer < HEAP_END ==> i < |chain| && pointer == chain[i] + HEADER
      modifies this`headers, this`chain
      ensures Valid()
      ensures Blocks() == if HEAP_START < pointer < HEAP_END then FreeAt(old(Blocks()), i) else old(Blocks())
      ensures HEAP_START < pointer < HEAP_END && !old(Blocks()[i].free) ==>
        Gained(Live(Blocks()), old(Live(Blocks())), old(Blocks()[i]))
    {
      hide Tiles, Live, Coalesced, Linked, BlocksOf, MergeAt;
      if pointer == 0 || pointer <= HEAP_START || pointer >= HEAP_END {
        return;
      }
      ghost var before := Blocks();
      var block := pointer - HEADER;
      ChainMember(headers, chain, i);
      if headers[block].free {
        return;
      }
      FreeKeeps(before, i);
      FreedOne(before, i);
      MarkedFree(before, i);
      ChainOrder(headers, chain);
      ghost var h0 := headers;
      headers := headers[block := headers[block].(free := true)];
      MarkLinked(h0, headers, chain, i, true);
      ghost var marked := Blocks();
      MergeKeeps(marked, i);
      MergeNext(block, i);
      assert LinkOk(headers, chain, i) by { LinkedAt(headers, chain, i); }
      if i > 0 {
        LinkedAt(headers, chain, i - 1);
      }
      assert chain[0] == old(chain[..i + 1])[0] && chain[i] == old(chain[..i + 1])[i];
      var previous := headers[block].previous;
      if previous != 0 {
        if headers[previous].free {
          ghost var row := chain[..i];
          MergeNext(previous, i - 1);
          assert chain[0] == row[0];
        }
      }
    }

    /** heap_free_bytes */
    method CountFreeBytes() returns (total: nat)
      requires Valid()
      ensures total == FreeBytes(Blocks())
    {
      total := 0;
      var block := firstBlock;
      ghost var i := 0;
      while block != 0
        invariant i <= |chain| && block == (if i < |chain| then chain[i] else 0)
        invariant total == FreeBytes(Blocks()[..i])
        decreases |chain| - i
      {
        assert LinkOk(headers, chain, i);
        assert i + 1 < |chain| ==> LinkOk(headers, chain, i + 1);
        assert Blocks()[..i + 1][..i] == Blocks()[..i];
        if headers[block].free {
          total := total + headers[block].size;
        }
        block := headers[block].next;
        i := i + 1;
      }
      assert i < |chain| ==> LinkOk(headers, chain, i);
      assert Blocks()[..i] == Blocks();
    }
  }

  /** One block more is live, at its place in address order. */
  ghost predicate Gained(before: seq<Block>, after: seq<Block>, b: Block) {
    exists k: nat :: k <= |before| && after == before[..k] + [b] + before[k..]
  }

  lemma LinkedAt(headers: map<nat, Header>, chain: seq<nat>, i: nat)
    requires Linked(headers, chain) && i < |chain|
    ensures LinkOk(headers, chain, i)
  {
  }

  /** Taking block `i` serves the request: aligned, large enough, one live block more. */
  lemma Served(blocks: seq<Block>, i: nat, aligned: nat, size: nat)
    requires BlocksOk(blocks) && i < |blocks| && Fits(blocks[i], aligned) && aligned == AlignSize(size) && size < WORD
    ensures var b := TakeAt(blocks, i, aligned)[i];
      && Payload(b) % ALIGNMENT == 0 && (size <= WORD - ALIGNMENT ==> size <= b.size)
      && Gained(Live(blocks), Live(TakeAt(blocks, i, aligned)), b)
  {
    hide Tiles, Live, Coalesced, TakeAt;
    AlignSizeHolds(size);
    TakeKeeps(blocks, i, aligned);
    TilesPart(blocks, i, HEAP_START, HEAP_END);
    var left, right := Live(blocks[..i]), Live(blocks[i + 1..]);
    var k := |left|;
    assert Live(blocks)[..k] == left && Live(blocks)[k..] == right;
  }

  lemma FreedOne(blocks: seq<Block>, i: nat)
    requires BlocksOk(blocks) && i < |blocks| && !blocks[i].free
    ensures Gained(Live(FreeAt(blocks, i)), Live(blocks), blocks[i])
  {
    hide Tiles, Live, Coalesced, FreeAt;
    FreeKeeps(blocks, i);
    var left, right := Live(blocks[..i]), Live(blocks[i + 1..]);
    var k := |left|;
    assert Live(FreeAt(blocks, i))[..k] == left && Live(FreeAt(blocks, i))[k..] == right;
  }

  /** Header addresses increase along the chain. */
  lemma ChainOrder(headers: map<nat, Header>, chain: seq<nat>)
    requires Linked(headers, chain)
    requires Tiles(BlocksOf(headers, chain), HEAP_START, HEAP_END)
    ensures Ordered(headers, chain)
  {
    forall i, j | 0 <= i < j < |chain| ensures End(BlockAt(headers, chain[i])) <= chain[j] {
      BlocksApart(BlocksOf(headers, chain), i, j, HEAP_START, HEAP_END);
    }
  }

  lemma ChainMember(headers: map<nat, Header>, chain: seq<nat>, i: nat)
    requires Linked(headers, chain) && i < |chain|
    ensures chain[i] in headers
  {
    assert LinkOk(headers, chain, i);
  }

  ghost predicate Ordered(headers: map<nat, Header>, chain: seq<nat>) {
    && Linked(headers, chain)
    && forall i, j :: 0 <= i < j < |chain| ==> End(BlockAt(headers, chain[i])) <= chain[j]
  }

  /** The header writes of a split at position `i`. */
  ghost predicate SplitDone(h0: map<nat, Header>, c0: seq<nat>, h: map<nat, Header>, c: seq<nat>, i: nat, size: nat) {
    && i < |c0| && c0[i] in h0 && h0[c0[i]].size >= size + HEADER + ALIGNMENT
    && var block, remainder, next := c0[i], c0[i] + HEADER + size, h0[c0[i]].next;
    && c == c0[..i + 1] + [remainder] + c0[i + 1..] && (next != 0 ==> next in h0)
    && var h1 := h0[remainder := Header(h0[block].size - size - HEADER, block, next, true)];
    && var h2 := if next != 0 then h1[next := h1[next].(previous := remainder)] else h1;
    && block in h2 && h == h2[block := h2[block].(next := remainder, size := size)]
  }

  /** What the split leaves in each header. */
  lemma SplitHeaders(h0: map<nat, Header>, c0: seq<nat>, h: map<nat, Header>, c: seq<nat>, i: nat, size: nat)
    requires Ordered(h0, c0) && SplitDone(h0, c0, h, c, i, size)
    ensures var remainder := c0[i] + HEADER + size;
      && c0[i] in h && h[c0[i]] == h0[c0[i]].(next := remainder, size := size)
      && remainder in h && h[remainder] == Header(h0[c0[i]].size - size - HEADER, c0[i], h0[c0[i]].next, true)
    ensures i + 1 < |c0| ==> c0[i + 1] in h0 && c0[i + 1] in h && h[c0[i + 1]] == h0[c0[i + 1]].(previous := c0[i] + HEADER + size)
    ensures forall k: nat :: k < |c0| && k != i && k != i + 1 ==> c0[k] in h0 && c0[k] in h && h[c0[k]] == h0[c0[k]]
  {
    assert LinkOk(h0, c0, i);
    if i + 1 < |c0| {
      assert LinkOk(h0, c0, i + 1);
      assert End(BlockAt(h0, c0[i])) <= c0[i + 1];
    }
    forall k: nat | k < |c0| && k != i && k != i + 1 ensures c0[k] in h0 && c0[k] in h && h[c0[k]] == h0[c0[k]] {
      assert LinkOk(h0, c0, k);
      if k < i {
        assert End(BlockAt(h0, c0[k])) <= c0[i];
        assert i + 1 < |c0| ==> End(BlockAt(h0, c0[k])) <= c0[i + 1];
      } else {
        assert End(BlockAt(h0, c0[i + 1])) <= c0[k];
      }
    }
  }

  lemma SplitLinked(h0: map<nat, Header>, c0: seq<nat>, h: map<nat, Header>, c: seq<nat>, i: nat, size: nat)
    requires Ordered(h0, c0) && SplitDone(h0, c0, h, c, i, size)
    ensures Linked(h, c) && BlocksOf(h, c) == SplitAt(BlocksOf(h0, c0), i, size)
  {
    SplitHeaders(h0, c0, h, c, i, size);
    forall k: nat | k < |c| ensures LinkOk(h, c, k) {
      SplitLinkAt(h0, c0, h, c, i, size, k);
    }
    SplitShape(h0, c0, h, c, i, size);
  }

  lemma SplitLinkAt(h0: map<nat, Header>, c0: seq<nat>, h: map<nat, Header>, c: seq<nat>, i: nat, size: nat, k: nat)
    requires Ordered(h0, c0) && SplitDone(h0, c0, h, c, i, size) && k < |c|
    ensures LinkOk(h, c, k)
  {
    hide Ordered, SplitDone, BlockAt;
    SplitHeaders(h0, c0, h, c, i, size);
    SplitChain(h0, c0, h, c, i, size);
    assert LinkOk(h0, c0, i) by { OrderedLink(h0, c0, i); }
    if k <= i {
      assert LinkOk(h0, c0, k) by { OrderedLink(h0, c0, k); }
    } else if k > i + 1 {
      assert LinkOk(h0, c0, k - 1) by { OrderedLink(h0, c0, k - 1); }
    }
  }

  lemma OrderedLink(h: map<nat, Header>, c: seq<nat>, k: nat)
    requires Ordered(h, c) && k < |c|
    ensures LinkOk(h, c, k)
  {
  }

  lemma SplitChain(h0: map<nat, Header>, c0: seq<nat>, h: map<nat, Header>, c: seq<nat>, i: nat, size: nat)
    requires SplitDone(h0, c0, h, c, i, size)
    ensures i < |c0| && |c| == |c0| + 1 && c[i + 1] == c0[i] + HEADER + size
    ensures forall k: nat :: k <= i ==> c[k] == c0[k]
    ensures forall k: nat :: i + 1 < k < |c| ==> c[k] == c0[k - 1]
  {
  }

  lemma SplitShape(h0: map<nat, Header>, c0: seq<nat>, h: map<nat, Header>, c: seq<nat>, i: nat, size: nat)
    requires Ordered(h0, c0) && SplitDone(h0, c0, h, c, i, size)
    ensures BlocksOf(h, c) == SplitAt(BlocksOf(h0, c0), i, size)
  {
    hide Ordered, BlocksOf;
    SplitHeaders(h0, c0, h, c, i, size);
    SplitChain(h0, c0, h, c, i, size);
    var b0, b := BlocksOf(h0, c0), BlocksOf(h, c);
    var split := SplitAt(b0, i, size);
    forall k: nat | k < |b| ensures b[k] == split[k] {
      if k > i + 1 {
        assert split[k] == b0[k - 1];
      }
    }
  }

  /** The header writes of a merge at position `i`. */
  ghost predicate MergeDone(h0: map<nat, Header>, c0: seq<nat>, h: map<nat, Header>, c: seq<nat>, i: nat) {
    && i + 1 < |c0| && c0[i] in h0 && c0[i + 1] in h0 && h0[c0[i + 1]].free
    && var block, next := c0[i], c0[i + 1];
    && c == c0[..i + 1] + c0[i + 2..]
    && var h1 := h0[block := h0[block].(size := h0[block].size + HEADER + h0[next].size, next := h0[next].next)];
    && var after := h1[block].next;
    && (after != 0 ==> after in h1)
    && h == if after != 0 then h1[after := h1[after].(previous := block)] else h1
  }

  lemma MergeHeaders(h0: map<nat, Header>, c0: seq<nat>, h: map<nat, Header>, c: seq<nat>, i: nat)
    requires Ordered(h0, c0) && MergeDone(h0, c0, h, c, i)
    ensures c0[i] in h && h[c0[i]] ==
      h0[c0[i]].(size := h0[c0[i]].size + HEADER + h0[c0[i + 1]].size, next := h0[c0[i + 1]].next)
    ensures i + 2 < |c0| ==> c0[i + 2] in h0 && c0[i + 2] in h && h[c0[i + 2]] == h0[c0[i + 2]].(previous := c0[i])
    ensures forall k: nat :: k < |c0| && k != i && k != i + 2 ==> c0[k] in h0 && c0[k] in h && h[c0[k]] == h0[c0[k]]
  {
    assert LinkOk(h0, c0, i) && LinkOk(h0, c0, i + 1);
    if i + 2 < |c0| {
      assert LinkOk(h0, c0, i + 2);
      assert End(BlockAt(h0, c0[i])) <= c0[i + 2];
    }
    forall k: nat | k < |c0| && k != i && k != i + 2 ensures c0[k] in h0 && c0[k] in h && h[c0[k]] == h0[c0[k]] {
      assert LinkOk(h0, c0, k);
      if k < i {
        assert End(BlockAt(h0, c0[k])) <= c0[i];
      } else {
        assert End(BlockAt(h0, c0[i])) <= c0[k];
      }
      assert k < i + 2 < |c0| ==> End(BlockAt(h0, c0[k])) <= c0[i + 2];
      assert i + 2 < k ==> End(BlockAt(h0, c0[i + 2])) <= c0[k];
    }
  }

  lemma MergeLinked(h0: map<nat, Header>, c0: seq<nat>, h: map<nat, Header>, c: seq<nat>, i: nat)
    requires Ordered(h0, c0) && MergeDone(h0, c0, h, c, i)
    ensures Linked(h, c) && BlocksOf(h, c) == MergeAt(BlocksOf(h0, c0), i)
  {
    forall k: nat | k < |c| ensures LinkOk(h, c, k) {
      MergeLinkAt(h0, c0, h, c, i, k);
    }
    MergeBlocks(h0, c0, h, c, i);
  }

  lemma MergeChain(h0: map<nat, Header>, c0: seq<nat>, h: map<nat, Header>, c: seq<nat>, i: nat)
    requires MergeDone(h0, c0, h, c, i)
    ensures i + 1 < |c0| && |c| == |c0| - 1
    ensures forall k: nat :: k <= i ==> c[k] == c0[k]
    ensures forall k: nat :: i < k < |c| ==> c[k] == c0[k + 1]
  {
  }

  lemma MergeLinkAt(h0: map<nat, Header>, c0: seq<nat>, h: map<nat, Header>, c: seq<nat>, i: nat, k: nat)
    requires Ordered(h0, c0) && MergeDone(h0, c0, h, c, i) && k < |c|
    ensures LinkOk(h, c, k)
  {
    hide Ordered, MergeDone, BlockAt;
    MergeChain(h0, c0, h, c, i);
    MergeHeaders(h0, c0, h, c, i);
    assert LinkOk(h0, c0, i) by { OrderedLink(h0, c0, i); }
    assert LinkOk(h0, c0, i + 1) by { OrderedLink(h0, c0, i + 1); }
    if k <= i {
      assert LinkOk(h0, c0, k) by { OrderedLink(h0, c0, k); }
    } else {
      assert LinkOk(h0, c0, k + 1) by { OrderedLink(h0, c0, k + 1); }
    }
  }

  lemma MergeBlocks(h0: map<nat, Header>, c0: seq<nat>, h: map<nat, Header>, c: seq<nat>, i: nat)
    requires Ordered(h0, c0) && MergeDone(h0, c0, h, c, i)
    ensures BlocksOf(h, c) == MergeAt(BlocksOf(h0, c0), i)
  {
    hide Ordered, BlocksOf;
    MergeHeaders(h0, c0, h, c, i);
    MergeChain(h0, c0, h, c, i);
    var b0, b := BlocksOf(h0, c0), BlocksOf(h, c);
    var merged := MergeAt(b0, i);
    forall k: nat | k < |b| ensures b[k] == merged[k] {
      if k > i {
        assert merged[k] == b0[k + 1];
      }
    }
  }

  lemma MarkLinked(h0: map<nat, Header>, h: map<nat, Header>, c: seq<nat>, i: nat, free: bool)
    requires Ordered(h0, c) && i < |c| && c[i] in h0 && h == h0[c[i] := h0[c[i]].(free := free)]
    ensures Linked(h, c)
    ensures var b := BlocksOf(h0, c); BlocksOf(h, c) == b[i := b[i].(free := free)]
  {
    forall k: nat | k < |c| ensures LinkOk(h, c, k) {
      assert LinkOk(h0, c, k);
    }
  }

  lemma PartsWhole(b: Block, size: nat)
    requires Fits(b, size) && size % ALIGNMENT == 0 && b.start % ALIGNMENT == 0 && b.size % ALIGNMENT == 0
    ensures Tiles(Parts(b, size), b.start, End(b))
  {
    hide Tiles, Live, Coalesced, Parts, Fits;
    var parts := Parts(b, size);
    PartsTile(b, size);
    One(parts[0]);
    assert parts == [parts[0]] + parts[1..];
    TilesJoin([parts[0]], parts[1..], b.start, End(parts[0]), End(b));
  }

  /** A split alone leaves a tiled row. */
  lemma SplitOk(blocks: seq<Block>, i: nat, size: nat)
    requires BlocksOk(blocks) && i < |blocks| && Fits(blocks[i], size) && size % ALIGNMENT == 0
    ensures Tiles(SplitAt(blocks, i, size), HEAP_START, HEAP_END)
  {
    hide Tiles, Live, Coalesced, Parts, Fits;
    var a, b, c := blocks[..i], blocks[i], blocks[i + 1..];
    var parts := Parts(b, size);
    Around(blocks, i, HEAP_START, HEAP_END);
    PartsWhole(b, size);
    TilesJoin(a, parts, HEAP_START, b.start, End(b));
    TilesJoin(a + parts, c, HEAP_START, End(b), HEAP_END);
  }
}
