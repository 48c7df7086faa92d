/**
 The data engine of NovaFS (kernel/filesystem.c): sector reads and writes that
 may fail, and the loops that fill, copy, zero and patch extents.
 */
module FsEngine {
  import opened VmTypes
  import opened FsEntries
  import opened FsStore

  /** Sectors needed for `size` bytes, at least one, in 64-bit arithmetic. */
  function Required(size: nat): (count: nat)
    ensures count > 0
  {
    var sectors := (size + SECTOR - 1) % WORD / SECTOR;
    if sectors == 0 then 1 else sectors
  }

  /** The sector of byte `position` of a file at `start`, computed in 32 bits. */
  function Lba(start: nat, position: nat): nat {
    (start + position / SECTOR % UINT32) % UINT32
  }

  lemma EarlierSector(start: nat, p: nat, q: nat)
    requires p <= q && start + q / SECTOR < UINT32
    ensures start + p / SECTOR < UINT32
  {
  }

  /** Without overflow, the sector number is within the disk exactly when the byte is. */
  lemma LbaInDisk(sectors: Sectors, start: nat, position: nat)
    requires DiskOk(sectors) && start + position / SECTOR < UINT32
    ensures Lba(start, position) == start + position / SECTOR
    ensures HasByte(sectors, start, position) <==> Lba(start, position) < |sectors|
  {
  }

  /** Rounding the size up to whole sectors exceeds 64 bits. */
  predicate Wraps(size: nat) {
    size > WORD - SECTOR
  }

  /** The sectors counted cover the size exactly when rounding up does not wrap. */
  lemma RequiredCovers(size: nat)
    requires size < WORD
    ensures size <= Required(size) * SECTOR <==> !Wraps(size)
    ensures !Wraps(size) && size > 0 ==> (Required(size) - 1) * SECTOR < size
    ensures Wraps(size) ==> Required(size) == 1
  {
  }

  /** What a read of `capacity` bytes at `offset` returns. */
  function Window(contents: seq<byte>, offset: nat, capacity: nat): seq<byte> {
    if offset >= |contents| then []
    else if offset + capacity > |contents| then contents[offset..]
    else contents[offset..offset + capacity]
  }

  lemma WindowIs(contents: seq<byte>, offset: nat, capacity: nat)
    ensures offset >= |contents| ==> Window(contents, offset, capacity) == []
    ensures offset < |contents| ==>
      var wanted := if capacity > |contents| - offset then |contents| - offset else capacity;
      Window(contents, offset, capacity) == contents[offset..offset + wanted]
  {
  }

  /** The contents after `data` has been written at `offset`: gaps read as zero. */
  function Overlay(contents: seq<byte>, offset: nat, data: seq<byte>): (result: seq<byte>)
    ensures |result| == if offset + |data| > |contents| then offset + |data| else |contents|
  {
    var size := if offset + |data| > |contents| then offset + |data| else |contents|;
    seq(size, p requires 0 <= p =>
      if offset <= p < offset + |data| then data[p - offset] else if p < |contents| then contents[p] else 0)
  }

  /** Replacing one sector, seen from the file that owns it. */
  lemma SectorInFile(a: Sectors, start: nat, block: nat, sector: seq<byte>, p: nat)
    requires start + block < |a| && |a[start + block]| == SECTOR && |sector| == SECTOR
    ensures FileByte(a[start + block := sector], start, p) ==
      if p / SECTOR == block then sector[p % SECTOR] else FileByte(a, start, p)
  {
  }

  /** `bytes` appear at `from` in the file at `start` as far as there is disk; every other byte of it is as before. */
  ghost predicate Patched(a: Sectors, b: Sectors, start: nat, from: nat, bytes: seq<byte>) {
    forall p: nat ::
      FileByte(b, start, p) ==
      if from <= p < from + |bytes| && HasByte(a, start, p) then bytes[p - from] else FileByte(a, start, p)
  }

  ghost predicate Zeroed(a: Sectors, b: Sectors, start: nat, from: nat, to: nat) {
    forall p: nat :: FileByte(b, start, p) == if from <= p < to then 0 else FileByte(a, start, p)
  }

  /** The first `blocks` sectors at `start` are those of the old extent, then zeros. */
  ghost predicate Copied(a: Sectors, oldStart: nat, oldCapacity: nat, b: Sectors, start: nat, blocks: nat) {
    forall p: nat :: p < blocks * SECTOR ==>
      (FileByte(b, start, p) == if p < oldCapacity * SECTOR then FileByte(a, oldStart, p) else 0)
  }

  class Device {
    var sectors: Sectors
    ghost var faults: nat   // device and allocation failures so far

    method ReadSector(lba: nat) returns (ok: bool, data: seq<byte>)
      requires DiskOk(sectors)
      modifies this`faults
      ensures faults >= old(faults)
      ensures ok <==> lba < |sectors| && faults == old(faults)
      ensures faults <= old(faults) + 1
      ensures ok ==> data == sectors[lba] && |data| == SECTOR
    {
      var fails := *;
      if lba >= |sectors| {
        return false, [];
      }
      if fails {
        faults := faults + 1;
        return false, [];
      }
      return true, sectors[lba];
    }

    /** A failing write may leave anything in its own sector. */
    method WriteSector(lba: nat, data: seq<byte>) returns (ok: bool)
      requires DiskOk(sectors) && |data| == SECTOR
      modifies this`faults, this`sectors
      ensures DiskOk(sectors) && faults >= old(faults)
      ensures ok <==> lba < |sectors| && faults == old(faults)
      ensures ok ==> lba < |old(sectors)| && sectors == old(sectors)[lba := data]
      ensures SameOutside(old(sectors), sectors, lba, lba + 1)
      ensures !ok && faults == old(faults) ==> sectors == old(sectors)
    {
      var fails, junk := *, *;
      if lba >= |sectors| {
        return false;
      }
      if fails {
        faults := faults + 1;
        if |junk| == SECTOR {
          sectors := sectors[lba := junk];
        }
        return false;
      }
      sectors := sectors[lba := data];
      return true;
    }

    /** heap_alloc of a sector buffer. */
    method AllocateBuffer() returns (ok: bool)
      modifies this`faults
      ensures faults == old(faults) + if ok then 0 else 1
    {
      ok := *;
      if !ok {
        faults := faults + 1;
      }
    }

    /** One round of read_raw_data: the bytes from `position` to the end of its sector, at most `limit` of them. */
    method ReadChunk(start: nat, size: nat, position: nat, limit: nat) returns (ok: bool, piece: seq<byte>)
      requires DiskOk(sectors) && 0 < limit && position + limit <= size && start + (size - 1) / SECTOR < UINT32
      modifies this`faults
      ensures faults >= old(faults) && (ok <==> faults == old(faults) && HasByte(sectors, start, position))
      ensures ok ==> 0 < |piece| <= limit && HasByte(sectors, start, position + |piece| - 1)
      ensures ok ==> piece == Stored(sectors, start, size)[position..position + |piece|]
    {
      hide FileByte, Stored, Lba, HasByte;
      EarlierSector(start, position, size - 1);
      LbaInDisk(sectors, start, position);
      var sector;
      ok, sector := ReadSector(Lba(start, position));
      if !ok {
        return false, [];
      }
      var within := position % SECTOR;
      var chunk := limit;
      if chunk > SECTOR - within {
        chunk := SECTOR - within;
      }
      ChunkOfFile(sectors, start, size, position, chunk);
      SameSector(sectors, start, position, chunk);
      piece := sector[within..within + chunk];
    }

    /** read_raw_data */
    method ReadData(start: nat, size: nat, offset: nat, capacity: nat) returns (result: int, data: seq<byte>)
      requires DiskOk(sectors) && (size > 0 ==> start + (size - 1) / SECTOR < UINT32)
      modifies this`faults
      ensures faults >= old(faults)
      ensures result >= 0 ==> data == Window(Stored(sectors, start, size), offset, capacity) && result == |data|
      ensures result >= 0 ==> faults == old(faults)
      ensures faults == old(faults) ==> var window := |Window(Stored(sectors, start, size), offset, capacity)|;
        (result < 0 <==> window > 0x7FFF_FFFF || (window > 0 && !HasByte(sectors, start, offset + window - 1)))
    {
      hide FileByte, Stored, Lba, HasByte, Window, DiskOk;
      WindowIs(Stored(sectors, start, size), offset, capacity);
      if offset >= size {
        return 0, [];
      }
      var wanted := if capacity > size - offset then size - offset else capacity;
      var ok := AllocateBuffer();
      if !ok {
        return -1, [];
      }
      data := [];
      ghost var contents := Stored(sectors, start, size);
      while |data| < wanted
        invariant |data| <= wanted && data == contents[offset..offset + |data|]
        invariant faults == old(faults) && (|data| > 0 ==> HasByte(sectors, start, offset + |data| - 1))
      {
        var piece;
        ok, piece := ReadChunk(start, size, offset + |data|, wanted - |data|);
        if !ok {
          OffDisk(sectors, start, offset + |data|, offset + wanted - 1);
          return -1, [];
        }
        ghost var next := offset + |data| + |piece|;
        SlicesJoin(contents, offset, offset + |data|, next);
        data := data + piece;
        assert offset + |data| == next && data == contents[offset..next];
      }
      return if |data| > 0x7FFF_FFFF then -1 else |data|, data;
    }

    /** Fills `required` sectors from `start` on with `data`, zero-padded. */
    method Fill(start: nat, required: nat, data: seq<byte>) returns (ok: bool)
      requires DiskOk(sectors) && start + required <= |sectors|
      modifies this
      ensures DiskOk(sectors) && faults >= old(faults) && (ok <==> faults == old(faults))
      ensures SameOutside(old(sectors), sectors, start, start + required)
      ensures ok ==> var n := if |data| < required * SECTOR then |data| else required * SECTOR;
        Stored(sectors, start, n) == data[..n]
    {
      var written := 0;
      var block := 0;
      while block < required
        invariant 0 <= block <= required && DiskOk(sectors) && faults == old(faults)
        invariant written == if block * SECTOR < |data| then block * SECTOR else |data|
        invariant SameOutside(old(sectors), sectors, start, start + required)
        invariant forall p: nat :: p < written ==> FileByte(sectors, start, p) == data[p]
      {
        var chunk := |data| - written;
        if chunk > SECTOR {
          chunk := SECTOR;
        }
        var sector := data[written..written + chunk] + ZeroSector()[chunk..];
        ghost var before := sectors;
        ok := WriteSector(start + block, sector);
        if !ok {
          return;
        }
        forall p: nat | p < written + chunk ensures FileByte(sectors, start, p) == data[p] {
          SectorInFile(before, start, block, sector, p);
        }
        written := written + chunk;
        block := block + 1;
      }
      ok := true;
    }

    /** Copies the first sectors of an extent to a later one and zeroes the rest. */
    method CopyExtent(oldStart: nat, oldCapacity: nat, start: nat, required: nat) returns (ok: bool)
      requires DiskOk(sectors) && start + required <= |sectors|
      requires oldCapacity > 0 ==> 0 < oldStart && oldStart + oldCapacity <= start
      modifies this
      ensures DiskOk(sectors) && faults >= old(faults) && (ok <==> faults == old(faults))
      ensures SameOutside(old(sectors), sectors, start, start + required)
      ensures ok ==> Copied(old(sectors), oldStart, oldCapacity, sectors, start, required)
    {
      var block := 0;
      while block < required
        invariant 0 <= block <= required && DiskOk(sectors) && faults == old(faults)
        invariant SameOutside(old(sectors), sectors, start, start + required)
        invariant Copied(old(sectors), oldStart, oldCapacity, sectors, start, block)
      {
        var sector := ZeroSector();
        if block < oldCapacity && oldStart != 0 {
          ok, sector := ReadSector(oldStart + block);
          if !ok {
            return;
          }
        }
        ghost var before := sectors;
        ok := WriteSector(start + block, sector);
        if !ok {
          return;
        }
        forall p: nat | p < (block + 1) * SECTOR
          ensures FileByte(sectors, start, p) ==
            if p < oldCapacity * SECTOR then FileByte(old(sectors), oldStart, p) else 0
        {
          SectorInFile(before, start, block, sector, p);
        }
        block := block + 1;
      }
      ok := true;
    }

    /** Reads a sector of the file at `start`, overwrites part of it and writes it back. */
    method Patch(start: nat, position: nat, bytes: seq<byte>) returns (ok: bool)
      requires DiskOk(sectors) && start + position / SECTOR < UINT32 && position % SECTOR + |bytes| <= SECTOR
      modifies this
      ensures DiskOk(sectors) && faults >= old(faults)
      ensures ok <==> faults == old(faults) && HasByte(old(sectors), start, position)
      ensures SameOutside(old(sectors), sectors, start + position / SECTOR, start + position / SECTOR + 1)
      ensures ok ==> Patched(old(sectors), sectors, start, position, bytes)
      ensures !ok && faults == old(faults) ==> sectors == old(sectors)
    {
      var lba := Lba(start, position);
      var sector;
      ok, sector := ReadSector(lba);
      if !ok {
        return;
      }
      ok := WriteSector(lba, Splice(sector, position % SECTOR, bytes));
      forall p: nat | ok
        ensures FileByte(sectors, start, p) ==
          if position <= p < position + |bytes| && HasByte(old(sectors), start, p) then bytes[p - position]
          else FileByte(old(sectors), start, p)
      {
        if position <= p < position + |bytes| {
          SameBlock(position, p, |bytes|);
        }
        SpliceInFile(old(sectors), start, position, bytes, p);
      }
    }

    /** Zeroes the bytes of the file at `start` from `from` up to `to`, or up to the end of the disk. */
    method ZeroGap(start: nat, ghost room: nat, from: nat, to: nat) returns (ok: bool)
      requires DiskOk(sectors) && start + from / SECTOR < UINT32 && to <= room * SECTOR
      modifies this
      ensures DiskOk(sectors) && faults >= old(faults)
      ensures ok <==> faults == old(faults) && (to <= from || HasByte(old(sectors), start, to - 1))
      ensures SameOutside(old(sectors), sectors, start, start + room)
      ensures faults == old(faults) ==> Zeroed(old(sectors), sectors, start, from, to)
    {
      hide FileByte, Zeroed, Patched;
      NothingZeroed(sectors, sectors, start, from, from);
      var gap := from;
      while gap < to
        invariant from <= gap && (from <= to ==> gap <= to) && (to < from ==> gap == from) && DiskOk(sectors) && faults == old(faults)
        invariant gap == from || HasByte(old(sectors), start, gap - 1)
        invariant SameOutside(old(sectors), sectors, start, start + room)
        invariant Zeroed(old(sectors), sectors, start, from, gap)
      {
        var chunk := to - gap;
        if chunk > SECTOR - gap % SECTOR {
          chunk := SECTOR - gap % SECTOR;
        }
        assert gap / SECTOR < room;
        NextSector(old(sectors), start, from, gap);
        ghost var before := sectors;
        ok := Patch(start, gap, ZeroSector()[..chunk]);
        OffDisk(old(sectors), start, gap, to - 1);
        if !ok {
          if faults == old(faults) {
            NothingBeyond(old(sectors), sectors, start, from, gap, to);
          }
          return;
        }
        SameBlock(gap, gap + chunk - 1, chunk);
        ZeroesJoin(old(sectors), before, sectors, start, from, gap, ZeroSector()[..chunk]);
        gap := gap + chunk;
      }
      ok := true;
      if to < from {
        NothingZeroed(old(sectors), sectors, start, from, to);
      }
    }

    /**
     The sector buffer before a chunk is copied in: a partial chunk needs the
     sector as it is.  The bytes between the old size and the position are zeroed
     once more; they are zero already.
     */
    method LoadForPatch(start: nat, size: nat, position: nat, chunk: nat) returns (ok: bool, sector: seq<byte>)
      requires DiskOk(sectors) && start + position / SECTOR < UINT32 && position % SECTOR + chunk <= SECTOR
      requires position % SECTOR == 0 || forall p: nat :: size <= p < position ==> FileByte(sectors, start, p) == 0
      modifies this`faults
      ensures faults >= old(faults)
      ensures ok <==>
        faults == old(faults) && (HasByte(sectors, start, position) || (position % SECTOR == 0 && chunk == SECTOR))
      ensures ok ==> |sector| == SECTOR
      ensures ok && !(position % SECTOR == 0 && chunk == SECTOR) ==>
        HasByte(sectors, start, position) && sector == sectors[start + position / SECTOR]
    {
      var within := position % SECTOR;
      if within == 0 && chunk == SECTOR {
        return true, ZeroSector();
      }
      ok, sector := ReadSector(Lba(start, position));
      if ok && position > size {
        var sectorStart := position - within;
        var zeroFrom := if size > sectorStart then size - sectorStart else 0;
        if zeroFrom < within {
          AlreadyZero(sectors, start, position, zeroFrom);
          assert Splice(sector, zeroFrom, ZeroSector()[zeroFrom..within]) == sector;
          sector := Splice(sector, zeroFrom, ZeroSector()[zeroFrom..within]);
        }
      }
    }

    /** The data loop of fs_write_at; it stops where the disk ends. */
    method Overwrite(start: nat, ghost room: nat, size: nat, offset: nat, data: seq<byte>) returns (ok: bool)
      requires DiskOk(sectors) && start + offset / SECTOR < UINT32 && offset + |data| <= room * SECTOR
      requires forall p: nat :: size <= p < offset ==> FileByte(sectors, start, p) == 0
      modifies this
      ensures DiskOk(sectors) && faults >= old(faults)
      ensures ok <==> faults == old(faults) && (|data| == 0 || HasByte(old(sectors), start, offset + |data| - 1))
      ensures SameOutside(old(sectors), sectors, start, start + room)
      ensures faults == old(faults) ==> Patched(old(sectors), sectors, start, offset, data)
    {
      hide FileByte, Patched, Lba, HasByte, Splice;
      var consumed := 0;
      NothingPatched(sectors, start, offset);
      while consumed < |data|
        invariant 0 <= consumed <= |data| && DiskOk(sectors) && faults == old(faults)
        invariant consumed == 0 || consumed == |data| || (offset + consumed) % SECTOR == 0
        invariant SameOutside(old(sectors), sectors, start, start + room)
        invariant consumed == 0 || HasByte(old(sectors), start, offset + consumed - 1)
        invariant Patched(old(sectors), sectors, start, offset, data[..consumed])
        invariant consumed == 0 ==> sectors == old(sectors)
      {
        var position := offset + consumed;
        NextSector(old(sectors), start, offset, position);
        var lba := Lba(start, position);
        LbaInDisk(sectors, start, position);
        LbaInDisk(old(sectors), start, position);
        var within := position % SECTOR;
        var chunk := |data| - consumed;
        if chunk > SECTOR - within {
          chunk := SECTOR - within;
        }
        assert position / SECTOR < room;
        OffDisk(old(sectors), start, position, offset + |data| - 1);
        PatchEnds(old(sectors), sectors, start, offset, data, consumed);
        var sector;
        ok, sector := LoadForPatch(start, size, position, chunk);
        if !ok {
          return;
        }
        var bytes := data[consumed..consumed + chunk];
        ghost var before := sectors;
        ok := WriteSector(lba, Splice(sector, within, bytes));
        if !ok {
          return;
        }
        SameSector(before, start, position, chunk);
        SameSector(old(sectors), start, position, chunk);
        PatchSector(before, start, position, bytes, sector);
        PatchesJoin(old(sectors), before, sectors, start, offset, data, consumed, chunk);
        consumed := consumed + chunk;
      }
      assert data[..consumed] == data;
      ok := true;
    }
  }

  lemma NothingZeroed(a: Sectors, b: Sectors, start: nat, from: nat, to: nat)
    requires to <= from && (a == b || Zeroed(a, b, start, from, from))
    ensures Zeroed(a, b, start, from, to)
  {
  }

  /** Where a sequential pass over a file stands after it touched every byte before `gap`. */
  lemma NextSector(a: Sectors, start: nat, from: nat, gap: nat)
    requires DiskOk(a) && start + from / SECTOR < UINT32 && from <= gap
    requires gap == from || HasByte(a, start, gap - 1)
    ensures start + gap / SECTOR < UINT32
  {
  }

  /** Zeroing past the end of the disk adds nothing. */
  lemma NothingBeyond(a: Sectors, b: Sectors, start: nat, from: nat, gap: nat, to: nat)
    requires DiskOk(a) && DiskOk(b) && |a| == |b| && from <= gap <= to
    requires Zeroed(a, b, start, from, gap) && !HasByte(a, start, gap)
    ensures Zeroed(a, b, start, from, to)
  {
    forall p: nat ensures FileByte(b, start, p) == if from <= p < to then 0 else FileByte(a, start, p) {
      if gap <= p {
        OffDisk(a, start, gap, p);
      }
    }
  }

  /** A patch that has reached the end of the disk is complete. */
  lemma PatchEnds(a: Sectors, b: Sectors, start: nat, offset: nat, data: seq<byte>, n: nat)
    requires DiskOk(a) && n <= |data| && Patched(a, b, start, offset, data[..n])
    ensures !HasByte(a, start, offset + n) ==> Patched(a, b, start, offset, data)
  {
    hide FileByte;
    if !HasByte(a, start, offset + n) {
      forall p: nat
        ensures FileByte(b, start, p) ==
          if offset <= p < offset + |data| && HasByte(a, start, p) then data[p - offset] else FileByte(a, start, p)
      {
        if offset + n <= p {
          OffDisk(a, start, offset + n, p);
        }
      }
    }
  }

  lemma NothingPatched(a: Sectors, start: nat, from: nat)
    ensures Patched(a, a, start, from, [])
  {
  }

  lemma SlicesJoin<T>(s: seq<T>, a: nat, b: nat, c: nat)
    requires a <= b <= c <= |s|
    ensures s[a..b] + s[b..c] == s[a..c]
  {
  }

  lemma ZeroesJoin(a: Sectors, b: Sectors, c: Sectors, start: nat, from: nat, gap: nat, zeros: seq<byte>)
    requires from <= gap && Zeroed(a, b, start, from, gap) && Patched(b, c, start, gap, zeros)
    requires forall k :: 0 <= k < |zeros| ==> zeros[k] == 0
    ensures Zeroed(a, c, start, from, gap + |zeros|)
  {
    forall p: nat ensures FileByte(c, start, p) == if from <= p < gap + |zeros| then 0 else FileByte(a, start, p) {
      assert FileByte(c, start, p) ==
        if gap <= p < gap + |zeros| && HasByte(b, start, p) then zeros[p - gap] else FileByte(b, start, p);
    }
  }

  /** A chunk inside one sector is on the disk if its first byte is. */
  lemma SameSector(sectors: Sectors, start: nat, position: nat, chunk: nat)
    requires HasByte(sectors, start, position) && position % SECTOR + chunk <= SECTOR && chunk > 0
    ensures HasByte(sectors, start, position + chunk - 1)
  {
    SameBlock(position, position + chunk - 1, chunk);
  }

  /** A chunk of a sector is a chunk of the file. */
  lemma ChunkOfFile(sectors: Sectors, start: nat, size: nat, position: nat, chunk: nat)
    requires HasByte(sectors, start, position) && position % SECTOR + chunk <= SECTOR && position + chunk <= size
    ensures Stored(sectors, start, size)[position..position + chunk] ==
      sectors[start + position / SECTOR][position % SECTOR..position % SECTOR + chunk]
  {
    var file := Stored(sectors, start, size)[position..position + chunk];
    var part := sectors[start + position / SECTOR][position % SECTOR..position % SECTOR + chunk];
    forall k: nat | k < chunk ensures file[k] == part[k] {
      SameBlock(position, position + k, chunk);
      assert Stored(sectors, start, size)[position + k] == FileByte(sectors, start, position + k);
    }
  }

  lemma PatchSector(a: Sectors, start: nat, position: nat, bytes: seq<byte>, sector: seq<byte>)
    requires HasByte(a, start, position) && position % SECTOR + |bytes| <= SECTOR && |sector| == SECTOR
    requires sector == a[start + position / SECTOR] || (position % SECTOR == 0 && |bytes| == SECTOR)
    ensures var lba := start + position / SECTOR;
      Patched(a, a[lba := Splice(sector, position % SECTOR, bytes)], start, position, bytes)
  {
    var lba := start + position / SECTOR;
    assert Splice(sector, position % SECTOR, bytes) == Splice(a[lba], position % SECTOR, bytes);
    forall p: nat
      ensures FileByte(a[lba := Splice(sector, position % SECTOR, bytes)], start, p) ==
        if position <= p < position + |bytes| && HasByte(a, start, p) then bytes[p - position]
        else FileByte(a, start, p)
    {
      if position <= p < position + |bytes| {
        SameBlock(position, p, |bytes|);
      }
      SpliceInFile(a, start, position, bytes, p);
    }
  }

  lemma PatchesJoin(a: Sectors, b: Sectors, c: Sectors, start: nat, offset: nat, data: seq<byte>, n: nat, chunk: nat)
    requires n + chunk <= |data| && DiskOk(a) && DiskOk(b) && |a| == |b|
    requires Patched(a, b, start, offset, data[..n]) && Patched(b, c, start, offset + n, data[n..n + chunk])
    ensures Patched(a, c, start, offset, data[..n + chunk])
  {
    hide FileByte;
    forall p: nat
      ensures FileByte(c, start, p) ==
        if offset <= p < offset + n + chunk && HasByte(a, start, p) then data[..n + chunk][p - offset]
        else FileByte(a, start, p)
    {
      assert FileByte(c, start, p) ==
        if offset + n <= p < offset + n + chunk && HasByte(b, start, p) then data[n..n + chunk][p - offset - n]
        else FileByte(b, start, p);
    }
  }

  lemma AlreadyZero(sectors: Sectors, start: nat, position: nat, from: nat)
    requires HasByte(sectors, start, position) && from <= position % SECTOR
    requires forall p: nat :: position - position % SECTOR + from <= p < position ==> FileByte(sectors, start, p) == 0
    ensures var sector := sectors[start + position / SECTOR];
      forall k: nat :: from <= k < position % SECTOR ==> sector[k] == 0
  {
    var sector := sectors[start + position / SECTOR];
    forall k: nat | from <= k < position % SECTOR ensures sector[k] == 0 {
      var p := position - position % SECTOR + k;
      assert p / SECTOR == position / SECTOR && p % SECTOR == k;
      assert FileByte(sectors, start, p) == 0;
    }
  }
}
