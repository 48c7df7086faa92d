/**
 The NovaFS volume as a value: sectors, extents, the bytes of a file, the
 directory on disk and the abstract tree of nodes (kernel/filesystem.c).
 */
module FsStore {
  import opened VmTypes
  import opened Bytes
  import opened FsNames
  import opened FsEntries

  type Sectors = seq<seq<byte>>

  /** A disk large enough for the volume, of 512-byte sectors. */
  ghost predicate DiskOk(sectors: Sectors) {
    && DATA_LBA < |sectors| < UINT32
    && forall i :: 0 <= i < |sectors| ==> |sectors[i]| == SECTOR
  }

  function ZeroSector(): (data: seq<byte>)
    ensures |data| == SECTOR && forall i: nat :: i < SECTOR ==> data[i] == 0
  {
    seq(SECTOR, _ => 0)
  }

  ghost predicate HasByte(sectors: Sectors, start: nat, p: nat) {
    start + p / SECTOR < |sectors| && |sectors[start + p / SECTOR]| == SECTOR
  }

  /** Disks are contiguous: past the first missing byte of a file every byte is missing. */
  lemma OffDisk(sectors: Sectors, start: nat, p: nat, q: nat)
    requires DiskOk(sectors) && p <= q
    ensures HasByte(sectors, start, q) ==> HasByte(sectors, start, p)
  {
    assert p / SECTOR <= q / SECTOR;
  }

  /** Byte `p` of a file that starts at sector `start`; zero where there is no disk. */
  ghost function FileByte(sectors: Sectors, start: nat, p: nat): byte {
    if HasByte(sectors, start, p) then sectors[start + p / SECTOR][p % SECTOR] else 0
  }

  /** The first `size` bytes stored from sector `start` on. */
  ghost function Stored(sectors: Sectors, start: nat, size: nat): (bytes: seq<byte>)
    ensures |bytes| == size
    ensures forall p: nat :: p < size ==> bytes[p] == FileByte(sectors, start, p)
  {
    seq(size, p requires 0 <= p < size => FileByte(sectors, start, p))
  }

  /** The extent of a used entry lies in the data area and covers its size. */
  ghost predicate ExtentOk(e: Entry, count: nat) {
    && e.size <= e.capacity * SECTOR
    && (e.capacity > 0 ==> DATA_LBA <= e.start && e.start + e.capacity <= count)
  }

  /** The last sector number a 32-bit extent may end at. */
  const LIMIT := UINT32 - 1

  ghost predicate Apart(e: Entry, f: Entry) {
    e.capacity > 0 && f.capacity > 0 ==> e.start + e.capacity <= f.start || f.start + f.capacity <= e.start
  }

  ghost predicate TableOk(entries: seq<Entry>) {
    |entries| == MAX_ENTRIES && forall i :: 0 <= i < |entries| ==> Fits(entries[i])
  }

  /** Extents lie in the data area and are pairwise disjoint. */
  ghost predicate ExtentsOk(entries: seq<Entry>, count: nat) {
    && (forall i :: 0 <= i < |entries| && entries[i].used ==> ExtentOk(entries[i], count))
    && (forall i, j :: 0 <= i < |entries| && 0 <= j < |entries| && i != j && entries[i].used && entries[j].used ==>
          Apart(entries[i], entries[j]))
  }

  // ----- the abstract tree

  datatype Node = Node(name: Name, kind: nat, owner: nat, flags: nat, contents: seq<byte>)

  ghost function NodeOf(e: Entry, sectors: Sectors): Option<Node> {
    if e.used
    then Some(Node(e.name, e.kind, e.owner, e.flags, Stored(sectors, e.start, e.size)))
    else None
  }

  ghost function Nodes(entries: seq<Entry>, sectors: Sectors): (nodes: seq<Option<Node>>)
    ensures |nodes| == |entries|
    ensures forall i :: 0 <= i < |entries| ==> nodes[i] == NodeOf(entries[i], sectors)
  {
    seq(|entries|, i requires 0 <= i < |entries| => NodeOf(entries[i], sectors))
  }

  /** Sectors agree outside [from, to). */
  ghost predicate SameOutside(a: Sectors, b: Sectors, from: nat, to: nat) {
    |a| == |b| && forall k :: 0 <= k < |a| && !(from <= k < to) ==> a[k] == b[k]
  }

  /** Writing inside one extent leaves the bytes of a disjoint extent alone. */
  lemma OtherExtent(a: Sectors, b: Sectors, from: nat, to: nat, e: Entry)
    requires DiskOk(a) && DiskOk(b) && SameOutside(a, b, from, to) && e.size <= e.capacity * SECTOR
    requires e.capacity > 0 ==> e.start + e.capacity <= from || to <= e.start
    ensures NodeOf(e, b) == NodeOf(e, a) && Stored(b, e.start, e.size) == Stored(a, e.start, e.size)
  {
    forall p: nat | p < e.size ensures FileByte(b, e.start, p) == FileByte(a, e.start, p) {
      assert p / SECTOR < e.capacity;
    }
    assert Stored(b, e.start, e.size) == Stored(a, e.start, e.size);
  }

  /** Extents within a bound are within any larger one. */
  lemma LooserBound(entries: seq<Entry>, count: nat, more: nat)
    requires ExtentsOk(entries, count) && count <= more
    ensures ExtentsOk(entries, more)
  {
  }

  // ----- where new extents go

  function ExtentEnd(e: Entry): nat {
    e.start + e.capacity
  }

  /** The end of the last extent, ignoring ends that do not fit 32 bits. */
  function NextLba(entries: seq<Entry>): (next: nat)
    ensures DATA_LBA <= next < UINT32
  {
    if entries == [] then DATA_LBA
    else
      var rest := NextLba(entries[..|entries| - 1]);
      var e := entries[|entries| - 1];
      if e.used && ExtentEnd(e) > rest && ExtentEnd(e) < UINT32 then ExtentEnd(e) else rest
  }

  /** Every extent that ends within 32 bits ends at or before the next free sector. */
  lemma {:induction false} NextLbaBound(entries: seq<Entry>, i: nat)
    requires i < |entries| && entries[i].used && ExtentEnd(entries[i]) < UINT32
    ensures ExtentEnd(entries[i]) <= NextLba(entries)
  {
    var n := |entries| - 1;
    if i < n {
      NextLbaBound(entries[..n], i);
    }
  }

  // ----- the directory on disk

  function SlotBytes(sectors: Sectors, i: nat): (bytes: seq<byte>)
    requires DIRECTORY_LBA + i / PER_SECTOR < |sectors| && |sectors[DIRECTORY_LBA + i / PER_SECTOR]| == SECTOR
    ensures |bytes| == ENTRY_SIZE
  {
    sectors[DIRECTORY_LBA + i / PER_SECTOR][i % PER_SECTOR * ENTRY_SIZE .. (i % PER_SECTOR + 1) * ENTRY_SIZE]
  }

  ghost predicate SlotMirrored(entries: seq<Entry>, sectors: Sectors, i: nat)
    requires DiskOk(sectors) && i < |entries| <= MAX_ENTRIES
  {
    |entries[i].name| <= NAME_MAX && SlotBytes(sectors, i) == Encode(entries[i])
  }

  /** The directory sectors hold every slot of the table but possibly slot `open`. */
  ghost predicate MirroredBut(entries: seq<Entry>, sectors: Sectors, open: nat) {
    && DiskOk(sectors) && |entries| == MAX_ENTRIES
    && forall i: nat :: i < MAX_ENTRIES && i != open ==> SlotMirrored(entries, sectors, i)
  }

  /** The directory sectors hold exactly the table. */
  ghost predicate Mirrored(entries: seq<Entry>, sectors: Sectors) {
    MirroredBut(entries, sectors, MAX_ENTRIES)
  }

  lemma OpenSlot(entries: seq<Entry>, sectors: Sectors, index: nat, e: Entry)
    requires Mirrored(entries, sectors) && index < MAX_ENTRIES
    ensures MirroredBut(entries[index := e], sectors, index)
  {
    var entries' := entries[index := e];
    forall i: nat | i < MAX_ENTRIES && i != index ensures SlotMirrored(entries', sectors, i) {
      assert SlotMirrored(entries, sectors, i);
    }
  }

  /** Data writes never touch the directory. */
  lemma DataKeepsMirror(entries: seq<Entry>, a: Sectors, b: Sectors, from: nat, to: nat, open: nat)
    requires MirroredBut(entries, a, open) && DiskOk(b) && SameOutside(a, b, from, to) && DATA_LBA <= from
    ensures MirroredBut(entries, b, open)
  {
    forall i: nat | i < MAX_ENTRIES && i != open ensures SlotMirrored(entries, b, i) {
      assert SlotMirrored(entries, a, i);
    }
  }

  /** Saving one slot into its sector mirrors that slot and leaves the others alone. */
  lemma SaveMirrors(entries: seq<Entry>, e: Entry, a: Sectors, b: Sectors, index: nat)
    requires MirroredBut(entries, a, index) && DiskOk(b) && index < MAX_ENTRIES && |e.name| <= NAME_MAX
    requires var lba := DIRECTORY_LBA + index / PER_SECTOR;
      b == a[lba := Splice(a[lba], index % PER_SECTOR * ENTRY_SIZE, Encode(e))]
    ensures Mirrored(entries[index := e], b)
  {
    hide Encode, Splice;
    var entries' := entries[index := e];
    forall i: nat | i < MAX_ENTRIES ensures SlotMirrored(entries', b, i) {
      if i == index {
        assert SlotBytes(b, i) == Encode(e);
      } else {
        assert SlotMirrored(entries, a, i);
        assert i / PER_SECTOR == index / PER_SECTOR ==> i % PER_SECTOR != index % PER_SECTOR;
        assert SlotBytes(b, i) == SlotBytes(a, i);
      }
    }
  }

  /** Reading the directory back gives the table. */
  lemma MirrorDecodes(entries: seq<Entry>, sectors: Sectors, i: nat)
    requires TableOk(entries) && Mirrored(entries, sectors) && i < MAX_ENTRIES
    ensures Decode(SlotBytes(sectors, i)) == entries[i]
  {
    assert SlotMirrored(entries, sectors, i);
    EntryRoundTrip(entries[i]);
  }

  // ----- bytes within an extent

  /** A write of `bytes` inside one sector, seen from the file that owns the sector. */
  lemma SpliceInFile(a: Sectors, start: nat, position: nat, bytes: seq<byte>, p: nat)
    requires HasByte(a, start, position) && position % SECTOR + |bytes| <= SECTOR
    ensures var lba := start + position / SECTOR;
      FileByte(a[lba := Splice(a[lba], position % SECTOR, bytes)], start, p) ==
      if position <= p < position + |bytes| then bytes[p - position] else FileByte(a, start, p)
  {
    hide Splice;
    if position <= p < position + |bytes| {
      SameBlock(position, p, |bytes|);
    } else if p / SECTOR == position / SECTOR {
      assert !(position % SECTOR <= p % SECTOR < position % SECTOR + |bytes|);
    }
  }

  lemma SameBlock(position: nat, p: nat, n: nat)
    requires position % SECTOR + n <= SECTOR && position <= p < position + n
    ensures p / SECTOR == position / SECTOR && p % SECTOR == position % SECTOR + (p - position)
  {
  }
}
