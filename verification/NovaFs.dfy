/**
 NovaFS (kernel/filesystem.c): the calls, proved against the abstract tree of
 nodes, the extent and namespace invariants and the directory on disk.
 */
module NovaFs {
  import opened VmTypes
  import opened Bytes
  import opened FsNames
  import opened FsEntries
  import opened FsStore
  import opened FsEngine
  import opened FsTree

  const FILE_MODE := 0x1B0 // 0660

  function NewEntry(name: Name, kind: nat, mode: nat, owner: nat): Entry {
    Entry(true, kind, mode % 512, owner, name, 0, 0, 0, 0)
  }

  /** The first unused slot. */
  function FirstFree(entries: seq<Entry>, from: nat): (index: Option<nat>)
    requires from <= |entries|
    ensures index.Some? ==> from <= index.value < |entries| && !entries[index.value].used
    decreases |entries| - from
  {
    if from == |entries| then None
    else if !entries[from].used then Some(from)
    else FirstFree(entries, from + 1)
  }

  /** A new entry may be made under this name. */
  ghost predicate Creatable(entries: seq<Entry>, name: Name) {
    FsNames.Valid(name) && Find(entries, name).None? && ParentOk(entries, name) && FirstFree(entries, 0).Some?
  }

  /** The slot, and the entry in it, that a write to `name` works on. */
  datatype Opened = Opened(slot: nat, entry: Entry)

  ghost function Open(entries: seq<Entry>, sectors: Sectors, who: Identity, name: Name): (result: Option<Opened>)
    ensures result.Some? ==> result.value.slot < |entries| && result.value.entry.used
  {
    if !FsNames.Valid(name) then None
    else match Find(entries, name)
         case None =>
           if Creatable(entries, name)
           then Some(Opened(FirstFree(entries, 0).value, NewEntry(name, TYPE_FILE, FILE_MODE, who.uid)))
           else None
         case Some(i) =>
           if entries[i].kind != TYPE_SYMLINK then Some(Opened(i, entries[i]))
           else match Resolve(entries, sectors, name, MAX_LINKS)
                case None => None
                case Some(j) => Some(Opened(j, entries[j]))
  }

  /** A new file of `size` bytes fits on the disk. */
  ghost predicate RoomForNew(entries: seq<Entry>, count: nat, who: Identity, name: Name, size: nat) {
    var slot, e := FirstFree(entries, 0), NewEntry(name, TYPE_FILE, FILE_MODE, who.uid);
    slot.Some? && Writable(who, e) && Room(entries[slot.value := e], count, e, size)
  }

  ghost predicate Writable(who: Identity, e: Entry) {
    e.kind == TYPE_FILE && MayWrite(who, e)
  }

  /** Where the data of an entry goes when it needs `required` sectors. */
  ghost function Placed(entries: seq<Entry>, e: Entry, required: nat): Entry {
    if e.capacity < required then e.(start := NextLba(entries), capacity := required) else e
  }

  ghost predicate Room(entries: seq<Entry>, count: nat, e: Entry, size: nat) {
    Required(size) < UINT32 && Placed(entries, e, Required(size)).start + Required(size) <= count
  }

  /** The last bytes that a write of `n` bytes at `offset` touches are on a disk of `count` sectors. */
  ghost predicate InReach(e: Entry, offset: nat, n: nat, count: nat) {
    && (offset > e.size ==> e.start + (offset - 1) / SECTOR < count)
    && (n > 0 ==> e.start + (offset + n - 1) / SECTOR < count)
  }

  ghost function SizeAfter(e: Entry, offset: nat, n: nat): nat {
    if offset + n > e.size then offset + n else e.size
  }

  /** A write of `n` bytes at `offset` finds the sectors it needs. */
  ghost predicate RoomAt(entries: seq<Entry>, count: nat, e: Entry, offset: nat, n: nat) {
    var required := Required(SizeAfter(e, offset, n));
    && required < UINT32
    && if e.capacity < required then NextLba(entries) + required <= count else InReach(e, offset, n, count)
  }

  /** On an extent inside the disk it is enough that the sectors counted are there. */
  lemma RoomAtIsRoom(entries: seq<Entry>, count: nat, e: Entry, offset: nat, n: nat)
    requires ExtentOk(e, count) && !Wraps(offset + n) && offset + n < WORD && e.size < WORD - SECTOR
    ensures RoomAt(entries, count, e, offset, n) <==> Room(entries, count, e, SizeAfter(e, offset, n))
  {
    var size := SizeAfter(e, offset, n);
    RequiredCovers(size);
    if e.capacity >= Required(size) {
      assert offset + n <= e.capacity * SECTOR;
    }
  }

  function BlankTable(): (entries: seq<Entry>)
    ensures |entries| == MAX_ENTRIES && forall i :: 0 <= i < MAX_ENTRIES ==> entries[i] == EMPTY
  {
    seq(MAX_ENTRIES, _ => EMPTY)
  }

  /** No other extent meets sectors [from, to). */
  ghost predicate Clear(entries: seq<Entry>, index: nat, from: nat, to: nat) {
    forall j: nat :: j < |entries| && j != index && entries[j].used && entries[j].capacity > 0 ==>
      ExtentEnd(entries[j]) <= from || to <= entries[j].start
  }

  lemma PlacedIsClear(entries: seq<Entry>, index: nat, e: Entry, required: nat)
    requires ExtentsOk(entries, LIMIT) && index < |entries| && required > 0
    requires e.capacity >= required ==> entries[index] == e && e.used
    ensures var p := Placed(entries, e, required);
      p.capacity >= required && DATA_LBA <= p.start && Clear(entries, index, p.start, p.start + p.capacity)
  {
    forall j: nat | j < |entries| && j != index && entries[j].used && entries[j].capacity > 0
      ensures var p := Placed(entries, e, required);
        ExtentEnd(entries[j]) <= p.start || p.start + p.capacity <= entries[j].start
    {
      assert ExtentOk(entries[j], LIMIT);
      if e.capacity < required {
        NextLbaBound(entries, j);
      } else {
        assert Apart(entries[index], entries[j]);
      }
    }
  }

  /** An entry on a clear extent inside the disk may take the slot. */
  lemma ClearExtents(entries: seq<Entry>, count: nat, index: nat, e: Entry)
    requires index < |entries| && Clear(entries, index, e.start, e.start + e.capacity)
    ensures ExtentsOk(entries, LIMIT) && ExtentOk(e, LIMIT) ==> ExtentsOk(entries[index := e], LIMIT)
    ensures ExtentsOk(entries, count) && ExtentOk(e, count) ==> ExtentsOk(entries[index := e], count)
  {
  }

  /** Only sectors [from, to) and the directory changed. */
  ghost predicate Touched(a: Sectors, b: Sectors, from: nat, to: nat) {
    && |a| == |b|
    && forall k :: 0 <= k < |a| && !(from <= k < to) && !(DIRECTORY_LBA <= k < DATA_LBA) ==> a[k] == b[k]
  }

  lemma OtherNode(entries: seq<Entry>, index: nat, a: Sectors, b: Sectors, from: nat, to: nat, j: nat)
    requires DiskOk(a) && DiskOk(b) && ExtentsOk(entries, LIMIT) && Clear(entries, index, from, to)
    requires Touched(a, b, from, to) && j < |entries| && j != index
    ensures NodeOf(entries[j], b) == NodeOf(entries[j], a)
  {
    var e := entries[j];
    if e.used {
      assert ExtentOk(e, LIMIT);
      forall p: nat | p < e.size ensures FileByte(b, e.start, p) == FileByte(a, e.start, p) {
        assert p / SECTOR < e.capacity;
      }
      assert Stored(b, e.start, e.size) == Stored(a, e.start, e.size);
    }
  }

  /** Every other node is as before. */
  lemma OtherNodes(entries: seq<Entry>, index: nat, a: Sectors, b: Sectors, from: nat, to: nat)
    requires DiskOk(a) && DiskOk(b) && ExtentsOk(entries, LIMIT) && Clear(entries, index, from, to)
    requires Touched(a, b, from, to)
    ensures forall j: nat :: j < |entries| && j != index ==> NodeOf(entries[j], b) == NodeOf(entries[j], a)
  {
    forall j: nat | j < |entries| && j != index ensures NodeOf(entries[j], b) == NodeOf(entries[j], a) {
      OtherNode(entries, index, a, b, from, to, j);
    }
  }

  /** `n` bytes at `offset` are on the disk, and their number fits an int. */
  ghost predicate Readable(sectors: Sectors, start: nat, offset: nat, n: nat) {
    n <= 0x7FFF_FFFF && (n > 0 ==> HasByte(sectors, start, offset + n - 1))
  }

  function SuperSector(sectors: Sectors): seq<byte> {
    if SUPER_LBA < |sectors| then sectors[SUPER_LBA] else []
  }

  /** Every slot but one holds the same entry and the same bytes, and the superblock is untouched. */
  ghost predicate OthersKept(entries: seq<Entry>, a: Sectors, entries': seq<Entry>, b: Sectors, index: nat) {
    && |entries'| == |entries| && SuperSector(a) == SuperSector(b)
    && forall j: nat :: j < |entries| && j != index ==>
         entries'[j] == entries[j] && NodeOf(entries'[j], b) == NodeOf(entries[j], a)
  }

  class NovaFs {
    const device: Device
    var entries: seq<Entry>
    var who: Identity
    var mounted: bool

    constructor (device: Device)
      ensures this.device == device && !mounted && entries == BlankTable() && who == Identity(0, true)
    {
      this.device := device;
      entries := BlankTable();
      who := Identity(0, true);
      mounted := false;
    }

    /** What every call needs and keeps, even on a full disk: extents are disjoint and end within 32 bits. */
    ghost predicate Usable()
      reads this, device
    {
      && DiskOk(device.sectors) && TableOk(entries) && who.uid < UINT32
      && Namespace(entries) && ExtentsOk(entries, LIMIT)
    }

    /** In addition, every extent lies on the disk. */
    ghost predicate Ready()
      reads this, device
    {
      Usable() && ExtentsOk(entries, |device.sectors|)
    }

    ghost function Tree(): seq<Option<Node>>
      reads this, device
    {
      Nodes(entries, device.sectors)
    }

    ghost predicate Saved()
      reads this, device
    {
      Mirrored(entries, device.sectors)
    }

    /** Saved except for one slot that is being worked on. */
    ghost predicate SavedBut(index: nat)
      reads this, device
    {
      MirroredBut(entries, device.sectors, index)
    }

    /** What even a failing call keeps: a sound table and namespace, and every node but the one it works on. */
    ghost predicate Sound(entries0: seq<Entry>, sectors0: Sectors, index: nat)
      reads this, device
    {
      && DiskOk(device.sectors) && |device.sectors| == |sectors0|
      && TableOk(entries) && Namespace(entries)
      && OthersKept(entries0, sectors0, entries, device.sectors, index)
    }

    /**
     What a write of `size` bytes to the entry `e` of `table` leaves of the volume's
     order, given whether it was ready and how many faults there had been.
     */
    ghost predicate Order(ready: bool, faults: nat, table: seq<Entry>, e: Entry, size: nat)
      reads this, device
    {
      var count := |device.sectors|;
      && (!Breaks(table, count, e, size) ==> Usable())
      && (device.faults == faults && Breaks(table, count, e, size) ==> !Usable())
      && (ready && !Overfills(table, count, e, size) ==> Ready())
      && (device.faults == faults && Overfills(table, count, e, size) ==> !Ready())
    }

    method FindEntry(name: Name) returns (index: int)
      ensures index == match Find(entries, name) case None => -1 case Some(i) => i
    {
      index := 0;
      while index < |entries|
        invariant 0 <= index <= |entries|
        invariant Find(entries, name) == FindFrom(entries, name, index)
      {
        if entries[index].used && entries[index].name == name {
          return;
        }
        index := index + 1;
      }
      index := -1;
    }

    method ParentDirectoryExists(name: Name) returns (ok: bool)
      requires FsNames.Valid(name) && Namespace(entries)
      ensures ok <==> ParentOk(entries, name)
    {
      var separator := FindLastSlash(name);
      if separator < 0 {
        return true;
      }
      ParentNonEmpty(name);
      var index := FindEntry(name[..separator]);
      ok := index >= 0 && entries[index].kind == TYPE_DIRECTORY;
      if ok {
        assert DirectoryNamed(entries, index, name[..separator]);
      }
    }

    /** A new entry in the first free slot, or nothing at all. */
    method AllocateEntry(name: Name, kind: nat, mode: nat) returns (index: int)
      requires Namespace(entries)
      modifies this`entries
      ensures index >= 0 <==> Creatable(old(entries), name)
      ensures index >= 0 ==> FirstFree(old(entries), 0) == Some(index)
      ensures entries == if index >= 0 then old(entries)[index := NewEntry(name, kind, mode, who.uid)] else old(entries)
      ensures Namespace(entries)
    {
      index := -1;
      var valid := ValidName(name);
      if !valid {
        return;
      }
      var existing := FindEntry(name);
      if existing >= 0 {
        return;
      }
      var parent := ParentDirectoryExists(name);
      if !parent {
        return;
      }
      var slot := 0;
      while slot < |entries|
        invariant 0 <= slot <= |entries|
        invariant FirstFree(entries, 0) == FirstFree(entries, slot)
      {
        if !entries[slot].used {
          CreateKeeps(entries, slot, NewEntry(name, kind, mode, who.uid));
          entries := entries[slot := NewEntry(name, kind, mode, who.uid)];
          return slot;
        }
        slot := slot + 1;
      }
    }

    /** Reads the slot's directory sector, replaces the 128 bytes of the slot and writes it back. */
    method SaveEntry(index: nat) returns (ok: bool)
      requires DiskOk(device.sectors) && TableOk(entries) && index < MAX_ENTRIES
      modifies device
      ensures DiskOk(device.sectors) && device.faults >= old(device.faults)
      ensures ok <==> device.faults == old(device.faults)
      ensures SameOutside(old(device.sectors), device.sectors, DIRECTORY_LBA, DIRECTORY_LBA + DIRECTORY_SECTORS)
      ensures ok ==> var lba := DIRECTORY_LBA + index / PER_SECTOR;
        device.sectors == old(device.sectors)[lba :=
          Splice(old(device.sectors)[lba], index % PER_SECTOR * ENTRY_SIZE, Encode(entries[index]))]
    {
      ok := device.AllocateBuffer();
      if !ok {
        return;
      }
      var lba := DIRECTORY_LBA + index / PER_SECTOR;
      var sector;
      ok, sector := device.ReadSector(lba);
      if ok {
        ok := device.WriteSector(lba, Splice(sector, index % PER_SECTOR * ENTRY_SIZE, Encode(entries[index])));
      }
    }

    method NextDataLba() returns (next: nat)
      ensures next == NextLba(entries)
    {
      next := DATA_LBA;
      var index := 0;
      while index < |entries|
        invariant 0 <= index <= |entries|
        invariant next == NextLba(entries[..index])
      {
        assert entries[..index + 1][..index] == entries[..index];
        if entries[index].used {
          var end := entries[index].start + entries[index].capacity;
          if end > next && end <= 0xFFFF_FFFF {
            next := end;
          }
        }
        index := index + 1;
      }
      assert entries[..index] == entries;
    }

    method ResolveEntry(name: Name) returns (index: int)
      requires Usable()
      modifies device`faults
      ensures device.faults >= old(device.faults)
      ensures index >= 0 ==> Resolve(entries, device.sectors, name, MAX_LINKS) == Some(index)
      ensures index >= 0 ==> device.faults == old(device.faults)
      ensures index < 0 && device.faults == old(device.faults) ==>
        Resolve(entries, device.sectors, name, MAX_LINKS).None?
    {
      hide Resolve, Followed, Find, Namespace, Stored, CString, ExtentsOk, TableOk, DiskOk, Window, LinkText;
      var resolved := name;
      var depth := 0;
      while depth < MAX_LINKS
        invariant 0 <= depth <= MAX_LINKS && device.faults == old(device.faults)
        invariant Resolve(entries, device.sectors, name, MAX_LINKS) ==
          Resolve(entries, device.sectors, resolved, MAX_LINKS - depth)
      {
        ResolveStep(entries, device.sectors, resolved, MAX_LINKS - depth);
        index := FindEntry(resolved);
        if index < 0 || entries[index].kind != TYPE_SYMLINK {
          return;
        }
        var link := entries[index];
        SlotExtent(entries, LIMIT, index);
        LinkReads(link, device.sectors);
        if link.size == 0 || link.size > NAME_MAX + 1 {
          return -1;
        }
        var result, target := ReadEntryData(link, 0, link.size);
        if result != link.size {
          if device.faults == old(device.faults) {
            LostLink(link, device.sectors, resolved);
          }
          return -1;
        }
        var next := Follow(resolved, CString(target));
        if next.None? {
          return -1;
        }
        resolved := next.value;
        depth := depth + 1;
      }
      NoLinksLeft(entries, device.sectors, resolved);
      index := -1;
    }

    method ReadEntryData(e: Entry, offset: nat, capacity: nat) returns (result: int, data: seq<byte>)
      requires DiskOk(device.sectors) && ExtentOk(e, LIMIT)
      modifies device`faults
      ensures device.faults >= old(device.faults)
      ensures var contents := Stored(device.sectors, e.start, e.size);
        && (result >= 0 ==> data == Window(contents, offset, capacity) && result == |data|)
        && (result >= 0 ==> device.faults == old(device.faults))
        && (device.faults == old(device.faults) ==>
              (result >= 0 <==> Readable(device.sectors, e.start, offset, |Window(contents, offset, capacity)|)))
    {
      result, data := device.ReadData(e.start, e.size, offset, capacity);
    }

    /**
     Replaces the contents of the file in slot `index`.  When the extent is too
     small, a new one is recorded in the entry before the disk is known to have
     room for it, so running out of disk leaves the entry pointing there.  A
     size whose sector count wraps is recorded although one sector is written.
     */
    method WriteEntryData(index: nat, data: seq<byte>) returns (ok: bool)
      requires Usable() && index < |entries| && entries[index].used && |data| < WORD
      modifies this`entries, device
      ensures Sound(old(entries), old(device.sectors), index)
      ensures device.faults >= old(device.faults) && (ok ==> device.faults == old(device.faults))
      ensures device.faults == old(device.faults) ==>
        (ok <==> Room(old(entries), old(|device.sectors|), old(entries[index]), |data|))
      ensures ok && !Wraps(|data|) ==>
        Usable() && Tree() == old(Tree())[index := Some(old(Tree()[index].value).(contents := data))]
      ensures ok && old(SavedBut(index)) ==> Saved()
      ensures Order(old(Ready()), old(device.faults), old(entries), old(entries[index]), |data|)
      ensures !Room(old(entries), old(|device.sectors|), old(entries[index]), |data|) ==>
        device.sectors == old(device.sectors) && entries == Unwritten(old(entries), index, old(entries[index]), |data|)
    {
      hide DiskOk, TableOk, Namespace, ExtentsOk, Nodes, Mirrored, MirroredBut, Stored, Clear, Touched, NextLba, Fits, OthersKept;
      hide SameOutside, Required;
      ghost var table, disk := entries, device.sectors;
      DiskSize(disk);
      TableSize(table);
      UntouchedDisk(table, disk, index, table[index]);
      SlotExtent(table, LIMIT, index);
      RequiredCovers(|data|);
      assert table[index := table[index]] == table;
      var required := Required(|data|);
      if required > 0xFFFF_FFFF {
        return false;
      }
      RecordExtent(index, required);
      var e := entries[index];
      if e.start + required > |device.sectors| {
        return false;
      }
      ok := device.AllocateBuffer();
      if !ok {
        return false;
      }
      ok := device.Fill(e.start, required, data);
      ghost var filled := device.sectors;
      assert data[..|data|] == data;
      TouchedData(disk, filled, e.start, e.start + required, e.start + e.capacity);
      KeptOthers(table, index, e, e, disk, filled);
      if !ok {
        return false;
      }
      ok := Commit(index, |data|, table, disk);
      if MirroredBut(table, disk, index) {
        DataKeepsMirror(table, disk, filled, e.start, e.start + required, index);
      }
    }

    /** Records an extent of `required` sectors behind all others when the file's own is too small. */
    method RecordExtent(index: nat, required: nat)
      requires Usable() && index < |entries| && entries[index].used && 0 < required < UINT32
      modifies this`entries
      ensures index < |entries| && entries == old(entries)[index := entries[index]]
      ensures entries[index] == Placed(old(entries), old(entries[index]), required)
      ensures TableOk(entries) && Namespace(entries) && Fits(entries[index])
      ensures Retargeted(old(entries), |device.sectors|, index, entries[index], required)
      ensures var e := entries[index];
        DATA_LBA <= e.start && Clear(old(entries), index, e.start, e.start + e.capacity)
      ensures OthersKept(old(entries), device.sectors, entries, device.sectors, index)
    {
      hide DiskOk, TableOk, Namespace, ExtentsOk, Clear, NextLba, Fits, OthersKept, Retargeted;
      ghost var table := entries;
      DiskSize(device.sectors);
      TableSize(table);
      var e := entries[index];
      PlacedIsClear(table, index, e, required);
      if e.capacity < required {
        var next := NextDataLba();
        e := e.(start := next, capacity := required);
        entries := entries[index := e];
      }
      assert entries == table[index := e];
      PlacedFits(table, index, required);
      SlotRewritten(table, index, e);
      UntouchedDisk(table, device.sectors, index, e);
      RetargetCondition(table, |device.sectors|, index, required);
    }

    /**
     Writes `data` at `offset` into the file in slot `index`: the extent moves
     when it is too small, a gap up to the offset is zeroed, and only then are
     the bytes stored.  When the end of the write is so large that its sector
     count wraps, the loops run on behind the extent to the end of the disk.
     */
    method WriteEntryAt(index: nat, offset: nat, data: seq<byte>) returns (ok: bool)
      requires Usable() && index < |entries| && entries[index].used && offset + |data| < WORD
      modifies this`entries, device
      ensures Usable() && (old(Ready()) ==> Ready()) && |device.sectors| == old(|device.sectors|)
      ensures device.faults >= old(device.faults) && (ok ==> device.faults == old(device.faults))
      ensures !Wraps(offset + |data|) ==> Sound(old(entries), old(device.sectors), index)
      ensures !Wraps(offset + |data|) && device.faults == old(device.faults) ==>
        (ok <==> RoomAt(old(entries), old(|device.sectors|), old(entries[index]), offset, |data|))
      ensures ok ==> var node := old(Tree()[index].value);
        !Wraps(offset + |data|) &&
        Tree() == old(Tree())[index := Some(node.(contents := Overlay(node.contents, offset, data)))]
      ensures ok && old(SavedBut(index)) ==> Saved()
      ensures |entries| == old(|entries|) && entries == old(entries)[index := entries[index]]
      ensures SuperSector(device.sectors) == old(SuperSector(device.sectors))
      ensures Wraps(offset + |data|) && device.faults == old(device.faults) ==>
        (OthersKept(old(entries), old(device.sectors), entries, device.sectors, index) <==>
          Harmless(old(entries), old(device.sectors), index, offset, data))
    {
      hide DiskOk, TableOk, Namespace, ExtentsOk, Nodes, Mirrored, MirroredBut, Stored, Clear, Touched, NextLba, Fits, OthersKept;
      hide SameOutside, Overlay, Required, Harmless, Laid, InReach, HasByte;
      ghost var table, disk := entries, device.sectors;
      var e := entries[index];
      DiskSize(disk);
      TableSize(table);
      SlotExtent(table, LIMIT, index);
      UntouchedDisk(table, disk, index, e);
      assert table[index := e] == table;
      KeptTable(table, disk, table, disk, index);
      var end := offset + |data|;
      var newSize := if end > e.size then end else e.size;
      var required := Required(newSize);
      RequiredCovers(newSize);
      EndOfWrite(e, end);
      if required > 0xFFFF_FFFF {
        return false;
      }
      NewFileIsHarmless(table, disk, index, offset, data);
      ok := device.AllocateBuffer();
      if !ok {
        return false;
      }
      ok := MakeRoom(index, required);
      KeptTable(table, disk, entries, device.sectors, index);
      if !ok {
        return false;
      }
      GrownReach(entries[index], offset, |data|, |disk|);
      ghost var grown := device.sectors;
      ok := StoreAt(index, offset, data, newSize, table, disk);
      if Wraps(end) {
        SuperKept(disk, device.sectors, entries[index].start, entries[index].start + WORD);
      } else {
        KeptTable(table, disk, entries, device.sectors, index);
      }
      if Wraps(end) && device.faults == old(device.faults) {
        SpillKeeps(table, index, entries[index], disk, grown, device.sectors, offset, data);
      }
    }

    /** The second half of fs_write_at: gap and bytes, then the entry. `table` and `disk` are the volume before the call. */
    method StoreAt(index: nat, offset: nat, data: seq<byte>, newSize: nat, ghost table: seq<Entry>, ghost disk: Sectors)
      returns (ok: bool)
      requires Usable() && DiskOk(disk) && |disk| == |device.sectors| && newSize < WORD
      requires TableOk(table) && Namespace(table) && ExtentsOk(table, LIMIT)
      requires index < |table| && |entries| == |table| && entries == table[index := entries[index]] && table[index].used
      requires var e := entries[index];
        && e.used && e.name == table[index].name && e.kind == table[index].kind
        && Fits(e) && ExtentOk(e, LIMIT) && e.capacity > 0 && DATA_LBA <= e.start
        && Clear(table, index, e.start, e.start + e.capacity)
        && SameOutside(disk, device.sectors, e.start, e.start + e.capacity)
        && newSize == SizeAfter(e, offset, |data|)
        && (Wraps(offset + |data|) || newSize <= e.capacity * SECTOR)
      modifies this`entries, device
      ensures Usable() && |device.sectors| == |disk| && (old(Ready()) && ExtentsOk(table, |disk|) ==> Ready())
      ensures device.faults >= old(device.faults) && (ok ==> device.faults == old(device.faults))
      ensures |entries| == |table| && entries == table[index := entries[index]]
      ensures !Wraps(offset + |data|) ==> Sound(table, disk, index)
      ensures !Wraps(offset + |data|) && device.faults == old(device.faults) ==>
        (ok <==> InReach(old(entries[index]), offset, |data|, |disk|))
      ensures ok && !Wraps(offset + |data|) && MirroredBut(table, disk, index) ==> Saved()
      ensures var e := old(entries[index]);
        var contents := Overlay(Stored(old(device.sectors), e.start, e.size), offset, data);
        && (ok && !Wraps(offset + |data|) ==>
              Tree() == Nodes(table, disk)[index := Some(Node(e.name, e.kind, e.owner, e.flags, contents))])
        && (Wraps(offset + |data|) ==> !ok && entries == old(entries))
        && (Wraps(offset + |data|) ==> SameOutside(disk, device.sectors, e.start, e.start + WORD))
        && (Wraps(offset + |data|) && device.faults == old(device.faults) ==>
              Laid(old(device.sectors), device.sectors, e.start, contents))
    {
      hide DiskOk, TableOk, Namespace, ExtentsOk, Nodes, Mirrored, MirroredBut, Stored, Clear, Touched, Fits, OthersKept;
      hide SameOutside, Overlay, Laid, InReach, HasByte;
      var e := entries[index];
      ghost var grown := device.sectors;
      ghost var room := if Wraps(offset + |data|) then WORD else e.capacity;
      Widen(disk, grown, e.start, e.start + e.capacity, e.start + room);
      ok := PutBytes(e, disk, room, offset, data);
      SameSize(disk, device.sectors, e.start, e.start + room);
      if Wraps(offset + |data|) {
        NeverReached(e, device.sectors, offset, |data|);
        return false;
      }
      TouchedData(disk, device.sectors, e.start, e.start + e.capacity, e.start + e.capacity);
      KeptOthers(table, index, e, e, disk, device.sectors);
      if !ok {
        return false;
      }
      LaidIsStored(grown, device.sectors, e, offset, data);
      ghost var stored := device.sectors;
      if ExtentsOk(entries, |disk|) {
        SlotExtent(entries, |disk|, index);
      }
      ok := Commit(index, newSize, table, disk);
      if MirroredBut(table, disk, index) {
        DataKeepsMirror(table, disk, stored, e.start, e.start + e.capacity, index);
      }
    }

    /** The first half of fs_write_at: the file moves when its extent is too small. */
    method MakeRoom(index: nat, required: nat) returns (ok: bool)
      requires Usable() && index < |entries| && entries[index].used && 0 < required < UINT32
      modifies this`entries, device
      ensures Usable() && (old(Ready()) ==> Ready()) && |device.sectors| == old(|device.sectors|)
      ensures device.faults >= old(device.faults) && (ok ==> device.faults == old(device.faults))
      ensures device.faults == old(device.faults) ==>
        (ok <==> old(entries[index]).capacity >= required || NextLba(old(entries)) + required <= |device.sectors|)
      ensures OthersKept(old(entries), old(device.sectors), entries, device.sectors, index)
      ensures !ok ==> entries == old(entries)
      ensures ok ==> var e := Placed(old(entries), old(entries[index]), required);
        && entries == old(entries)[index := e] && ExtentOk(e, LIMIT) && Fits(e) && DATA_LBA <= e.start
        && (old(Ready()) ==> ExtentOk(e, |device.sectors|))
        && Clear(old(entries), index, e.start, e.start + e.capacity)
        && SameOutside(old(device.sectors), device.sectors, e.start, e.start + e.capacity)
        && Stored(device.sectors, e.start, e.size) == Stored(old(device.sectors), old(entries[index]).start, e.size)
        && (old(entries[index]).capacity >= required ==> device.sectors == old(device.sectors))
        && (old(entries[index]).capacity < required ==> e.start + e.capacity <= |device.sectors|)
    {
      hide DiskOk, TableOk, Namespace, ExtentsOk, Clear, NextLba, Fits, OthersKept, Touched, Stored, SameOutside;
      ghost var table, disk := entries, device.sectors;
      var e := entries[index];
      DiskSize(disk);
      TableSize(table);
      SlotExtent(table, LIMIT, index);
      UntouchedDisk(table, disk, index, e);
      assert table[index := e] == table;
      PlacedIsClear(table, index, e, required);
      PlacedFits(table, index, required);
      RetargetCondition(table, |disk|, index, required);
      SameEverywhere(disk, e.start, e.start + e.capacity);
      ok := true;
      if e.capacity < required {
        ok := Grow(index, required);
        e := entries[index];
        SameSize(disk, device.sectors, NextLba(table), NextLba(table) + required);
        TouchedData(disk, device.sectors, NextLba(table), NextLba(table) + required, NextLba(table) + required);
        KeptOthers(table, index, Placed(table, table[index], required), e, disk, device.sectors);
        if ok {
          SlotRewritten(table, index, e);
        }
      } else if ExtentsOk(table, |disk|) {
        SlotExtent(table, |disk|, index);
      }
    }

    /** Moves the file in slot `index` to a larger extent after all others. */
    method Grow(index: nat, required: nat) returns (ok: bool)
      requires Usable() && index < |entries| && entries[index].used && entries[index].capacity < required < UINT32
      modifies this`entries, device
      ensures DiskOk(device.sectors) && device.faults >= old(device.faults)
      ensures ok ==> device.faults == old(device.faults)
      ensures device.faults == old(device.faults) ==> (ok <==> NextLba(old(entries)) + required <= |device.sectors|)
      ensures SameOutside(old(device.sectors), device.sectors, NextLba(old(entries)), NextLba(old(entries)) + required)
      ensures !ok ==> entries == old(entries)
      ensures ok ==> var e := old(entries[index]);
        && NextLba(old(entries)) + required <= |device.sectors|
        && entries == old(entries)[index := e.(start := NextLba(old(entries)), capacity := required)]
        && Stored(device.sectors, NextLba(old(entries)), e.size) == Stored(old(device.sectors), e.start, e.size)
    {
      hide TableOk, Namespace, ExtentsOk, NextLba;
      var e := entries[index];
      SlotExtent(entries, LIMIT, index);
      if e.capacity > 0 {
        NextLbaBound(entries, index);
      }
      var replacement := NextDataLba();
      if replacement + required > |device.sectors| {
        return false;
      }
      ok := device.CopyExtent(e.start, e.capacity, replacement, required);
      if ok {
        assert Stored(device.sectors, replacement, e.size) == Stored(old(device.sectors), e.start, e.size);
        entries := entries[index := e.(start := replacement, capacity := required)];
      }
    }

    /** Zeroes the gap between the size and the offset, then stores the bytes; `disk` is the volume before the call. */
    method PutBytes(e: Entry, ghost disk: Sectors, ghost room: nat, offset: nat, data: seq<byte>) returns (ok: bool)
      requires DiskOk(device.sectors) && ExtentOk(e, LIMIT) && (e.capacity == 0 ==> e.start < UINT32)
      requires offset + |data| <= room * SECTOR
      requires SameOutside(disk, device.sectors, e.start, e.start + room)
      modifies device
      ensures DiskOk(device.sectors) && device.faults >= old(device.faults)
      ensures ok <==> device.faults == old(device.faults) && InReach(e, offset, |data|, |device.sectors|)
      ensures SameOutside(disk, device.sectors, e.start, e.start + room)
      ensures device.faults == old(device.faults) ==> var contents := Stored(old(device.sectors), e.start, e.size);
        Laid(old(device.sectors), device.sectors, e.start, Overlay(contents, offset, data))
    {
      hide DiskOk, Stored, FileByte, Zeroed, Patched, Overlay, Laid, HasByte, SameOutside;
      ghost var before := device.sectors;
      ReachIsDisk(before, e, offset, |data|);
      FirstSectors(e, offset);
      ok := device.ZeroGap(e.start, room, e.size, offset);
      ghost var cleared := device.sectors;
      SameTwice(disk, before, cleared, e.start, e.start + room);
      SameSize(disk, before, e.start, e.start + room);
      SameSize(disk, cleared, e.start, e.start + room);
      if !ok {
        if device.faults == old(device.faults) {
          GapLaid(before, cleared, e.start, e.size, offset, data);
        }
        return;
      }
      GapIsZero(before, cleared, e.start, e.size, offset);
      if offset > e.size {
        NextSector(before, e.start, e.size, offset);
      }
      SameDisk(before, cleared, e.start, if |data| > 0 then offset + |data| - 1 else 0);
      ok := device.Overwrite(e.start, room, e.size, offset, data);
      SameTwice(disk, cleared, device.sectors, e.start, e.start + room);
      SameSize(disk, device.sectors, e.start, e.start + room);
      if device.faults == old(device.faults) {
        OverlayDone(before, cleared, device.sectors, e.start, e.size, offset, data);
      }
    }

    /**
     The end of both writes: record size and modification, save the slot.
     `table` and `disk` are the volume before the call.
     */
    method Commit(index: nat, size: nat, ghost table: seq<Entry>, ghost disk: Sectors) returns (ok: bool)
      requires DiskOk(disk) && DiskOk(device.sectors) && |disk| == |device.sectors| && who.uid < UINT32
      requires TableOk(table) && Namespace(table) && ExtentsOk(table, LIMIT)
      requires index < |entries| && index < |table| && entries == table[index := entries[index]] && table[index].used
      requires Fits(entries[index]) && size < WORD && ExtentOk(entries[index], LIMIT) && entries[index].capacity > 0
      requires var e := entries[index];
        && e.used && e.name == table[index].name && e.kind == table[index].kind
        && Clear(table, index, e.start, e.start + e.capacity)
        && Touched(disk, device.sectors, e.start, e.start + e.capacity)
      modifies this`entries, device
      ensures Sound(table, disk, index) && entries[index].size == size && entries == table[index := entries[index]]
      ensures Usable() <==> size <= old(entries[index]).capacity * SECTOR
      ensures Usable() && ExtentsOk(table, |disk|) && ExtentOk(old(entries[index]), |disk|) ==> Ready()
      ensures device.faults >= old(device.faults) && (ok <==> device.faults == old(device.faults))
      ensures ok && Usable() ==> var e := old(entries[index]); Tree() == Nodes(table, disk)[index :=
        Some(Node(e.name, e.kind, e.owner, e.flags, Stored(old(device.sectors), e.start, size)))]
      ensures ok && MirroredBut(table, old(device.sectors), index) ==> Saved()
    {
      hide DiskOk, TableOk, Namespace, ExtentsOk, Nodes, Mirrored, MirroredBut, Stored, Clear, Touched, Fits, OthersKept;
      var e := entries[index];
      SizedFits(e, size);
      e := e.(size := size, modified := (e.modified + 1) % UINT32);
      entries := entries[index := e];
      assert entries == table[index := e];
      SlotRewritten(table, index, e);
      TableSize(entries);
      ClearExtents(table, |disk|, index, e);
      ghost var before := device.sectors;
      ok := SaveEntry(index);
      TouchedBoth(disk, before, device.sectors, e.start, e.start + e.capacity);
      KeptOthers(table, index, e, e, disk, device.sectors);
      if size <= e.capacity * SECTOR {
        NodeSaved(e, before, device.sectors);
      } else {
        SlotNotReady(entries, LIMIT, index);
      }
      TreeUpdated(table, index, e, disk, device.sectors);
      if ok && MirroredBut(table, before, index) {
        FitsName(e);
        SaveMirrors(table, e, before, device.sectors, index);
      }
    }

    /** The slot a write works on, created when the name is free. */
    method OpenForWrite(name: Name) returns (index: int)
      requires Usable() && FsNames.Valid(name)
      modifies this`entries, device`faults
      ensures Usable() && (old(Ready()) ==> Ready()) && device.faults >= old(device.faults)
      ensures index >= 0 ==> index < |entries| && device.faults == old(device.faults)
      ensures index >= 0 ==> Open(old(entries), device.sectors, who, name) == Some(Opened(index, entries[index]))
      ensures index >= 0 ==> index < |old(entries)| && entries == old(entries)[index := entries[index]]
      ensures index >= 0 && old(Saved()) ==> SavedBut(index)
      ensures index < 0 ==> entries == old(entries)
      ensures index < 0 && device.faults == old(device.faults) ==> Open(old(entries), device.sectors, who, name).None?
    {
      hide DiskOk, TableOk, Namespace, ExtentsOk, Mirrored, MirroredBut, Resolve, FsNames.Valid;
      ghost var table := entries;
      TableSize(table);
      index := FindEntry(name);
      if index < 0 {
        index := AllocateEntry(name, TYPE_FILE, FILE_MODE);
        if index >= 0 {
          Allocated(table, device.sectors, index, name, TYPE_FILE, FILE_MODE, who.uid);
        }
      } else if entries[index].kind == TYPE_SYMLINK {
        index := ResolveEntry(name);
      }
      if index >= 0 {
        assert entries == table[index := entries[index]];
        if Mirrored(table, device.sectors) {
          OpenSlot(table, device.sectors, index, entries[index]);
        }
      }
    }

    /**
     fs_write: on success exactly one node changed, and it holds `data`.  Without
     faults it succeeds exactly when the name opens as a writable file that fits.
     */
    method WriteFile(name: Name, data: seq<byte>) returns (ok: bool)
      requires Usable() && |data| < WORD
      modifies this`entries, device
      ensures DiskOk(device.sectors) && TableOk(entries) && Namespace(entries)
      ensures device.faults >= old(device.faults) && (ok ==> device.faults == old(device.faults))
      ensures |device.sectors| == old(|device.sectors|)
      ensures var target := old(Open(entries, device.sectors, who, name));
        && (ok ==> mounted && target.Some? && Writable(who, target.value.entry))
        && (ok && !Wraps(|data|) ==>
              && Usable() && (old(Ready()) ==> Ready())
              && Tree() == old(Tree())[target.value.slot := Some(WithContents(target.value.entry, data))])
        && (target.Some? ==> OthersKept(old(entries), old(device.sectors), entries, device.sectors, target.value.slot))
        && (target.None? ==> entries == old(entries) && device.sectors == old(device.sectors))
        && (device.faults == old(device.faults) ==>
              (ok <==> && mounted && target.Some? && Writable(who, target.value.entry)
                       && var slot, e := target.value.slot, target.value.entry;
                         Room(old(entries)[slot := e], old(|device.sectors|), e, |data|)))
      ensures ok && old(Saved()) ==> Saved()
      ensures var target := old(Open(entries, device.sectors, who, name));
        if mounted && target.Some? && Writable(who, target.value.entry) then
          var slot, e := target.value.slot, target.value.entry;
          && Order(old(Ready()), old(device.faults), old(entries)[slot := e], e, |data|)
          && (device.faults == old(device.faults) && !Room(old(entries)[slot := e], |device.sectors|, e, |data|) ==>
                && device.sectors == old(device.sectors)
                && entries == Unwritten(old(entries)[slot := e], slot, e, |data|))
        else Usable() && (old(Ready()) ==> Ready())
    {
      hide DiskOk, TableOk, Namespace, ExtentsOk, Mirrored, MirroredBut, Nodes, Stored, Open, Room, Find;
      ghost var table, disk := entries, device.sectors;
      TableSize(table);
      NothingChanged(table, disk);
      if !mounted {
        return false;
      }
      var valid := ValidName(name);
      OpenIsValid(table, disk, who, name);
      if !valid {
        return false;
      }
      var index := OpenForWrite(name);
      if index < 0 {
        return false;
      }
      var e := entries[index];
      UntouchedDisk(table, disk, index, e);
      OpenIsUsed(table, disk, who, name);
      if e.kind != TYPE_FILE || !MayWrite(who, e) {
        return false;
      }
      SlotExtent(entries, LIMIT, index);
      DiskSize(disk);
      RoomIsOrder(entries, |disk|, e, |data|);
      ok := WriteEntryData(index, data);
      KeptTwice(table, disk, table[index := e], entries, device.sectors, index);
      if ok {
        TreeTwice(table, disk, e, entries, device.sectors, index);
      }
    }

    /**
     fs_write_at: on success exactly one node changed, and it holds its old bytes
     with `data` laid over them at `offset`, zeros filling any gap.  The extents
     stay disjoint even when the call fails.
     */
    method WriteFileAt(name: Name, offset: nat, data: seq<byte>) returns (ok: bool)
      requires Usable()
      modifies this`entries, device
      ensures Usable() && (old(Ready()) ==> Ready())
      ensures device.faults >= old(device.faults) && (ok ==> device.faults == old(device.faults))
      ensures |device.sectors| == old(|device.sectors|)
      ensures SuperSector(device.sectors) == old(SuperSector(device.sectors))
      ensures var target := old(Open(entries, device.sectors, who, name));
        && (ok ==> mounted && target.Some? && Writable(who, target.value.entry) && !Wraps(offset + |data|))
        && (ok ==> var e := target.value.entry;
              Tree() == old(Tree())[target.value.slot :=
                Some(WithContents(e, Overlay(Stored(old(device.sectors), e.start, e.size), offset, data)))])
        && (target.Some? ==>
              |entries| == |old(entries)| && entries == old(entries)[target.value.slot := entries[target.value.slot]])
        && (target.Some? && !Spills(offset + |data|) ==>
              OthersKept(old(entries), old(device.sectors), entries, device.sectors, target.value.slot))
        && (target.None? ==> entries == old(entries) && device.sectors == old(device.sectors))
        && (device.faults == old(device.faults) ==>
              (ok <==> && mounted && target.Some? && Writable(who, target.value.entry) && !Wraps(offset + |data|)
                       && var slot, e := target.value.slot, target.value.entry;
                         RoomAt(old(entries)[slot := e], old(|device.sectors|), e, offset, |data|)))
        && (target.Some? && Spills(offset + |data|) && device.faults == old(device.faults) ==>
              var slot, e := target.value.slot, target.value.entry;
              (OthersKept(old(entries), old(device.sectors), entries, device.sectors, slot) <==>
                !(mounted && Writable(who, e)) ||
                Harmless(old(entries)[slot := e], old(device.sectors), slot, offset, data)))
      ensures ok && old(Saved()) ==> Saved()
    {
      hide DiskOk, TableOk, Namespace, ExtentsOk, Mirrored, MirroredBut, Nodes, Stored, Open, Room, Find, Overlay, RoomAt, Harmless;
      ghost var table, disk := entries, device.sectors;
      TableSize(table);
      NothingChanged(table, disk);
      if !mounted {
        return false;
      }
      var valid := ValidName(name);
      OpenIsValid(table, disk, who, name);
      if !valid || offset + |data| >= WORD {
        return false;
      }
      var existing := FindEntry(name);
      var index := OpenForWrite(name);
      if index < 0 {
        return false;
      }
      var e := entries[index];
      UntouchedDisk(table, disk, index, e);
      OpenIsUsed(table, disk, who, name);
      ghost var before := device.sectors;
      if existing < 0 {
        ok := SaveEntry(index);
        SavedTree(entries, before, device.sectors, index);
        KeptTwice(table, disk, entries, entries, device.sectors, index);
        if !ok {
          return false;
        }
        TableSize(entries);
        if MirroredBut(entries, before, index) {
          SavedSlotOpens(entries, e, before, device.sectors, index);
        }
      }
      if e.kind != TYPE_FILE || !MayWrite(who, e) {
        return false;
      }
      ghost var table1, disk1 := entries, device.sectors;
      assert OthersKept(table, disk, table1, disk1, index);
      HarmlessAlike(table[index := e], disk, table1, disk1, index, offset, data);
      ok := WriteEntryAt(index, offset, data);
      KeptExactly(table, disk, table1, disk1, entries, device.sectors, index);
      if ok {
        TreeTwice(table, disk, e, entries, device.sectors, index);
      }
    }

    /** fs_read_at: the requested window of the contents the path leads to. */
    method ReadFileAt(name: Name, offset: nat, capacity: nat) returns (result: int, data: seq<byte>)
      requires Usable()
      modifies device`faults
      ensures device.faults >= old(device.faults)
      ensures var target := Resolve(entries, device.sectors, name, MAX_LINKS);
        var allowed := mounted && FsNames.Valid(name) && target.Some? &&
          entries[target.value].kind == TYPE_FILE && MayRead(who, entries[target.value]);
        && (result >= 0 ==> allowed && result == |data|)
        && (result >= 0 ==> data == Window(Tree()[target.value].value.contents, offset, capacity))
        && (device.faults == old(device.faults) ==>
              (result >= 0 <==> allowed && Readable(device.sectors, entries[target.value].start, offset,
                |Window(Tree()[target.value].value.contents, offset, capacity)|)))
    {
      hide DiskOk, TableOk, Namespace, ExtentsOk, Stored, Resolve;
      var valid := ValidName(name);
      if !mounted || !valid {
        return -1, [];
      }
      var index := ResolveEntry(name);
      if index < 0 {
        return -1, [];
      }
      var e := entries[index];
      ResolveIsUsed(entries, device.sectors, name, MAX_LINKS);
      if e.kind != TYPE_FILE || !MayRead(who, e) {
        return -1, [];
      }
      SlotExtent(entries, LIMIT, index);
      result, data := ReadEntryData(e, offset, capacity);
    }

    /** fs_delete: the node is gone, nothing else changed; a directory goes only when nothing is below it. */
    method DeleteFile(name: Name) returns (ok: bool)
      requires Usable()
      modifies this`entries, device
      ensures SuperSector(device.sectors) == old(SuperSector(device.sectors))
      ensures Usable() && (old(Ready()) ==> Ready())
      ensures device.faults >= old(device.faults) && (ok ==> device.faults == old(device.faults))
      ensures |device.sectors| == old(|device.sectors|)
      ensures var index := old(Find(entries, name));
        var allowed := mounted && FsNames.Valid(name) && index.Some? && MayWrite(who, old(entries)[index.value]) &&
          (old(entries)[index.value].kind == TYPE_DIRECTORY ==> Childless(old(entries), name));
        && (ok <==> allowed && device.faults == old(device.faults))
        && Tree() == if allowed then old(Tree())[index.value := None] else old(Tree())
      ensures ok && old(Saved()) ==> Saved()
    {
      hide DiskOk, TableOk, Namespace, ExtentsOk, Mirrored, MirroredBut, Nodes, Stored, Childless;
      ghost var table, disk := entries, device.sectors;
      TableSize(table);
      var valid := ValidName(name);
      if !mounted || !valid {
        return false;
      }
      var index := FindEntry(name);
      if index < 0 || !MayWrite(who, entries[index]) {
        return false;
      }
      if entries[index].kind == TYPE_DIRECTORY {
        var empty := CheckChildless(name);
        if !empty {
          return false;
        }
      }
      Deleted(table, disk, index);
      entries := entries[index := EMPTY];
      ok := SaveEntry(index);
      SavedTree(entries, disk, device.sectors, index);
      TreeTwice(table, disk, EMPTY, entries, device.sectors, index);
      if ok && Mirrored(table, disk) {
        OpenSlot(table, disk, index, EMPTY);
        SaveMirrors(entries, EMPTY, disk, device.sectors, index);
        assert entries[index := EMPTY] == entries;
      }
    }

    method CheckChildless(name: Name) returns (ok: bool)
      ensures ok <==> Childless(entries, name)
    {
      var candidate := 0;
      while candidate < |entries|
        invariant 0 <= candidate <= |entries|
        invariant forall j: nat :: j < candidate && entries[j].used ==> !Below(entries[j].name, name)
      {
        if entries[candidate].used && Below(entries[candidate].name, name) {
          return false;
        }
        candidate := candidate + 1;
      }
      ok := true;
    }

    /** fs_mkdir: an empty directory appears under a free name whose parent exists. */
    method MakeDirectory(name: Name, mode: nat) returns (ok: bool)
      requires Usable()
      modifies this`entries, device
      ensures SuperSector(device.sectors) == old(SuperSector(device.sectors))
      ensures Usable() && (old(Ready()) ==> Ready())
      ensures device.faults >= old(device.faults) && (ok ==> device.faults == old(device.faults))
      ensures |device.sectors| == old(|device.sectors|)
      ensures var allowed := mounted && mode < 512 && Creatable(old(entries), name);
        && (ok <==> allowed && device.faults == old(device.faults))
        && Tree() == if allowed
             then old(Tree())[FirstFree(old(entries), 0).value :=
               Some(Node(name, TYPE_DIRECTORY, who.uid, if mode == 0 then 0x1FF else mode, []))]
             else old(Tree())
      ensures ok && old(Saved()) ==> Saved()
    {
      hide DiskOk, TableOk, Namespace, ExtentsOk, Mirrored, MirroredBut, Nodes, Stored, ParentOk, FsNames.Valid, Find;
      ghost var table, disk := entries, device.sectors;
      TableSize(table);
      var valid := ValidName(name);
      if !mounted || !valid || mode >= 512 {
        return false;
      }
      var bits := if mode == 0 then 0x1FF else mode;
      var index := AllocateEntry(name, TYPE_DIRECTORY, bits);
      if index < 0 {
        return false;
      }
      var e := entries[index];
      Allocated(table, disk, index, name, TYPE_DIRECTORY, bits, who.uid);
      ok := SaveEntry(index);
      SavedTree(entries, disk, device.sectors, index);
      KeptTwice(table, disk, entries, entries, device.sectors, index);
      TreeTwice(table, disk, e, entries, device.sectors, index);
      if ok && Mirrored(table, disk) {
        OpenSlot(table, disk, index, e);
        FitsName(e);
        SaveMirrors(entries, e, disk, device.sectors, index);
        assert entries[index := e] == entries;
      }
    }

    /** fs_symlink: a link appears under a free name, and following it leads where its text says. */
    method MakeSymlink(target: Name, name: Name) returns (ok: bool)
      requires Usable()
      modifies this`entries, device
      ensures DiskOk(device.sectors) && TableOk(entries) && Namespace(entries)
      ensures SuperSector(device.sectors) == old(SuperSector(device.sectors))
      ensures device.faults >= old(device.faults) && (ok ==> device.faults == old(device.faults))
      ensures |device.sectors| == old(|device.sectors|)
      ensures ok ==> mounted && ValidTarget(target) && Creatable(old(entries), name)
      ensures ok ==> Usable() && (old(Ready()) ==> Ready())
      ensures if mounted && ValidTarget(target) && Creatable(old(entries), name) then
          var slot, e := FirstFree(old(entries), 0).value, NewEntry(name, TYPE_FILE, FILE_MODE, who.uid);
          Order(old(Ready()), old(device.faults), old(entries)[slot := e], e, |target|)
        else Usable() && (old(Ready()) ==> Ready())
      ensures ok ==> Tree() == old(Tree())[FirstFree(old(entries), 0).value :=
        Some(Node(name, TYPE_SYMLINK, who.uid, 0x1FF, target))]
      ensures ok ==> Hop(entries, device.sectors, name) == Followed(name, target)
      ensures device.faults == old(device.faults) ==>
        (ok <==> && mounted && ValidTarget(target) && Creatable(old(entries), name)
                 && RoomForNew(old(entries), old(|device.sectors|), who, name, |target|))
      ensures ok && old(Saved()) ==> Saved()
    {
      hide DiskOk, TableOk, Namespace, ExtentsOk, Mirrored, MirroredBut, Nodes, Stored, Open, Room, Find, FsNames.Valid, Hop;
      ghost var table, disk := entries, device.sectors;
      if !mounted {
        return false;
      }
      var valid := ValidSymlinkTarget(target);
      if !valid {
        return false;
      }
      valid := ValidName(name);
      if !valid {
        return false;
      }
      var existing := FindEntry(name);
      if existing >= 0 {
        return false;
      }
      TargetBound(target);
      OpenNew(table, disk, who, name);
      ok := WriteFile(name, target);
      if !ok {
        return false;
      }
      ghost var slot := FirstFree(table, 0).value;
      ghost var written, stored := entries, device.sectors;
      TableSize(table);
      TableSize(written);
      NodeNamed(written, stored, slot);
      UniqueSlot(written, name, slot);
      var index := FindEntry(name);
      if index < 0 {
        return false;
      }
      ok := TurnIntoLink(index, target);
    }

    /** The end of fs_symlink: the file just written under a new name becomes a link. */
    method TurnIntoLink(index: nat, target: Name) returns (ok: bool)
      requires Usable() && index < |entries| && entries[index].used && entries[index].kind != TYPE_DIRECTORY
      requires 0 < |target| <= NAME_MAX + 1 && 0 !in target
      requires Stored(device.sectors, entries[index].start, entries[index].size) == target
      modifies this`entries, device
      ensures Usable() && (old(Ready()) ==> Ready()) && SuperSector(device.sectors) == old(SuperSector(device.sectors))
      ensures |device.sectors| == old(|device.sectors|)
      ensures device.faults >= old(device.faults) && (ok <==> device.faults == old(device.faults))
      ensures var e := old(entries[index]); Tree() == old(Tree())[index :=
        Some(Node(e.name, TYPE_SYMLINK, e.owner, 0x1FF, target))]
      ensures Hop(entries, device.sectors, old(entries[index]).name) == Followed(old(entries[index]).name, target)
      ensures ok && old(Saved()) ==> Saved()
    {
      hide DiskOk, TableOk, Namespace, ExtentsOk, Mirrored, MirroredBut, Nodes, Stored, Find, Hop;
      ghost var written, stored := entries, device.sectors;
      TableSize(written);
      var e := entries[index];
      var link := e.(kind := TYPE_SYMLINK, flags := 0x1FF);
      LinkFits(e);
      SlotRewritten(written, index, link);
      RekindExtents(written, stored, index, link);
      entries := entries[index := link];
      ok := SaveEntry(index);
      SavedTree(entries, stored, device.sectors, index);
      KeptTwice(written, stored, entries, entries, device.sectors, index);
      TreeTwice(written, stored, link, entries, device.sectors, index);
      NodeNamed(entries, device.sectors, index);
      LinkHops(entries, device.sectors, e.name, index, target);
      if ok && Mirrored(written, stored) {
        OpenSlot(written, stored, index, link);
        FitsName(link);
        SaveMirrors(entries, link, stored, device.sectors, index);
        assert entries[index := link] == entries;
      }
    }

    /** format_v2: an empty, saved volume. */
    method Format() returns (ok: bool)
      requires DiskOk(device.sectors) && who.uid < UINT32
      modifies this`entries, this`mounted, device
      ensures DiskOk(device.sectors) && device.faults >= old(device.faults) && |device.sectors| == old(|device.sectors|)
      ensures ok <==> |device.sectors| > DATA_LBA + 128 && device.faults == old(device.faults)
      ensures ok ==> mounted && Ready() && Saved() && entries == BlankTable()
      ensures ok ==> SuperSector(device.sectors) == Superblock(|device.sectors|)
      ensures ok ==> forall i :: 0 <= i < MAX_ENTRIES ==> Tree()[i] == None
    {
      if |device.sectors| <= DATA_LBA + 128 {
        return false;
      }
      entries := BlankTable();
      ok := device.WriteSector(SUPER_LBA, Superblock(|device.sectors|));
      if !ok {
        return false;
      }
      ok := device.AllocateBuffer();
      if !ok {
        return false;
      }
      var sector := 0;
      while ok && sector < DIRECTORY_SECTORS
        invariant 0 <= sector <= DIRECTORY_SECTORS && DiskOk(device.sectors) && device.faults >= old(device.faults)
        invariant |device.sectors| == old(|device.sectors|) && entries == BlankTable()
        invariant ok <==> device.faults == old(device.faults)
        invariant SuperSector(device.sectors) == Superblock(|device.sectors|)
        invariant ok ==> forall k {:trigger device.sectors[k]} :: DIRECTORY_LBA <= k < DIRECTORY_LBA + sector ==>
          device.sectors[k] == ZeroSector()
      {
        ok := device.WriteSector(DIRECTORY_LBA + sector, ZeroSector());
        if ok {
          sector := sector + 1;
        }
      }
      mounted := ok;
      if ok {
        BlankMirrored(device.sectors);
      }
    }

    /**
     fs_init, except for version-1 volumes: `table` is what the directory sectors
     hold.  A volume that is found keeps every name, owner, mode and byte, and is
     found again next time.  One without the magic is formatted, and so is one
     whose superblock could not be read, whatever it held.
     */
    method Mount(ghost table: seq<Entry>) returns (ok: bool, ghost path: MountPath)
      requires DiskOk(device.sectors) && !LegacyFields(SuperSector(device.sectors))
      modifies this, device
      ensures DiskOk(device.sectors) && |device.sectors| == old(|device.sectors|)
      ensures mounted == ok && who == Identity(0, true) && device.faults >= old(device.faults)
      ensures TakesPath(path, old(SuperSector(device.sectors)), device.faults - old(device.faults), ok)
      ensures path.Found? ==> SameOutside(old(device.sectors), device.sectors, SUPER_LBA, SUPER_LBA + 1)
      ensures path.Found? && device.faults == old(device.faults) ==> Recognised(SuperSector(device.sectors))
      ensures !path.Found? && !Erases(path) ==> device.sectors == old(device.sectors)
      ensures path.Found? && TableOk(table) && old(Mirrored(table, device.sectors)) ==>
        && entries == table && Saved()
        && (ExtentsOk(table, LIMIT) ==> Tree() == Nodes(table, old(device.sectors)))
        && (ExtentsOk(table, LIMIT) && Namespace(table) ==> Usable())
        && (ExtentsOk(table, |device.sectors|) && ExtentsOk(table, LIMIT) && Namespace(table) ==> Ready())
      ensures Erases(path) && ok ==>
        && entries == BlankTable() && Ready() && Saved() && Recognised(SuperSector(device.sectors))
        && forall i :: 0 <= i < MAX_ENTRIES ==> Tree()[i] == None
      ensures Erases(path) && device.faults == old(device.faults) + (if path.Unreadable? then 1 else 0) ==>
        (ok <==> |device.sectors| > DATA_LBA + 128)
    {
      hide TableOk, Namespace, ExtentsOk, Mirrored, Nodes, Fields, Splice, ToLittle;
      mounted := false;
      who := Identity(0, true);
      ok := device.AllocateBuffer();
      if !ok {
        return false, NoMemory;
      }
      entries := BlankTable();
      var super;
      ok, super := device.ReadSector(SUPER_LBA);
      if !ok || !Magic(super) {
        path := if ok then Foreign else Unreadable;
        ok := Format();
        SuperblockRecognised(|device.sectors|);
        mounted := ok;
        return;
      }
      if !Version2Fields(super) {
        return false, Refused;
      }
      ok := ReadDirectory();
      if !ok {
        return false, Cut;
      }
      ghost var before := device.sectors;
      var rewritten := Splice(super, 28, ToLittle(|device.sectors|, 4));
      RewriteRecognised(super, |device.sectors|);
      var written := device.WriteSector(SUPER_LBA, rewritten);
      mounted := true;
      if TableOk(table) && Mirrored(table, before) {
        TableRead(entries, table, before);
        SuperKeepsMirror(table, before, device.sectors);
        if ExtentsOk(table, LIMIT) {
          SuperKeepsTree(table, before, device.sectors);
        }
      }
      return true, Found;
    }

    method ReadDirectory() returns (ok: bool)
      requires DiskOk(device.sectors)
      modifies this`entries, device`faults
      ensures device.faults == old(device.faults) + if ok then 0 else 1
      ensures ok ==> |entries| == MAX_ENTRIES && forall i: nat :: i < MAX_ENTRIES ==> SlotRead(entries, device.sectors, i)
    {
      hide Decode;
      var table := [];
      var sector := 0;
      while sector < DIRECTORY_SECTORS
        invariant 0 <= sector <= DIRECTORY_SECTORS && |table| == sector * PER_SECTOR
        invariant device.faults == old(device.faults)
        invariant forall i: nat :: i < |table| ==> SlotRead(table, device.sectors, i)
      {
        var data;
        ok, data := device.ReadSector(DIRECTORY_LBA + sector);
        if !ok {
          return;
        }
        var more := [Decode(data[..128]), Decode(data[128..256]), Decode(data[256..384]), Decode(data[384..512])];
        SectorRead(table, more, device.sectors, sector);
        table := table + more;
        sector := sector + 1;
      }
      entries := table;
      ok := true;
    }
  }

  lemma DiskSize(sectors: Sectors)
    requires DiskOk(sectors)
    ensures DATA_LBA < |sectors| < UINT32
  {
  }

  lemma TableSize(entries: seq<Entry>)
    requires TableOk(entries)
    ensures |entries| == MAX_ENTRIES && forall i :: 0 <= i < |entries| ==> Fits(entries[i])
  {
  }

  lemma UntouchedDisk(table: seq<Entry>, disk: Sectors, index: nat, e: Entry)
    requires index < |table|
    ensures OthersKept(table, disk, table[index := e], disk, index)
  {
  }

  lemma PlacedFits(table: seq<Entry>, index: nat, required: nat)
    requires index < |table| && Fits(table[index]) && required < UINT32
    ensures Fits(Placed(table, table[index], required))
  {
  }

  lemma FitsName(e: Entry)
    requires Fits(e)
    ensures |e.name| <= NAME_MAX
  {
  }

  lemma SizedFits(e: Entry, size: nat)
    requires Fits(e) && size < WORD
    ensures Fits(e.(size := size, modified := (e.modified + 1) % UINT32))
  {
  }

  lemma SlotRewritten(table: seq<Entry>, index: nat, e: Entry)
    requires TableOk(table) && Namespace(table) && index < |table| && table[index].used
    requires e.used && e.name == table[index].name && Fits(e)
    requires table[index].kind == TYPE_DIRECTORY ==> e.kind == TYPE_DIRECTORY
    ensures TableOk(table[index := e]) && Namespace(table[index := e])
  {
    hide Namespace;
    RewriteKeeps(table, index, e);
  }

  /** The extent a write of `size` bytes records ends within 32 bits, or none is recorded. */
  ghost predicate Recordable(entries: seq<Entry>, e: Entry, size: nat) {
    Required(size) >= UINT32 || ExtentEnd(Placed(entries, e, Required(size))) <= LIMIT
  }

  /** A write of `size` bytes leaves an extent that does not end within 32 bits or does not cover the size. */
  ghost predicate Breaks(entries: seq<Entry>, count: nat, e: Entry, size: nat) {
    (Wraps(size) && Room(entries, count, e, size)) || !Recordable(entries, e, size)
  }

  /** A write of `size` bytes leaves an extent that is not on the disk or does not cover the size. */
  ghost predicate Overfills(entries: seq<Entry>, count: nat, e: Entry, size: nat) {
    Breaks(entries, count, e, size) || (Required(size) < UINT32 && !Room(entries, count, e, size))
  }

  /** The table after a write that found no room: the new extent is recorded all the same. */
  ghost function Unwritten(entries: seq<Entry>, index: nat, e: Entry, size: nat): seq<Entry>
    requires index < |entries|
  {
    entries[index := if Required(size) < UINT32 then Placed(entries, e, Required(size)) else e]
  }

  /** A write that succeeds without wrapping leaves the volume in order. */
  lemma RoomIsOrder(entries: seq<Entry>, count: nat, e: Entry, size: nat)
    requires count <= LIMIT && ExtentOk(e, LIMIT)
    ensures Room(entries, count, e, size) && !Wraps(size) ==> !Overfills(entries, count, e, size)
  {
  }

  /** The extents after recording `required` sectors for slot `index`. */
  ghost predicate Retargeted(table: seq<Entry>, count: nat, index: nat, e: Entry, required: nat)
    requires index < |table|
  {
    && (ExtentsOk(table[index := e], LIMIT) <==> ExtentEnd(e) <= LIMIT)
    && (e.start + required > count ==> !ExtentsOk(table[index := e], count))
    && (ExtentsOk(table, count) && e.start + required <= count ==>
          ExtentsOk(table[index := e], count) && ExtentOk(e, count))
    && (table[index].capacity >= required ==> table[index := e] == table)
    && (e.start + required <= count ==> ExtentOk(e, LIMIT))
  }

  /** Recording a new extent keeps the volume in order exactly when the disk has room for it. */
  lemma RetargetCondition(table: seq<Entry>, count: nat, index: nat, required: nat)
    requires ExtentsOk(table, LIMIT) && index < |table| && table[index].used && required > 0 && count <= LIMIT
    ensures Retargeted(table, count, index, Placed(table, table[index], required), required)
  {
    var e := Placed(table, table[index], required);
    PlacedIsClear(table, index, table[index], required);
    hide NextLba;
    ClearExtents(table, count, index, e);
    if ExtentsOk(table[index := e], LIMIT) {
      SlotExtent(table[index := e], LIMIT, index);
    }
    if ExtentsOk(table[index := e], count) {
      SlotExtent(table[index := e], count, index);
    }
  }

  lemma SlotNotReady(table: seq<Entry>, count: nat, index: nat)
    requires index < |table| && table[index].used && !ExtentOk(table[index], count)
    ensures !ExtentsOk(table, count)
  {
  }

  lemma SlotExtent(table: seq<Entry>, count: nat, index: nat)
    requires ExtentsOk(table, count) && index < |table| && table[index].used
    ensures ExtentOk(table[index], count)
  {
  }

  lemma SameEverywhere(a: Sectors, from: nat, to: nat)
    ensures SameOutside(a, a, from, to)
  {
  }

  lemma GapIsZero(a: Sectors, b: Sectors, start: nat, size: nat, offset: nat)
    requires Zeroed(a, b, start, size, offset)
    ensures forall p: nat :: size <= p < offset ==> FileByte(b, start, p) == 0
  {
  }

  /** From `start` on the disk holds `contents`, as far as there is disk, and then what it held. */
  ghost predicate Laid(a: Sectors, b: Sectors, start: nat, contents: seq<byte>) {
    forall p: nat ::
      FileByte(b, start, p) == if p < |contents| && HasByte(a, start, p) then contents[p] else FileByte(a, start, p)
  }

  /** Zeroing the gap and storing the bytes amounts to the overlay. */
  lemma OverlayDone(a: Sectors, b: Sectors, c: Sectors, start: nat, size: nat, offset: nat, data: seq<byte>)
    requires DiskOk(a) && DiskOk(b) && |a| == |b|
    requires Zeroed(a, b, start, size, offset) && Patched(b, c, start, offset, data)
    ensures Laid(a, c, start, Overlay(Stored(a, start, size), offset, data))
  {
    var contents := Overlay(Stored(a, start, size), offset, data);
    forall p: nat
      ensures FileByte(c, start, p) == if p < |contents| && HasByte(a, start, p) then contents[p] else FileByte(a, start, p)
    {
      OverlayByte(a, b, c, start, size, offset, data, p);
    }
  }

  lemma OverlayByte(a: Sectors, b: Sectors, c: Sectors, start: nat, size: nat, offset: nat, data: seq<byte>, p: nat)
    requires DiskOk(a) && DiskOk(b) && |a| == |b|
    requires Zeroed(a, b, start, size, offset) && Patched(b, c, start, offset, data)
    ensures var contents := Overlay(Stored(a, start, size), offset, data);
      FileByte(c, start, p) == if p < |contents| && HasByte(a, start, p) then contents[p] else FileByte(a, start, p)
  {
    assert FileByte(c, start, p) ==
      if offset <= p < offset + |data| && HasByte(b, start, p) then data[p - offset] else FileByte(b, start, p);
    assert FileByte(b, start, p) == if size <= p < offset then 0 else FileByte(a, start, p);
  }

  /** When the gap itself runs off the disk, zeroing it has laid everything there is room for. */
  lemma GapLaid(a: Sectors, b: Sectors, start: nat, size: nat, offset: nat, data: seq<byte>)
    requires DiskOk(a) && DiskOk(b) && |a| == |b| && size < offset && !HasByte(a, start, offset - 1)
    requires Zeroed(a, b, start, size, offset)
    ensures Laid(a, b, start, Overlay(Stored(a, start, size), offset, data))
  {
    assert Patched(b, b, start, offset, data) by {
      forall p: nat | offset <= p ensures !HasByte(b, start, p) {
        OffDisk(a, start, offset - 1, p);
      }
    }
    OverlayDone(a, b, b, start, size, offset, data);
  }

  /** What was laid is what the file holds, once everything touched is on the disk. */
  lemma LaidIsStored(a: Sectors, b: Sectors, e: Entry, offset: nat, data: seq<byte>)
    requires DiskOk(a) && InReach(e, offset, |data|, |a|)
    requires Laid(a, b, e.start, Overlay(Stored(a, e.start, e.size), offset, data))
    ensures var contents := Overlay(Stored(a, e.start, e.size), offset, data);
      Stored(b, e.start, |contents|) == contents
  {
    var contents := Overlay(Stored(a, e.start, e.size), offset, data);
    forall p: nat | p < |contents| ensures FileByte(b, e.start, p) == contents[p] {
      if offset <= p < offset + |data| {
        OffDisk(a, e.start, p, offset + |data| - 1);
      } else if e.size <= p {
        OffDisk(a, e.start, p, offset - 1);
      }
    }
  }

  lemma GrownReach(e: Entry, offset: nat, n: nat, count: nat)
    ensures offset + n <= e.capacity * SECTOR && e.start + e.capacity <= count && e.size <= e.capacity * SECTOR ==>
      InReach(e, offset, n, count)
  {
  }

  /** The first sectors a write touches have 32-bit numbers. */
  lemma FirstSectors(e: Entry, offset: nat)
    requires ExtentOk(e, LIMIT) && (e.capacity == 0 ==> e.start < UINT32)
    ensures e.start + e.size / SECTOR < UINT32
    ensures offset <= e.size ==> e.start + offset / SECTOR < UINT32
  {
  }

  lemma ReachIsDisk(sectors: Sectors, e: Entry, offset: nat, n: nat)
    requires DiskOk(sectors)
    ensures InReach(e, offset, n, |sectors|) <==>
      && (offset > e.size ==> HasByte(sectors, e.start, offset - 1))
      && (n > 0 ==> HasByte(sectors, e.start, offset + n - 1))
  {
  }

  lemma SameTwice(a: Sectors, b: Sectors, c: Sectors, from: nat, to: nat)
    requires SameOutside(a, b, from, to) && SameOutside(b, c, from, to)
    ensures SameOutside(a, c, from, to)
  {
  }

  lemma SameSize(a: Sectors, b: Sectors, from: nat, to: nat)
    requires SameOutside(a, b, from, to)
    ensures |a| == |b|
  {
  }

  lemma Widen(a: Sectors, b: Sectors, from: nat, to: nat, more: nat)
    requires SameOutside(a, b, from, to) && to <= more
    ensures SameOutside(a, b, from, more)
  {
  }

  lemma SuperKept(a: Sectors, b: Sectors, from: nat, to: nat)
    requires SameOutside(a, b, from, to) && DATA_LBA <= from
    ensures SuperSector(a) == SuperSector(b)
  {
  }

  // ----- writes whose sector count wraps

  /** The byte such a write lays at position `p` behind the file. */
  function SpillByte(offset: nat, data: seq<byte>, p: nat): byte {
    if offset <= p < offset + |data| then data[p - offset] else 0
  }

  /** The bytes of `f`, which lies above `e`, are what the write to `e` lays there. */
  ghost predicate SpillAgrees(sectors: Sectors, e: Entry, f: Entry, offset: nat, data: seq<byte>)
    requires e.start <= f.start
  {
    forall q: nat :: q < f.size && HasByte(sectors, f.start, q) ==>
      FileByte(sectors, f.start, q) == SpillByte(offset, data, (f.start - e.start) * SECTOR + q)
  }

  /**
   A write whose sector count wraps does no harm: the file has no sectors yet,
   or every byte of every file above it already is what gets laid there.
   */
  ghost predicate Harmless(entries: seq<Entry>, sectors: Sectors, index: nat, offset: nat, data: seq<byte>)
    requires index < |entries|
  {
    entries[index].capacity > 0 ==>
      forall j: nat :: j < |entries| && j != index && entries[j].used && entries[index].start < entries[j].start ==>
        SpillAgrees(sectors, entries[index], entries[j], offset, data)
  }

  /** A file never holds so many bytes that their sector count wraps. */
  lemma EndOfWrite(e: Entry, end: nat)
    requires ExtentOk(e, LIMIT) && e.capacity < UINT32
    ensures e.size < WORD - SECTOR && (Wraps(if end > e.size then end else e.size) <==> Wraps(end))
  {
  }

  /** The end of such a write is never on a disk. */
  lemma NeverReached(e: Entry, sectors: Sectors, offset: nat, n: nat)
    requires ExtentOk(e, LIMIT) && e.capacity < UINT32 && DiskOk(sectors) && Wraps(offset + n)
    ensures !InReach(e, offset, n, |sectors|)
  {
    EndOfWrite(e, offset + n);
  }

  /** A byte of `f`, seen from `e` below it. */
  lemma SeenFromBelow(sectors: Sectors, e: Entry, f: Entry, q: nat)
    requires e.start <= f.start
    ensures var p := (f.start - e.start) * SECTOR + q;
      FileByte(sectors, e.start, p) == FileByte(sectors, f.start, q) &&
      (HasByte(sectors, e.start, p) <==> HasByte(sectors, f.start, q))
  {
    var p := (f.start - e.start) * SECTOR + q;
    assert p / SECTOR == f.start - e.start + q / SECTOR && p % SECTOR == q % SECTOR;
  }

  /** What becomes of a byte of a file above. */
  lemma SpilledByte(a: Sectors, b: Sectors, e: Entry, f: Entry, offset: nat, data: seq<byte>, q: nat)
    requires DiskOk(a) && DiskOk(b) && |a| == |b| && ExtentOk(e, LIMIT) && e.start + e.capacity <= f.start
    requires Wraps(offset + |data|) && Laid(a, b, e.start, Overlay(Stored(a, e.start, e.size), offset, data))
    ensures FileByte(b, f.start, q) ==
      if HasByte(a, f.start, q) then SpillByte(offset, data, (f.start - e.start) * SECTOR + q) else 0
  {
    hide Overlay, Stored, FileByte, HasByte;
    var p := (f.start - e.start) * SECTOR + q;
    SeenFromBelow(a, e, f, q);
    SeenFromBelow(b, e, f, q);
    OverlayBeyond(Stored(a, e.start, e.size), offset, data, p);
    if HasByte(a, e.start, p) {
      BytesOnDisk(a, e.start, p);
    } else {
      MissingByte(a, e.start, p);
    }
  }

  lemma MissingByte(a: Sectors, start: nat, p: nat)
    requires !HasByte(a, start, p)
    ensures FileByte(a, start, p) == 0
  {
  }

  lemma BytesOnDisk(a: Sectors, start: nat, p: nat)
    requires DiskOk(a) && HasByte(a, start, p)
    ensures p <= WORD - SECTOR
  {
  }

  lemma OverlayBeyond(contents: seq<byte>, offset: nat, data: seq<byte>, p: nat)
    requires |contents| <= p
    ensures p < |Overlay(contents, offset, data)| ==> Overlay(contents, offset, data)[p] == SpillByte(offset, data, p)
  {
  }

  /** Exactly when a file above keeps its bytes. */
  lemma SpilledFile(a: Sectors, b: Sectors, e: Entry, f: Entry, offset: nat, data: seq<byte>)
    requires DiskOk(a) && DiskOk(b) && |a| == |b| && ExtentOk(e, LIMIT) && e.start + e.capacity <= f.start && f.used
    requires Wraps(offset + |data|) && Laid(a, b, e.start, Overlay(Stored(a, e.start, e.size), offset, data))
    ensures NodeOf(f, b) == NodeOf(f, a) <==> SpillAgrees(a, e, f, offset, data)
  {
    hide Overlay, FileByte, HasByte, Laid, SpillByte;
    forall q: nat
      ensures FileByte(b, f.start, q) ==
        if HasByte(a, f.start, q) then SpillByte(offset, data, (f.start - e.start) * SECTOR + q) else 0
      ensures !HasByte(a, f.start, q) ==> FileByte(a, f.start, q) == 0
    {
      SpilledByte(a, b, e, f, offset, data, q);
      if !HasByte(a, f.start, q) {
        MissingByte(a, f.start, q);
      }
    }
    var was, now := Stored(a, f.start, f.size), Stored(b, f.start, f.size);
    if SpillAgrees(a, e, f, offset, data) {
      assert was == now;
    }
    if NodeOf(f, b) == NodeOf(f, a) {
      forall q: nat | q < f.size && HasByte(a, f.start, q)
        ensures FileByte(a, f.start, q) == SpillByte(offset, data, (f.start - e.start) * SECTOR + q)
      {
        assert was[q] == now[q];
      }
    }
  }

  /** Files below the one written to keep their bytes. */
  lemma FileBelow(a: Sectors, b: Sectors, from: nat, to: nat, f: Entry)
    requires DiskOk(a) && DiskOk(b) && SameOutside(a, b, from, to) && ExtentOk(f, LIMIT)
    requires f.capacity > 0 ==> f.start + f.capacity <= from
    ensures NodeOf(f, b) == NodeOf(f, a)
  {
    OtherExtent(a, b, from, to, f);
  }

  /** Exactly when a write whose sector count wraps leaves every other file alone. */
  lemma SpillKeeps(
      table: seq<Entry>, index: nat, e: Entry, a: Sectors, grown: Sectors, b: Sectors, offset: nat, data: seq<byte>)
    requires DiskOk(a) && DiskOk(b) && ExtentsOk(table, LIMIT) && index < |table| && table[index].used
    requires e == Placed(table, table[index], 1) && (grown == a || table[index].capacity == 0) && ExtentOk(e, LIMIT)
    requires SameOutside(a, b, e.start, e.start + WORD) && DATA_LBA <= e.start && Wraps(offset + |data|)
    requires Laid(grown, b, e.start, Overlay(Stored(grown, e.start, e.size), offset, data))
    ensures OthersKept(table, a, table[index := e], b, index) <==> Harmless(table, a, index, offset, data)
  {
    hide Overlay, Stored, NextLba, NodeOf, SpillAgrees, Laid, SameOutside;
    SuperKept(a, b, e.start, e.start + WORD);
    SameSize(a, b, e.start, e.start + WORD);
    forall j: nat | j < |table| && j != index
      ensures table[index].capacity > 0 && table[j].used && table[index].start < table[j].start ==>
        (NodeOf(table[j], b) == NodeOf(table[j], a) <==> SpillAgrees(a, table[index], table[j], offset, data))
      ensures table[index].capacity == 0 || !table[j].used || table[j].start <= table[index].start ==>
        NodeOf(table[j], b) == NodeOf(table[j], a)
    {
      OneSpilled(table, index, e, a, grown, b, offset, data, j);
    }
  }

  lemma OneSpilled(
      table: seq<Entry>, index: nat, e: Entry, a: Sectors, grown: Sectors, b: Sectors, offset: nat, data: seq<byte>, j: nat)
    requires DiskOk(a) && DiskOk(b) && |a| == |b| && ExtentsOk(table, LIMIT) && index < |table| && table[index].used
    requires e == Placed(table, table[index], 1) && (grown == a || table[index].capacity == 0) && ExtentOk(e, LIMIT)
    requires SameOutside(a, b, e.start, e.start + WORD) && Wraps(offset + |data|)
    requires Laid(grown, b, e.start, Overlay(Stored(grown, e.start, e.size), offset, data))
    requires j < |table| && j != index
    ensures table[index].capacity > 0 && table[j].used && table[index].start < table[j].start ==>
      (NodeOf(table[j], b) == NodeOf(table[j], a) <==> SpillAgrees(a, table[index], table[j], offset, data))
    ensures table[index].capacity == 0 || !table[j].used || table[j].start <= table[index].start ==>
      NodeOf(table[j], b) == NodeOf(table[j], a)
  {
    hide Overlay, Stored, NextLba, SpillAgrees, Laid, SameOutside;
    var f := table[j];
    if f.used {
      SlotExtent(table, LIMIT, j);
      assert Apart(table[index], f);
      if f.capacity == 0 {
        FileBelow(a, b, e.start, e.start + WORD, f);
        EmptyAgrees(a, table[index], f, offset, data);
      } else if table[index].capacity == 0 {
        NextLbaBound(table, j);
        FileBelow(a, b, e.start, e.start + WORD, f);
      } else if f.start <= e.start {
        FileBelow(a, b, e.start, e.start + WORD, f);
      } else {
        SpilledFile(a, b, e, f, offset, data);
      }
    }
  }

  lemma EmptyAgrees(sectors: Sectors, e: Entry, f: Entry, offset: nat, data: seq<byte>)
    requires f.size == 0
    ensures e.start <= f.start ==> SpillAgrees(sectors, e, f, offset, data)
  {
  }

  /** The end of the write is a 64-bit number whose sector count is not. */
  predicate Spills(end: nat) {
    Wraps(end) && end < WORD
  }

  /** Harm depends only on what the other files hold. */
  lemma HarmlessAlike(
      t0: seq<Entry>, a: Sectors, t1: seq<Entry>, b: Sectors, index: nat, offset: nat, data: seq<byte>)
    requires DiskOk(a) && DiskOk(b) && |a| == |b| && OthersKept(t0, a, t1, b, index) && index < |t0| && t0[index] == t1[index]
    ensures Harmless(t0, a, index, offset, data) <==> Harmless(t1, b, index, offset, data)
  {
    hide FileByte, HasByte, SpillByte;
    forall j: nat | j < |t0| && j != index && t0[j].used && t0[index].start < t0[j].start
      ensures SpillAgrees(a, t0[index], t0[j], offset, data) <==> SpillAgrees(b, t1[index], t1[j], offset, data)
    {
      assert NodeOf(t1[j], b) == NodeOf(t0[j], a);
      forall q: nat | q < t0[j].size
        ensures FileByte(a, t0[j].start, q) == FileByte(b, t0[j].start, q)
        ensures HasByte(a, t0[j].start, q) <==> HasByte(b, t0[j].start, q)
      {
        assert Stored(a, t0[j].start, t0[j].size)[q] == Stored(b, t0[j].start, t0[j].size)[q];
        SameDisk(a, b, t0[j].start, q);
      }
    }
  }

  lemma SameDisk(a: Sectors, b: Sectors, start: nat, p: nat)
    requires DiskOk(a) && DiskOk(b) && |a| == |b|
    ensures HasByte(a, start, p) <==> HasByte(b, start, p)
  {
  }

  lemma NewFileIsHarmless(entries: seq<Entry>, sectors: Sectors, index: nat, offset: nat, data: seq<byte>)
    requires index < |entries|
    ensures entries[index].capacity == 0 ==> Harmless(entries, sectors, index, offset, data)
  {
  }

  lemma TouchedData(a: Sectors, b: Sectors, from: nat, to: nat, end: nat)
    requires SameOutside(a, b, from, to) && to <= end
    ensures Touched(a, b, from, end)
  {
  }

  lemma TouchedBoth(a: Sectors, b: Sectors, c: Sectors, from: nat, to: nat)
    requires Touched(a, b, from, to) && SameOutside(b, c, DIRECTORY_LBA, DIRECTORY_LBA + DIRECTORY_SECTORS)
    ensures Touched(a, c, from, to)
  {
  }

  lemma KeptOthers(table: seq<Entry>, index: nat, e: Entry, e': Entry, a: Sectors, b: Sectors)
    requires DiskOk(a) && DiskOk(b) && ExtentsOk(table, LIMIT) && index < |table|
    requires Clear(table, index, e.start, e.start + e.capacity) && Touched(a, b, e.start, e.start + e.capacity)
    requires e.capacity > 0 ==> e.start >= DATA_LBA
    ensures OthersKept(table, a, table[index := e'], b, index)
  {
    hide ExtentsOk, DiskOk, Clear, NodeOf;
    OtherNodes(table, index, a, b, e.start, e.start + e.capacity);
  }

  /** Saving to the directory leaves the data alone. */
  lemma NodeSaved(e: Entry, a: Sectors, b: Sectors)
    requires DiskOk(a) && DiskOk(b) && SameOutside(a, b, DIRECTORY_LBA, DIRECTORY_LBA + DIRECTORY_SECTORS)
    requires e.size <= e.capacity * SECTOR && (e.capacity > 0 ==> DATA_LBA <= e.start)
    ensures NodeOf(e, b) == NodeOf(e, a) && Stored(b, e.start, e.size) == Stored(a, e.start, e.size)
  {
    OtherExtent(a, b, DIRECTORY_LBA, DIRECTORY_LBA + DIRECTORY_SECTORS, e);
  }

  ghost function WithContents(e: Entry, contents: seq<byte>): Node {
    Node(e.name, e.kind, e.owner, e.flags, contents)
  }

  lemma OpenIsValid(entries: seq<Entry>, sectors: Sectors, who: Identity, name: Name)
    ensures Open(entries, sectors, who, name).Some? ==> FsNames.Valid(name)
  {
  }

  lemma OpenIsUsed(entries: seq<Entry>, sectors: Sectors, who: Identity, name: Name)
    ensures Open(entries, sectors, who, name).Some? ==>
      Open(entries, sectors, who, name).value.slot < |entries| && Open(entries, sectors, who, name).value.entry.used
  {
  }

  lemma NothingChanged(table: seq<Entry>, disk: Sectors)
    ensures forall index: nat :: OthersKept(table, disk, table, disk, index)
  {
  }

  lemma KeptTable(t0: seq<Entry>, a: Sectors, t1: seq<Entry>, b: Sectors, index: nat)
    requires OthersKept(t0, a, t1, b, index)
    ensures |t0| == |t1| && SuperSector(a) == SuperSector(b)
  {
  }

  lemma KeptTwice(t0: seq<Entry>, a: Sectors, t1: seq<Entry>, t2: seq<Entry>, b: Sectors, index: nat)
    requires OthersKept(t0, a, t1, a, index) && OthersKept(t1, a, t2, b, index)
    ensures OthersKept(t0, a, t2, b, index)
  {
  }

  lemma TreeTwice(t0: seq<Entry>, a: Sectors, e: Entry, t2: seq<Entry>, b: Sectors, index: nat)
    requires index < |t0| && OthersKept(t0, a, t2, b, index)
    ensures |t2| == |t0| && Nodes(t2, b) == Nodes(t0, a)[index := NodeOf(t2[index], b)]
  {
  }

  /** No used name lies below `name`. */
  ghost predicate Childless(entries: seq<Entry>, name: Name) {
    forall j: nat :: j < |entries| && entries[j].used ==> !Below(entries[j].name, name)
  }

  lemma KeptExactly(t0: seq<Entry>, a: Sectors, t1: seq<Entry>, b: Sectors, t2: seq<Entry>, c: Sectors, index: nat)
    requires OthersKept(t0, a, t1, b, index)
    ensures OthersKept(t0, a, t2, c, index) <==> OthersKept(t1, b, t2, c, index)
  {
    hide NodeOf;
  }

  /** A save of the directory, complete or not, changes no node. */
  lemma SavedTree(entries: seq<Entry>, a: Sectors, b: Sectors, index: nat)
    requires DiskOk(a) && DiskOk(b) && ExtentsOk(entries, LIMIT) && |a| == |b|
    requires SameOutside(a, b, DIRECTORY_LBA, DIRECTORY_LBA + DIRECTORY_SECTORS)
    ensures OthersKept(entries, a, entries, b, index)
    ensures forall j: nat :: j < |entries| ==> NodeOf(entries[j], b) == NodeOf(entries[j], a)
  {
    forall j: nat | j < |entries| ensures NodeOf(entries[j], b) == NodeOf(entries[j], a) {
      if entries[j].used {
        assert ExtentOk(entries[j], LIMIT);
        NodeSaved(entries[j], a, b);
      }
    }
  }

  lemma SavedSlotOpens(entries: seq<Entry>, e: Entry, a: Sectors, b: Sectors, index: nat)
    requires MirroredBut(entries, a, index) && DiskOk(b) && index < MAX_ENTRIES && entries[index] == e && Fits(e)
    requires var lba := DIRECTORY_LBA + index / PER_SECTOR;
      b == a[lba := Splice(a[lba], index % PER_SECTOR * ENTRY_SIZE, Encode(e))]
    ensures MirroredBut(entries, b, index)
  {
    hide Encode, Splice;
    SaveMirrors(entries, e, a, b, index);
    assert entries[index := e] == entries;
    OpenSlot(entries, b, index, e);
  }

  lemma TargetBound(target: Name)
    requires ValidTarget(target)
    ensures |target| <= NAME_MAX + 1 && 0 !in target && |target| > 0
  {
    var name := if |target| > 0 && target[0] == SLASH then target[1..] else target;
    assert Printable(name);
    assert target == name || target == [SLASH] + name;
  }

  lemma OpenNew(entries: seq<Entry>, sectors: Sectors, who: Identity, name: Name)
    requires Find(entries, name).None?
    ensures var target := Open(entries, sectors, who, name);
      && (target.Some? <==> Creatable(entries, name))
      && (target.Some? ==> target.value == Opened(FirstFree(entries, 0).value, NewEntry(name, TYPE_FILE, FILE_MODE, who.uid)))
  {
  }

  lemma NodeNamed(entries: seq<Entry>, sectors: Sectors, i: nat)
    requires i < |entries|
    ensures var node := Nodes(entries, sectors)[i];
      node.Some? ==>
        && Named(entries, i, node.value.name) && entries[i].owner == node.value.owner
        && entries[i].kind == node.value.kind && Stored(sectors, entries[i].start, entries[i].size) == node.value.contents
  {
  }

  lemma UniqueSlot(entries: seq<Entry>, name: Name, slot: nat)
    requires Namespace(entries) && Named(entries, slot, name)
    ensures Find(entries, name) == Some(slot)
  {
  }

  lemma LinkFits(e: Entry)
    requires Fits(e)
    ensures Fits(e.(kind := TYPE_SYMLINK, flags := 0x1FF))
  {
  }

  lemma RekindExtents(table: seq<Entry>, sectors: Sectors, index: nat, link: Entry)
    requires ExtentsOk(table, LIMIT) && index < |table| && table[index].used
    requires link == table[index].(kind := link.kind, flags := link.flags)
    ensures ExtentsOk(table, |sectors|) ==> ExtentsOk(table[index := link], |sectors|)
    ensures ExtentsOk(table[index := link], LIMIT) && OthersKept(table, sectors, table[index := link], sectors, index)
  {
    forall j | 0 <= j < |table| && table[j].used && j != index ensures Apart(link, table[j]) && Apart(table[j], link) {
      assert Apart(table[index], table[j]) && Apart(table[j], table[index]);
    }
  }

  lemma LinkHops(entries: seq<Entry>, sectors: Sectors, name: Name, index: nat, target: Name)
    requires Namespace(entries) && Named(entries, index, name) && entries[index].kind == TYPE_SYMLINK
    requires Stored(sectors, entries[index].start, entries[index].size) == target
    requires 0 < |target| <= NAME_MAX + 1 && 0 !in target
    ensures Hop(entries, sectors, name) == Followed(name, target)
  {
    hide Followed;
    UniqueSlot(entries, name, index);
    assert CString(target) == target;
  }

  function Superblock(total: nat): (sector: seq<byte>)
    ensures |sector| == SECTOR
  {
    MAGIC + ToLittle(2, 4) + ToLittle(DIRECTORY_LBA, 4) + ToLittle(DIRECTORY_SECTORS, 4) + ToLittle(DATA_LBA, 4)
    + ToLittle(MAX_ENTRIES, 4) + ToLittle(total, 4) + ZeroSector()[..480]
  }

  const MAGIC: seq<byte> := [78, 79, 86, 65, 54, 52, 70, 83] // "NOVA64FS"

  lemma {:induction false} ZeroLittle(width: nat)
    ensures forall i :: 0 <= i < width ==> ToLittle(0, width)[i] == 0
  {
    if width > 0 {
      ZeroLittle(width - 1);
    }
  }

  lemma EmptyIsZero()
    ensures Encode(EMPTY) == ZeroSector()[..ENTRY_SIZE]
  {
    hide ToLittle;
    ZeroLittle(1);
    ZeroLittle(2);
    ZeroLittle(4);
    ZeroLittle(8);
  }

  /** Zeroed directory sectors hold the blank table. */
  lemma BlankMirrored(sectors: Sectors)
    requires DiskOk(sectors)
    requires forall k {:trigger sectors[k]} :: DIRECTORY_LBA <= k < DIRECTORY_LBA + DIRECTORY_SECTORS ==>
      sectors[k] == ZeroSector()
    ensures Mirrored(BlankTable(), sectors)
  {
    hide Encode;
    EmptyIsZero();
    forall i: nat | i < MAX_ENTRIES ensures SlotMirrored(BlankTable(), sectors, i) {
      assert sectors[DIRECTORY_LBA + i / PER_SECTOR] == ZeroSector();
      assert SlotBytes(sectors, i) == ZeroSector()[..ENTRY_SIZE];
    }
  }

  predicate Magic(sector: seq<byte>) {
    |sector| == SECTOR && sector[..8] == MAGIC
  }

  predicate Fields(sector: seq<byte>, version: nat, sectors: nat, data: nat, entries: nat) {
    && |sector| == SECTOR && FromLittle(sector[8..12]) == version && FromLittle(sector[12..16]) == DIRECTORY_LBA
    && FromLittle(sector[16..20]) == sectors && FromLittle(sector[20..24]) == data
    && FromLittle(sector[24..28]) == entries
  }

  predicate Version2Fields(sector: seq<byte>) {
    Fields(sector, 2, DIRECTORY_SECTORS, DATA_LBA, MAX_ENTRIES)
  }

  predicate LegacyFields(sector: seq<byte>) {
    Fields(sector, 1, 8, 4128, 64)
  }

  /** A formatted volume is recognised when it is mounted again. */
  lemma SuperblockRecognised(total: nat)
    ensures Magic(Superblock(total)) && Version2Fields(Superblock(total)) && !LegacyFields(Superblock(total))
  {
    hide ToLittle, FromLittle;
    WidthRanges();
    var s := Superblock(total);
    assert s[..8] == MAGIC;
    assert s[8..12] == ToLittle(2, 4);
    assert s[12..16] == ToLittle(DIRECTORY_LBA, 4);
    assert s[16..20] == ToLittle(DIRECTORY_SECTORS, 4);
    assert s[20..24] == ToLittle(DATA_LBA, 4);
    assert s[24..28] == ToLittle(MAX_ENTRIES, 4);
    LittleRoundTrip(2, 4);
    LittleRoundTrip(DIRECTORY_LBA, 4);
    LittleRoundTrip(DIRECTORY_SECTORS, 4);
    LittleRoundTrip(DATA_LBA, 4);
    LittleRoundTrip(MAX_ENTRIES, 4);
  }

  /** The superblock of a version-2 volume. */
  predicate Recognised(sector: seq<byte>) {
    Magic(sector) && Version2Fields(sector) && !LegacyFields(sector)
  }

  /** Rewriting the number of sectors leaves a superblock recognisable. */
  lemma RewriteRecognised(super: seq<byte>, total: nat)
    requires |super| == SECTOR && Magic(super) && Version2Fields(super)
    ensures Recognised(Splice(super, 28, ToLittle(total, 4)))
  {
    hide ToLittle, FromLittle;
    var s := Splice(super, 28, ToLittle(total, 4));
    assert s[..8] == super[..8] && s[8..12] == super[8..12] && s[12..16] == super[12..16];
    assert s[16..20] == super[16..20] && s[20..24] == super[20..24] && s[24..28] == super[24..28];
  }

  /** How a mount ends. */
  datatype MountPath =
    | NoMemory     // no buffer for the directory
    | Unreadable   // the superblock could not be read
    | Foreign      // it was read and has no magic
    | Refused      // it has the magic but not the layout of this version
    | Cut          // a directory sector could not be read
    | Found        // the directory was read

  /** The mount formatted the volume. */
  predicate Erases(path: MountPath) {
    path.Unreadable? || path.Foreign?
  }

  /** Which path a mount takes, by what the superblock holds and which of the `faults` came first. */
  ghost predicate TakesPath(path: MountPath, super: seq<byte>, faults: int, ok: bool) {
    match path
    case NoMemory => faults == 1 && !ok
    case Unreadable => faults > 0
    case Foreign => !Magic(super)
    case Refused => Magic(super) && !Version2Fields(super) && faults == 0 && !ok
    case Cut => Magic(super) && Version2Fields(super) && faults == 1 && !ok
    case Found => Magic(super) && Version2Fields(super) && ok
  }

  ghost predicate SlotRead(table: seq<Entry>, sectors: Sectors, i: nat)
    requires DiskOk(sectors) && i < |table|
  {
    i < MAX_ENTRIES && table[i] == Decode(SlotBytes(sectors, i))
  }

  /** One directory sector gives the next four slots. */
  lemma SectorRead(table: seq<Entry>, more: seq<Entry>, sectors: Sectors, sector: nat)
    requires DiskOk(sectors) && sector < DIRECTORY_SECTORS && |table| == sector * PER_SECTOR && |more| == PER_SECTOR
    requires forall i: nat :: i < |table| ==> SlotRead(table, sectors, i)
    requires var data := sectors[DIRECTORY_LBA + sector];
      && more[0] == Decode(data[..128]) && more[1] == Decode(data[128..256])
      && more[2] == Decode(data[256..384]) && more[3] == Decode(data[384..512])
    ensures forall i: nat :: i < |table + more| ==> SlotRead(table + more, sectors, i)
  {
    hide Decode;
    var longer, data := table + more, sectors[DIRECTORY_LBA + sector];
    forall i: nat | i < |longer| ensures SlotRead(longer, sectors, i) {
      if i < |table| {
        assert SlotRead(table, sectors, i);
      } else {
        var k := i - |table|;
        assert i / PER_SECTOR == sector && i % PER_SECTOR == k;
        assert SlotBytes(sectors, i) == data[k * ENTRY_SIZE..(k + 1) * ENTRY_SIZE];
      }
    }
  }

  /** The directory read back from disk is the table it mirrors. */
  lemma TableRead(entries: seq<Entry>, table: seq<Entry>, sectors: Sectors)
    requires TableOk(table) && Mirrored(table, sectors) && |entries| == MAX_ENTRIES
    requires forall i: nat :: i < MAX_ENTRIES ==> SlotRead(entries, sectors, i)
    ensures entries == table
  {
    hide Decode;
    forall i: nat | i < MAX_ENTRIES ensures entries[i] == table[i] {
      assert SlotRead(entries, sectors, i);
      MirrorDecodes(table, sectors, i);
    }
  }

  lemma SuperKeepsMirror(table: seq<Entry>, a: Sectors, b: Sectors)
    requires Mirrored(table, a) && DiskOk(b) && SameOutside(a, b, SUPER_LBA, SUPER_LBA + 1)
    ensures Mirrored(table, b)
  {
    forall i: nat | i < MAX_ENTRIES ensures SlotMirrored(table, b, i) {
      assert SlotMirrored(table, a, i);
    }
  }

  lemma SuperKeepsTree(table: seq<Entry>, a: Sectors, b: Sectors)
    requires DiskOk(a) && DiskOk(b) && SameOutside(a, b, SUPER_LBA, SUPER_LBA + 1) && ExtentsOk(table, LIMIT)
    ensures Nodes(table, b) == Nodes(table, a)
  {
    forall j | 0 <= j < |table| ensures NodeOf(table[j], b) == NodeOf(table[j], a) {
      if table[j].used {
        assert ExtentOk(table[j], LIMIT);
        OtherExtent(a, b, SUPER_LBA, SUPER_LBA + 1, table[j]);
      }
    }
  }

  lemma ResolveIsUsed(entries: seq<Entry>, sectors: Sectors, name: Name, links: nat)
    ensures Resolve(entries, sectors, name, links).Some? ==>
      Resolve(entries, sectors, name, links).value < |entries| && entries[Resolve(entries, sectors, name, links).value].used
  {
  }

  lemma Deleted(table: seq<Entry>, sectors: Sectors, index: nat)
    requires TableOk(table) && Namespace(table) && ExtentsOk(table, LIMIT) && index < |table| && table[index].used
    requires table[index].kind == TYPE_DIRECTORY ==> Childless(table, table[index].name)
    ensures var table' := table[index := EMPTY];
      && TableOk(table') && Namespace(table') && ExtentsOk(table', LIMIT)
      && (ExtentsOk(table, |sectors|) ==> ExtentsOk(table', |sectors|))
      && OthersKept(table, sectors, table', sectors, index)
  {
    hide Namespace, Below;
    DeleteKeeps(table, index);
  }

  /** A new entry owns no sectors, so the extents stay as they are. */
  lemma Allocated(table: seq<Entry>, sectors: Sectors, index: nat, name: Name, kind: nat, mode: nat, uid: nat)
    requires TableOk(table) && ExtentsOk(table, LIMIT) && index < |table| && FsNames.Valid(name)
    requires kind < 256 && uid < UINT32
    ensures var table' := table[index := NewEntry(name, kind, mode, uid)];
      && TableOk(table') && ExtentsOk(table', LIMIT) && OthersKept(table, sectors, table', sectors, index)
      && (ExtentsOk(table, |sectors|) ==> ExtentsOk(table', |sectors|))
    ensures NodeOf(NewEntry(name, kind, mode, uid), sectors) == Some(Node(name, kind, uid, mode % 512, []))
  {
    assert 0 !in name;
    assert Stored(sectors, 0, 0) == [];
  }

  lemma TreeUpdated(table: seq<Entry>, index: nat, e: Entry, a: Sectors, b: Sectors)
    requires index < |table| && OthersKept(table, a, table[index := e], b, index)
    ensures Nodes(table[index := e], b) == Nodes(table, a)[index := NodeOf(e, b)]
  {
  }

  /** Reading a link whole gives its text; a length out of bounds gives none. */
  lemma LinkReads(link: Entry, sectors: Sectors)
    ensures link.size == 0 || link.size > NAME_MAX + 1 <==> LinkText(link, sectors).None?
    ensures var contents := Stored(sectors, link.start, link.size);
      Window(contents, 0, link.size) == contents &&
      (LinkText(link, sectors).Some? ==> LinkText(link, sectors).value == CString(contents))
  {
    hide Stored, CString;
    WholeWindow(Stored(sectors, link.start, link.size));
  }

  /** A link whose text is off the disk leads nowhere. */
  lemma LostLink(link: Entry, sectors: Sectors, name: Name)
    requires DiskOk(sectors) && 0 < link.size <= NAME_MAX + 1 && !HasByte(sectors, link.start, link.size - 1)
    ensures LinkText(link, sectors) == Some([]) && Followed(name, []).None?
  {
    var text := Stored(sectors, link.start, link.size);
    assert FileByte(sectors, link.start, 0) == 0;
    assert text[0] == 0;
    assert !FsNames.Valid([]);
  }

  lemma NoLinksLeft(entries: seq<Entry>, sectors: Sectors, name: Name)
    ensures Resolve(entries, sectors, name, 0).None?
  {
  }

  lemma WholeWindow(contents: seq<byte>)
    ensures Window(contents, 0, |contents|) == contents
  {
  }
}
