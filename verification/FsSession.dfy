/**
 Whole sessions with a NovaFS volume (kernel/filesystem.c): format, any calls,
 mount again; and two calls after which the volume is not what it should be.
 */
module FsSession {
  import opened VmTypes
  import opened Bytes
  import opened FsNames
  import opened FsEntries
  import opened FsStore
  import opened FsEngine
  import opened FsTree
  import opened NovaFs

  /** A call that changes the volume. */
  datatype Call =
    | Write(name: Name, data: seq<byte>)
    | WriteAt(name: Name, offset: nat, data: seq<byte>)
    | Delete(name: Name)
    | MakeDirectory(name: Name, mode: nat)
    | MakeSymlink(target: Name, name: Name)

  datatype Volume = Volume(entries: seq<Entry>, sectors: Sectors)

  ghost function TreeOf(v: Volume): seq<Option<Node>> {
    Nodes(v.entries, v.sectors)
  }

  ghost predicate NoNodes(tree: seq<Option<Node>>) {
    forall i :: 0 <= i < |tree| ==> tree[i] == None
  }

  /** What a successful call does to the tree: exactly one node changes, as the call says. */
  ghost predicate Performed(call: Call, who: Identity, v: Volume, v': Volume) {
    match call
    case Write(name, data) =>
      var target := Open(v.entries, v.sectors, who, name);
      && target.Some?
      && TreeOf(v') == TreeOf(v)[target.value.slot := Some(WithContents(target.value.entry, data))]
    case WriteAt(name, offset, data) =>
      var target := Open(v.entries, v.sectors, who, name);
      && target.Some?
      && var e := target.value.entry;
      TreeOf(v') == TreeOf(v)[target.value.slot :=
        Some(WithContents(e, Overlay(Stored(v.sectors, e.start, e.size), offset, data)))]
    case Delete(name) =>
      var index := Find(v.entries, name);
      index.Some? && TreeOf(v') == TreeOf(v)[index.value := None]
    case MakeDirectory(name, mode) =>
      && Creatable(v.entries, name)
      && TreeOf(v') == TreeOf(v)[FirstFree(v.entries, 0).value :=
           Some(Node(name, TYPE_DIRECTORY, who.uid, if mode == 0 then 0x1FF else mode, []))]
    case MakeSymlink(target, name) =>
      && Creatable(v.entries, name)
      && TreeOf(v') == TreeOf(v)[FirstFree(v.entries, 0).value :=
           Some(Node(name, TYPE_SYMLINK, who.uid, 0x1FF, target))]
  }

  /** Mounted, in order, saved, and with a superblock the next mount will recognise. */
  ghost predicate Healthy(fs: NovaFs)
    reads fs, fs.device
  {
    fs.mounted && fs.Ready() && fs.Saved() && Recognised(SuperSector(fs.device.sectors))
  }

  ghost function VolumeOf(fs: NovaFs): Volume
    reads fs, fs.device
  {
    Volume(fs.entries, fs.device.sectors)
  }

  /** A buffer of at most 2^64 - 512 bytes. */
  predicate Bounded(call: Call) {
    call.Write? ==> !Wraps(|call.data|)
  }

  /** One call; a successful one leaves the volume healthy. */
  method Perform(fs: NovaFs, call: Call) returns (ok: bool)
    requires Healthy(fs) && Bounded(call)
    modifies fs`entries, fs.device
    ensures fs.device.faults >= old(fs.device.faults) && (ok ==> fs.device.faults == old(fs.device.faults))
    ensures ok ==> Healthy(fs) && Performed(call, fs.who, old(VolumeOf(fs)), VolumeOf(fs))
    ensures |fs.device.sectors| == old(|fs.device.sectors|)
  {
    hide DiskOk, TableOk, Namespace, ExtentsOk, Mirrored, Nodes, Stored, Open, Find, Magic, Fields, RoomAt, Harmless;
    match call
    case Write(name, data) =>
      ghost var table, disk := fs.entries, fs.device.sectors;
      ok := fs.WriteFile(name, data);
      if ok {
        KeptTable(table, disk, fs.entries, fs.device.sectors, Open(table, disk, fs.who, name).value.slot);
      }
    case WriteAt(name, offset, data) => ok := fs.WriteFileAt(name, offset, data);
    case Delete(name) => ok := fs.DeleteFile(name);
    case MakeDirectory(name, mode) => ok := fs.MakeDirectory(name, mode);
    case MakeSymlink(target, name) => ok := fs.MakeSymlink(target, name);
  }

  /**
   Persistence: format, any sequence of successful calls, and a mount by a new
   system on the same disk.  A mount that finds the volume shows the tree at the
   end of the calls, each of which changed exactly what it says; without faults
   every mount does.  A mount that could not read the superblock shows nothing.
   */
  method Session(device: Device, calls: seq<Call>)
    returns (ok: bool, fs: NovaFs, ghost trace: seq<Volume>, ghost path: MountPath)
    requires DiskOk(device.sectors) && forall i :: 0 <= i < |calls| ==> Bounded(calls[i])
    modifies device
    ensures fs.device == device && fresh(fs)
    ensures |trace| <= |calls| + 1 && forall i: nat :: i + 1 < |trace| ==> Followed(calls, trace, i)
    ensures |trace| > 0 ==> NoNodes(TreeOf(trace[0]))
    ensures |trace| == |calls| + 1 ==>
      && (device.faults == old(device.faults) ==> ok && path.Found? && Healthy(fs))
      && (path.Found? ==> fs.Tree() == TreeOf(trace[|calls|]) && fs.Ready())
      && (path.Unreadable? && ok ==> NoNodes(fs.Tree()))
    ensures device.faults == old(device.faults) && |device.sectors| > DATA_LBA + 128 ==> |trace| > 0
  {
    hide DiskOk, TableOk, Namespace, ExtentsOk, Mirrored, Magic, Fields, Performed, Nodes;
    trace, path := [], NoMemory;
    fs := new NovaFs(device);
    ok := fs.Format();
    if !ok {
      return;
    }
    SuperblockRecognised(|device.sectors|);
    trace := [VolumeOf(fs)];
    var done := 0;
    while done < |calls|
      invariant 0 <= done <= |calls| && |trace| == done + 1 && trace[done] == VolumeOf(fs) && Healthy(fs)
      invariant fs.device == device && fresh(fs) && fs.who == Identity(0, true)
      invariant device.faults == old(device.faults) && |device.sectors| == old(|device.sectors|)
      invariant forall i: nat :: i + 1 < |trace| ==> Followed(calls, trace, i)
      invariant NoNodes(TreeOf(trace[0]))
    {
      ok := Perform(fs, calls[done]);
      if !ok {
        return;
      }
      ghost var longer := trace + [VolumeOf(fs)];
      forall i: nat | i + 1 < |longer| ensures Followed(calls, longer, i) {
        assert i + 1 < |trace| ==> Followed(calls, trace, i);
      }
      trace := longer;
      done := done + 1;
    }
    ghost var table := fs.entries;
    LooserBound(table, |device.sectors|, LIMIT);
    fs := new NovaFs(device);
    ok, path := fs.Mount(table);
  }

  /** Call `i` led from one volume of the trace to the next. */
  ghost predicate Followed(calls: seq<Call>, trace: seq<Volume>, i: nat)
    requires i + 1 < |trace| <= |calls| + 1
  {
    Performed(calls[i], Identity(0, true), trace[i], trace[i + 1])
  }

  // ----- a full disk

  /** A file of five bytes at the start of the data area. */
  const SHORT := Entry(true, TYPE_FILE, FILE_MODE, 0, [97], DATA_LBA, 5, 1, 0)

  /** A file of one byte right behind it. */
  const BEHIND := Entry(true, TYPE_FILE, FILE_MODE, 0, [98], DATA_LBA + 1, 1, 1, 0)

  function OneFile(): (table: seq<Entry>)
    ensures |table| == MAX_ENTRIES && table[0] == SHORT && forall i :: 0 < i < MAX_ENTRIES ==> table[i] == EMPTY
  {
    BlankTable()[0 := SHORT]
  }

  function TwoFiles(): (table: seq<Entry>)
    ensures |table| == MAX_ENTRIES && table[0] == SHORT && table[1] == BEHIND
    ensures forall i :: 1 < i < MAX_ENTRIES ==> table[i] == EMPTY
  {
    OneFile()[1 := BEHIND]
  }

  lemma {:induction false} NextBehindOne(table: seq<Entry>)
    requires |table| > 0 && table[0] == SHORT && forall i :: 0 < i < |table| ==> table[i] == EMPTY
    ensures NextLba(table) == DATA_LBA + 1
  {
    if |table| > 1 {
      NextBehindOne(table[..|table| - 1]);
    } else {
      assert NextLba(table[..0]) == DATA_LBA;
    }
  }

  lemma LetterIsValid(c: byte)
    requires c == 97 || c == 98
    ensures FsNames.Valid([c]) && Parent([c]).None?
  {
  }

  /** Volumes that hold these files exist. */
  lemma ExampleVolumes(count: nat)
    requires DATA_LBA + 128 < count <= LIMIT
    ensures TableOk(OneFile()) && Namespace(OneFile()) && ExtentsOk(OneFile(), count)
    ensures TableOk(TwoFiles()) && Namespace(TwoFiles()) && ExtentsOk(TwoFiles(), count)
    ensures DiskOk(seq(count, _ => ZeroSector()))
  {
    LetterIsValid(97);
    LetterIsValid(98);
  }

  /**
   fs_write of 300 sectors to the short file on a disk with 200 data sectors:
   it fails, and without faults the file's entry points past the end of the disk,
   its five bytes lost.  The volume stays usable.
   */
  method FullDisk(fs: NovaFs) returns (ok: bool)
    requires fs.Ready() && fs.mounted && fs.who.privileged && fs.entries == OneFile()
    requires |fs.device.sectors| == DATA_LBA + 200
    modifies fs`entries, fs.device
    ensures !ok
    ensures fs.device.faults == old(fs.device.faults) ==>
      && !fs.Ready() && fs.Usable() && fs.device.sectors == old(fs.device.sectors)
      && fs.entries == OneFile()[0 := SHORT.(start := DATA_LBA + 1, capacity := 300)]
  {
    hide DiskOk, TableOk, Namespace, ExtentsOk, Stored, Resolve, Find, NextLba, Nodes, Mirrored, OthersKept;
    NextBehindOne(OneFile());
    ShortOpens(OneFile(), fs.device.sectors, fs.who);
    assert OneFile()[0 := SHORT] == OneFile();
    var data: seq<byte> := seq(300 * SECTOR, _ => 1);
    assert Required(|data|) == 300;
    ok := fs.WriteFile([97], data);
  }

  lemma ShortOpens(table: seq<Entry>, sectors: Sectors, who: Identity)
    requires |table| > 0 && table[0] == SHORT && Namespace(table)
    ensures Open(table, sectors, who, [97]) == Some(Opened(0, SHORT))
  {
    LetterIsValid(97);
    UniqueSlot(table, [97], 0);
  }

  /**
   fs_write_at of no bytes at offset 2^64 - 1 to the short file: it fails, and
   without faults the file behind it has lost its byte.
   */
  method Spill(fs: NovaFs) returns (ok: bool)
    requires fs.Ready() && fs.mounted && fs.who.privileged && fs.entries == TwoFiles()
    requires HasByte(fs.device.sectors, BEHIND.start, 0) && FileByte(fs.device.sectors, BEHIND.start, 0) == 65
    modifies fs`entries, fs.device
    ensures !ok && fs.Ready()
    ensures fs.device.faults == old(fs.device.faults) ==> fs.Tree()[1] != old(fs.Tree()[1])
  {
    hide DiskOk, TableOk, Namespace, ExtentsOk, Stored, Resolve, Find, NextLba, Mirrored, FileByte, HasByte, RoomAt, Open;
    ShortOpens(TwoFiles(), fs.device.sectors, fs.who);
    assert TwoFiles()[0 := SHORT] == TwoFiles();
    ghost var disk := fs.device.sectors;
    assert !SpillAgrees(disk, SHORT, BEHIND, WORD - 1, []);
    assert !Harmless(TwoFiles(), disk, 0, WORD - 1, []);
    ok := fs.WriteFileAt([97], WORD - 1, []);
    if fs.device.faults == old(fs.device.faults) {
      assert !OthersKept(TwoFiles(), disk, fs.entries, fs.device.sectors, 0);
      assert forall j: nat :: j < MAX_ENTRIES && j != 0 ==> fs.entries[j] == TwoFiles()[j];
    }
  }
}
