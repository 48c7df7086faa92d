/** Directory entries of NovaFS and their 128-byte form on disk (kernel/filesystem.c). */
module FsEntries {
  import opened VmTypes
  import opened Bytes
  import opened FsNames

  const SECTOR := 512
  const ENTRY_SIZE := 128
  const PER_SECTOR := 4
  const MAX_ENTRIES := 1024

  const SUPER_LBA := 4096
  const DIRECTORY_LBA := 4097
  const DIRECTORY_SECTORS := 256
  const DATA_LBA := 4608

  const TYPE_FILE := 1
  const TYPE_DIRECTORY := 2
  const TYPE_SYMLINK := 3

  const UINT32 := 0x1_0000_0000

  datatype Entry = Entry(
    used: bool, kind: nat, flags: nat, owner: nat, name: Name,
    start: nat, size: nat, capacity: nat, modified: nat)

  /** A cleared slot. */
  const EMPTY := Entry(false, 0, 0, 0, [], 0, 0, 0, 0)

  /** The fields fit their places in the record. */
  ghost predicate Fits(e: Entry) {
    && e.kind < 256 && e.flags < 0x1_0000 && e.owner < UINT32
    && |e.name| <= NAME_MAX && 0 !in e.name
    && e.start < UINT32 && e.size < WORD && e.capacity < UINT32 && e.modified < UINT32
  }

  function Encode(e: Entry): (bytes: seq<byte>)
    requires |e.name| <= NAME_MAX
    ensures |bytes| == ENTRY_SIZE
  {
    ToLittle(if e.used then 1 else 0, 1) + ToLittle(e.kind, 1) + ToLittle(e.flags, 2) + ToLittle(e.owner, 4)
    + Padded(e.name, NAME_MAX + 1)
    + ToLittle(e.start, 4) + ToLittle(e.size, 8) + ToLittle(e.capacity, 4) + ToLittle(e.modified, 4) + ToLittle(0, 4)
  }

  function Decode(bytes: seq<byte>): Entry
    requires |bytes| == ENTRY_SIZE
  {
    Entry(FromLittle(bytes[..1]) != 0, FromLittle(bytes[1..2]), FromLittle(bytes[2..4]), FromLittle(bytes[4..8]),
          CString(bytes[8..104]),
          FromLittle(bytes[104..108]), FromLittle(bytes[108..116]), FromLittle(bytes[116..120]),
          FromLittle(bytes[120..124]))
  }

  /** An entry survives the trip through its on-disk form. */
  lemma EntryRoundTrip(e: Entry)
    requires Fits(e)
    ensures Decode(Encode(e)) == e
  {
    hide CString, Padded, FromLittle, ToLittle;
    WidthRanges();
    FieldsOfEncode(e);
    LittleRoundTrip(if e.used then 1 else 0, 1);
    LittleRoundTrip(e.kind, 1);
    LittleRoundTrip(e.flags, 2);
    LittleRoundTrip(e.owner, 4);
    LittleRoundTrip(e.start, 4);
    LittleRoundTrip(e.size, 8);
    LittleRoundTrip(e.capacity, 4);
    LittleRoundTrip(e.modified, 4);
    PaddedRoundTrip(e.name, NAME_MAX + 1);
  }

  lemma FieldsOfEncode(e: Entry)
    requires |e.name| <= NAME_MAX
    ensures var b := Encode(e);
      && b[..1] == ToLittle(if e.used then 1 else 0, 1) && b[1..2] == ToLittle(e.kind, 1)
      && b[2..4] == ToLittle(e.flags, 2) && b[4..8] == ToLittle(e.owner, 4)
      && b[8..104] == Padded(e.name, NAME_MAX + 1)
      && b[104..108] == ToLittle(e.start, 4) && b[108..116] == ToLittle(e.size, 8)
      && b[116..120] == ToLittle(e.capacity, 4) && b[120..124] == ToLittle(e.modified, 4)
  {
    hide Padded, ToLittle;
  }

  // ----- permissions

  predicate Bit(mode: nat, bit: nat)
    requires bit > 0
  {
    mode / bit % 2 == 1
  }

  /** Permission bits, with the default for entries that carry none. */
  function Mode(e: Entry): (mode: nat)
    ensures 0 < mode < 512
  {
    if e.flags % 512 != 0 then e.flags % 512
    else if e.kind == TYPE_DIRECTORY || e.kind == TYPE_SYMLINK then 0x1FF else 0x1B6
  }

  /** Who is calling. */
  datatype Identity = Identity(uid: nat, privileged: bool)

  predicate MayRead(who: Identity, e: Entry) {
    who.privileged || if who.uid == e.owner then Bit(Mode(e), 256) else Bit(Mode(e), 4)
  }

  predicate MayWrite(who: Identity, e: Entry) {
    who.privileged || if who.uid == e.owner then Bit(Mode(e), 128) else Bit(Mode(e), 2)
  }
}
