/**
 The sparse four-level page table of an address space: `initialize_root`,
 `allocate_table`, `next_table` and `walk_page_entry` of kernel/vm.c.
 Tables are 512-entry pages named by their physical address.
 */
module PageTables {
  import opened VmTypes

  /** One page-table word, split into the bits the kernel uses. */
  datatype Entry = Entry(present: bool, write: bool, user: bool, huge: bool, nx: bool, address: nat)

  const ZERO := Entry(false, false, false, false, false, 0)
  const HUGE_PAGE: nat := 0x20_0000

  type Tables = map<nat, seq<Entry>>

  /** Where a table hangs: its level (4 is the root) and the address bits above it. */
  datatype Place = Place(level: nat, prefix: nat)

  /** A page of zero words. */
  function EmptyTable(): (table: seq<Entry>)
    ensures |table| == 512 && forall i: nat :: i < 512 ==> table[i] == ZERO
  {
    seq(512, _ => ZERO)
  }

  /** The nine address bits that select an entry in a table of the given level. */
  function Index(address: nat, level: nat): (i: nat)
    requires 1 <= level <= 4
    ensures i < 512
  {
    if level == 1 then address / 0x1000 % 512
    else if level == 2 then address / 0x20_0000 % 512
    else if level == 3 then address / 0x4000_0000 % 512
    else address / 0x80_0000_0000 % 512
  }

  function Prefix(address: nat, level: nat): nat
    requires 1 <= level <= 4
  {
    if level == 1 then address / 0x20_0000
    else if level == 2 then address / 0x4000_0000
    else if level == 3 then address / 0x80_0000_0000
    else 0
  }

  lemma PrefixStep(address: nat, level: nat)
    requires 2 <= level <= 4 && address < 0x1_0000_0000_0000
    ensures Prefix(address, level - 1) == Prefix(address, level) * 512 + Index(address, level)
  {
  }

  lemma SamePage(a: nat, b: nat)
    requires Prefix(a, 1) == Prefix(b, 1) && Index(a, 1) == Index(b, 1)
    ensures AlignDown(a) == AlignDown(b)
  {
    assert a / 0x1000 == Prefix(a, 1) * 512 + Index(a, 1);
    assert b / 0x1000 == Prefix(b, 1) * 512 + Index(b, 1);
  }

  /** next_table without creation: the table an entry links to, if any. */
  function Child(tables: Tables, table: nat, i: nat): Option<nat> {
    if table in tables && i < |tables[table]| && tables[table][i].present && !tables[table][i].huge
    then Some(tables[table][i].address) else None
  }

  /** The table of the given level on the walk to `address`. */
  function TableAt(tables: Tables, root: nat, address: nat, level: nat): Option<nat>
    requires 1 <= level <= 4
    decreases 4 - level
  {
    if level == 4 then Some(root)
    else match TableAt(tables, root, address, level + 1)
      case None => None
      case Some(table) => Child(tables, table, Index(address, level + 1))
  }

  /** The 4 KiB leaf entry for `address`; ZERO when the walk stops early. */
  function Leaf(tables: Tables, root: nat, address: nat): Entry {
    match TableAt(tables, root, address, 1)
    case None => ZERO
    case Some(table) => At(tables, table, Index(address, 1))
  }

  /** The directory entry for `address`: a 2 MiB leaf of the identity map when huge. */
  function DirectoryEntry(tables: Tables, root: nat, address: nat): Entry {
    match TableAt(tables, root, address, 2)
    case None => ZERO
    case Some(table) => At(tables, table, Index(address, 2))
  }

  function At(tables: Tables, table: nat, i: nat): Entry {
    if table in tables && i < |tables[table]| then tables[table][i] else ZERO
  }

  /** What user mode sees at `address`: the leaf the hardware walk ends in, if user-accessible. */
  function UserTranslation(tables: Tables, root: nat, address: nat): Entry {
    var directory := DirectoryEntry(tables, root, address);
    var leaf := if directory.present && directory.huge then directory else Leaf(tables, root, address);
    if leaf.present && leaf.user then leaf else ZERO
  }

  /** A leaf under an entry that links to its table: it grants no more than the entry does. */
  function Under(leaf: Entry, link: Entry): Entry {
    leaf.(write := leaf.write && link.write, user := leaf.user && link.user, nx := leaf.nx || link.nx)
  }

  /** The processor's walk from a table of the given level, which combines the permissions on its way. */
  function HardwareWalk(tables: Tables, table: nat, address: nat, level: nat): Entry
    requires 1 <= level <= 4
    decreases level
  {
    var entry := At(tables, table, Index(address, level));
    if !entry.present then ZERO
    else if level == 1 || entry.huge then entry
    else Under(HardwareWalk(tables, entry.address, address, level - 1), entry)
  }

  /** What the processor lets user mode do at `address`. */
  function HardwareTranslation(tables: Tables, root: nat, address: nat): Entry {
    var leaf := HardwareWalk(tables, root, address, 4);
    if leaf.present && leaf.user then leaf else ZERO
  }

  ghost predicate LinkOk(tables: Tables, place: map<nat, Place>, table: nat, i: nat)
    requires table in tables && i < |tables[table]| && table in place
  {
    var entry := tables[table][i];
    && (entry.present && !entry.huge && place[table].level > 1 ==>
          && entry == LinkTo(entry.address) && entry.address in tables && entry.address in place
          && place[entry.address] == Place(place[table].level - 1, place[table].prefix * 512 + i))
    && (entry.huge ==> place[table].level == 2 && !entry.user && entry.present)
  }

  /** The tables form a tree: each table has one place, and links respect places. */
  ghost predicate TreeOk(tables: Tables, place: map<nat, Place>, root: nat) {
    && tables.Keys == place.Keys
    && root in tables && place[root] == Place(4, 0)
    && (forall t :: t in tables ==> |tables[t]| == 512 && 1 <= place[t].level <= 4)
    && (forall t, i: nat {:trigger LinkOk(tables, place, t, i)} :: t in tables && i < 512 ==>
          LinkOk(tables, place, t, i))
  }

  /** The table a walk visits sits where the address bits say. */
  lemma {:induction false} TableAtPlace(tables: Tables, place: map<nat, Place>, root: nat, a: nat, level: nat)
    requires TreeOk(tables, place, root) && 1 <= level <= 4 && a < 0x1_0000_0000_0000
    requires TableAt(tables, root, a, level).Some?
    ensures var t := TableAt(tables, root, a, level).value;
      t in tables && place[t] == Place(level, Prefix(a, level))
    decreases 4 - level
  {
    if level < 4 {
      TableAtPlace(tables, place, root, a, level + 1);
      var parent := TableAt(tables, root, a, level + 1).value;
      assert LinkOk(tables, place, parent, Index(a, level + 1));
      PrefixStep(a, level + 1);
    }
  }

  /** One level of the walk, in a tree whose links all grant everything. */
  lemma WalkLevel(tables: Tables, place: map<nat, Place>, root: nat, address: nat, level: nat)
    requires TreeOk(tables, place, root) && address < 0x1_0000_0000_0000
    requires 2 <= level <= 4 && TableAt(tables, root, address, level).Some?
    ensures var table := TableAt(tables, root, address, level).value;
      var entry, next := At(tables, table, Index(address, level)), TableAt(tables, root, address, level - 1);
      && (!entry.present ==> next.None? && HardwareWalk(tables, table, address, level) == ZERO)
      && (entry.huge ==> level == 2 && entry.present && !entry.user && HardwareWalk(tables, table, address, level) == entry)
      && (entry.present && !entry.huge ==>
            next.Some? && HardwareWalk(tables, table, address, level) == HardwareWalk(tables, next.value, address, level - 1))
  {
    TableAtPlace(tables, place, root, address, level);
    var table := TableAt(tables, root, address, level).value;
    assert LinkOk(tables, place, table, Index(address, level));
  }

  /** The permissions of upper-level entries never matter: the leaf alone decides what user mode may do. */
  lemma LeafDecides(tables: Tables, place: map<nat, Place>, root: nat, address: nat)
    requires TreeOk(tables, place, root) && address < 0x1_0000_0000_0000
    ensures HardwareTranslation(tables, root, address) == UserTranslation(tables, root, address)
  {
    hide TreeOk, Index, HardwareWalk;
    WalkLevel(tables, place, root, address, 4);
    if TableAt(tables, root, address, 3).Some? {
      WalkLevel(tables, place, root, address, 3);
      if TableAt(tables, root, address, 2).Some? {
        WalkLevel(tables, place, root, address, 2);
        LastLevel(tables, root, address);
      }
    }
  }

  lemma LastLevel(tables: Tables, root: nat, address: nat)
    ensures TableAt(tables, root, address, 1).Some? ==>
      var leaf := HardwareWalk(tables, TableAt(tables, root, address, 1).value, address, 1);
      leaf.present <==> Leaf(tables, root, address).present
    ensures TableAt(tables, root, address, 1).Some? && Leaf(tables, root, address).present ==>
      HardwareWalk(tables, TableAt(tables, root, address, 1).value, address, 1) == Leaf(tables, root, address)
  {
  }

  /** Two trees whose tables agree on all links into levels at or above `level` walk alike. */
  lemma {:induction false} WalkFrame(before: Tables, after: Tables, place: map<nat, Place>, root: nat, a: nat, level: nat)
    requires TreeOk(before, place, root) && 1 <= level <= 4 && a < 0x1_0000_0000_0000
    requires forall t, i: nat {:trigger Child(after, t, i)} ::
      t in before && i < 512 && place[t].level > level ==> Child(after, t, i) == Child(before, t, i)
    ensures TableAt(after, root, a, level) == TableAt(before, root, a, level)
    decreases 4 - level
  {
    if level < 4 {
      WalkFrame(before, after, place, root, a, level + 1);
      if TableAt(before, root, a, level + 1).Some? {
        TableAtPlace(before, place, root, a, level + 1);
      }
    }
  }

  function SetEntry(tables: Tables, table: nat, i: nat, entry: Entry): Tables
    requires table in tables && i < |tables[table]|
  {
    tables[table := tables[table][i := entry]]
  }

  /** Writing a leaf entry changes the leaf of exactly one page. */
  lemma SetLeaf(tables: Tables, place: map<nat, Place>, root: nat, a: nat, entry: Entry)
    requires TreeOk(tables, place, root) && a < 0x1_0000_0000_0000
    requires TableAt(tables, root, a, 1).Some? && !entry.huge
    ensures var table := TableAt(tables, root, a, 1).value;
      && table in tables && |tables[table]| == 512
      && var after := SetEntry(tables, table, Index(a, 1), entry);
      && TreeOk(after, place, root)
      && (forall b: nat :: b < 0x1_0000_0000_0000 ==>
            && TableAt(after, root, b, 1) == TableAt(tables, root, b, 1)
            && DirectoryEntry(after, root, b) == DirectoryEntry(tables, root, b)
            && Leaf(after, root, b) == if AlignDown(b) == AlignDown(a) then entry else Leaf(tables, root, b))
  {
    TableAtPlace(tables, place, root, a, 1);
    var table := TableAt(tables, root, a, 1).value;
    var after := SetEntry(tables, table, Index(a, 1), entry);
    forall t, i: nat | t in after && i < 512 ensures LinkOk(after, place, t, i) {
      assert LinkOk(tables, place, t, i);
    }
    forall b: nat | b < 0x1_0000_0000_0000
      ensures TableAt(after, root, b, 1) == TableAt(tables, root, b, 1)
      ensures DirectoryEntry(after, root, b) == DirectoryEntry(tables, root, b)
      ensures Leaf(after, root, b) == if AlignDown(b) == AlignDown(a) then entry else Leaf(tables, root, b)
    {
      WalkFrame(tables, after, place, root, b, 1);
      WalkFrame(tables, after, place, root, b, 2);
      if TableAt(tables, root, b, 2).Some? {
        TableAtPlace(tables, place, root, b, 2);
      }
      LeafAfterSet(tables, place, root, a, b, entry);
    }
  }

  lemma LeafAfterSet(tables: Tables, place: map<nat, Place>, root: nat, a: nat, b: nat, entry: Entry)
    requires TreeOk(tables, place, root) && a < 0x1_0000_0000_0000 && b < 0x1_0000_0000_0000
    requires TableAt(tables, root, a, 1).Some?
    ensures var table := TableAt(tables, root, a, 1).value;
      && table in tables && |tables[table]| == 512
      && var after := SetEntry(tables, table, Index(a, 1), entry);
      TableAt(after, root, b, 1) == TableAt(tables, root, b, 1) ==>
        Leaf(after, root, b) == if AlignDown(b) == AlignDown(a) then entry else Leaf(tables, root, b)
  {
    TableAtPlace(tables, place, root, a, 1);
    if AlignDown(a) == AlignDown(b) {
      SameWalk(tables, root, a, b);
    } else if TableAt(tables, root, b, 1).Some? {
      TableAtPlace(tables, place, root, b, 1);
      if Prefix(a, 1) == Prefix(b, 1) && Index(a, 1) == Index(b, 1) {
        SamePage(a, b);
      }
    }
  }

  /** Addresses in one page walk through the same entries. */
  lemma SameWalk(tables: Tables, root: nat, a: nat, b: nat)
    requires AlignDown(a) == AlignDown(b)
    ensures forall level :: 1 <= level <= 4 ==> Index(a, level) == Index(b, level)
    ensures TableAt(tables, root, a, 1) == TableAt(tables, root, b, 1)
  {
    assert a / 0x1000 == b / 0x1000;
    assert a / 0x20_0000 == a / 0x1000 / 512 && b / 0x20_0000 == b / 0x1000 / 512;
    assert a / 0x4000_0000 == a / 0x20_0000 / 512 && b / 0x4000_0000 == b / 0x20_0000 / 512;
    assert a / 0x80_0000_0000 == a / 0x4000_0000 / 512 && b / 0x80_0000_0000 == b / 0x4000_0000 / 512;
    assert TableAt(tables, root, a, 4) == TableAt(tables, root, b, 4);
    assert TableAt(tables, root, a, 3) == TableAt(tables, root, b, 3);
    assert TableAt(tables, root, a, 2) == TableAt(tables, root, b, 2);
  }

  /** The entry next_table writes when it links a new table. */
  function LinkTo(table: nat): Entry {
    Entry(true, true, true, false, false, table)
  }

  function LinkTable(tables: Tables, table: nat, i: nat, child: nat): Tables
    requires table in tables && i < |tables[table]| && child !in tables
  {
    SetEntry(tables[child := EmptyTable()], table, i, LinkTo(child))
  }

  ghost predicate MayLink(tables: Tables, place: map<nat, Place>, root: nat, table: nat, i: nat, child: nat) {
    && TreeOk(tables, place, root) && table in tables && i < 512 && place[table].level >= 2
    && !tables[table][i].present && child !in tables
  }

  function PlaceBelow(place: map<nat, Place>, table: nat, i: nat, child: nat): map<nat, Place>
    requires table in place && place[table].level >= 1
  {
    place[child := Place(place[table].level - 1, place[table].prefix * 512 + i)]
  }

  lemma LinkKeepsTree(tables: Tables, place: map<nat, Place>, root: nat, table: nat, i: nat, child: nat)
    requires MayLink(tables, place, root, table, i, child)
    ensures TreeOk(LinkTable(tables, table, i, child), PlaceBelow(place, table, i, child), root)
  {
    var after, place' := LinkTable(tables, table, i, child), PlaceBelow(place, table, i, child);
    assert LinkOk(tables, place, table, i);
    forall t, j: nat | t in after && j < 512 ensures LinkOk(after, place', t, j) {
      if t != child {
        assert LinkOk(tables, place, t, j);
      }
    }
  }

  /** Linking only extends walks: tables found before are still found. */
  lemma {:induction false} LinkExtends(tables: Tables, place: map<nat, Place>, root: nat, table: nat, i: nat, child: nat, b: nat, level: nat)
    requires MayLink(tables, place, root, table, i, child) && 1 <= level <= 4 && b < 0x1_0000_0000_0000
    ensures var before := TableAt(tables, root, b, level);
      var after := TableAt(LinkTable(tables, table, i, child), root, b, level);
      && (before.Some? ==> after == before)
      && (before.None? && after.Some? ==> after.value == child && level == place[table].level - 1)
    decreases 4 - level
  {
    assert table in place && |tables[table]| == 512;
    hide TreeOk, LinkTable;
    if level < 4 {
      assert Child(tables, table, i) == None;
      LinkExtends(tables, place, root, table, i, child, b, level + 1);
      ChildAfterLink(tables, table, i, child);
      var parent := TableAt(tables, root, b, level + 1);
      if parent.Some? {
        TableAtPlace(tables, place, root, b, level + 1);
      }
    }
  }

  lemma ChildAfterLink(tables: Tables, table: nat, i: nat, child: nat)
    requires table in tables && i < |tables[table]| && child !in tables
    ensures forall t, j: nat ::
      Child(LinkTable(tables, table, i, child), t, j) ==
      (if t == table && j == i then Some(child) else if t == child then None else Child(tables, t, j))
  {
  }

  /** Linking an empty table changes no leaf and no translation of any address. */
  lemma LinkKeepsLeaves(tables: Tables, place: map<nat, Place>, root: nat, table: nat, i: nat, child: nat, b: nat)
    requires MayLink(tables, place, root, table, i, child) && b < 0x1_0000_0000_0000
    ensures var after := LinkTable(tables, table, i, child);
      && Leaf(after, root, b) == Leaf(tables, root, b)
      && UserTranslation(after, root, b) == UserTranslation(tables, root, b)
      && (place[table] != Place(2, 0) && b < USER_BASE ==>
            DirectoryEntry(after, root, b) == DirectoryEntry(tables, root, b))
  {
    var after := LinkTable(tables, table, i, child);
    LinkExtends(tables, place, root, table, i, child, b, 1);
    LinkExtends(tables, place, root, table, i, child, b, 2);
    if TableAt(tables, root, b, 1).Some? {
      TableAtPlace(tables, place, root, b, 1);
    }
    assert At(after, child, Index(b, 1)) == ZERO && At(after, child, Index(b, 2)) == ZERO;
    if TableAt(tables, root, b, 2).Some? {
      TableAtPlace(tables, place, root, b, 2);
      assert LinkOk(tables, place, TableAt(tables, root, b, 2).value, Index(b, 2));
      assert LinkOk(tables, place, table, i);
    }
  }

  ghost predicate MayClear(tables: Tables, place: map<nat, Place>, root: nat, table: nat, i: nat) {
    && TreeOk(tables, place, root) && table in tables && i < 512 && tables[table][i].huge
    && place[table].level == 2
  }

  /** Dropping a supervisor identity leaf changes no leaf and no user translation. */
  lemma ClearHuge(tables: Tables, place: map<nat, Place>, root: nat, table: nat, i: nat, b: nat)
    requires MayClear(tables, place, root, table, i) && b < 0x1_0000_0000_0000
    ensures forall level: nat :: 1 <= level <= 4 ==>
      TableAt(SetEntry(tables, table, i, ZERO), root, b, level) == TableAt(tables, root, b, level)
    ensures var after := SetEntry(tables, table, i, ZERO);
      && TreeOk(after, place, root)
      && Leaf(after, root, b) == Leaf(tables, root, b)
      && UserTranslation(after, root, b) == UserTranslation(tables, root, b)
      && (place[table].prefix != 0 && b < USER_BASE ==>
            DirectoryEntry(after, root, b) == DirectoryEntry(tables, root, b))
  {
    var after := SetEntry(tables, table, i, ZERO);
    forall t, j: nat | t in after && j < 512 ensures LinkOk(after, place, t, j) {
      assert LinkOk(tables, place, t, j);
    }
    forall level: nat | 1 <= level <= 4
      ensures TableAt(after, root, b, level) == TableAt(tables, root, b, level)
    {
      WalkFrame(tables, after, place, root, b, level);
    }
    if TableAt(tables, root, b, 1).Some? {
      TableAtPlace(tables, place, root, b, 1);
    }
    if TableAt(tables, root, b, 2).Some? {
      TableAtPlace(tables, place, root, b, 2);
      assert LinkOk(tables, place, TableAt(tables, root, b, 2).value, Index(b, 2));
    }
  }

  /** A directory of the boot identity map: 2 MiB supervisor leaves. */
  function IdentityDirectory(number: nat): (directory: seq<Entry>)
    ensures |directory| == 512
    ensures forall j: nat :: j < 512 ==>
      directory[j] == Entry(true, true, false, true, false, (number * 512 + j) * HUGE_PAGE)
  {
    seq(512, (j: nat) => Entry(true, true, false, true, false, (number * 512 + j) * HUGE_PAGE))
  }

  /** The root the boot loader leaves at 0x70000: one supervisor link to its table of directories. */
  function BootRoot(): (root: seq<Entry>)
    ensures |root| == 512
  {
    EmptyTable()[0 := Entry(true, true, false, false, false, 0x71000)]
  }

  /** initialize_root over the six pages of a space's root allocation. */
  function RootTables(pages: seq<nat>): Tables
    requires |pages| == 6
  {
    map[
      pages[0] := BootRoot()[0 := LinkTo(pages[1])],
      pages[1] := EmptyTable()[0 := LinkTo(pages[2])][1 := LinkTo(pages[3])][2 := LinkTo(pages[4])][3 := LinkTo(pages[5])],
      pages[2] := IdentityDirectory(0),
      pages[3] := IdentityDirectory(1),
      pages[4] := IdentityDirectory(2),
      pages[5] := IdentityDirectory(3)]
  }

  function RootPlaces(pages: seq<nat>): map<nat, Place>
    requires |pages| == 6
  {
    map[pages[0] := Place(4, 0), pages[1] := Place(3, 0), pages[2] := Place(2, 0),
        pages[3] := Place(2, 1), pages[4] := Place(2, 2), pages[5] := Place(2, 3)]
  }

  ghost predicate Distinct(pages: seq<nat>) {
    forall i: nat, j: nat :: i < j < |pages| ==> pages[i] != pages[j]
  }

  /** A new root, copied from the boot loader's, is a tree, maps no user page, and identity-maps the first gigabyte. */
  lemma RootIsEmpty(pages: seq<nat>)
    requires |pages| == 6 && Distinct(pages)
    ensures TreeOk(RootTables(pages), RootPlaces(pages), pages[0])
    ensures forall b: nat :: Leaf(RootTables(pages), pages[0], b) == ZERO
    ensures forall b: nat :: UserTranslation(RootTables(pages), pages[0], b) == ZERO
    ensures LowIdentity(RootTables(pages), pages[0])
  {
    var tables, root := RootTables(pages), pages[0];
    RootIsTree(pages);
    forall b: nat
      ensures Leaf(tables, root, b) == ZERO && UserTranslation(tables, root, b) == ZERO
    {
      RootWalk(pages, b);
    }
    forall b: nat | b < USER_BASE
      ensures DirectoryEntry(tables, root, b) == Entry(true, true, false, true, false, b / HUGE_PAGE * HUGE_PAGE)
    {
      RootWalk(pages, b);
      assert Index(b, 4) == 0 && Index(b, 3) == 0 && Index(b, 2) == b / HUGE_PAGE;
    }
  }

  lemma RootKeys(pages: seq<nat>)
    requires |pages| == 6
    ensures RootTables(pages).Keys == set page | page in pages
  {
  }

  lemma RootIsTree(pages: seq<nat>)
    requires |pages| == 6 && Distinct(pages)
    ensures TreeOk(RootTables(pages), RootPlaces(pages), pages[0])
  {
    var tables, place := RootTables(pages), RootPlaces(pages);
    forall t, i: nat | t in tables && i < 512 ensures LinkOk(tables, place, t, i) {
    }
  }

  lemma RootWalk(pages: seq<nat>, b: nat)
    requires |pages| == 6 && Distinct(pages)
    ensures TableAt(RootTables(pages), pages[0], b, 3) == if Index(b, 4) == 0 then Some(pages[1]) else None
    ensures TableAt(RootTables(pages), pages[0], b, 2) ==
      if Index(b, 4) == 0 && Index(b, 3) < 4 then Some(pages[2 + Index(b, 3)]) else None
    ensures TableAt(RootTables(pages), pages[0], b, 1) == None
  {
    var tables := RootTables(pages);
    assert TableAt(tables, pages[0], b, 4) == Some(pages[0]);
    assert TableAt(tables, pages[0], b, 3) == Child(tables, pages[0], Index(b, 4));
    if Index(b, 4) == 0 {
      assert TableAt(tables, pages[0], b, 2) == Child(tables, pages[1], Index(b, 3));
    }
  }

  lemma WalkStops(tables: Tables, root: nat, address: nat, level: nat)
    requires 2 <= level <= 3 && TableAt(tables, root, address, level).None?
    ensures TableAt(tables, root, address, 1).None?
  {
    assert TableAt(tables, root, address, 2).None?;
  }

  /** Both page tables give every address the same leaf and the same user translation. */
  ghost predicate SameLeaves(before: Tables, after: Tables, root: nat) {
    && (forall b: nat :: b < 0x1_0000_0000_0000 ==> Leaf(after, root, b) == Leaf(before, root, b))
    && (forall b: nat :: b < 0x1_0000_0000_0000 ==>
          UserTranslation(after, root, b) == UserTranslation(before, root, b))
  }

  /** Every table a walk found before, it still finds. */
  ghost predicate Extends(before: Tables, after: Tables, root: nat) {
    forall a: nat, level: nat :: a < 0x1_0000_0000_0000 && 1 <= level <= 4 ==>
      TableAt(before, root, a, level).Some? ==>
      TableAt(after, root, a, level) == TableAt(before, root, a, level)
  }

  lemma SameLeavesRefl(tables: Tables, root: nat)
    ensures SameLeaves(tables, tables, root)
  {
  }

  lemma SameLeavesTrans(a: Tables, b: Tables, c: Tables, root: nat)
    requires SameLeaves(a, b, root) && SameLeaves(b, c, root)
    ensures SameLeaves(a, c, root)
  {
  }

  lemma Extended(before: Tables, after: Tables, root: nat, a: nat, level: nat)
    requires Extends(before, after, root) && a < 0x1_0000_0000_0000 && 1 <= level <= 4
    requires TableAt(before, root, a, level).Some?
    ensures TableAt(after, root, a, level) == TableAt(before, root, a, level)
  {
  }

  /** The first gigabyte is identity-mapped by 2 MiB supervisor leaves. */
  ghost predicate LowIdentity(tables: Tables, root: nat) {
    forall b: nat :: b < USER_BASE ==>
      DirectoryEntry(tables, root, b) == Entry(true, true, false, true, false, b / HUGE_PAGE * HUGE_PAGE)
  }

  lemma LinkEverywhere(tables: Tables, place: map<nat, Place>, root: nat, table: nat, i: nat, child: nat)
    requires MayLink(tables, place, root, table, i, child) && place[table] != Place(2, 0)
    ensures var after := LinkTable(tables, table, i, child);
      && TreeOk(after, PlaceBelow(place, table, i, child), root)
      && SameLeaves(tables, after, root) && Extends(tables, after, root)
      && (LowIdentity(tables, root) ==> LowIdentity(after, root))
  {
    var after := LinkTable(tables, table, i, child);
    LinkKeepsTree(tables, place, root, table, i, child);
    forall b: nat | b < 0x1_0000_0000_0000
      ensures Leaf(after, root, b) == Leaf(tables, root, b)
      ensures UserTranslation(after, root, b) == UserTranslation(tables, root, b)
      ensures b < USER_BASE ==> DirectoryEntry(after, root, b) == DirectoryEntry(tables, root, b)
    {
      LinkKeepsLeaves(tables, place, root, table, i, child, b);
    }
    forall a: nat, level: nat | a < 0x1_0000_0000_0000 && 1 <= level <= 4 && TableAt(tables, root, a, level).Some?
      ensures TableAt(after, root, a, level) == TableAt(tables, root, a, level)
    {
      LinkExtends(tables, place, root, table, i, child, a, level);
    }
  }

  lemma ClearHugeEverywhere(tables: Tables, place: map<nat, Place>, root: nat, table: nat, i: nat)
    requires MayClear(tables, place, root, table, i) && place[table].prefix != 0
    ensures var after := SetEntry(tables, table, i, ZERO);
      && TreeOk(after, place, root)
      && SameLeaves(tables, after, root) && Extends(tables, after, root)
      && (LowIdentity(tables, root) ==> LowIdentity(after, root))
  {
    var after := SetEntry(tables, table, i, ZERO);
    ClearHuge(tables, place, root, table, i, 0);
    forall b: nat | b < 0x1_0000_0000_0000
      ensures Leaf(after, root, b) == Leaf(tables, root, b)
      ensures UserTranslation(after, root, b) == UserTranslation(tables, root, b)
      ensures b < USER_BASE ==> DirectoryEntry(after, root, b) == DirectoryEntry(tables, root, b)
    {
      ClearHuge(tables, place, root, table, i, b);
    }
    forall a: nat, level: nat | a < 0x1_0000_0000_0000 && 1 <= level <= 4
      ensures TableAt(after, root, a, level) == TableAt(tables, root, a, level)
    {
      ClearHuge(tables, place, root, table, i, a);
    }
  }

  lemma FreshAddress(live: set<nat>) returns (address: nat)
    ensures address !in live
  {
    address := 0;
    var rest := live;
    while address in rest
      invariant rest <= live
      invariant forall a :: a in live && a >= address ==> a in rest
      decreases rest
    {
      rest := rest - {address};
      address := address + 1;
    }
  }

  /** Page-aligned allocations of the kernel heap: an allocation may fail, and never aliases a live one. */
  class PageHeap {
    var live: set<nat>
    ghost var refusals: nat // requests turned down so far

    constructor ()
      ensures live == {} && refusals == 0
    {
      live, refusals := {}, 0;
    }

    method Allocate() returns (page: Option<nat>)
      modifies this
      ensures page.None? ==> live == old(live) && refusals == old(refusals) + 1
      ensures page.Some? ==> page.value !in old(live) && live == old(live) + {page.value}
      ensures page.Some? ==> refusals == old(refusals)
    {
      if * {
        refusals := refusals + 1;
        return None;
      }
      ghost var candidate := FreshAddress(live);
      var address: nat :| address !in live;
      live := live + {address};
      return Some(address);
    }

    /** One allocation of `count` pages: all of them or none. */
    method AllocateRun(count: nat) returns (pages: Option<seq<nat>>)
      modifies this
      ensures pages.None? ==> live == old(live) && refusals == old(refusals) + 1
      ensures pages.Some? ==> refusals == old(refusals)
      ensures pages.Some? ==> |pages.value| == count && Distinct(pages.value)
      ensures pages.Some? ==> (forall page :: page in pages.value ==> page !in old(live))
      ensures pages.Some? ==> live == old(live) + (set page | page in pages.value)
    {
      if * {
        refusals := refusals + 1;
        return None;
      }
      var run: seq<nat> := [];
      while |run| < count
        invariant |run| <= count && Distinct(run) && refusals == old(refusals)
        invariant live == old(live) + (set page | page in run)
        invariant forall page :: page in run ==> page !in old(live)
      {
        ghost var candidate := FreshAddress(live);
        var address: nat :| address !in live;
        live := live + {address};
        run := run + [address];
      }
      return Some(run);
    }

    method Free(page: nat)
      modifies this
      ensures live == old(live) - {page} && refusals == old(refusals)
    {
      live := live - {page};
    }

    method FreeRun(pages: seq<nat>)
      modifies this
      ensures live == old(live) - (set page | page in pages) && refusals == old(refusals)
    {
      live := live - (set page | page in pages);
    }
  }

  /** A directory's tables are its root pages and its later allocations, without overlap. */
  ghost predicate Owned(tables: set<nat>, rootPages: seq<nat>, extraTables: seq<nat>) {
    && tables == (set page | page in rootPages) + (set page | page in extraTables)
    && (forall page :: page in extraTables ==> page !in rootPages)
  }

  /** The paging structures of one VmSpace. */
  class PageDirectory {
    const root: nat
    const rootPages: seq<nat>
    const maxTables: nat
    var tables: Tables
    var extraTables: seq<nat> // allocated_tables[0 .. table_count]
    ghost var place: map<nat, Place>

    ghost predicate Valid()
      reads this
    {
      && |rootPages| == 6 && Distinct(rootPages) && root == rootPages[0]
      && Owned(tables.Keys, rootPages, extraTables)
      && TreeOk(tables, place, root)
      && LowIdentity(tables, root)
    }

    /** Live heap pages that are not tables of this space. */
    ghost function Elsewhere(heap: PageHeap): set<nat>
      reads this, heap
    {
      heap.live - tables.Keys
    }

    /** The heap turned a request down since the count was `before`, or the table list is full. */
    ghost predicate Starved(heap: PageHeap, before: nat)
      reads this, heap
    {
      heap.refusals > before || |extraTables| >= maxTables
    }

    /** vm_space_create's root: six pages taken from the heap, then initialize_root. */
    constructor (pages: seq<nat>, maxTables: nat)
      requires |pages| == 6 && Distinct(pages)
      ensures Valid() && rootPages == pages && this.maxTables == maxTables
      ensures tables.Keys == (set page | page in pages) && extraTables == []
      ensures forall b: nat :: Leaf(tables, root, b) == ZERO && UserTranslation(tables, root, b) == ZERO
    {
      rootPages, root, this.maxTables := pages, pages[0], maxTables;
      tables, place := RootTables(pages), RootPlaces(pages);
      extraTables := [];
      new;
      RootIsEmpty(pages);
    }

    /** next_table with creation: follow the entry, or link a new zeroed table there. */
    method NextTable(heap: PageHeap, table: nat, i: nat) returns (next: Option<nat>)
      requires Valid() && tables.Keys <= heap.live
      requires table in tables && i < 512 && place[table].level >= 2 && place[table] != Place(2, 0)
      modifies this, heap
      ensures Valid() && tables.Keys <= heap.live
      ensures SameLeaves(old(tables), tables, root)
      ensures next == Child(tables, table, i)
      ensures old(place.Keys) <= place.Keys && forall t :: t in old(place) ==> place[t] == old(place[t])
      ensures Extends(old(tables), tables, root)
      ensures Elsewhere(heap) == old(Elsewhere(heap))
      ensures next.None? ==> old(tables[table][i]).huge || Starved(heap, old(heap.refusals))
      ensures heap.refusals >= old(heap.refusals) && |extraTables| <= old(|extraTables|) + 1
    {
      var entry := tables[table][i];
      if entry.present {
        return if entry.huge then None else Some(entry.address);
      }
      if |extraTables| >= maxTables {
        return None;
      }
      var page := heap.Allocate();
      if page.None? {
        return None;
      }
      var child := page.value;
      LinkEverywhere(tables, place, root, table, i, child);
      place := PlaceBelow(place, table, i, child);
      tables := LinkTable(tables, table, i, child);
      extraTables := extraTables + [child];
      return Some(child);
    }

    /** The table part of vm_space_reset_user: free every allocated table, rebuild the root. */
    method Reset(heap: PageHeap)
      requires Valid() && tables.Keys <= heap.live
      modifies this, heap
      ensures Valid() && tables.Keys == (set page | page in rootPages)
      ensures tables.Keys <= heap.live
      ensures Elsewhere(heap) == old(Elsewhere(heap)) && heap.refusals == old(heap.refusals)
      ensures forall b: nat :: Leaf(tables, root, b) == ZERO && UserTranslation(tables, root, b) == ZERO
    {
      hide TreeOk, Leaf, UserTranslation, DirectoryEntry, RootTables, RootPlaces, LinkTo, Distinct;
      var freed := 0;
      while freed < |extraTables|
        invariant freed <= |extraTables| && extraTables == old(extraTables) && tables == old(tables)
        invariant heap.live == old(heap.live) - (set page | page in extraTables[..freed])
        invariant heap.refusals == old(heap.refusals)
      {
        heap.Free(extraTables[freed]);
        assert extraTables[..freed + 1] == extraTables[..freed] + [extraTables[freed]];
        freed := freed + 1;
      }
      assert extraTables[..freed] == extraTables;
      extraTables := [];
      tables, place := RootTables(rootPages), RootPlaces(rootPages);
      RootKeys(rootPages);
      RootIsEmpty(rootPages);
    }

    /** Clearing an inherited 2 MiB identity leaf at or above 1 GiB. */
    method DropIdentityLeaf(table: nat, i: nat)
      requires Valid() && table in tables && i < 512 && tables[table][i].huge
      requires place[table].level == 2 && place[table].prefix != 0
      modifies this
      ensures Valid() && SameLeaves(old(tables), tables, root) && Extends(old(tables), tables, root)
      ensures tables.Keys == old(tables.Keys) && place == old(place) && tables[table][i] == ZERO
      ensures extraTables == old(extraTables)
    {
      ClearHugeEverywhere(tables, place, root, table, i);
      tables := SetEntry(tables, table, i, ZERO);
    }

    /** walk_page_entry without creation: reads only. */
    method FindEntry(address: nat) returns (table: Option<nat>)
      ensures table == if CanonicalUser(address) then TableAt(tables, root, address, 1) else None
    {
      if !CanonicalUser(address) {
        return None;
      }
      var pdpt := Child(tables, root, Index(address, 4));
      if pdpt.None? {
        WalkStops(tables, root, address, 3);
        return None;
      }
      var directory := Child(tables, pdpt.value, Index(address, 3));
      assert TableAt(tables, root, address, 3) == pdpt;
      if directory.None? {
        WalkStops(tables, root, address, 2);
        return None;
      }
      assert TableAt(tables, root, address, 2) == directory;
      return Child(tables, directory.value, Index(address, 2));
    }

    /** The upper half of walk_page_entry with creation: the directory on the walk to a user address. */
    method WalkDirectory(heap: PageHeap, address: nat) returns (directory: Option<nat>)
      requires Valid() && tables.Keys <= heap.live && CanonicalUser(address)
      modifies this, heap
      ensures Valid() && tables.Keys <= heap.live
      ensures SameLeaves(old(tables), tables, root)
      ensures directory == TableAt(tables, root, address, 2)
      ensures Elsewhere(heap) == old(Elsewhere(heap))
      ensures directory.None? ==> Starved(heap, old(heap.refusals))
      ensures heap.refusals >= old(heap.refusals) && |extraTables| <= old(|extraTables|) + 2
    {
      hide SameLeaves, Extends, LowIdentity, Index, Prefix, Owned, Distinct;
      assert LinkOk(tables, place, root, Index(address, 4));
      SameLeavesRefl(tables, root);
      var pdpt := NextTable(heap, root, Index(address, 4));
      assert pdpt == TableAt(tables, root, address, 3);
      if pdpt.None? {
        return None;
      }
      TableAtPlace(tables, place, root, address, 3);
      assert LinkOk(tables, place, pdpt.value, Index(address, 3));
      label second:
      directory := NextTable(heap, pdpt.value, Index(address, 3));
      SameLeavesTrans(old(tables), old@second(tables), tables, root);
      Extended(old@second(tables), tables, root, address, 3);
    }

    /** walk_page_entry: the table holding the leaf entry of `address`, created on demand. */
    method WalkEntry(heap: PageHeap, address: nat) returns (table: Option<nat>)
      requires Valid() && tables.Keys <= heap.live
      modifies this, heap
      ensures Valid() && tables.Keys <= heap.live
      ensures SameLeaves(old(tables), tables, root)
      ensures table == if CanonicalUser(address) then TableAt(tables, root, address, 1) else None
      ensures Elsewhere(heap) == old(Elsewhere(heap))
      ensures CanonicalUser(address) && table.None? ==> Starved(heap, old(heap.refusals))
      ensures heap.refusals >= old(heap.refusals) && |extraTables| <= old(|extraTables|) + 3
    {
      if !CanonicalUser(address) {
        return None;
      }
      assert Prefix(address, 2) != 0;
      hide SameLeaves, Extends, LowIdentity, Index, Prefix, CanonicalUser, Owned, Distinct;
      var directory := WalkDirectory(heap, address);
      if directory.None? {
        return None;
      }
      TableAtPlace(tables, place, root, address, 2);
      label middle:
      if tables[directory.value][Index(address, 2)].huge {
        DropIdentityLeaf(directory.value, Index(address, 2));
        SameLeavesTrans(old(tables), old@middle(tables), tables, root);
        Extended(old@middle(tables), tables, root, address, 2);
      }
      label last:
      var leaf := NextTable(heap, directory.value, Index(address, 2));
      SameLeavesTrans(old(tables), old@last(tables), tables, root);
      Extended(old@last(tables), tables, root, address, 2);
      return leaf;
    }
  }
}
