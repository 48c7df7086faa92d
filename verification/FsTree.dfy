/** The NovaFS namespace (kernel/filesystem.c): lookup, parents, symbolic links. */
module FsTree {
  import opened VmTypes
  import opened Bytes
  import opened FsNames
  import opened FsEntries
  import opened FsStore

  const MAX_LINKS := 8

  /** The first used slot with this name. */
  function Find(entries: seq<Entry>, name: Name): (index: Option<nat>)
    ensures index.Some? ==> index.value < |entries| && Named(entries, index.value, name)
    ensures index.None? ==> forall i: nat :: !Named(entries, i, name)
  {
    FindFrom(entries, name, 0)
  }

  function FindFrom(entries: seq<Entry>, name: Name, from: nat): (index: Option<nat>)
    requires from <= |entries|
    ensures index.Some? ==> from <= index.value < |entries| && Named(entries, index.value, name)
    ensures index.None? ==> forall i: nat :: from <= i ==> !Named(entries, i, name)
    decreases |entries| - from
  {
    if from == |entries| then None
    else if Named(entries, from, name) then Some(from)
    else FindFrom(entries, name, from + 1)
  }

  predicate Named(entries: seq<Entry>, i: nat, name: Name) {
    i < |entries| && entries[i].used && entries[i].name == name
  }

  predicate DirectoryNamed(entries: seq<Entry>, i: nat, name: Name) {
    Named(entries, i, name) && entries[i].kind == TYPE_DIRECTORY
  }

  /** A top-level name, or one whose parent is a directory entry. */
  ghost predicate ParentOk(entries: seq<Entry>, name: Name) {
    Parent(name).Some? ==> exists i: nat :: DirectoryNamed(entries, i, Parent(name).value)
  }

  /** Used names are valid and unique, and every nested name hangs off a used directory. */
  ghost predicate Namespace(entries: seq<Entry>) {
    && (forall i: nat :: i < |entries| && entries[i].used ==>
          FsNames.Valid(entries[i].name) && ParentOk(entries, entries[i].name))
    && (forall i: nat, j: nat ::
          (i < |entries| && j < |entries| && entries[i].used && entries[j].used && entries[i].name == entries[j].name) ==>
          i == j)
  }

  lemma ParentStays(entries: seq<Entry>, entries': seq<Entry>, name: Name)
    requires ParentOk(entries, name)
    requires forall i: nat :: Parent(name).Some? && DirectoryNamed(entries, i, Parent(name).value) ==>
      DirectoryNamed(entries', i, Parent(name).value)
    ensures ParentOk(entries', name)
  {
    if Parent(name).Some? {
      var i: nat :| DirectoryNamed(entries, i, Parent(name).value);
      assert DirectoryNamed(entries', i, Parent(name).value);
    }
  }

  /** A new entry under a free, valid name whose parent exists. */
  lemma CreateKeeps(entries: seq<Entry>, i: nat, e: Entry)
    requires Namespace(entries) && i < |entries| && !entries[i].used && e.used
    requires FsNames.Valid(e.name) && Find(entries, e.name).None? && ParentOk(entries, e.name)
    ensures Namespace(entries[i := e])
  {
    hide FsNames.Valid;
    var entries' := entries[i := e];
    forall j: nat | j < |entries'| && entries'[j].used
      ensures FsNames.Valid(entries'[j].name) && ParentOk(entries', entries'[j].name)
    {
      ParentStays(entries, entries', entries'[j].name);
    }
    forall j: nat | j < |entries| && entries[j].used ensures entries[j].name != e.name {
      assert !Named(entries, j, e.name);
    }
  }

  /** A change that keeps name and use, and keeps directories directories. */
  lemma RewriteKeeps(entries: seq<Entry>, i: nat, e: Entry)
    requires Namespace(entries) && i < |entries| && entries[i].used && e.used && e.name == entries[i].name
    requires entries[i].kind == TYPE_DIRECTORY ==> e.kind == TYPE_DIRECTORY
    ensures Namespace(entries[i := e])
  {
    hide FsNames.Valid;
    var entries' := entries[i := e];
    forall j: nat | j < |entries'| && entries'[j].used
      ensures FsNames.Valid(entries'[j].name) && ParentOk(entries', entries'[j].name)
    {
      ParentStays(entries, entries', entries'[j].name);
    }
  }

  /** `child` lies below the directory called `name`. */
  predicate Below(child: Name, name: Name) {
    |child| > |name| && child[..|name|] == name && child[|name|] == SLASH
  }

  /** Removing an entry that is no directory, or a directory with nothing below it. */
  lemma DeleteKeeps(entries: seq<Entry>, i: nat)
    requires Namespace(entries) && i < |entries| && entries[i].used
    requires entries[i].kind == TYPE_DIRECTORY ==>
      forall j: nat :: j < |entries| && entries[j].used ==> !Below(entries[j].name, entries[i].name)
    ensures Namespace(entries[i := EMPTY])
  {
    hide FsNames.Valid;
    var entries', gone := entries[i := EMPTY], entries[i].name;
    forall j: nat | j < |entries'| && entries'[j].used
      ensures FsNames.Valid(entries'[j].name) && ParentOk(entries', entries'[j].name)
    {
      var name := entries[j].name;
      assert Parent(name) == Some(gone) ==> Below(name, gone);
      ParentStays(entries, entries', name);
    }
  }

  // ----- symbolic links

  /** The text of a link, or none when its length is out of bounds. */
  ghost function LinkText(e: Entry, sectors: Sectors): Option<Name> {
    if 0 < e.size <= NAME_MAX + 1 then Some(CString(Stored(sectors, e.start, e.size))) else None
  }

  /** One link followed: the name it leads to. */
  ghost function Hop(entries: seq<Entry>, sectors: Sectors, name: Name): Option<Name> {
    match Find(entries, name)
    case None => None
    case Some(i) =>
      if entries[i].kind != TYPE_SYMLINK then None
      else match LinkText(entries[i], sectors)
           case None => None
           case Some(text) => Followed(name, text)
  }

  lemma HopIsLink(entries: seq<Entry>, sectors: Sectors, name: Name)
    ensures Hop(entries, sectors, name).Some? ==>
      Find(entries, name).Some? && entries[Find(entries, name).value].kind == TYPE_SYMLINK
  {
  }

  /** The entry a path leads to through at most `links - 1` symbolic links. */
  ghost function Resolve(entries: seq<Entry>, sectors: Sectors, name: Name, links: nat): (index: Option<nat>)
    ensures index.Some? ==> index.value < |entries| && entries[index.value].used
    ensures index.Some? ==> entries[index.value].kind != TYPE_SYMLINK
    decreases links
  {
    if links == 0 then None
    else match Find(entries, name)
         case None => None
         case Some(i) =>
           if entries[i].kind != TYPE_SYMLINK then Some(i)
           else match Hop(entries, sectors, name)
                case None => None
                case Some(next) => Resolve(entries, sectors, next, links - 1)
  }

  lemma ResolveStep(entries: seq<Entry>, sectors: Sectors, name: Name, links: nat)
    requires links > 0
    ensures match Find(entries, name)
      case None => Resolve(entries, sectors, name, links) == None
      case Some(i) =>
        if entries[i].kind != TYPE_SYMLINK then Resolve(entries, sectors, name, links) == Some(i)
        else match LinkText(entries[i], sectors)
             case None => Resolve(entries, sectors, name, links) == None
             case Some(text) =>
               Resolve(entries, sectors, name, links) ==
               match Followed(name, text)
               case None => None
               case Some(next) => Resolve(entries, sectors, next, links - 1)
  {
  }

  /** Each name on the path is a link to the next. */
  ghost predicate LinkPath(entries: seq<Entry>, sectors: Sectors, path: seq<Name>) {
    forall k: nat :: k + 1 < |path| ==> Hop(entries, sectors, path[k]) == Some(path[k + 1])
  }

  /** A path resolves exactly to the non-link reached by following fewer than eight links. */
  lemma {:induction false} ResolveFollows(entries: seq<Entry>, sectors: Sectors, name: Name, links: nat)
    ensures forall i: nat :: Resolve(entries, sectors, name, links) == Some(i) ==>
      exists path: seq<Name> :: LeadsTo(entries, sectors, name, path, i) && |path| <= links
    decreases links
  {
    hide Hop;
    if links > 0 {
      var next := Hop(entries, sectors, name);
      if next.Some? {
        ResolveFollows(entries, sectors, next.value, links - 1);
      }
      forall i: nat | Resolve(entries, sectors, name, links) == Some(i)
        ensures exists path: seq<Name> :: LeadsTo(entries, sectors, name, path, i) && |path| <= links
      {
        if Find(entries, name) == Some(i) && entries[i].kind != TYPE_SYMLINK {
          assert LeadsTo(entries, sectors, name, [name], i);
        } else {
          var rest: seq<Name> :| LeadsTo(entries, sectors, next.value, rest, i) && |rest| <= links - 1;
          var path := [name] + rest;
          assert forall k: nat :: k + 1 < |path| && k > 0 ==> path[k] == rest[k - 1] && path[k + 1] == rest[k];
          assert LeadsTo(entries, sectors, name, path, i);
        }
      }
    }
  }

  ghost predicate LeadsTo(entries: seq<Entry>, sectors: Sectors, name: Name, path: seq<Name>, i: nat) {
    && |path| > 0 && path[0] == name && LinkPath(entries, sectors, path)
    && Find(entries, path[|path| - 1]) == Some(i) && i < |entries| && entries[i].kind != TYPE_SYMLINK
  }

  /** Every such path of at most `links` names is what resolution finds. */
  lemma {:induction false} FollowsResolve(
      entries: seq<Entry>, sectors: Sectors, name: Name, path: seq<Name>, i: nat, links: nat)
    requires LeadsTo(entries, sectors, name, path, i) && |path| <= links
    ensures Resolve(entries, sectors, name, links) == Some(i)
    decreases links
  {
    hide Hop;
    if |path| > 1 {
      HopIsLink(entries, sectors, name);
      assert Hop(entries, sectors, path[0]) == Some(path[1]);
      var rest := path[1..];
      forall k: nat | k + 1 < |rest| ensures Hop(entries, sectors, rest[k]) == Some(rest[k + 1]) {
        assert rest[k] == path[k + 1];
        assert Hop(entries, sectors, path[k + 1]) == Some(path[k + 1 + 1]);
      }
      FollowsResolve(entries, sectors, path[1], rest, i, links - 1);
    }
  }
}
