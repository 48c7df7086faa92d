/**
 Symbol lookup in a loaded ELF object (kernel/process.c): the GNU hash table
 with its Bloom filter, buckets and chains, against the plain scan of the
 symbol table that the same function falls back to.
 */
module GnuHash {
  import opened VmTypes

  const UINT32 := 0x1_0000_0000
  const MAX_SYMBOLS := 4194304

  datatype Symbol = Symbol(name: nat, information: nat, section: nat, value: nat)

  /**
   What the loader can read of an object; `None` and missing keys stand for
   reads that fail.  There is a hash table exactly when there are buckets.
   */
  datatype Object = Object(
    bias: nat,
    symbols: seq<Option<Symbol>>,
    stringSize: nat, strings: map<nat, string>,
    versioned: bool, versions: map<nat, nat>, definitions: map<nat, string>,
    bloom: seq<Option<nat>>, shift: nat, buckets: seq<Option<nat>>, first: nat, chains: map<nat, nat>)

  datatype Lookup = Found(index: nat, value: nat) | Missing | Malformed

  // ----- one symbol

  /** A defined global or weak symbol with a name in the string table. */
  predicate Eligible(o: Object, s: Symbol) {
    s.section != 0 && (s.information / 16 == 1 || s.information / 16 == 2) && s.name < o.stringSize
  }

  datatype Match = Compatible | Incompatible | BadVersion

  /** symbol_version_matches */
  function VersionMatch(o: Object, index: nat, version: string): Match {
    if o.versioned && index !in o.versions then BadVersion
    else
      var raw := if o.versioned then o.versions[index] else 1;
      var number := raw % 0x8000;
      if version == "" then (if raw / 0x8000 % 2 == 1 then Incompatible else Compatible)
      else if number <= 1 then Incompatible
      else if number !in o.definitions then BadVersion
      else if o.definitions[number] == version then Compatible else Incompatible
  }

  /** What looking at one symbol settles: the answer, or nothing yet. */
  function Inspect(o: Object, index: nat, name: string, version: string): Option<Lookup>
    requires index < |o.symbols|
  {
    match o.symbols[index]
    case None => Some(Malformed)
    case Some(s) =>
      if !Eligible(o, s) then None
      else if s.name !in o.strings then Some(Malformed)
      else if o.strings[s.name] != name then None
      else match VersionMatch(o, index, version)
           case BadVersion => Some(Malformed)
           case Incompatible => None
           case Compatible => Some(Found(index, (o.bias + s.value) % WORD))
  }

  /** The symbol table scanned in order from `index`. */
  function Scan(o: Object, index: nat, name: string, version: string): Lookup
    requires index <= |o.symbols|
    decreases |o.symbols| - index
  {
    if index == |o.symbols| then Missing
    else match Inspect(o, index, name, version)
         case Some(result) => result
         case None => Scan(o, index + 1, name, version)
  }

  // ----- the hash table

  function HashFrom(name: string, hash: nat): nat
    decreases |name|
  {
    if name == "" then hash else HashFrom(name[1..], (hash * 33 + name[0] as nat % 256) % UINT32)
  }

  function SymbolHash(name: string): nat {
    HashFrom(name, 5381)
  }

  function Power2(n: nat): (r: nat)
    ensures r > 0
  {
    if n == 0 then 1 else 2 * Power2(n - 1)
  }

  predicate BitSet(word: nat, bit: nat) {
    word / Power2(bit) % 2 == 1
  }

  /** Both filter bits of a hash are set in the word it selects. */
  predicate MayContain(word: nat, hash: nat, shift: nat) {
    BitSet(word, hash % 64) && BitSet(word, hash / Power2(shift) % 64)
  }

  /** The chain entry of symbol `i`. */
  function ChainAt(o: Object, i: nat): Option<nat> {
    if o.first <= i && i - o.first in o.chains then Some(o.chains[i - o.first]) else None
  }

  /** The chain entry agrees with the hash in all bits but the lowest. */
  predicate SameHash(chain: nat, hash: nat) {
    chain / 2 == hash / 2
  }

  predicate LastInChain(chain: nat) {
    chain % 2 == 1
  }

  /** The chain walk from symbol `index`. */
  function Walk(o: Object, hash: nat, index: nat, name: string, version: string): Lookup
    requires o.first <= index
    decreases |o.symbols| - index
  {
    if index >= |o.symbols| then Missing
    else if ChainAt(o, index).None? then Malformed
    else
      var chain := ChainAt(o, index).value;
      var settled := if SameHash(chain, hash) then Inspect(o, index, name, version) else None;
      if settled.Some? then settled.value
      else if LastInChain(chain) then Missing
      else Walk(o, hash, index + 1, name, version)
  }

  function HashedLookup(o: Object, name: string, version: string): Lookup
    requires |o.buckets| > 0 && |o.bloom| > 0
  {
    var hash := SymbolHash(name);
    match o.bloom[hash / 64 % |o.bloom|]
    case None => Malformed
    case Some(word) =>
      if !MayContain(word, hash, o.shift) then Missing
      else match o.buckets[hash % |o.buckets|]
           case None => Malformed
           case Some(start) => if start < o.first then Missing else Walk(o, hash, start, name, version)
  }

  /** find_symbol_in_object: through the hash table when there is one, else by scanning. */
  method FindSymbol(o: Object, name: string, version: string) returns (result: Lookup)
    requires |o.symbols| > 0 && (|o.buckets| > 0 ==> |o.bloom| > 0)
    ensures result == if |o.buckets| > 0 then HashedLookup(o, name, version) else Scan(o, 1, name, version)
  {
    if |o.buckets| > 0 {
      var hash := Hash(name);
      var word := o.bloom[hash / 64 % |o.bloom|];
      if word.None? {
        return Malformed;
      }
      if !MayContain(word.value, hash, o.shift) {
        return Missing;
      }
      var bucket := o.buckets[hash % |o.buckets|];
      if bucket.None? {
        return Malformed;
      }
      var index := bucket.value;
      if index < o.first {
        return Missing;
      }
      while index < |o.symbols|
        invariant o.first <= index
        invariant HashedLookup(o, name, version) == Walk(o, hash, index, name, version)
        decreases |o.symbols| - index
      {
        var entry := ChainAt(o, index);
        if entry.None? {
          return Malformed;
        }
        var chain := entry.value;
        if SameHash(chain, hash) {
          var settled := Inspect(o, index, name, version);
          if settled.Some? {
            return settled.value;
          }
        }
        if LastInChain(chain) {
          return Missing;
        }
        index := index + 1;
      }
      return Missing;
    }
    var index := 1;
    while index < |o.symbols|
      invariant 1 <= index <= |o.symbols|
      invariant Scan(o, 1, name, version) == Scan(o, index, name, version)
    {
      var settled := Inspect(o, index, name, version);
      if settled.Some? {
        return settled.value;
      }
      index := index + 1;
    }
    return Missing;
  }

  method Hash(name: string) returns (hash: nat)
    ensures hash == SymbolHash(name)
  {
    hash := 5381;
    var i := 0;
    while i < |name|
      invariant 0 <= i <= |name|
      invariant SymbolHash(name) == HashFrom(name[i..], hash)
    {
      hash := (hash * 33 + name[i] as nat % 256) % UINT32;
      i := i + 1;
    }
  }

  // ----- well-formed tables

  /** Symbol `i` is defined under the given name. */
  predicate Defines(o: Object, i: nat, name: string) {
    && i < |o.symbols| && o.symbols[i].Some? && Eligible(o, o.symbols[i].value)
    && o.symbols[i].value.name in o.strings && o.strings[o.symbols[i].value.name] == name
  }

  /** A definition is reached from the bucket of its hash, and its filter bits are set. */
  predicate Hashed(o: Object, i: nat, name: string)
    requires |o.buckets| > 0 && |o.bloom| > 0
  {
    var hash := SymbolHash(name);
    var word, start := o.bloom[hash / 64 % |o.bloom|], o.buckets[hash % |o.buckets|];
    && word.Some? && MayContain(word.value, hash, o.shift)
    && start.Some? && o.first <= start.value <= i
    && ChainAt(o, i).Some? && SameHash(ChainAt(o, i).value, hash)
    && forall k: nat :: start.value <= k < i ==> ChainAt(o, k).Some? && !LastInChain(ChainAt(o, k).value)
  }

  /**
   Every symbol and every definition's name can be read, every filter word,
   bucket and chain can be read, symbol 0 is not hashed, and every definition is.
   */
  ghost predicate WellFormed(o: Object) {
    && |o.symbols| > 0 && |o.buckets| > 0 && |o.bloom| > 0 && o.first > 0
    && (forall i :: 0 <= i < |o.symbols| ==> o.symbols[i].Some?)
    && (forall i :: 0 <= i < |o.bloom| ==> o.bloom[i].Some?)
    && (forall i :: 0 <= i < |o.buckets| ==> o.buckets[i].Some?)
    && (forall i: nat :: i < |o.symbols| && o.symbols[i].Some? && Eligible(o, o.symbols[i].value) ==>
          o.symbols[i].value.name in o.strings)
    && (forall i: nat :: o.first <= i < |o.symbols| ==> ChainAt(o, i).Some?)
    && (forall i: nat, name {:trigger Defines(o, i, name)} :: 0 < i && Defines(o, i, name) ==> Hashed(o, i, name))
  }

  /** A symbol that does not define the name settles nothing. */
  lemma Unsettled(o: Object, i: nat, name: string, version: string)
    requires WellFormed(o) && 0 < i < |o.symbols|
    ensures Inspect(o, i, name, version).Some? ==> Defines(o, i, name)
  {
  }

  /** With no definition from `i` on, the scan ends empty-handed. */
  lemma {:induction false} NothingLeft(o: Object, i: nat, name: string, version: string)
    requires WellFormed(o) && 0 < i <= |o.symbols|
    requires forall j: nat {:trigger Defines(o, j, name)} :: i <= j ==> !Defines(o, j, name)
    ensures Scan(o, i, name, version) == Missing
    decreases |o.symbols| - i
  {
    if i < |o.symbols| {
      Unsettled(o, i, name, version);
      NothingLeft(o, i + 1, name, version);
    }
  }

  /** Symbols before the first hashed one that could matter are skipped by the scan. */
  lemma {:induction false} SkipTo(o: Object, i: nat, to: nat, name: string, version: string)
    requires WellFormed(o) && 0 < i <= to <= |o.symbols|
    requires forall j: nat {:trigger Defines(o, j, name)} :: i <= j < to ==> !Defines(o, j, name)
    ensures Scan(o, i, name, version) == Scan(o, to, name, version)
    decreases |o.symbols| - i
  {
    if i < to {
      Unsettled(o, i, name, version);
      SkipTo(o, i + 1, to, name, version);
    }
  }

  /** From any point of the chain the walk and the scan agree. */
  lemma {:induction false} WalkIsScan(o: Object, i: nat, name: string, version: string)
    requires WellFormed(o) && o.first <= i && 0 < i <= |o.symbols|
    requires forall j: nat {:trigger Defines(o, j, name)} :: i <= j && Defines(o, j, name) ==>
      o.buckets[SymbolHash(name) % |o.buckets|].Some? && o.buckets[SymbolHash(name) % |o.buckets|].value <= i
    ensures Walk(o, SymbolHash(name), i, name, version) == Scan(o, i, name, version)
    decreases |o.symbols| - i
  {
    if i < |o.symbols| {
      var hash := SymbolHash(name);
      Unsettled(o, i, name, version);
      assert Defines(o, i, name) ==> Hashed(o, i, name);
      if Inspect(o, i, name, version).None? {
        if LastInChain(ChainAt(o, i).value) {
          forall j: nat | i + 1 <= j ensures !Defines(o, j, name) {
            assert Defines(o, j, name) ==> Hashed(o, j, name);
          }
          NothingLeft(o, i + 1, name, version);
        } else {
          WalkIsScan(o, i + 1, name, version);
        }
      }
    }
  }

  /**
   For every well-formed table the hash lookup gives the same verdict, the same
   symbol and the same value as scanning the symbol table, for every name and version.
   */
  lemma HashedIsScan(o: Object, name: string, version: string)
    requires WellFormed(o)
    ensures HashedLookup(o, name, version) == Scan(o, 1, name, version)
  {
    var hash := SymbolHash(name);
    var word, start := o.bloom[hash / 64 % |o.bloom|], o.buckets[hash % |o.buckets|];
    forall j: nat | 1 <= j && Defines(o, j, name) ensures Hashed(o, j, name) {
    }
    if !MayContain(word.value, hash, o.shift) || start.value < o.first {
      NothingLeft(o, 1, name, version);
    } else if start.value >= |o.symbols| {
      NothingLeft(o, 1, name, version);
    } else {
      SkipTo(o, 1, start.value, name, version);
      WalkIsScan(o, start.value, name, version);
    }
  }

  // ----- measuring the table

  /** The chain that starts at symbol `start` ends at symbol `end`. */
  ghost predicate RunEnds(o: Object, start: nat, end: nat) {
    && start <= end && ChainAt(o, end).Some? && LastInChain(ChainAt(o, end).value)
    && forall k: nat :: start <= k < end ==> ChainAt(o, k).Some? && !LastInChain(ChainAt(o, k).value)
  }

  /** The chain of bucket `b` ends below `count`. */
  ghost predicate BucketCovered(o: Object, b: nat, count: nat)
    requires b < |o.buckets|
  {
    && o.buckets[b].Some?
    && (o.buckets[b].value != 0 ==>
          o.first <= o.buckets[b].value && exists end: nat :: RunEnds(o, o.buckets[b].value, end) && end < count)
  }

  /** Some bucket's chain ends at `end`. */
  ghost predicate EndsSomewhere(o: Object, end: nat) {
    exists b: nat :: b < |o.buckets| && o.buckets[b].Some? && o.buckets[b].value != 0 && RunEnds(o, o.buckets[b].value, end)
  }

  /** Sizes within bounds, and every chain is readable and ends below the symbol limit. */
  ghost predicate Measurable(o: Object) {
    && 0 < |o.buckets| <= MAX_SYMBOLS && 0 < |o.bloom| <= MAX_SYMBOLS && o.first <= MAX_SYMBOLS && o.shift < 32
    && forall b: nat :: b < |o.buckets| ==> BucketCovered(o, b, MAX_SYMBOLS)
  }

  /**
   The symbol count of parse_gnu_hash: the least one that is no smaller than
   `known` and the first hashed symbol and covers the end of every chain.
   */
  method CountSymbols(o: Object, known: nat) returns (ok: bool, count: nat)
    ensures ok ==> known <= count && o.first <= count
    ensures ok ==> forall b: nat :: b < |o.buckets| ==> BucketCovered(o, b, count)
    ensures ok ==> count == known || count == o.first || (count > 0 && EndsSomewhere(o, count - 1))
    ensures ok <==> Measurable(o)
  {
    count := known;
    if |o.buckets| == 0 || |o.bloom| == 0 || |o.buckets| > MAX_SYMBOLS || o.first > MAX_SYMBOLS ||
       |o.bloom| > MAX_SYMBOLS || o.shift >= 32 {
      return false, known;
    }
    var maximum := o.first;
    var bucket := 0;
    while bucket < |o.buckets|
      invariant 0 <= bucket <= |o.buckets| && o.first <= maximum
      invariant forall b: nat :: b < bucket ==> BucketCovered(o, b, maximum) && BucketCovered(o, b, MAX_SYMBOLS)
      invariant maximum == o.first || (maximum > 0 && EndsSomewhere(o, maximum - 1))
    {
      if o.buckets[bucket].None? {
        assert !BucketCovered(o, bucket, MAX_SYMBOLS);
        return false, known;
      }
      var start := o.buckets[bucket].value;
      if start != 0 {
        if start < o.first || start >= MAX_SYMBOLS {
          assert !BucketCovered(o, bucket, MAX_SYMBOLS);
          return false, known;
        }
        var done, end := ChainEnd(o, start);
        if !done {
          assert !BucketCovered(o, bucket, MAX_SYMBOLS);
          return false, known;
        }
        assert EndsSomewhere(o, end);
        ghost var before := maximum;
        if end >= maximum {
          maximum := end + 1;
        }
        forall b: nat | b < bucket ensures BucketCovered(o, b, maximum) {
          assert BucketCovered(o, b, before);
        }
        assert BucketCovered(o, bucket, maximum);
      }
      bucket := bucket + 1;
    }
    ok := true;
    if maximum > known {
      count := maximum;
    } else {
      forall b: nat | b < |o.buckets| ensures BucketCovered(o, b, count) {
        assert BucketCovered(o, b, maximum);
      }
    }
  }

  /** Follows one chain to its end; chains that run past the symbol limit are refused. */
  method ChainEnd(o: Object, start: nat) returns (ok: bool, end: nat)
    requires o.first <= start < MAX_SYMBOLS
    ensures ok ==> RunEnds(o, start, end) && end < MAX_SYMBOLS
    ensures !ok ==> forall e: nat :: e < MAX_SYMBOLS ==> !RunEnds(o, start, e)
  {
    end := start;
    while true
      invariant start <= end < MAX_SYMBOLS
      invariant forall k: nat :: start <= k < end ==> ChainAt(o, k).Some? && !LastInChain(ChainAt(o, k).value)
      decreases MAX_SYMBOLS - end
    {
      var chain := ChainAt(o, end);
      if chain.None? {
        return false, end;
      }
      if LastInChain(chain.value) {
        return true, end;
      }
      if end + 1 >= MAX_SYMBOLS {
        return false, end;
      }
      end := end + 1;
    }
  }

  /** The walk from symbol `index` meets a chain entry it cannot read or runs off the symbol table. */
  ghost predicate WalkFails(o: Object, hash: nat, index: nat, name: string, version: string)
    requires o.first <= index
    decreases |o.symbols| - index
  {
    || index >= |o.symbols| || ChainAt(o, index).None?
    || (var chain := ChainAt(o, index).value;
        && !(SameHash(chain, hash) && Inspect(o, index, name, version).Some?)
        && !LastInChain(chain) && WalkFails(o, hash, index + 1, name, version))
  }

  lemma {:induction false} CoveredWalk(o: Object, hash: nat, index: nat, end: nat, name: string, version: string)
    requires o.first <= index && RunEnds(o, index, end) && end < |o.symbols|
    ensures !WalkFails(o, hash, index, name, version)
    decreases end - index
  {
    if index < end {
      CoveredWalk(o, hash, index + 1, end, name, version);
    }
  }

  /** The lookup of a name walks a chain, and that walk fails. */
  ghost predicate LookupFails(o: Object, name: string, version: string)
    requires |o.buckets| > 0 && |o.bloom| > 0
  {
    var hash := SymbolHash(name);
    var word, start := o.bloom[hash / 64 % |o.bloom|], o.buckets[hash % |o.buckets|];
    && word.Some? && MayContain(word.value, hash, o.shift) && start.Some? && o.first <= start.value
    && WalkFails(o, hash, start.value, name, version)
  }

  /**
   A symbol table as long as parse_gnu_hash counted is long enough: no lookup
   fails in its walk, when symbol 0 is not hashed or no bucket is empty.
   */
  lemma CountedTableSuffices(o: Object, name: string, version: string)
    requires |o.buckets| > 0 && |o.bloom| > 0
    requires forall b: nat :: b < |o.buckets| ==> BucketCovered(o, b, |o.symbols|)
    requires o.first > 0 || o.buckets[SymbolHash(name) % |o.buckets|] != Some(0)
    ensures !LookupFails(o, name, version)
  {
    hide SymbolHash, MayContain, RunEnds;
    var hash := SymbolHash(name);
    var b := hash % |o.buckets|;
    assert BucketCovered(o, b, |o.symbols|);
    var start := o.buckets[b].value;
    if start >= o.first {
      var end: nat :| RunEnds(o, start, end) && end < |o.symbols|;
      CoveredWalk(o, hash, start, end, name, version);
    }
  }

  /** A walk that does not fail ends as malformed only on a symbol that is. */
  lemma {:induction false} WalkMalformed(o: Object, hash: nat, index: nat, name: string, version: string)
    requires o.first <= index && !WalkFails(o, hash, index, name, version)
    ensures Walk(o, hash, index, name, version) == Malformed ==>
      exists k: nat :: index <= k < |o.symbols| && Inspect(o, k, name, version) == Some(Malformed)
    decreases |o.symbols| - index
  {
    var chain := ChainAt(o, index).value;
    if SameHash(chain, hash) && Inspect(o, index, name, version).Some? {
    } else if !LastInChain(chain) {
      WalkMalformed(o, hash, index + 1, name, version);
    }
  }

  /** The proviso is needed: when symbol 0 is hashed, an empty bucket is taken for a chain that starts there. */
  function EmptyBucket(): Object {
    Object(0, [Some(Symbol(0, 0, 0, 0))], 1, map[0 := ""], false, map[], map[], [Some(64)], 0, [Some(0)], 0, map[])
  }

  lemma EmptyBucketFails()
    ensures Measurable(EmptyBucket()) && BucketCovered(EmptyBucket(), 0, |EmptyBucket().symbols|)
    ensures LookupFails(EmptyBucket(), "a", "") && HashedLookup(EmptyBucket(), "a", "") == Malformed
  {
    assert SymbolHash("a") == 177670;
    assert Power2(6) == 64;
  }

  /** An object with one symbol in its table. */
  function SmallObject(): Object {
    Object(0, [Some(Symbol(0, 0, 0, 0)), Some(Symbol(1, 16, 1, 8))], 3, map[0 := "", 1 := "a"],
           false, map[], map[], [Some(64)], 0, [Some(1)], 1, map[0 := 177671])
  }

  lemma SmallIsHashed()
    ensures Hashed(SmallObject(), 1, "a")
  {
    assert SymbolHash("a") == 177670;
    assert Power2(6) == 64;
  }

  lemma SmallIsWellFormed()
    ensures WellFormed(SmallObject())
  {
    hide Hashed, SymbolHash, Power2;
    var o := SmallObject();
    SmallIsHashed();
    forall i: nat, name | 0 < i && Defines(o, i, name) ensures Hashed(o, i, name) {
      assert i == 1 && name == "a";
    }
  }

  /** Well-formed tables exist, and symbols are found in them. */
  lemma SmallTable()
    ensures WellFormed(SmallObject()) && HashedLookup(SmallObject(), "a", "") == Found(1, 8)
  {
    hide WellFormed, HashedLookup, SymbolHash;
    SmallIsWellFormed();
    HashedIsScan(SmallObject(), "a", "");
  }
}
