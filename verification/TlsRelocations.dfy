/**
 The thread-local relocations of kernel/process.c, written into memory and read
 back by the code of user/nova_ld.asm: in every thread the three ways of reaching
 a thread-local variable, each through the words its own relocation stored, give
 one address.
 */
module TlsRelocations {
  import opened VmTypes
  import opened Bytes
  import opened TlsLayout
  import opened TlsThreads

  datatype Kind = DtpMod64 | DtpOff64 | TpOff64 | DtpOff32 | TpOff32 | TlsDesc

  /** What the symbol of a relocation resolves to: nothing, a weak undefined symbol, or a definition. */
  datatype Target = Unresolved | Undefined | Defined(owner: nat, symbol: nat)

  /** `place` is the object's bias plus the offset. */
  datatype Relocation = Relocation(place: nat, kind: Kind, target: Target, addend: nat)

  predicate Short(kind: Kind) {
    kind.DtpOff32? || kind.TpOff32?
  }

  /** The bytes a relocation stores, or none when it is refused; `resolver` is the address of the descriptor code. */
  function Payload(objects: seq<TlsObject>, r: Relocation, resolver: Option<nat>): Option<seq<byte>> {
    match r.target
    case Unresolved => None
    case Undefined => if r.kind.TlsDesc? then None else Some(ToLittle(0, if Short(r.kind) then 4 else 8))
    case Defined(owner, symbol) =>
      if owner >= |objects| || objects[owner].moduleId == 0 || objects[owner].memorySize == 0 then None
      else
        var o := objects[owner];
        match r.kind
        case TlsDesc =>
          if resolver.None? then None
          else Some(ToLittle(resolver.value, 8) + ToLittle((symbol - o.offset + r.addend) % WORD, 8))
        case DtpMod64 => Some(ToLittle(o.moduleId, 8))
        case DtpOff64 => Some(ToLittle((symbol + r.addend) % WORD, 8))
        case DtpOff32 => Some(ToLittle((symbol + r.addend) % WORD, 4))
        case TpOff64 => Some(ToLittle((symbol - o.offset + r.addend) % WORD, 8))
        case TpOff32 => Some(ToLittle((symbol - o.offset + r.addend) % WORD, 4))
  }

  function Width(kind: Kind): nat {
    if kind.TlsDesc? then 16 else if Short(kind) then 4 else 8
  }

  lemma PayloadWidth(objects: seq<TlsObject>, r: Relocation, resolver: Option<nat>)
    ensures Payload(objects, r, resolver).Some? ==> |Payload(objects, r, resolver).value| == Width(r.kind)
  {
    hide ToLittle;
  }

  /** The relocation cannot be applied to this memory. */
  ghost predicate Refused(m: Memory, objects: seq<TlsObject>, r: Relocation, resolver: Option<nat>) {
    Payload(objects, r, resolver).None? || !Mapped(m, r.place, Width(r.kind))
  }

  /** The thread-local cases of apply_relocation_table. */
  method ApplyOne(space: TlsSpace, objects: seq<TlsObject>, r: Relocation, resolver: Option<nat>) returns (ok: bool)
    requires r.target.Defined? ==> r.target.owner < |objects|
    modifies space`memory, space`faults
    ensures space.faults >= old(space.faults) && space.memory.Keys == old(space.memory.Keys)
    ensures ok ==> !Refused(old(space.memory), objects, r, resolver)
    ensures ok ==> space.memory == Put(old(space.memory), r.place, Payload(objects, r, resolver).value)
    ensures !ok ==> space.faults > old(space.faults) || Refused(old(space.memory), objects, r, resolver)
  {
    hide ToLittle, Put;
    PayloadWidth(objects, r, resolver);
    if r.kind.TlsDesc? {
      if !r.target.Defined? || objects[r.target.owner].moduleId == 0 || objects[r.target.owner].memorySize == 0 {
        return false;
      }
      if resolver.None? {
        return false;
      }
      var offset := (r.target.symbol - objects[r.target.owner].offset + r.addend) % WORD;
      ok := space.CopyOut(r.place, ToLittle(resolver.value, 8) + ToLittle(offset, 8));
      return;
    }
    if r.target.Unresolved? {
      return false;
    }
    var value := 0;
    if r.target.Defined? {
      var o := objects[r.target.owner];
      if o.moduleId == 0 || o.memorySize == 0 {
        return false;
      }
      value := if r.kind.DtpMod64? then o.moduleId
               else if r.kind.DtpOff64? || r.kind.DtpOff32? then (r.target.symbol + r.addend) % WORD
               else (r.target.symbol - o.offset + r.addend) % WORD;
    }
    ok := space.CopyOut(r.place, ToLittle(value, if Short(r.kind) then 4 else 8));
  }

  /** The first `n` relocations applied in turn. */
  ghost function Relocated(
      m: Memory, objects: seq<TlsObject>, table: seq<Relocation>, resolver: Option<nat>, n: nat): (b: Memory)
    requires n <= |table|
    ensures b.Keys == m.Keys
  {
    if n == 0 then m
    else
      var rest := Relocated(m, objects, table, resolver, n - 1);
      var payload := Payload(objects, table[n - 1], resolver);
      if payload.Some? then Put(rest, table[n - 1].place, payload.value) else rest
  }

  /** Every relocation of the table can be applied. */
  ghost predicate Applicable(m: Memory, objects: seq<TlsObject>, table: seq<Relocation>, resolver: Option<nat>) {
    forall i :: 0 <= i < |table| ==> !Refused(m, objects, table[i], resolver)
  }

  /** apply_relocation_table over thread-local relocations: fails exactly when one is refused or memory is short. */
  method ApplyTable(space: TlsSpace, objects: seq<TlsObject>, table: seq<Relocation>, resolver: Option<nat>)
    returns (ok: bool)
    requires forall i :: 0 <= i < |table| && table[i].target.Defined? ==> table[i].target.owner < |objects|
    modifies space`memory, space`faults
    ensures space.faults >= old(space.faults) && space.memory.Keys == old(space.memory.Keys)
    ensures ok ==> Applicable(old(space.memory), objects, table, resolver)
    ensures ok ==> space.memory == Relocated(old(space.memory), objects, table, resolver, |table|)
    ensures !ok ==> space.faults > old(space.faults) || !Applicable(old(space.memory), objects, table, resolver)
  {
    hide Payload, Put;
    ghost var before := space.memory;
    var done := 0;
    while done < |table|
      invariant 0 <= done <= |table| && space.faults >= old(space.faults)
      invariant space.memory == Relocated(before, objects, table, resolver, done)
      invariant forall i :: 0 <= i < done ==> !Refused(before, objects, table[i], resolver)
    {
      SameKeysRefuse(before, space.memory, objects, table[done], resolver);
      ok := ApplyOne(space, objects, table[done], resolver);
      if !ok {
        return false;
      }
      done := done + 1;
    }
    ok := true;
  }

  lemma SameKeysRefuse(m: Memory, b: Memory, objects: seq<TlsObject>, r: Relocation, resolver: Option<nat>)
    requires m.Keys == b.Keys
    ensures Refused(m, objects, r, resolver) <==> Refused(b, objects, r, resolver)
  {
    hide Payload;
  }

  /** The relocation's bytes are in place. */
  ghost predicate Holds(m: Memory, objects: seq<TlsObject>, r: Relocation, resolver: Option<nat>) {
    var payload := Payload(objects, r, resolver);
    payload.Some? && Mapped(m, r.place, |payload.value|) && Get(m, r.place, |payload.value|) == payload.value
  }

  /** No two relocations of the table write the same byte. */
  ghost predicate PlacesApart(table: seq<Relocation>) {
    forall i, j :: 0 <= i < |table| && 0 <= j < |table| && i != j ==>
      table[i].place + Width(table[i].kind) <= table[j].place || table[j].place + Width(table[j].kind) <= table[i].place
  }

  /** After the table has been applied every relocation holds. */
  lemma {:induction false} RelocatedHolds(
      m: Memory, objects: seq<TlsObject>, table: seq<Relocation>, resolver: Option<nat>, n: nat, i: nat)
    requires i < n <= |table| && PlacesApart(table) && Applicable(m, objects, table, resolver)
    ensures Holds(Relocated(m, objects, table, resolver, n), objects, table[i], resolver)
    decreases n
  {
    hide Payload, Put, Get;
    var rest := Relocated(m, objects, table, resolver, n - 1);
    var last := Payload(objects, table[n - 1], resolver);
    PayloadWidth(objects, table[n - 1], resolver);
    PayloadWidth(objects, table[i], resolver);
    assert !Refused(m, objects, table[n - 1], resolver) && !Refused(m, objects, table[i], resolver);
    if i == n - 1 {
      GetPut(rest, table[i].place, last.value);
    } else {
      RelocatedHolds(m, objects, table, resolver, n - 1, i);
      PutSameBut(rest, table[n - 1].place, last.value, table[n - 1].place, |last.value|);
      GetSame(rest, Put(rest, table[n - 1].place, last.value), table[n - 1].place, |last.value|,
              table[i].place, Width(table[i].kind));
    }
  }

  // ----- reading the words back

  /** A word a relocation stored is what code loads. */
  lemma LoadStored(m: Memory, place: nat, bytes: seq<byte>, at: nat, value: nat)
    requires Mapped(m, place, |bytes|) && Get(m, place, |bytes|) == bytes
    requires at + 8 <= |bytes| && bytes[at..at + 8] == ToLittle(value, 8) && value < WORD
    ensures Mapped(m, place + at, 8) && Load(m, place + at) == value
  {
    hide Get, ToLittle, FromLittle;
    GetPart(m, place, |bytes|, at, 8);
    WidthRanges();
    LittleRoundTrip(value, 8);
  }

  /** Initial-exec code: FS plus the word at `got`. */
  ghost function InitialExec(m: Memory, fs: nat, got: nat): nat
    requires Mapped(m, got, 8)
  {
    (fs + Load(m, got)) % WORD
  }

  /** General-dynamic code: __tls_get_addr on the pair at `index`. */
  ghost predicate PairReadable(m: Memory, fs: nat, index: nat) {
    && Mapped(m, index, 8) && Mapped(m, index + 8, 8) && Mapped(m, fs + 8, 8)
    && (Load(m, fs + 8) != 0 && Load(m, index) != 0 ==>
          && Mapped(m, Load(m, fs + 8), 8)
          && (Load(m, index) <= Load(m, Load(m, fs + 8)) ==> Mapped(m, Load(m, fs + 8) + 8 * Load(m, index), 8)))
  }

  ghost function GeneralDynamic(m: Memory, fs: nat, index: nat): nat
    requires PairReadable(m, fs, index)
  {
    TlsGetAddr(m, fs, Load(m, index), Load(m, index + 8))
  }

  /** __nova_tlsdesc_static: the second word of the descriptor. */
  ghost function DescriptorOffset(m: Memory, descriptor: nat): nat
    requires Mapped(m, descriptor + 8, 8)
  {
    Load(m, descriptor + 8)
  }

  /** Descriptor code: FS plus what the resolver returns. */
  ghost function ThroughDescriptor(m: Memory, fs: nat, descriptor: nat): nat
    requires Mapped(m, descriptor + 8, 8)
  {
    (fs + DescriptorOffset(m, descriptor)) % WORD
  }

  /** The relocations through which one variable is reached: its GOT word, its module and offset, its descriptor. */
  datatype Uses = Uses(word: Relocation, mod: Relocation, off: Relocation, descriptor: Relocation)

  ghost predicate SameVariable(uses: Uses, owner: nat, symbol: nat, addend: nat) {
    && uses.word.kind.TpOff64? && uses.word.target == Defined(owner, symbol) && uses.word.addend == addend
    && uses.mod.kind.DtpMod64? && uses.mod.target == Defined(owner, symbol)
    && uses.off.kind.DtpOff64? && uses.off.target == Defined(owner, symbol) && uses.off.addend == addend
    && uses.off.place == uses.mod.place + 8
    && uses.descriptor.kind.TlsDesc? && uses.descriptor.target == Defined(owner, symbol) && uses.descriptor.addend == addend
  }

  ghost predicate AllHold(m: Memory, objects: seq<TlsObject>, uses: Uses, resolver: Option<nat>) {
    && Holds(m, objects, uses.word, resolver) && Holds(m, objects, uses.mod, resolver)
    && Holds(m, objects, uses.off, resolver) && Holds(m, objects, uses.descriptor, resolver)
  }

  /** What the four relocations of a variable make code load. */
  lemma StoredWords(
      m: Memory, objects: seq<TlsObject>, uses: Uses, resolver: Option<nat>, owner: nat, symbol: nat, addend: nat)
    requires AllHold(m, objects, uses, resolver) && SameVariable(uses, owner, symbol, addend)
    requires owner < |objects| && objects[owner].moduleId < WORD
    ensures Mapped(m, uses.word.place, 8) && Load(m, uses.word.place) == ThreadOffset(objects[owner], symbol, addend)
    ensures Mapped(m, uses.mod.place, 8) && Load(m, uses.mod.place) == objects[owner].moduleId
    ensures Mapped(m, uses.off.place, 8) && Load(m, uses.off.place) == ModuleOffset(symbol, addend)
    ensures Mapped(m, uses.descriptor.place + 8, 8)
    ensures Load(m, uses.descriptor.place + 8) == ThreadOffset(objects[owner], symbol, addend)
  {
    hide Get, ToLittle, FromLittle, Load, Mapped;
    var word := Payload(objects, uses.word, resolver).value;
    var mod := Payload(objects, uses.mod, resolver).value;
    var off := Payload(objects, uses.off, resolver).value;
    var descriptor := Payload(objects, uses.descriptor, resolver).value;
    assert word[0..8] == word && mod[0..8] == mod && off[0..8] == off;
    LoadStored(m, uses.word.place, word, 0, ThreadOffset(objects[owner], symbol, addend));
    LoadStored(m, uses.mod.place, mod, 0, objects[owner].moduleId);
    LoadStored(m, uses.off.place, off, 0, ModuleOffset(symbol, addend));
    LoadStored(m, uses.descriptor.place, descriptor, 8, ThreadOffset(objects[owner], symbol, addend));
  }

  /**
   In every ready thread, code that goes through the stored words of one variable
   arrives at one address by all three ways: the variable's place in its block.
   */
  lemma AccessFormsAgree(
      m: Memory, fs: nat, objects: seq<TlsObject>, modules: nat, uses: Uses, resolver: Option<nat>,
      owner: nat, symbol: nat, addend: nat)
    requires ThreadReady(m, fs, objects, modules) && fs + HEAD_SIZE < WORD
    requires owner < |objects| && HasTls(objects[owner])
    requires AllHold(m, objects, uses, resolver) && SameVariable(uses, owner, symbol, addend)
    ensures Mapped(m, uses.word.place, 8) && PairReadable(m, fs, uses.mod.place) && Mapped(m, uses.descriptor.place + 8, 8)
    ensures var address := (BlockAt(fs, objects[owner]) + symbol + addend) % WORD;
      && InitialExec(m, fs, uses.word.place) == address
      && GeneralDynamic(m, fs, uses.mod.place) == address
      && ThroughDescriptor(m, fs, uses.descriptor.place) == address
  {
    hide Get, ToLittle, FromLittle, Load, Mapped, Holds;
    ReadyModule(m, fs, objects, modules, owner);
    StoredWords(m, objects, uses, resolver, owner, symbol, addend);
    AccessModelsAgree(m, fs, objects, modules, owner, symbol, addend);
  }

  lemma ReadyModule(m: Memory, fs: nat, objects: seq<TlsObject>, modules: nat, owner: nat)
    requires ThreadReady(m, fs, objects, modules) && owner < |objects| && HasTls(objects[owner])
    ensures objects[owner].moduleId < WORD && Mapped(m, fs + 8, 8) && Load(m, fs + 8) == fs + TCB_SIZE
  {
    assert SlotReady(m, fs, objects[owner], modules);
  }

  // ----- many threads

  /** Nothing mapped before has changed. */
  ghost predicate Kept(m: Memory, b: Memory) {
    forall k :: k in m ==> k in b && b[k] == m[k]
  }

  lemma KeptLoad(m: Memory, b: Memory, a: nat)
    requires Kept(m, b) && Mapped(m, a, 8)
    ensures Mapped(b, a, 8) && Load(b, a) == Load(m, a)
  {
    hide FromLittle;
    assert Get(b, a, 8) == Get(m, a, 8);
  }

  lemma KeptReady(m: Memory, b: Memory, tp: nat, objects: seq<TlsObject>, modules: nat)
    requires Kept(m, b) && ThreadReady(m, tp, objects, modules)
    ensures ThreadReady(b, tp, objects, modules)
  {
    hide Load;
    KeptLoad(m, b, tp);
    KeptLoad(m, b, tp + 8);
    KeptLoad(m, b, tp + 16);
    KeptLoad(m, b, tp + TCB_SIZE);
    forall i | 0 <= i < |objects| && HasTls(objects[i]) ensures SlotReady(b, tp, objects[i], modules) {
      assert SlotReady(m, tp, objects[i], modules);
      KeptLoad(m, b, SlotAt(tp, objects[i].moduleId));
    }
  }

  lemma KeptHolds(m: Memory, b: Memory, objects: seq<TlsObject>, r: Relocation, resolver: Option<nat>)
    requires Kept(m, b) && Holds(m, objects, r, resolver)
    ensures Holds(b, objects, r, resolver)
  {
    hide Payload;
    var n := |Payload(objects, r, resolver).value|;
    assert Get(b, r.place, n) == Get(m, r.place, n);
  }

  lemma InheritsKeeps(m: Memory, b: Memory, mapping: nat, size: nat)
    requires Inherits(m, b, mapping, size)
    ensures Kept(m, b)
  {
  }

  /** The free ranges found for the threads: on user addresses, free, and apart. */
  ghost predicate Ranges(m: Memory, mappings: seq<nat>, size: nat) {
    && (forall i :: 0 <= i < |mappings| ==> 0 < mappings[i] < CANONICAL_LIMIT && Free(m, mappings[i], size))
    && (forall i, j :: 0 <= i < j < |mappings| ==> Apart(mappings[i], size, mappings[j], size))
  }

  lemma StillFree(m: Memory, b: Memory, mappings: seq<nat>, size: nat)
    requires |mappings| > 0 && Ranges(m, mappings, size) && Inherits(m, b, mappings[0], size)
    ensures Ranges(b, mappings[1..], size)
  {
    var rest := mappings[1..];
    forall i | 0 <= i < |rest| ensures Free(b, rest[i], size) {
      assert rest[i] == mappings[i + 1] && Apart(mappings[0], size, mappings[i + 1], size);
    }
    forall i, j | 0 <= i < j < |rest| ensures Apart(rest[i], size, rest[j], size) {
      assert rest[i] == mappings[i + 1] && rest[j] == mappings[j + 1];
    }
  }

  /** Any number of threads from the template; every one is ready, and the first stays so. */
  method StartThreads(space: TlsSpace, mappings: seq<nat>, first: nat, ghost objects: seq<TlsObject>)
    returns (ok: bool, bases: seq<nat>)
    requires space.template != [] && space.TemplateReady(objects)
    requires ThreadReady(space.memory, first, objects, space.modules)
    requires Ranges(space.memory, mappings, AlignUp(|space.template|))
    modifies space`memory, space`faults
    ensures Kept(old(space.memory), space.memory) && ThreadReady(space.memory, first, objects, space.modules)
    ensures |bases| <= |mappings| && forall i :: 0 <= i < |bases| ==>
      bases[i] == mappings[i] + space.staticSize && ThreadReady(space.memory, bases[i], objects, space.modules)
    ensures space.faults >= old(space.faults)
    ensures ok <==> |bases| == |mappings|
    ensures !ok ==> space.faults > old(space.faults)
  {
    hide ThreadReady, Inherits, Free, Kept, Get, Mapped;
    bases := [];
    KeptSame(space.memory);
    while |bases| < |mappings|
      invariant |bases| <= |mappings| && space.faults >= old(space.faults)
      invariant Kept(old(space.memory), space.memory) && ThreadReady(space.memory, first, objects, space.modules)
      invariant Ranges(space.memory, mappings[|bases|..], AlignUp(|space.template|))
      invariant forall i :: 0 <= i < |bases| ==>
        bases[i] == mappings[i] + space.staticSize && ThreadReady(space.memory, bases[i], objects, space.modules)
    {
      ghost var before := space.memory;
      var rest := mappings[|bases|..];
      assert rest[0] == mappings[|bases|];
      var made, base := space.AllocateThread(rest[0], objects);
      if !made {
        return false, bases;
      }
      InheritsKeeps(before, space.memory, rest[0], AlignUp(|space.template|));
      StillFree(before, space.memory, rest, AlignUp(|space.template|));
      assert rest[1..] == mappings[|bases| + 1..];
      KeptTwice(old(space.memory), before, space.memory);
      KeptReady(before, space.memory, first, objects, space.modules);
      forall i | 0 <= i < |bases| ensures ThreadReady(space.memory, bases[i], objects, space.modules) {
        KeptReady(before, space.memory, bases[i], objects, space.modules);
      }
      bases := bases + [base];
    }
    ok := true;
  }

  lemma KeptSame(m: Memory)
    ensures Kept(m, m)
  {
  }

  lemma KeptTwice(m: Memory, b: Memory, c: Memory)
    requires Kept(m, b) && Kept(b, c)
    ensures Kept(m, c)
  {
  }

  /**
   The whole start of a program with thread-local variables: relocations, the
   first thread, more threads.  At the end every relocation still holds and every
   thread is ready, so AccessFormsAgree applies to each of them.
   */
  method Start(
      space: TlsSpace, objects: seq<TlsObject>, table: seq<Relocation>, resolver: Option<nat>,
      size: nat, mapping: nat, mappings: seq<nat>, ghost largest: nat, ghost count: nat)
    returns (ok: bool, bases: seq<nat>)
    requires forall i :: 0 <= i < |table| && table[i].target.Defined? ==> table[i].target.owner < |objects|
    requires PlacesApart(table) && size > 0
    requires Placed(objects, |objects|, size, largest, count + 1) && Loaded(objects)
    requires forall i :: 0 <= i < |objects| && HasTls(objects[i]) ==>
      Mapped(space.memory, objects[i].image, objects[i].fileSize)
    requires Ranges(space.memory, [mapping] + mappings, AlignUp(size + HEAD_SIZE))
    modifies space
    ensures ok ==> |bases| == |mappings| + 1 && forall t :: 0 <= t < |bases| ==>
      ThreadReady(space.memory, bases[t], objects, count) && bases[t] == ([mapping] + mappings)[t] + size
    ensures ok ==> forall i :: 0 <= i < |table| ==> Holds(space.memory, objects, table[i], resolver)
    ensures !ok ==> space.faults > old(space.faults) || !Applicable(old(space.memory), objects, table, resolver)
  {
    hide ThreadReady, Inherits, Free, Kept, Get, Mapped, Placed, Holds, Payload, Relocated, BlockInitial;
    ghost var loaded := space.memory;
    bases := [];
    ok := ApplyTable(space, objects, table, resolver);
    if !ok {
      return;
    }
    ghost var relocated := space.memory;
    SameKeysMapped(loaded, relocated, objects, [mapping] + mappings, AlignUp(size + HEAD_SIZE));
    assert ([mapping] + mappings)[0] == mapping;
    var first;
    ok, first := space.InitializeStaticTls(objects, size, mapping, largest, count);
    if !ok {
      return;
    }
    ghost var started := space.memory;
    InheritsKeeps(relocated, started, mapping, AlignUp(size + HEAD_SIZE));
    StillFree(relocated, started, [mapping] + mappings, AlignUp(size + HEAD_SIZE));
    assert ([mapping] + mappings)[1..] == mappings;
    var more;
    ok, more := StartThreads(space, mappings, first, objects);
    bases := [first] + more;
    if ok {
      KeptTwice(relocated, started, space.memory);
      forall i | 0 <= i < |table| ensures Holds(space.memory, objects, table[i], resolver) {
        RelocatedHolds(loaded, objects, table, resolver, |table|, i);
        KeptHolds(relocated, space.memory, objects, table[i], resolver);
      }
    }
  }

  lemma SameKeysMapped(m: Memory, b: Memory, objects: seq<TlsObject>, mappings: seq<nat>, size: nat)
    requires m.Keys == b.Keys && Ranges(m, mappings, size)
    requires forall i :: 0 <= i < |objects| && HasTls(objects[i]) ==> Mapped(m, objects[i].image, objects[i].fileSize)
    ensures Ranges(b, mappings, size)
    ensures forall i :: 0 <= i < |objects| && HasTls(objects[i]) ==> Mapped(b, objects[i].image, objects[i].fileSize)
  {
    forall i | 0 <= i < |mappings| ensures Free(b, mappings[i], size) {
      assert Free(m, mappings[i], size);
    }
    forall i | 0 <= i < |objects| && HasTls(objects[i]) ensures Mapped(b, objects[i].image, objects[i].fileSize) {
      assert Mapped(m, objects[i].image, objects[i].fileSize);
    }
  }
}
