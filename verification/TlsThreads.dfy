/**
 Thread-local storage of running threads (kernel/process.c, user/nova_ld.asm):
 the first thread's blocks, thread control block and dynamic thread vector, the
 template later threads are made from, and the ways code computes addresses.
 */
module TlsThreads {
  import opened VmTypes
  import opened Bytes
  import opened TlsLayout

  /** Mapped user bytes. */
  type Memory = map<nat, byte>

  ghost predicate Mapped(m: Memory, a: nat, n: nat) {
    forall k :: a <= k < a + n ==> k in m
  }

  /** Bytes of `b` outside [a, a + n) are those of `m`. */
  ghost predicate SameBut(m: Memory, b: Memory, a: nat, n: nat) {
    m.Keys == b.Keys && forall k :: k in m && !(a <= k < a + n) ==> b[k] == m[k]
  }

  function Get(m: Memory, a: nat, n: nat): (bytes: seq<byte>)
    requires Mapped(m, a, n)
    ensures |bytes| == n && forall k: nat :: k < n ==> bytes[k] == m[a + k]
  {
    seq(n, k requires 0 <= k < n && Mapped(m, a, n) => m[a + k])
  }

  function Put(m: Memory, a: nat, data: seq<byte>): (b: Memory)
    ensures b.Keys == m.Keys
    ensures forall k :: k in m ==> b[k] == if a <= k < a + |data| then data[k - a] else m[k]
  {
    map k | k in m :: if a <= k < a + |data| then data[k - a] else m[k]
  }

  lemma GetPut(m: Memory, a: nat, data: seq<byte>)
    requires Mapped(m, a, |data|)
    ensures Mapped(Put(m, a, data), a, |data|) && Get(Put(m, a, data), a, |data|) == data
  {
  }

  /** A range that is not written keeps its bytes. */
  lemma GetSame(m: Memory, b: Memory, a: nat, n: nat, c: nat, k: nat)
    requires Mapped(m, c, k) && SameBut(m, b, a, n) && (c + k <= a || a + n <= c)
    ensures Mapped(b, c, k) && Get(b, c, k) == Get(m, c, k)
  {
  }

  lemma PutSameBut(m: Memory, a: nat, data: seq<byte>, from: nat, n: nat)
    requires from <= a && a + |data| <= from + n
    ensures SameBut(m, Put(m, a, data), from, n)
  {
  }

  /** A 64-bit load. */
  function Load(m: Memory, a: nat): (value: nat)
    requires Mapped(m, a, 8)
    ensures value < WORD
  {
    WidthRanges();
    FromLittle(Get(m, a, 8))
  }

  function Store(m: Memory, a: nat, value: nat): Memory {
    Put(m, a, ToLittle(value, 8))
  }

  lemma LoadStore(m: Memory, a: nat, value: nat)
    requires Mapped(m, a, 8) && value < WORD
    ensures Mapped(Store(m, a, value), a, 8) && Load(Store(m, a, value), a) == value
  {
    GetPut(m, a, ToLittle(value, 8));
    WidthRanges();
    LittleRoundTrip(value, 8);
  }

  lemma LoadSame(m: Memory, b: Memory, a: nat, n: nat, c: nat)
    requires Mapped(m, c, 8) && SameBut(m, b, a, n) && (c + 8 <= a || a + n <= c)
    ensures Mapped(b, c, 8) && Load(b, c) == Load(m, c)
  {
    GetSame(m, b, a, n, c, 8);
  }

  // ----- what a thread looks like

  const HEAD_SIZE := TCB_SIZE + DTV_SIZE

  /** The slot of a module in the dynamic thread vector of the thread at `tp`. */
  function SlotAt(tp: nat, moduleId: nat): nat {
    tp + TCB_SIZE + 8 * moduleId
  }

  /** Thread control block and dynamic thread vector of the thread at `tp` are in place. */
  ghost predicate ThreadReady(m: Memory, tp: nat, objects: seq<TlsObject>, modules: nat) {
    && Mapped(m, tp, HEAD_SIZE) && modules < DTV_ENTRIES
    && Load(m, tp) == tp && Load(m, tp + 8) == tp + TCB_SIZE && Load(m, tp + 16) == tp
    && Load(m, tp + TCB_SIZE) == modules
    && forall i :: 0 <= i < |objects| && HasTls(objects[i]) ==> SlotReady(m, tp, objects[i], modules)
  }

  ghost predicate SlotReady(m: Memory, tp: nat, o: TlsObject, modules: nat) {
    && 1 <= o.moduleId <= modules < DTV_ENTRIES && 0 < o.offset < tp
    && Mapped(m, SlotAt(tp, o.moduleId), 8) && Load(m, SlotAt(tp, o.moduleId)) == tp - o.offset
  }

  // ----- access models

  /** __tls_get_addr: the general-dynamic form, through the vector at FS:8. */
  ghost function TlsGetAddr(m: Memory, fs: nat, moduleId: nat, offset: nat): nat
    requires Mapped(m, fs + 8, 8)
    requires var dtv := Load(m, fs + 8);
      dtv != 0 && moduleId != 0 ==>
        Mapped(m, dtv, 8) && (moduleId <= Load(m, dtv) ==> Mapped(m, dtv + 8 * moduleId, 8))
  {
    var dtv := Load(m, fs + 8);
    if dtv == 0 || moduleId == 0 then 0
    else if moduleId > Load(m, dtv) then 0
    else
      var block := Load(m, dtv + 8 * moduleId);
      if block == 0 then 0 else (block + offset) % WORD
  }

  /** The TPOFF64 relocation value, and the second word of a TLSDESC descriptor. */
  function ThreadOffset(o: TlsObject, symbol: nat, addend: nat): nat {
    (symbol - o.offset + addend) % WORD
  }

  /** The DTPOFF64 relocation value. */
  function ModuleOffset(symbol: nat, addend: nat): nat {
    (symbol + addend) % WORD
  }

  /**
   In every thread the local-exec (TPOFF), general-dynamic (DTPMOD and DTPOFF
   through __tls_get_addr) and TLSDESC forms of one variable give one address.
   */
  lemma AccessModelsAgree(m: Memory, tp: nat, objects: seq<TlsObject>, modules: nat, i: nat, symbol: nat, addend: nat)
    requires ThreadReady(m, tp, objects, modules) && i < |objects| && HasTls(objects[i])
    requires tp + HEAD_SIZE < WORD
    ensures Mapped(m, tp + 8, 8) && Mapped(m, tp + TCB_SIZE, 8)
    ensures Mapped(m, tp + TCB_SIZE + 8 * objects[i].moduleId, 8)
    ensures var o := objects[i];
      && TlsGetAddr(m, tp, o.moduleId, ModuleOffset(symbol, addend)) ==
           (tp + ThreadOffset(o, symbol, addend)) % WORD
      && TlsGetAddr(m, tp, o.moduleId, ModuleOffset(symbol, addend)) ==
           (BlockAt(tp, o) + symbol + addend) % WORD
  {
    var o := objects[i];
    hide Load;
    assert SlotReady(m, tp, o, modules);
    ModuloJoins(tp - o.offset, symbol + addend);
    ModuloJoins(tp, symbol - o.offset + addend);
  }

  lemma ModuloJoins(a: int, b: int)
    ensures (a + b % WORD) % WORD == (a + b) % WORD
  {
    var q := b / WORD;
    assert b == q * WORD + b % WORD;
    assert a + b == (a + b % WORD) + q * WORD;
  }

  // ----- setting threads up

  ghost predicate Apart(a: nat, n: nat, b: nat, k: nat) {
    n == 0 || k == 0 || a + n <= b || b + k <= a
  }

  /** Nothing is mapped in [a, a + n). */
  ghost predicate Free(m: Memory, a: nat, n: nat) {
    forall k :: a <= k < a + n ==> k !in m
  }

  function Addresses(a: nat, n: nat): (addresses: set<nat>)
    ensures forall k :: k in addresses <==> a <= k < a + n
  {
    if n == 0 then {} else Addresses(a, n - 1) + {a + n - 1}
  }

  function Zeros(a: nat, n: nat): Memory {
    map k | k in Addresses(a, n) :: 0
  }

  /** The initial images of the first `n` objects copied below `tp`; `source` holds the images. */
  ghost function Imaged(m: Memory, source: Memory, tp: nat, objects: seq<TlsObject>, n: nat): (b: Memory)
    requires n <= |objects|
    requires forall i :: 0 <= i < n && HasTls(objects[i]) ==>
      objects[i].offset <= tp && Mapped(source, objects[i].image, objects[i].fileSize)
    ensures b.Keys == m.Keys
  {
    if n == 0 then m
    else
      var o := objects[n - 1];
      var rest := Imaged(m, source, tp, objects, n - 1);
      if HasTls(o) then Put(rest, tp - o.offset, Get(source, o.image, o.fileSize)) else rest
  }

  /** The requests the loader lets through: the image is no larger than the block. */
  ghost predicate Loaded(objects: seq<TlsObject>) {
    |objects| <= MAX_OBJECTS && forall i :: 0 <= i < |objects| ==> objects[i].fileSize <= objects[i].memorySize
  }

  /** The block holds its image followed by zeros. */
  ghost predicate BlockInitial(m: Memory, source: Memory, tp: nat, o: TlsObject) {
    && o.offset <= tp && o.fileSize <= o.memorySize && Mapped(source, o.image, o.fileSize)
    && Mapped(m, tp - o.offset, o.memorySize)
    && Get(m, tp - o.offset, o.memorySize) ==
         Get(source, o.image, o.fileSize) + seq(o.memorySize - o.fileSize, _ => 0)
  }

  ghost predicate ZeroRange(m: Memory, a: nat, n: nat) {
    Mapped(m, a, n) && forall k :: a <= k < a + n ==> m[k] == 0
  }

  /** Copying the images in turn initializes every block: later copies miss the earlier blocks. */
  lemma {:induction false} ImagedBlock(
      m: Memory, source: Memory, tp: nat, objects: seq<TlsObject>, n: nat, i: nat,
      cursor: nat, largest: nat, next: nat)
    requires Placed(objects, |objects|, cursor, largest, next) && Loaded(objects) && cursor <= tp
    requires i < |objects| && n <= |objects| && HasTls(objects[i])
    requires forall j :: 0 <= j < n && HasTls(objects[j]) ==>
      objects[j].offset <= tp && Mapped(source, objects[j].image, objects[j].fileSize)
    requires ZeroRange(m, tp - cursor, cursor)
    ensures objects[i].offset <= cursor
    ensures i < n ==> BlockInitial(Imaged(m, source, tp, objects, n), source, tp, objects[i])
    ensures i >= n ==> ZeroRange(Imaged(m, source, tp, objects, n), tp - objects[i].offset, objects[i].memorySize)
    decreases n
  {
    hide Put, Get, PowerOfTwo, BlockInitial, ZeroRange;
    var o := objects[i];
    assert PlacedOne(o, cursor, largest, next);
    if n == 0 {
      ZeroPart(m, tp - cursor, cursor, tp - o.offset, o.memorySize);
    } else {
      ImagedBlock(m, source, tp, objects, n - 1, i, cursor, largest, next);
      var last := objects[n - 1];
      var rest := Imaged(m, source, tp, objects, n - 1);
      var now := Imaged(m, source, tp, objects, n);
      if HasTls(last) {
        if n - 1 == i {
          ImageThenZeros(rest, source, tp, o);
        } else {
          BlocksDisjoint(objects, cursor, largest, next, tp, i, n - 1);
          PutSameBut(rest, tp - last.offset, Get(source, last.image, last.fileSize), tp - last.offset, last.memorySize);
          BlockKept(rest, now, source, tp, o, tp - last.offset, last.memorySize);
        }
      }
    }
  }

  lemma ZeroPart(m: Memory, a: nat, n: nat, b: nat, k: nat)
    requires ZeroRange(m, a, n) && a <= b && b + k <= a + n
    ensures ZeroRange(m, b, k)
  {
  }

  lemma BlockKept(m: Memory, b: Memory, source: Memory, tp: nat, o: TlsObject, a: nat, n: nat)
    requires SameBut(m, b, a, n) && o.offset <= tp
    requires tp - o.offset + o.memorySize <= a || a + n <= tp - o.offset
    ensures BlockInitial(m, source, tp, o) ==> BlockInitial(b, source, tp, o)
    ensures ZeroRange(m, tp - o.offset, o.memorySize) ==> ZeroRange(b, tp - o.offset, o.memorySize)
  {
    if Mapped(m, tp - o.offset, o.memorySize) {
      GetSame(m, b, a, n, tp - o.offset, o.memorySize);
    }
  }

  lemma ImageThenZeros(m: Memory, source: Memory, tp: nat, o: TlsObject)
    requires o.offset <= tp && o.fileSize <= o.memorySize && Mapped(source, o.image, o.fileSize)
    requires ZeroRange(m, tp - o.offset, o.memorySize)
    ensures BlockInitial(Put(m, tp - o.offset, Get(source, o.image, o.fileSize)), source, tp, o)
  {
    var b := Put(m, tp - o.offset, Get(source, o.image, o.fileSize));
    assert Get(b, tp - o.offset, o.memorySize) ==
      Get(source, o.image, o.fileSize) + seq(o.memorySize - o.fileSize, _ => 0);
  }

  class TlsSpace {
    var memory: Memory
    var template: seq<byte>
    var staticSize: nat
    var templatePointer: nat
    var modules: nat
    ghost var faults: nat // copies and mappings that failed for want of memory

    /** vm_copy_to_user, which may fail part way. */
    method CopyOut(a: nat, data: seq<byte>) returns (ok: bool)
      modifies this`memory, this`faults
      ensures faults >= old(faults) && (!ok ==> faults > old(faults) || !Mapped(old(memory), a, |data|))
      ensures ok ==> Mapped(old(memory), a, |data|) && memory == Put(old(memory), a, data)
      ensures SameBut(old(memory), memory, a, |data|)
    {
      var done := 0;
      ghost var before := memory;
      while done < |data|
        invariant 0 <= done <= |data|
        invariant Mapped(before, a, done) && memory == Put(before, a, data[..done]) && faults == old(faults)
      {
        var fails := *;
        if fails {
          faults := faults + 1;
          return false;
        }
        if a + done !in memory {
          return false;
        }
        memory := memory[a + done := data[done]];
        done := done + 1;
      }
      assert data[..done] == data;
      ok := true;
    }

    /** vm_copy_from_user */
    method CopyIn(a: nat, n: nat) returns (ok: bool, data: seq<byte>)
      modifies this`faults
      ensures faults >= old(faults) && (!ok ==> faults > old(faults) || !Mapped(memory, a, n))
      ensures ok ==> Mapped(memory, a, n) && data == Get(memory, a, n)
    {
      data := [];
      while |data| < n
        invariant |data| <= n && Mapped(memory, a, |data|) && data == Get(memory, a, |data|) && faults == old(faults)
      {
        var fails := *;
        if fails {
          faults := faults + 1;
          return false, [];
        }
        if a + |data| !in memory {
          return false, [];
        }
        data := data + [memory[a + |data|]];
      }
      ok := true;
    }

    /** map_user_rw_pages over a free range: all of it, zeroed, or nothing. */
    method MapZero(mapping: nat, size: nat) returns (ok: bool)
      requires Free(memory, mapping, size)
      modifies this`memory, this`faults
      ensures memory == if ok then old(memory) + Zeros(mapping, size) else old(memory)
      ensures faults == old(faults) + if ok then 0 else 1
    {
      ok := *;
      if ok {
        memory := memory + Zeros(mapping, size);
      } else {
        faults := faults + 1;
      }
    }

    method UnmapRange(mapping: nat, size: nat)
      modifies this`memory
      ensures memory == old(memory) - Addresses(mapping, size)
    {
      memory := memory - Addresses(mapping, size);
    }

    /** Copies an image into its block through a 512-byte buffer. */
    method CopyImage(image: nat, destination: nat, size: nat) returns (ok: bool)
      requires Apart(image, size, destination, size)
      modifies this`memory, this`faults
      ensures faults >= old(faults)
      ensures !ok ==>
        faults > old(faults) || !Mapped(old(memory), image, size) || !Mapped(old(memory), destination, size)
      ensures SameBut(old(memory), memory, destination, size)
      ensures ok ==> Mapped(old(memory), image, size)
      ensures ok ==> memory == Put(old(memory), destination, Get(old(memory), image, size))
    {
      hide Put, Get, SameBut, Mapped;
      var copied := 0;
      ghost var before := memory;
      NothingCopied(before, image, destination);
      while copied < size
        invariant 0 <= copied <= size
        invariant Mapped(before, image, copied) && memory == Put(before, destination, Get(before, image, copied))
        invariant SameBut(before, memory, destination, size) && faults >= old(faults)
      {
        var chunk := size - copied;
        if chunk > 512 {
          chunk := 512;
        }
        PartMapped(before, memory, destination, size, image, size, copied, chunk);
        PartMapped(before, memory, destination, size, destination, size, copied, chunk);
        var buffer;
        ok, buffer := CopyIn(image + copied, chunk);
        if !ok {
          return false;
        }
        ghost var middle := memory;
        ok := CopyOut(destination + copied, buffer);
        SameButWithin(before, middle, memory, destination, size, destination + copied, chunk);
        if !ok {
          return false;
        }
        ImageStep(before, middle, image, destination, size, copied, chunk);
        copied := copied + chunk;
      }
      ok := true;
    }

    ghost predicate TemplateReady(objects: seq<TlsObject>)
      reads this
    {
      TemplateBytes(template, staticSize, templatePointer, modules, objects)
    }

    /** The vector of the thread at `tp`.  At most 128 objects exist, so every module has a slot. */
    method BuildVector(objects: seq<TlsObject>, tp: nat, ghost size: nat, ghost largest: nat, ghost count: nat)
      returns (dtv: seq<nat>, moduleCount: nat)
      requires Placed(objects, |objects|, size, largest, count + 1) && Loaded(objects) && size < tp
      ensures |dtv| == DTV_ENTRIES && VectorOk(dtv, tp, objects, count) && moduleCount == count
    {
      hide PowerOfTwo;
      dtv, moduleCount := seq(DTV_ENTRIES, _ => 0), 0;
      var index := 0;
      while index < |objects|
        invariant 0 <= index <= |objects| && |dtv| == DTV_ENTRIES && moduleCount <= count
        invariant forall i :: 0 <= i < index && HasTls(objects[i]) ==>
          objects[i].moduleId <= moduleCount && VectorSlot(dtv, tp, objects[i], count)
        invariant moduleCount == 0 || HasModule(objects, index, moduleCount)
        invariant forall k :: 0 <= k < DTV_ENTRIES ==> dtv[k] <= tp
      {
        var o := objects[index];
        assert HasTls(o) ==> PlacedOne(o, size, largest, count + 1);
        if o.moduleId != 0 {
          dtv := dtv[o.moduleId := tp - o.offset];
          forall i | 0 <= i < index && HasTls(objects[i]) ensures VectorSlot(dtv, tp, objects[i], count) {
            assert Follows(objects[i], o);
          }
          if o.moduleId > moduleCount {
            moduleCount := o.moduleId;
          }
        }
        index := index + 1;
      }
      assert count > 0 ==> HasModule(objects, |objects|, count);
      dtv := dtv[0 := moduleCount];
    }

    /** Copies every image into its block of the thread at `tp`. */
    method CopyImages(objects: seq<TlsObject>, tp: nat, ghost source: Memory, ghost mapping: nat, ghost size: nat)
      returns (ok: bool)
      requires Images(objects, source, tp, mapping, size) && Inherits(source, memory, mapping, size)
      modifies this`memory, this`faults
      ensures faults >= old(faults) && (!ok ==> faults > old(faults))
      ensures SameBut(old(memory), memory, mapping, size)
      ensures ok ==> memory == Imaged(old(memory), source, tp, objects, |objects|)
    {
      hide Put, Get, Mapped, SameBut, Free, Inherits;
      ghost var before := memory;
      NothingCopied(before, 0, mapping);
      ImagesMapped(objects, source, tp, mapping, size);
      var index := 0;
      while index < |objects|
        invariant 0 <= index <= |objects| && SameBut(before, memory, mapping, size) && faults >= old(faults)
        invariant memory == Imaged(before, source, tp, objects, index)
      {
        var o := objects[index];
        if HasTls(o) {
          ghost var middle := memory;
          ImageOutside(o, before, memory, source, tp, mapping, size);
          ok := CopyImage(o.image, tp - o.offset, o.fileSize);
          SameButWithin(before, middle, memory, mapping, size, tp - o.offset, o.fileSize);
          if !ok {
            return false;
          }
        }
        index := index + 1;
      }
      ok := true;
    }

    /** Writes the thread control block, then the vector behind it. */
    method WriteHead(tp: nat, dtv: seq<nat>) returns (ok: bool)
      requires |dtv| == DTV_ENTRIES
      modifies this`memory, this`faults
      ensures faults >= old(faults) && (!ok ==> faults > old(faults) || !Mapped(old(memory), tp, HEAD_SIZE))
      ensures SameBut(old(memory), memory, tp, HEAD_SIZE)
      ensures ok ==> memory == Put(Put(old(memory), tp, WordsBytes(ControlBlock(tp))), tp + TCB_SIZE, WordsBytes(dtv))
    {
      hide Put, SameBut, WordsBytes;
      ghost var before := memory;
      NothingCopied(before, 0, tp);
      PartMapped(before, before, tp, HEAD_SIZE, tp, HEAD_SIZE, 0, TCB_SIZE);
      ok := CopyOut(tp, WordsBytes(ControlBlock(tp)));
      ghost var middle := memory;
      SameButWithin(before, before, middle, tp, HEAD_SIZE, tp, TCB_SIZE);
      PartMapped(before, middle, tp, HEAD_SIZE, tp, HEAD_SIZE, TCB_SIZE, DTV_SIZE);
      if ok {
        ok := CopyOut(tp + TCB_SIZE, WordsBytes(dtv));
        SameButWithin(before, middle, memory, tp, HEAD_SIZE, tp + TCB_SIZE, DTV_SIZE);
      }
    }

    /** initialize_static_tls; `mapping` is the free range found for it, 0 when there is none. */
    method InitializeStaticTls(objects: seq<TlsObject>, size: nat, mapping: nat, ghost largest: nat, ghost count: nat)
      returns (ok: bool, fsBase: nat)
      requires Placed(objects, |objects|, size, largest, count + 1) && Loaded(objects)
      requires forall i :: 0 <= i < |objects| && HasTls(objects[i]) ==> Mapped(memory, objects[i].image, objects[i].fileSize)
      requires mapping > 0 ==> Free(memory, mapping, AlignUp(size + HEAD_SIZE)) && mapping < CANONICAL_LIMIT
      modifies this
      ensures size == 0 ==> ok && fsBase == 0 && memory == old(memory)
      ensures !ok ==> memory == old(memory) && template == old(template)
      ensures faults >= old(faults) && (!ok ==> mapping == 0 || faults > old(faults))
      ensures ok && size > 0 ==> fsBase == mapping + size && mapping > 0
      ensures ok && size > 0 ==> ThreadReady(memory, fsBase, objects, count)
      ensures ok && size > 0 ==> Inherits(old(memory), memory, mapping, AlignUp(size + HEAD_SIZE))
      ensures ok && size > 0 ==> TemplateReady(objects) && staticSize == size && modules == count
      ensures ok && size > 0 ==> Mapped(memory, mapping, size) && template[..size] == Get(memory, mapping, size)
      ensures ok && size > 0 ==> forall i :: 0 <= i < |objects| && HasTls(objects[i]) ==>
        BlockInitial(memory, old(memory), fsBase, objects[i])
    {
      hide Put, Get, Mapped, SameBut, Placed, Load, PowerOfTwo, Free, Zeros, Inherits, ZeroRange;
      hide ThreadReady, BlockInitial, TemplateBytes;
      if size == 0 {
        return true, 0;
      }
      ok, fsBase := false, 0;
      ghost var source := memory;
      SizeBound(objects, size, largest, count + 1);
      var mappingSize := AlignUp(size + HEAD_SIZE);
      if mapping == 0 {
        return;
      }
      ok := MapZero(mapping, mappingSize);
      if !ok {
        return;
      }
      ghost var blank := memory;
      FreshMapping(source, mapping, mappingSize);
      var data, moduleCount;
      ok, data, moduleCount := Populate(objects, mapping, size, mappingSize, source, largest, count);
      StillInherits(source, blank, memory, mapping, mappingSize);
      if !ok {
        Unmapped(source, blank, memory, mapping, mappingSize);
        UnmapRange(mapping, mappingSize);
        return false, 0;
      }
      template, staticSize, templatePointer, modules := data, size, mapping + size, moduleCount;
      return true, mapping + size;
    }

    /** The part of initialize_static_tls between mapping the range and keeping the template. */
    method Populate(
      objects: seq<TlsObject>, mapping: nat, size: nat, mappingSize: nat, ghost source: Memory,
      ghost largest: nat, ghost count: nat)
      returns (ok: bool, data: seq<byte>, moduleCount: nat)
      requires Placed(objects, |objects|, size, largest, count + 1) && Loaded(objects) && size + HEAD_SIZE <= mappingSize
      requires forall i :: 0 <= i < |objects| && HasTls(objects[i]) ==> Mapped(source, objects[i].image, objects[i].fileSize)
      requires Free(source, mapping, mappingSize) && Inherits(source, memory, mapping, mappingSize)
      requires ZeroRange(memory, mapping, mappingSize) && 0 < mapping && mapping + mappingSize < WORD
      modifies this`memory, this`faults
      ensures SameBut(old(memory), memory, mapping, mappingSize)
      ensures faults >= old(faults) && (!ok ==> faults > old(faults))
      ensures ok ==> ThreadReady(memory, mapping + size, objects, count) && moduleCount == count
      ensures ok ==> Mapped(memory, mapping, size) && |data| >= size && data[..size] == Get(memory, mapping, size)
      ensures ok ==> TemplateBytes(data, size, mapping + size, count, objects)
      ensures ok ==> forall i :: 0 <= i < |objects| && HasTls(objects[i]) ==>
        BlockInitial(memory, source, mapping + size, objects[i])
    {
      hide Put, Get, Mapped, SameBut, Placed, Load, WordsBytes, PowerOfTwo, Free, Zeros, Inherits, Images;
      hide ThreadReady, BlockInitial, VectorOk, Imaged, TemplateBytes, ZeroRange;
      ghost var blank := memory;
      var tp := mapping + size;
      ZeroIsMapped(blank, mapping, mappingSize);
      NothingCopied(blank, 0, mapping);
      PlacedImages(objects, source, tp, mapping, size, mappingSize, largest, count + 1);
      ImagesMapped(objects, source, tp, mapping, mappingSize);
      data := [];
      ok := CopyImages(objects, tp, source, mapping, mappingSize);
      ghost var imaged := memory;
      var dtv;
      dtv, moduleCount := BuildVector(objects, tp, size, largest, count);
      if !ok {
        return;
      }
      PartMapped(blank, imaged, mapping, mappingSize, mapping, mappingSize, size, HEAD_SIZE);
      ok := WriteHead(tp, dtv);
      SameButWithin(blank, imaged, memory, mapping, mappingSize, tp, HEAD_SIZE);
      if !ok {
        return;
      }
      PartMapped(blank, memory, mapping, mappingSize, mapping, mappingSize, 0, size + HEAD_SIZE);
      ok, data := CopyIn(mapping, size + HEAD_SIZE);
      if ok {
        FirstThread(source, blank, imaged, memory, objects, mapping, size, mappingSize, largest, count, dtv);
      }
    }

    method StoreWord(a: nat, value: nat) returns (ok: bool)
      modifies this`memory, this`faults
      ensures faults >= old(faults) && (!ok ==> faults > old(faults) || !Mapped(old(memory), a, 8))
      ensures ok ==> Mapped(old(memory), a, 8) && memory == Store(old(memory), a, value)
      ensures SameBut(old(memory), memory, a, 8)
    {
      ok := CopyOut(a, ToLittle(value, 8));
    }

    method LoadWord(a: nat) returns (ok: bool, value: nat)
      modifies this`faults
      ensures faults >= old(faults) && (!ok ==> faults > old(faults) || !Mapped(memory, a, 8))
      ensures ok ==> Mapped(memory, a, 8) && value == Load(memory, a)
    {
      var data;
      ok, data := CopyIn(a, 8);
      value := FromLittle(data);
    }

    /** The three words of the control block that name the thread itself. */
    method RenameThread(tp: nat) returns (ok: bool)
      requires tp + HEAD_SIZE < WORD
      modifies this`memory, this`faults
      ensures faults >= old(faults) && (!ok ==> faults > old(faults) || !Mapped(old(memory), tp, 24))
      ensures SameBut(old(memory), memory, tp, 24)
      ensures ok ==> Mapped(memory, tp, 24) && Load(memory, tp) == tp
      ensures ok ==> Load(memory, tp + 8) == tp + TCB_SIZE && Load(memory, tp + 16) == tp
    {
      hide Store, Load;
      ghost var m0 := memory;
      NothingCopied(m0, 0, tp);
      ok := StoreWord(tp, tp);
      ghost var m1 := memory;
      SameButWithin(m0, m0, m1, tp, 24, tp, 8);
      if !ok {
        return;
      }
      LoadStore(m0, tp, tp);
      ok := StoreWord(tp + 8, tp + TCB_SIZE);
      ghost var m2 := memory;
      SameButWithin(m0, m1, m2, tp, 24, tp + 8, 8);
      if !ok {
        return;
      }
      LoadStore(m1, tp + 8, tp + TCB_SIZE);
      LoadSame(m1, m2, tp + 8, 8, tp);
      ok := StoreWord(tp + 16, tp);
      SameButWithin(m0, m2, memory, tp, 24, tp + 16, 8);
      if !ok {
        return;
      }
      LoadStore(m2, tp + 16, tp);
      LoadSame(m2, memory, tp + 16, 8, tp);
      LoadSame(m2, memory, tp + 16, 8, tp + 8);
    }

    /** Moves every vector slot from the template's thread to the thread at `tp`. */
    method RebaseVector(tp: nat, ghost objects: seq<TlsObject>) returns (ok: bool)
      requires VectorBelow(memory, tp, modules, templatePointer) && tp + HEAD_SIZE < WORD
      requires forall i :: 0 <= i < |objects| && HasTls(objects[i]) ==>
        SlotHolds(memory, tp, objects[i], modules, templatePointer) && objects[i].offset < tp
      modifies this`memory, this`faults
      ensures faults >= old(faults) && (!ok ==> faults > old(faults))
      ensures SameBut(old(memory), memory, tp + TCB_SIZE + 8, 8 * modules)
      ensures ok ==> forall i :: 0 <= i < |objects| && HasTls(objects[i]) ==>
        SlotHolds(memory, tp, objects[i], modules, tp)
    {
      hide Store, Load, SameBut, Mapped;
      ghost var before := memory;
      NothingCopied(before, 0, tp + TCB_SIZE + 8);
      var moduleId := 1;
      while moduleId <= modules
        invariant 1 <= moduleId <= modules + 1
        invariant SameBut(before, memory, tp + TCB_SIZE + 8, 8 * modules) && faults >= old(faults)
        invariant SameBut(before, memory, tp + TCB_SIZE + 8, 8 * (moduleId - 1))
        invariant forall i :: 0 <= i < |objects| && HasTls(objects[i]) ==>
          SlotHolds(memory, tp, objects[i], modules, if objects[i].moduleId < moduleId then tp else templatePointer)
      {
        var slot := SlotAt(tp, moduleId);
        SlotBelow(before, memory, tp, modules, templatePointer, moduleId);
        var original;
        ok, original := LoadWord(slot);
        if !ok {
          return false;
        }
        if original != 0 {
          if original > templatePointer {
            return false;
          }
          ghost var middle := memory;
          ok := StoreWord(slot, (tp - (templatePointer - original)) % WORD);
          SameButWithin(before, middle, memory, tp + TCB_SIZE + 8, 8 * modules, slot, 8);
          SameButMore(before, middle, memory, tp + TCB_SIZE + 8, 8 * (moduleId - 1));
          if !ok {
            return false;
          }
          forall i | 0 <= i < |objects| && HasTls(objects[i])
            ensures SlotHolds(memory, tp, objects[i], modules,
              if objects[i].moduleId <= moduleId then tp else templatePointer)
          {
            SlotMoved(middle, memory, tp, objects[i], modules, templatePointer, moduleId, original);
          }
        } else {
          SameButMore(before, memory, memory, tp + TCB_SIZE + 8, 8 * (moduleId - 1));
        }
        moduleId := moduleId + 1;
      }
      ok := true;
    }

    /**
     allocate_thread_tls: another thread from the template, in the free range
     `mapping` found for it (0 when there is none).
     */
    method AllocateThread(mapping: nat, ghost objects: seq<TlsObject>) returns (ok: bool, fsBase: nat)
      requires template == [] || TemplateReady(objects)
      requires mapping > 0 ==> Free(memory, mapping, AlignUp(|template|)) && mapping < CANONICAL_LIMIT
      modifies this`memory, this`faults
      ensures template == [] ==> ok && fsBase == 0 && memory == old(memory)
      ensures !ok ==> memory == old(memory) && (mapping == 0 || faults > old(faults))
      ensures faults >= old(faults)
      ensures ok && template != [] ==> fsBase == mapping + staticSize && mapping > 0
      ensures ok && template != [] ==> ThreadReady(memory, fsBase, objects, modules)
      ensures ok && template != [] ==> Inherits(old(memory), memory, mapping, AlignUp(|template|))
      ensures ok && template != [] ==> Mapped(memory, mapping, staticSize) && staticSize <= |template|
      ensures ok && template != [] ==> Get(memory, mapping, staticSize) == template[..staticSize]
    {
      hide Put, Get, Mapped, SameBut, Load, Free, Zeros, Inherits, FromLittle, ThreadReady, ZeroRange;
      if template == [] {
        return true, 0;
      }
      ok, fsBase := false, 0;
      ghost var source := memory;
      TemplateBound(|template|);
      var mappingSize := AlignUp(|template|);
      if mapping == 0 {
        return;
      }
      ok := MapZero(mapping, mappingSize);
      if !ok {
        return;
      }
      ghost var blank := memory;
      FreshMapping(source, mapping, mappingSize);
      ok := FillThread(mapping, objects, mappingSize);
      StillInherits(source, blank, memory, mapping, mappingSize);
      if !ok {
        Unmapped(source, blank, memory, mapping, mappingSize);
        UnmapRange(mapping, mappingSize);
        return false, 0;
      }
      return true, mapping + staticSize;
    }

    /** The part of allocate_thread_tls that turns a mapped range into a thread. */
    method FillThread(mapping: nat, ghost objects: seq<TlsObject>, ghost mappingSize: nat) returns (ok: bool)
      requires TemplateReady(objects) && |template| <= mappingSize && mapping + mappingSize < WORD && mapping > 0
      requires ZeroRange(memory, mapping, mappingSize)
      modifies this`memory, this`faults
      ensures SameBut(old(memory), memory, mapping, mappingSize)
      ensures faults >= old(faults) && (!ok ==> faults > old(faults))
      ensures ok ==> ThreadReady(memory, mapping + staticSize, objects, modules)
      ensures ok ==> Mapped(memory, mapping, staticSize) && staticSize <= |template|
      ensures ok ==> Get(memory, mapping, staticSize) == template[..staticSize]
    {
      hide Put, Get, Mapped, SameBut, Load, FromLittle, ThreadReady, SlotHolds, ZeroRange, VectorBelow;
      ghost var blank := memory;
      var tp := mapping + staticSize;
      ZeroIsMapped(blank, mapping, mappingSize);
      NothingCopied(blank, 0, mapping);
      PartMapped(blank, blank, mapping, mappingSize, mapping, mappingSize, 0, |template|);
      ok := CopyOut(mapping, template);
      ghost var copied := memory;
      SameButWithin(blank, blank, copied, mapping, mappingSize, mapping, |template|);
      if !ok {
        return;
      }
      TemplateInPlace(blank, template, mapping, staticSize, templatePointer, modules, objects);
      PartMapped(blank, copied, mapping, mappingSize, mapping, mappingSize, staticSize, 24);
      ok := RenameThread(tp);
      ghost var renamed := memory;
      SameButWithin(blank, copied, renamed, mapping, mappingSize, tp, 24);
      if !ok {
        return;
      }
      SlotsKept(copied, renamed, tp, modules, templatePointer, objects);
      SlotsFit(template, staticSize, templatePointer, modules, objects, mapping);
      ok := RebaseVector(tp, objects);
      SameButWithin(blank, renamed, memory, mapping, mappingSize, tp + TCB_SIZE + 8, 8 * modules);
      if ok {
        NextThread(copied, renamed, memory, template, mapping, staticSize, modules, objects);
      }
    }
  }

  lemma SlotsFit(bytes: seq<byte>, size: nat, from: nat, modules: nat, objects: seq<TlsObject>, mapping: nat)
    requires TemplateBytes(bytes, size, from, modules, objects) && mapping > 0
    ensures forall i :: 0 <= i < |objects| && HasTls(objects[i]) ==> objects[i].offset < mapping + size
  {
    forall i | 0 <= i < |objects| && HasTls(objects[i]) ensures objects[i].offset < mapping + size {
      assert TemplateSlot(bytes, size, from, modules, objects[i]);
    }
  }

  /** `m` is `source` with the formerly free range [mapping, mapping + size) mapped. */
  ghost predicate Inherits(source: Memory, m: Memory, mapping: nat, size: nat) {
    && (forall k :: k in source ==> k in m && m[k] == source[k])
    && m.Keys == source.Keys + Addresses(mapping, size)
  }

  /** Every image is mapped outside the new range, and every block lies inside it. */
  ghost predicate Images(objects: seq<TlsObject>, source: Memory, tp: nat, mapping: nat, size: nat) {
    && Loaded(objects) && Free(source, mapping, size)
    && forall i :: 0 <= i < |objects| && HasTls(objects[i]) ==>
         && Mapped(source, objects[i].image, objects[i].fileSize) && mapping + objects[i].offset <= tp
         && tp + objects[i].memorySize <= mapping + size + objects[i].offset
  }

  lemma ImagesMapped(objects: seq<TlsObject>, source: Memory, tp: nat, mapping: nat, size: nat)
    requires Images(objects, source, tp, mapping, size)
    ensures forall i :: 0 <= i < |objects| && HasTls(objects[i]) ==>
      objects[i].offset <= tp && Mapped(source, objects[i].image, objects[i].fileSize)
  {
    hide Mapped;
  }

  /** The module's slot in the vector of the thread at `tp` holds `base` minus the module's offset. */
  ghost predicate SlotHolds(m: Memory, tp: nat, o: TlsObject, modules: nat, base: nat) {
    && 1 <= o.moduleId <= modules < DTV_ENTRIES && 0 < o.offset < base
    && Mapped(m, SlotAt(tp, o.moduleId), 8) && Load(m, SlotAt(tp, o.moduleId)) == base - o.offset
  }

  /** Until its turn comes, a slot is as it was. */
  lemma SlotBelow(before: Memory, m: Memory, tp: nat, modules: nat, base: nat, moduleId: nat)
    requires VectorBelow(before, tp, modules, base) && 1 <= moduleId <= modules
    requires SameBut(before, m, tp + TCB_SIZE + 8, 8 * (moduleId - 1))
    ensures Mapped(m, SlotAt(tp, moduleId), 8) && Load(m, SlotAt(tp, moduleId)) <= base
  {
    hide Load;
    LoadSame(before, m, tp + TCB_SIZE + 8, 8 * (moduleId - 1), SlotAt(tp, moduleId));
  }

  lemma SameButMore(m: Memory, b: Memory, c: Memory, a: nat, n: nat)
    requires SameBut(m, b, a, n) && (c == b || SameBut(b, c, a + n, 8))
    ensures SameBut(m, c, a, n + 8)
  {
  }

  lemma SlotMoved(m: Memory, b: Memory, tp: nat, o: TlsObject, modules: nat, from: nat, moduleId: nat, original: nat)
    requires SlotHolds(m, tp, o, modules, if o.moduleId < moduleId then tp else from) && o.offset < tp < WORD
    requires Mapped(m, SlotAt(tp, moduleId), 8) && original == Load(m, SlotAt(tp, moduleId)) && original <= from
    requires b == Store(m, SlotAt(tp, moduleId), (tp - (from - original)) % WORD)
    ensures SlotHolds(b, tp, o, modules, if o.moduleId <= moduleId then tp else from)
  {
    hide Store, Load;
    if o.moduleId == moduleId {
      LoadStore(m, SlotAt(tp, moduleId), (tp - (from - original)) % WORD);
    } else {
      StoreSameBut(m, SlotAt(tp, moduleId), (tp - (from - original)) % WORD);
      LoadSame(m, b, SlotAt(tp, moduleId), 8, SlotAt(tp, o.moduleId));
    }
  }

  lemma TemplateBound(size: nat)
    requires size <= TLS_MAX + HEAD_SIZE
    ensures size <= AlignUp(size) < size + PAGE_SIZE
  {
  }

  /** A copy of the template below and at `tp` holds the template's own slots. */
  lemma TemplateInPlace(blank: Memory, bytes: seq<byte>, mapping: nat, size: nat, from: nat, modules: nat,
                        objects: seq<TlsObject>)
    requires Mapped(blank, mapping, |bytes|) && TemplateBytes(bytes, size, from, modules, objects)
    ensures var m, tp := Put(blank, mapping, bytes), mapping + size;
      && Mapped(m, mapping, |bytes|) && Get(m, mapping, |bytes|) == bytes
      && Mapped(m, tp + TCB_SIZE, 8) && Load(m, tp + TCB_SIZE) == modules && VectorBelow(m, tp, modules, from)
      && forall i :: 0 <= i < |objects| && HasTls(objects[i]) ==> SlotHolds(m, tp, objects[i], modules, from)
  {
    hide Put, Get, Mapped, FromLittle;
    var m, tp := Put(blank, mapping, bytes), mapping + size;
    GetPut(blank, mapping, bytes);
    GetPart(m, mapping, |bytes|, size + TCB_SIZE, 8);
    GetPart(m, mapping, |bytes|, size, HEAD_SIZE);
    forall k: nat | 1 <= k <= modules ensures Mapped(m, SlotAt(tp, k), 8) && Load(m, SlotAt(tp, k)) <= from {
      assert WordBelow(bytes, size + TCB_SIZE + 8 * k, from);
      GetPart(m, mapping, |bytes|, size + TCB_SIZE + 8 * k, 8);
    }
    forall i | 0 <= i < |objects| && HasTls(objects[i]) ensures SlotHolds(m, tp, objects[i], modules, from) {
      assert TemplateSlot(bytes, size, from, modules, objects[i]);
      GetPart(m, mapping, |bytes|, size + TCB_SIZE + 8 * objects[i].moduleId, 8);
    }
  }

  lemma SlotsKept(m: Memory, b: Memory, tp: nat, modules: nat, from: nat, objects: seq<TlsObject>)
    requires SameBut(m, b, tp, 24) && VectorBelow(m, tp, modules, from)
    requires forall i :: 0 <= i < |objects| && HasTls(objects[i]) ==> SlotHolds(m, tp, objects[i], modules, from)
    ensures VectorBelow(b, tp, modules, from)
    ensures forall i :: 0 <= i < |objects| && HasTls(objects[i]) ==> SlotHolds(b, tp, objects[i], modules, from)
  {
    hide Load, Mapped, SameBut;
    PartMapped(m, b, tp, 24, tp, HEAD_SIZE, 0, HEAD_SIZE);
    forall k: nat | 1 <= k <= modules ensures Mapped(b, SlotAt(tp, k), 8) && Load(b, SlotAt(tp, k)) <= from {
      NothingCopied(m, 0, tp);
      PartMapped(m, m, tp, 24, tp, HEAD_SIZE, TCB_SIZE + 8 * k, 8);
      assert Load(m, SlotAt(tp, k)) <= from;
      LoadSame(m, b, tp, 24, SlotAt(tp, k));
    }
    forall i | 0 <= i < |objects| && HasTls(objects[i]) ensures SlotHolds(b, tp, objects[i], modules, from) {
      assert SlotHolds(m, tp, objects[i], modules, from);
      LoadSame(m, b, tp, 24, SlotAt(tp, objects[i].moduleId));
    }
  }

  lemma NextThread(copied: Memory, renamed: Memory, m: Memory, bytes: seq<byte>, mapping: nat, size: nat, modules: nat,
                   objects: seq<TlsObject>)
    requires |bytes| == size + HEAD_SIZE && modules < DTV_ENTRIES
    requires Mapped(copied, mapping, |bytes|) && Get(copied, mapping, |bytes|) == bytes
    requires Mapped(copied, mapping + size + TCB_SIZE, 8) && Load(copied, mapping + size + TCB_SIZE) == modules
    requires SameBut(copied, renamed, mapping + size, 24) && Mapped(renamed, mapping + size, 24)
    requires var tp := mapping + size;
      && Load(renamed, tp) == tp && Load(renamed, tp + 8) == tp + TCB_SIZE && Load(renamed, tp + 16) == tp
      && SameBut(renamed, m, tp + TCB_SIZE + 8, 8 * modules)
      && forall i :: 0 <= i < |objects| && HasTls(objects[i]) ==> SlotHolds(m, tp, objects[i], modules, tp)
    ensures ThreadReady(m, mapping + size, objects, modules)
    ensures Mapped(m, mapping, size) && Get(m, mapping, size) == bytes[..size]
  {
    hide Get, Load;
    var tp := mapping + size;
    LoadSame(renamed, m, tp + TCB_SIZE + 8, 8 * modules, tp);
    LoadSame(renamed, m, tp + TCB_SIZE + 8, 8 * modules, tp + 8);
    LoadSame(renamed, m, tp + TCB_SIZE + 8, 8 * modules, tp + 16);
    LoadSame(copied, renamed, tp, 24, tp + TCB_SIZE);
    LoadSame(renamed, m, tp + TCB_SIZE + 8, 8 * modules, tp + TCB_SIZE);
    GetPart(copied, mapping, |bytes|, 0, size);
    GetSame(copied, renamed, tp, 24, mapping, size);
    GetSame(renamed, m, tp + TCB_SIZE + 8, 8 * modules, mapping, size);
    forall i | 0 <= i < |objects| && HasTls(objects[i]) ensures SlotReady(m, tp, objects[i], modules) {
      assert SlotHolds(m, tp, objects[i], modules, tp);
    }
  }

  lemma StoreSameBut(m: Memory, a: nat, value: nat)
    ensures SameBut(m, Store(m, a, value), a, 8)
  {
  }

  ghost predicate TemplateBytes(bytes: seq<byte>, size: nat, tp: nat, modules: nat, objects: seq<TlsObject>) {
    && |bytes| == size + HEAD_SIZE && size <= TLS_MAX && modules < DTV_ENTRIES
    && FromLittle(bytes[size + TCB_SIZE..size + TCB_SIZE + 8]) == modules
    && (forall k: nat :: 1 <= k <= modules ==> WordBelow(bytes, size + TCB_SIZE + 8 * k, tp))
    && forall i :: 0 <= i < |objects| && HasTls(objects[i]) ==> TemplateSlot(bytes, size, tp, modules, objects[i])
  }

  ghost predicate WordBelow(bytes: seq<byte>, at: nat, base: nat) {
    at + 8 <= |bytes| && FromLittle(bytes[at..at + 8]) <= base
  }

  ghost predicate TemplateSlot(bytes: seq<byte>, size: nat, tp: nat, modules: nat, o: TlsObject)
    requires |bytes| == size + HEAD_SIZE && modules < DTV_ENTRIES
  {
    && 1 <= o.moduleId <= modules && 0 < o.offset <= size && o.offset < tp
    && FromLittle(bytes[size + TCB_SIZE + 8 * o.moduleId..size + TCB_SIZE + 8 * o.moduleId + 8]) == tp - o.offset
  }

  lemma SizeBound(objects: seq<TlsObject>, size: nat, largest: nat, next: nat)
    requires Placed(objects, |objects|, size, largest, next)
    ensures size <= TLS_MAX && size + HEAD_SIZE <= AlignUp(size + HEAD_SIZE) < size + HEAD_SIZE + PAGE_SIZE
  {
  }

  lemma FreshMapping(source: Memory, mapping: nat, size: nat)
    requires Free(source, mapping, size)
    ensures ZeroRange(source + Zeros(mapping, size), mapping, size)
    ensures Inherits(source, source + Zeros(mapping, size), mapping, size)
  {
  }

  lemma ZeroIsMapped(m: Memory, a: nat, n: nat)
    requires ZeroRange(m, a, n)
    ensures Mapped(m, a, n)
  {
  }

  lemma PlacedImages(objects: seq<TlsObject>, source: Memory, tp: nat, mapping: nat, size: nat, room: nat,
                     largest: nat, next: nat)
    requires Placed(objects, |objects|, size, largest, next) && Loaded(objects) && Free(source, mapping, room)
    requires forall i :: 0 <= i < |objects| && HasTls(objects[i]) ==> Mapped(source, objects[i].image, objects[i].fileSize)
    requires tp == mapping + size && size <= room
    ensures Images(objects, source, tp, mapping, room)
  {
    hide PowerOfTwo, Mapped;
    forall i | 0 <= i < |objects| && HasTls(objects[i])
      ensures mapping + objects[i].offset <= tp && tp + objects[i].memorySize <= mapping + room + objects[i].offset
    {
      assert PlacedOne(objects[i], size, largest, next);
    }
  }

  lemma ImageOutside(o: TlsObject, before: Memory, m: Memory, source: Memory, tp: nat, mapping: nat, size: nat)
    requires Inherits(source, before, mapping, size) && SameBut(before, m, mapping, size) && Free(source, mapping, size)
    requires Mapped(source, o.image, o.fileSize) && mapping + o.offset <= tp && o.fileSize <= o.memorySize
    requires tp + o.memorySize <= mapping + size + o.offset
    ensures Apart(o.image, o.fileSize, tp - o.offset, o.fileSize)
    ensures Mapped(m, o.image, o.fileSize) && Get(m, o.image, o.fileSize) == Get(source, o.image, o.fileSize)
    ensures Mapped(m, tp - o.offset, o.fileSize)
  {
    var b := tp - o.offset;
    var c := if o.image < b then b else o.image;
    assert o.fileSize > 0 && o.image < b + o.fileSize && b < o.image + o.fileSize ==>
      c in source && mapping <= c < mapping + size;
    forall k | o.image <= k < o.image + o.fileSize ensures k in m && m[k] == source[k] {
      assert k in source;
    }
  }

  lemma Unmapped(source: Memory, blank: Memory, m: Memory, mapping: nat, size: nat)
    requires Free(source, mapping, size) && Inherits(source, blank, mapping, size) && SameBut(blank, m, mapping, size)
    ensures m - Addresses(mapping, size) == source
  {
  }

  lemma StillInherits(source: Memory, blank: Memory, m: Memory, mapping: nat, size: nat)
    requires Free(source, mapping, size) && Inherits(source, blank, mapping, size) && SameBut(blank, m, mapping, size)
    ensures Inherits(source, m, mapping, size)
  {
  }

  lemma GetPart(m: Memory, a: nat, n: nat, p: nat, k: nat)
    requires Mapped(m, a, n) && p + k <= n
    ensures Mapped(m, a + p, k) && Get(m, a, n)[p..p + k] == Get(m, a + p, k)
  {
  }

  /** The bytes of a ready thread are a template for others. */
  lemma ThreadIsTemplate(m: Memory, mapping: nat, size: nat, objects: seq<TlsObject>, modules: nat,
                         largest: nat, next: nat)
    requires Placed(objects, |objects|, size, largest, next)
    requires ThreadReady(m, mapping + size, objects, modules) && Mapped(m, mapping, size + HEAD_SIZE)
    requires VectorBelow(m, mapping + size, modules, mapping + size)
    ensures Mapped(m, mapping, size)
    ensures TemplateBytes(Get(m, mapping, size + HEAD_SIZE), size, mapping + size, modules, objects)
    ensures Get(m, mapping, size + HEAD_SIZE)[..size] == Get(m, mapping, size)
  {
    hide Get, Mapped, FromLittle, PowerOfTwo;
    var tp, bytes := mapping + size, Get(m, mapping, size + HEAD_SIZE);
    GetPart(m, mapping, size + HEAD_SIZE, 0, size);
    GetPart(m, mapping, size + HEAD_SIZE, size + TCB_SIZE, 8);
    forall k: nat | 1 <= k <= modules ensures WordBelow(bytes, size + TCB_SIZE + 8 * k, tp) {
      GetPart(m, mapping, size + HEAD_SIZE, size + TCB_SIZE + 8 * k, 8);
      assert Load(m, SlotAt(tp, k)) <= tp;
    }
    forall i | 0 <= i < |objects| && HasTls(objects[i]) ensures TemplateSlot(bytes, size, tp, modules, objects[i]) {
      assert SlotReady(m, tp, objects[i], modules);
      assert PlacedOne(objects[i], size, largest, next);
      GetPart(m, mapping, size + HEAD_SIZE, size + TCB_SIZE + 8 * objects[i].moduleId, 8);
    }
  }

  lemma FirstThread(source: Memory, blank: Memory, imaged: Memory, m: Memory, objects: seq<TlsObject>,
                    mapping: nat, size: nat, room: nat, largest: nat, count: nat, dtv: seq<nat>)
    requires Placed(objects, |objects|, size, largest, count + 1) && Loaded(objects) && size + HEAD_SIZE <= room
    requires forall i :: 0 <= i < |objects| && HasTls(objects[i]) ==>
      objects[i].offset <= mapping + size && Mapped(source, objects[i].image, objects[i].fileSize)
    requires ZeroRange(blank, mapping, room) && mapping + room < WORD
    requires imaged == Imaged(blank, source, mapping + size, objects, |objects|)
    requires VectorOk(dtv, mapping + size, objects, count)
    requires m == Put(Put(imaged, mapping + size, WordsBytes(ControlBlock(mapping + size))),
                      mapping + size + TCB_SIZE, WordsBytes(dtv))
    ensures ThreadReady(m, mapping + size, objects, count)
    ensures Mapped(m, mapping, size + HEAD_SIZE) && Mapped(m, mapping, size)
    ensures TemplateBytes(Get(m, mapping, size + HEAD_SIZE), size, mapping + size, count, objects)
    ensures Get(m, mapping, size + HEAD_SIZE)[..size] == Get(m, mapping, size)
    ensures forall i :: 0 <= i < |objects| && HasTls(objects[i]) ==> BlockInitial(m, source, mapping + size, objects[i])
  {
    hide Put, Get, Load, WordsBytes, PowerOfTwo, BlockInitial, Imaged, Placed, TemplateBytes, ThreadReady, VectorOk;
    var tp := mapping + size;
    assert Mapped(imaged, tp, HEAD_SIZE);
    HeadReady(imaged, tp, objects, count, dtv);
    assert Mapped(m, mapping, size + HEAD_SIZE);
    ThreadIsTemplate(m, mapping, size, objects, count, largest, count + 1);
    forall i | 0 <= i < |objects| && HasTls(objects[i]) ensures BlockInitial(m, source, tp, objects[i]) {
      ZeroPart(blank, mapping, room, mapping, size);
      ImagedBlock(blank, source, tp, objects, |objects|, i, size, largest, count + 1);
      BlockBelow(objects, size, largest, count + 1, i);
      BlockKept(imaged, m, source, tp, objects[i], tp, HEAD_SIZE);
    }
  }

  lemma BlockBelow(objects: seq<TlsObject>, size: nat, largest: nat, next: nat, i: nat)
    requires Placed(objects, |objects|, size, largest, next) && i < |objects| && HasTls(objects[i])
    ensures objects[i].memorySize <= objects[i].offset <= size
  {
    assert PlacedOne(objects[i], size, largest, next);
  }

  // ----- words of the thread control block and the vector

  function WordsBytes(words: seq<nat>): (bytes: seq<byte>)
    ensures |bytes| == 8 * |words|
  {
    if words == [] then [] else WordsBytes(words[..|words| - 1]) + ToLittle(words[|words| - 1], 8)
  }

  lemma {:induction false} WordAt(words: seq<nat>, i: nat)
    requires i < |words|
    ensures WordsBytes(words)[8 * i..8 * i + 8] == ToLittle(words[i], 8)
  {
    var n := |words| - 1;
    if i < n {
      WordAt(words[..n], i);
      assert WordsBytes(words)[8 * i..8 * i + 8] == WordsBytes(words[..n])[8 * i..8 * i + 8];
    }
  }

  lemma LoadWords(m: Memory, a: nat, words: seq<nat>, i: nat)
    requires Mapped(m, a, 8 * |words|) && i < |words| && words[i] < WORD
    ensures var b := Put(m, a, WordsBytes(words));
      Mapped(b, a + 8 * i, 8) && Load(b, a + 8 * i) == words[i]
  {
    hide Put, Get, WordsBytes, ToLittle, FromLittle;
    var b := Put(m, a, WordsBytes(words));
    WordAt(words, i);
    var bytes, loaded := WordsBytes(words), Get(b, a + 8 * i, 8);
    var word := bytes[8 * i..8 * i + 8];
    forall k: nat | k < 8 ensures loaded[k] == word[k] {
      assert b[a + 8 * i + k] == bytes[8 * i + k];
    }
    assert Get(b, a + 8 * i, 8) == ToLittle(words[i], 8);
    WidthRanges();
    LittleRoundTrip(words[i], 8);
  }

  function ControlBlock(tp: nat): (words: seq<nat>)
    ensures |words| == 8
  {
    [tp, tp + TCB_SIZE, tp, 0, 0, 0, 0, 0]
  }

  /** The vector names the number of modules and, for each, its block in the thread at `tp`. */
  ghost predicate VectorOk(dtv: seq<nat>, tp: nat, objects: seq<TlsObject>, modules: nat) {
    && |dtv| == DTV_ENTRIES && dtv[0] == modules < DTV_ENTRIES
    && (forall k :: 1 <= k <= modules ==> dtv[k] <= tp)
    && forall i :: 0 <= i < |objects| && HasTls(objects[i]) ==> VectorSlot(dtv, tp, objects[i], modules)
  }

  ghost predicate VectorSlot(dtv: seq<nat>, tp: nat, o: TlsObject, modules: nat)
    requires |dtv| == DTV_ENTRIES
  {
    1 <= o.moduleId <= modules < DTV_ENTRIES && 0 < o.offset < tp && dtv[o.moduleId] == tp - o.offset
  }

  /** No entry of the vector at `tp` lies above `base`. */
  ghost predicate VectorBelow(m: Memory, tp: nat, modules: nat, base: nat) {
    && modules < DTV_ENTRIES && Mapped(m, tp, HEAD_SIZE)
    && forall k: nat {:trigger SlotAt(tp, k)} :: 1 <= k <= modules ==> Load(m, SlotAt(tp, k)) <= base
  }

  /** Control block and vector written, the thread is ready. */
  lemma HeadReady(m: Memory, tp: nat, objects: seq<TlsObject>, modules: nat, dtv: seq<nat>)
    requires Mapped(m, tp, HEAD_SIZE) && VectorOk(dtv, tp, objects, modules) && tp + HEAD_SIZE < WORD
    ensures var b := Put(Put(m, tp, WordsBytes(ControlBlock(tp))), tp + TCB_SIZE, WordsBytes(dtv));
      ThreadReady(b, tp, objects, modules) && SameBut(m, b, tp, HEAD_SIZE) && VectorBelow(b, tp, modules, tp)
  {
    hide Put, WordsBytes, Load;
    var a := Put(m, tp, WordsBytes(ControlBlock(tp)));
    var b := Put(a, tp + TCB_SIZE, WordsBytes(dtv));
    LoadWords(m, tp, ControlBlock(tp), 0);
    LoadWords(m, tp, ControlBlock(tp), 1);
    LoadWords(m, tp, ControlBlock(tp), 2);
    PutSameBut(a, tp + TCB_SIZE, WordsBytes(dtv), tp + TCB_SIZE, DTV_SIZE);
    LoadSame(a, b, tp + TCB_SIZE, DTV_SIZE, tp);
    LoadSame(a, b, tp + TCB_SIZE, DTV_SIZE, tp + 8);
    LoadSame(a, b, tp + TCB_SIZE, DTV_SIZE, tp + 16);
    LoadWords(a, tp + TCB_SIZE, dtv, 0);
    forall k: nat | 1 <= k <= modules ensures Load(b, SlotAt(tp, k)) <= tp {
      LoadWords(a, tp + TCB_SIZE, dtv, k);
    }
    forall i | 0 <= i < |objects| && HasTls(objects[i]) ensures SlotReady(b, tp, objects[i], modules) {
      assert VectorSlot(dtv, tp, objects[i], modules);
      LoadWords(a, tp + TCB_SIZE, dtv, objects[i].moduleId);
    }
  }

  lemma NothingCopied(m: Memory, image: nat, destination: nat)
    ensures Mapped(m, image, 0) && Put(m, destination, Get(m, image, 0)) == m
    ensures forall n: nat :: SameBut(m, m, destination, n)
  {
  }

  /** Part of a mapped range, after writes that unmapped nothing. */
  lemma PartMapped(m: Memory, b: Memory, a: nat, n: nat, from: nat, size: nat, p: nat, k: nat)
    requires SameBut(m, b, a, n) && p + k <= size
    ensures Mapped(m, from, size) ==> Mapped(b, from + p, k)
  {
  }

  lemma SameButWithin(m: Memory, b: Memory, c: Memory, a: nat, n: nat, from: nat, k: nat)
    requires SameBut(m, b, a, n) && SameBut(b, c, from, k) && a <= from && from + k <= a + n
    ensures SameBut(m, c, a, n)
  {
  }

  lemma ImageStep(before: Memory, middle: Memory, image: nat, destination: nat, size: nat, copied: nat, chunk: nat)
    requires Apart(image, size, destination, size) && copied + chunk <= size
    requires Mapped(before, image, copied) && middle == Put(before, destination, Get(before, image, copied))
    requires Mapped(middle, image + copied, chunk)
    ensures Mapped(before, image, copied + chunk)
    ensures Put(middle, destination + copied, Get(middle, image + copied, chunk)) ==
      Put(before, destination, Get(before, image, copied + chunk))
  {
    hide Put, Get;
    var done := Get(before, image, copied);
    forall k | image <= k < image + copied + chunk ensures k in before {
      if k >= image + copied {
        assert k in middle;
      }
    }
    var all, part := Get(before, image, copied + chunk), Get(middle, image + copied, chunk);
    forall k: nat | k < chunk ensures part[k] == all[copied + k] {
      assert middle[image + copied + k] == before[image + copied + k];
    }
    assert all == done + Get(middle, image + copied, chunk);
    PutTwice(before, destination, done, Get(middle, image + copied, chunk));
  }

  lemma PutTwice(m: Memory, a: nat, x: seq<byte>, y: seq<byte>)
    ensures Put(Put(m, a, x), a + |x|, y) == Put(m, a, x + y)
  {
    var b, c := Put(Put(m, a, x), a + |x|, y), Put(m, a, x + y);
    forall k | k in m ensures b[k] == c[k] {
    }
  }
}
