/** Constants and records of the virtual memory layer (kernel/vm.c, include/vm.h). */
module VmTypes {

  const PAGE_SIZE: nat := 4096
  const WORD: nat := 0x1_0000_0000_0000_0000 // 2^64, the range of uintptr_t
  const USER_BASE: nat := 0x4000_0000
  const USER_MMAP_LIMIT: nat := 0x7000_0000_0000
  const USER_STACK_TOP: nat := 0x7FFF_FFFF_E000
  const USER_STACK_BASE: nat := 0x7FFF_FFFF_E000 - 0x10_0000
  const CANONICAL_LIMIT: nat := 0x8000_0000_0000

  datatype Option<+T> = None | Some(value: T)

  /** The three VM_PROT bits. */
  datatype Protection = Protection(read: bool, write: bool, exec: bool)

  const READ_WRITE := Protection(true, true, false)

  /** One slot of `VmSpace.pages`. A frame is named by the address of its data. */
  datatype VmPage = VmPage(
    used: bool, virtualAddress: nat, frame: nat,
    protection: Protection, copyOnWrite: bool, shared: bool)

  /** A record slot after `memset(record, 0, ...)`. */
  const UNUSED := VmPage(false, 0, 0, Protection(false, false, false), false, false)

  /** What a page record says about its page, without the slot it lives in. */
  datatype Record = Record(frame: nat, protection: Protection, copyOnWrite: bool, shared: bool)

  newtype byte = x: int | 0 <= x < 256

  /** A reference-counted page frame. */
  datatype Frame = Frame(data: seq<byte>, references: nat)

  function ZeroPage(): (data: seq<byte>)
    ensures |data| == PAGE_SIZE && forall i: nat :: i < PAGE_SIZE ==> data[i] == 0
  {
    seq(PAGE_SIZE, _ => 0)
  }

  /** memcpy of `bytes` into a page at `offset`. */
  function Splice(data: seq<byte>, offset: nat, bytes: seq<byte>): (result: seq<byte>)
    requires offset + |bytes| <= |data|
    ensures |result| == |data|
    ensures forall i: nat :: i < |data| ==>
      result[i] == if offset <= i < offset + |bytes| then bytes[i - offset] else data[i]
  {
    data[..offset] + bytes + data[offset + |bytes|..]
  }

  function AlignDown(value: nat): nat {
    value / PAGE_SIZE * PAGE_SIZE
  }

  /** Rounds up in 64-bit arithmetic: values in the last page wrap to zero. */
  function AlignUp(value: nat): nat {
    (value + PAGE_SIZE - 1) % WORD / PAGE_SIZE * PAGE_SIZE
  }

  predicate Aligned(address: nat) {
    address % PAGE_SIZE == 0
  }

  predicate CanonicalUser(address: nat) {
    && address < CANONICAL_LIMIT
    && (|| USER_BASE <= address < USER_MMAP_LIMIT
        || USER_STACK_BASE <= address < USER_STACK_TOP)
  }

  lemma SubsetCount<T>(small: set<T>, large: set<T>)
    requires small <= large
    ensures |small| <= |large|
  {
    assert large == small + (large - small);
  }

  lemma AlignUpAligned(value: nat)
    ensures Aligned(AlignUp(value))
  {
  }

  lemma AlignDownAligned(address: nat)
    ensures Aligned(AlignDown(address))
    ensures AlignDown(address) <= address < AlignDown(address) + PAGE_SIZE
    ensures Aligned(address) ==> AlignDown(address) == address
  {
  }
}
