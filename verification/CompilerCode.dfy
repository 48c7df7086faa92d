/**
 The code generator of NovaCC (kernel/compiler.c) and a small model of the
 processor and of the kernel's native system calls (kernel/process.c): what the
 emitted bytes do when they run.
 */
module CompilerCode {
  import opened VmTypes
  import opened Bytes
  import opened CompilerParser

  const ENTRY := 0x4000_1000
  const CODE_OFFSET := 4096

  const REX_W: byte := 0x48
  const MOV_RAX: byte := 0xB8
  const MOV_RDI: byte := 0xBF
  const MOV_RSI: byte := 0xBE

  const SYS_WRITE := 1
  const SYS_YIELD := 2
  const SYS_EXIT := 3

  /** mov register, imm64 */
  function Mov(opcode: byte, value: nat): (code: seq<byte>)
    ensures |code| == 10
  {
    [REX_W, opcode] + ToLittle(value, 8)
  }

  /** int 0x80 */
  function Interrupt(): seq<byte> {
    [0xCD, 0x80]
  }

  /** jmp to itself */
  function Forever(): seq<byte> {
    [0xEB, 0xFE]
  }

  /** Two's complement in 64 bits. */
  function Unsigned(value: int): nat {
    value % WORD
  }

  /** The conversion of a 64-bit argument to int. */
  function ToInt(value: nat): int {
    var low := value % 0x1_0000_0000;
    if low < 0x8000_0000 then low else low - 0x1_0000_0000
  }

  function CodeSize(message: Text): nat {
    if message == [] then 24 else 56
  }

  function WriteCode(message: Text): seq<byte> {
    if message == [] then []
    else Mov(MOV_RAX, SYS_WRITE) + Mov(MOV_RDI, ENTRY + CodeSize(message)) + Mov(MOV_RSI, |message|) + Interrupt()
  }

  function ExitCode(value: int): (code: seq<byte>)
    ensures |code| == 24
  {
    Mov(MOV_RAX, SYS_EXIT) + Mov(MOV_RDI, Unsigned(value)) + Interrupt() + Forever()
  }

  /** What is loaded at the entry point: the code, then the message. */
  function Segment(message: Text, value: int): (segment: seq<byte>)
    ensures |segment| == CodeSize(message) + |message|
  {
    WriteCode(message) + ExitCode(value) + message
  }

  // ----- emitting

  lemma {:induction false} LittleAt(value: nat, width: nat, i: nat)
    requires i < width
    ensures ToLittle(value, width)[i] as nat == value / Range(i) % 256
  {
    if i > 0 {
      LittleAt(value / 256, width - 1, i - 1);
      Swap(value, Range(i - 1));
    }
  }

  lemma Swap(value: nat, d: nat)
    requires d > 0
    ensures value / 256 / d == value / (256 * d)
  {
    var q, r := value / 256, value % 256;
    var q2, r2 := q / d, q % d;
    assert value == 256 * (d * q2 + r2) + r;
    assert 256 * (d * q2) == (256 * d) * q2;
    QuotientUnique(value, 256 * d, q2, 256 * r2 + r);
  }

  method EmitU64(code: array<byte>, offset: nat, value: nat) returns (next: nat)
    requires offset + 8 <= code.Length && value < WORD
    modifies code
    ensures next == offset + 8 && code[..] == Splice(old(code[..]), offset, ToLittle(value, 8))
  {
    var i := 0;
    while i < 8
      invariant 0 <= i <= 8
      invariant forall k :: offset <= k < offset + i ==> code[k] == ToLittle(value, 8)[k - offset]
      invariant forall k :: 0 <= k < code.Length && !(offset <= k < offset + i) ==> code[k] == old(code[k])
    {
      LittleAt(value, 8, i);
      code[offset + i] := (value / Range(i) % 256) as byte;
      i := i + 1;
    }
    next := offset + 8;
  }

  method EmitMov(code: array<byte>, offset: nat, opcode: byte, value: nat) returns (next: nat)
    requires offset + 10 <= code.Length && value < WORD
    modifies code
    ensures next == offset + 10 && code[..] == Splice(old(code[..]), offset, Mov(opcode, value))
  {
    code[offset] := REX_W;
    code[offset + 1] := opcode;
    next := EmitU64(code, offset + 2, value);
  }

  method EmitPair(code: array<byte>, offset: nat, pair: seq<byte>) returns (next: nat)
    requires |pair| == 2 && offset + 2 <= code.Length
    modifies code
    ensures next == offset + 2 && code[..] == Splice(old(code[..]), offset, pair)
  {
    code[offset] := pair[0];
    code[offset + 1] := pair[1];
    next := offset + 2;
  }

  method CopyBytes(image: array<byte>, offset: nat, bytes: seq<byte>)
    requires offset + |bytes| <= image.Length
    modifies image
    ensures image[..] == Splice(old(image[..]), offset, bytes)
  {
    var i := 0;
    while i < |bytes|
      invariant 0 <= i <= |bytes|
      invariant forall k :: offset <= k < offset + i ==> image[k] == bytes[k - offset]
      invariant forall k :: 0 <= k < image.Length && !(offset <= k < offset + i) ==> image[k] == old(image[k])
    {
      image[offset + i] := bytes[i];
      i := i + 1;
    }
  }

  // ----- the image

  /** The ELF header: an executable for x86-64 with one program header behind it. */
  function ElfHeader(): (header: seq<byte>)
    ensures |header| == 64
  {
    [0x7F, 0x45, 0x4C, 0x46, 2, 1, 1, 0, 0, 0, 0, 0, 0, 0, 0, 0]
    + ToLittle(2, 2) + ToLittle(0x3E, 2) + ToLittle(1, 4) + ToLittle(ENTRY, 8) + ToLittle(64, 8) + ToLittle(0, 8)
    + ToLittle(0, 4) + ToLittle(64, 2) + ToLittle(56, 2) + ToLittle(1, 2) + ToLittle(0, 6)
  }

  /** One readable and executable segment of `size` bytes at the entry point. */
  function ProgramHeader(size: nat): (header: seq<byte>)
    ensures |header| == 56
  {
    ToLittle(1, 4) + ToLittle(5, 4) + ToLittle(CODE_OFFSET, 8) + ToLittle(ENTRY, 8) + ToLittle(ENTRY, 8)
    + ToLittle(size, 8) + ToLittle(size, 8) + ToLittle(4096, 8)
  }

  /** The bytes at [from, from + |bytes|). */
  ghost predicate Holds(image: seq<byte>, from: nat, bytes: seq<byte>) {
    from + |bytes| <= |image| && image[from..from + |bytes|] == bytes
  }

  lemma HoldsNew(image: seq<byte>, from: nat, emitted: seq<byte>, bytes: seq<byte>)
    requires Holds(image, from, emitted) && from + |emitted| + |bytes| <= |image|
    ensures Holds(Splice(image, from + |emitted|, bytes), from, emitted + bytes)
  {
    hide Splice;
    var after := Splice(image, from + |emitted|, bytes);
    assert after[from..from + |emitted + bytes|] == emitted + bytes;
  }

  lemma HoldsStill(image: seq<byte>, from: nat, kept: seq<byte>, at: nat, bytes: seq<byte>)
    requires Holds(image, from, kept) && at + |bytes| <= |image| && (from + |kept| <= at || at + |bytes| <= from)
    ensures Holds(Splice(image, at, bytes), from, kept)
  {
    hide Splice;
  }

  /** Overwriting part of an emitted run. */
  lemma HoldsPatched(image: seq<byte>, from: nat, emitted: seq<byte>, at: nat, bytes: seq<byte>)
    requires Holds(image, from, emitted) && at + |bytes| <= |emitted|
    ensures Holds(Splice(image, from + at, bytes), from, Splice(emitted, at, bytes))
  {
    hide Splice;
    var after := Splice(image, from + at, bytes);
    assert after[from..from + |emitted|] == Splice(emitted, at, bytes);
  }

  /** Emits the write call for a message that will follow the code at `address` once patched. */
  method EmitWrite(image: array<byte>, length: nat) returns (next: nat, patch: nat)
    requires CODE_OFFSET + 32 <= image.Length && length < WORD
    modifies image
    ensures next == 32 && patch == 12
    ensures Holds(image[..], CODE_OFFSET, Mov(MOV_RAX, SYS_WRITE) + Mov(MOV_RDI, 0) + Mov(MOV_RSI, length) + Interrupt())
    ensures image[..CODE_OFFSET] == old(image[..CODE_OFFSET])
  {
    hide Splice, Mov, Holds, ToLittle;
    ghost var start := image[..];
    HoldsNothing(image[..], CODE_OFFSET);
    ghost var head := image[..CODE_OFFSET];
    HoldsHead(image[..], CODE_OFFSET);
    HoldsNew(image[..], CODE_OFFSET, [], Mov(MOV_RAX, SYS_WRITE));
    HoldsStill(image[..], 0, head, CODE_OFFSET, Mov(MOV_RAX, SYS_WRITE));
    assert [] + Mov(MOV_RAX, SYS_WRITE) == Mov(MOV_RAX, SYS_WRITE);
    next := EmitMov(image, CODE_OFFSET, MOV_RAX, SYS_WRITE);
    patch := next - CODE_OFFSET + 2;
    ghost var done := Mov(MOV_RAX, SYS_WRITE);
    HoldsNew(image[..], CODE_OFFSET, done, Mov(MOV_RDI, 0));
    HoldsStill(image[..], 0, head, CODE_OFFSET + 10, Mov(MOV_RDI, 0));
    next := EmitMov(image, next, MOV_RDI, 0);
    done := done + Mov(MOV_RDI, 0);
    HoldsNew(image[..], CODE_OFFSET, done, Mov(MOV_RSI, length));
    HoldsStill(image[..], 0, head, CODE_OFFSET + 20, Mov(MOV_RSI, length));
    next := EmitMov(image, next, MOV_RSI, length);
    done := done + Mov(MOV_RSI, length);
    HoldsNew(image[..], CODE_OFFSET, done, Interrupt());
    HoldsStill(image[..], 0, head, CODE_OFFSET + 30, Interrupt());
    next := EmitPair(image, next, Interrupt());
    next := next - CODE_OFFSET;
    HeadHeld(image[..], head);
  }

  lemma HoldsNothing(image: seq<byte>, from: nat)
    requires from <= |image|
    ensures Holds(image, from, [])
  {
  }

  lemma HoldsHead(image: seq<byte>, n: nat)
    requires n <= |image|
    ensures Holds(image, 0, image[..n])
  {
  }

  lemma HeadHeld(image: seq<byte>, head: seq<byte>)
    requires Holds(image, 0, head)
    ensures image[..|head|] == head
  {
  }

  /** Emits the exit call behind what has been emitted. */
  method EmitExit(image: array<byte>, codeSize: nat, value: int, ghost emitted: seq<byte>) returns (next: nat)
    requires CODE_OFFSET + codeSize + 24 <= image.Length && |emitted| == codeSize
    requires Holds(image[..], CODE_OFFSET, emitted)
    modifies image
    ensures next == codeSize + 24 && Holds(image[..], CODE_OFFSET, emitted + ExitCode(value))
    ensures image[..CODE_OFFSET] == old(image[..CODE_OFFSET])
  {
    hide Splice, Mov, Holds, ToLittle;
    ghost var head, done := image[..CODE_OFFSET], emitted;
    HoldsHead(image[..], CODE_OFFSET);
    next := CODE_OFFSET + codeSize;
    HoldsNew(image[..], CODE_OFFSET, done, Mov(MOV_RAX, SYS_EXIT));
    HoldsStill(image[..], 0, head, next, Mov(MOV_RAX, SYS_EXIT));
    next := EmitMov(image, next, MOV_RAX, SYS_EXIT);
    done := done + Mov(MOV_RAX, SYS_EXIT);
    HoldsNew(image[..], CODE_OFFSET, done, Mov(MOV_RDI, Unsigned(value)));
    HoldsStill(image[..], 0, head, next, Mov(MOV_RDI, Unsigned(value)));
    next := EmitMov(image, next, MOV_RDI, Unsigned(value));
    done := done + Mov(MOV_RDI, Unsigned(value));
    HoldsNew(image[..], CODE_OFFSET, done, Interrupt());
    HoldsStill(image[..], 0, head, next, Interrupt());
    next := EmitPair(image, next, Interrupt());
    done := done + Interrupt();
    HoldsNew(image[..], CODE_OFFSET, done, Forever());
    HoldsStill(image[..], 0, head, next, Forever());
    next := EmitPair(image, next, Forever());
    done := done + Forever();
    next := next - CODE_OFFSET;
    HeadHeld(image[..], head);
    assert done == emitted + ExitCode(value);
  }

  /** Writing the message address into the second mov gives the code for that address. */
  lemma Patched(message: Text, value: int)
    requires message != []
    ensures Splice(Mov(MOV_RAX, SYS_WRITE) + Mov(MOV_RDI, 0) + Mov(MOV_RSI, |message|) + Interrupt() + ExitCode(value),
                   12, ToLittle(ENTRY + 56, 8)) ==
      WriteCode(message) + ExitCode(value)
  {
    hide ToLittle, Splice;
  }

  /** The file: headers, zeros up to the code, the segment. */
  function Image(message: Text, value: int): (image: seq<byte>) {
    ElfHeader() + ProgramHeader(CodeSize(message) + |message|) + seq(CODE_OFFSET - 120, _ => 0) + Segment(message, value)
  }

  datatype Program = Program(message: Text, value: int)

  /** The program a source text denotes, when NovaCC accepts it. */
  function Denotes(source: Text): Option<Program> {
    if Find(source, INT_MAIN, 0).None? || Find(source, [123], 0).None? || Find(source, [125], 0).None? then None
    else match (ReturnValue(source), Message(source))
         case (Some(value), Some(message)) => Some(Program(message, value))
         case _ => None
  }

  /** compiler_compile up to storing the file. */
  method Compile(source: Text) returns (file: Option<seq<byte>>)
    ensures file == match Denotes(source) case None => None case Some(p) => Some(Image(p.message, p.value))
  {
    var start := FindText(source, INT_MAIN);
    var open := FindText(source, [123]);
    var close := FindText(source, [125]);
    if start.None? || open.None? || close.None? {
      return None;
    }
    var value := ParseReturn(source);
    if value.None? {
      return None;
    }
    var message := ParsePrint(source);
    if message.None? {
      return None;
    }
    MessageBound(source);
    var image := Generate(message.value, value.value);
    return Some(image);
  }

  lemma MessageBound(source: Text)
    ensures Message(source).Some? ==> |Message(source).value| <= MESSAGE_MAX
  {
  }

  /** The image of a program; every write stays inside the buffer of 4096 + 256 + |message| bytes. */
  method Generate(message: Text, value: int) returns (file: seq<byte>)
    requires |message| <= MESSAGE_MAX
    ensures file == Image(message, value)
  {
    hide Splice, Mov, Holds, ToLittle, ElfHeader, ProgramHeader, Segment, WriteCode, ExitCode;
    var image := new byte[CODE_OFFSET + 256 + |message|](_ => 0);
    assert image[..CODE_OFFSET] == seq(CODE_OFFSET, _ => 0);
    CopyBytes(image, 0, ElfHeader());
    ghost var head := image[..CODE_OFFSET];
    HeadSpliced(seq(image.Length, _ => 0), ElfHeader(), 0, CODE_OFFSET);
    var codeSize, patch := 0, 0;
    HoldsNothing(image[..], CODE_OFFSET);
    if |message| > 0 {
      codeSize, patch := EmitWrite(image, |message|);
    }
    ghost var emitted := if |message| > 0
      then Mov(MOV_RAX, SYS_WRITE) + Mov(MOV_RDI, 0) + Mov(MOV_RSI, |message|) + Interrupt() else [];
    codeSize := EmitExit(image, codeSize, value, emitted);
    ghost var code := WriteCode(message) + ExitCode(value);
    if |message| > 0 {
      Patched(message, value);
      HoldsHead(image[..], CODE_OFFSET);
      HoldsPatched(image[..], CODE_OFFSET, emitted + ExitCode(value), 12, ToLittle(ENTRY + 56, 8));
      HoldsStill(image[..], 0, head, CODE_OFFSET + patch, ToLittle(ENTRY + codeSize, 8));
      var end := EmitU64(image, CODE_OFFSET + patch, ENTRY + codeSize);
      HoldsNew(image[..], CODE_OFFSET, code, message);
      HoldsStill(image[..], 0, head, CODE_OFFSET + codeSize, message);
      CopyBytes(image, CODE_OFFSET + codeSize, message);
    } else {
      HoldsHead(image[..], CODE_OFFSET);
      NoMessage(message, value);
    }
    SegmentIs(message, value);
    assert Holds(image[..], CODE_OFFSET, Segment(message, value));
    var segmentSize := codeSize + |message|;
    HoldsStill(image[..], CODE_OFFSET, Segment(message, value), 64, ProgramHeader(segmentSize));
    ghost var before := image[..];
    CopyBytes(image, 64, ProgramHeader(segmentSize));
    HeadHeld(before, head);
    HeadSpliced(before, ProgramHeader(segmentSize), 64, CODE_OFFSET);
    HeaderIs(head, segmentSize);
    SegmentHeld(image[..], Segment(message, value));
    file := image[..CODE_OFFSET + segmentSize];
    assert file == image[..CODE_OFFSET] + image[CODE_OFFSET..CODE_OFFSET + segmentSize];
  }

  lemma NoMessage(message: Text, value: int)
    requires message == []
    ensures [] + ExitCode(value) == WriteCode(message) + ExitCode(value) == Segment(message, value)
  {
  }

  lemma SegmentIs(message: Text, value: int)
    ensures Segment(message, value) == WriteCode(message) + ExitCode(value) + message
    ensures |WriteCode(message) + ExitCode(value)| == CodeSize(message)
  {
  }

  lemma HeadSpliced(image: seq<byte>, bytes: seq<byte>, at: nat, n: nat)
    requires at + |bytes| <= n <= |image|
    ensures Splice(image, at, bytes)[..n] == image[..at] + bytes + image[at + |bytes|..n]
  {
  }

  lemma HeaderIs(head: seq<byte>, size: nat)
    requires |head| == CODE_OFFSET && head == ElfHeader() + seq(CODE_OFFSET - 64, _ => 0)
    ensures head[..64] + ProgramHeader(size) + head[120..] ==
      ElfHeader() + ProgramHeader(size) + seq(CODE_OFFSET - 120, _ => 0)
  {
    hide ElfHeader, ProgramHeader;
    assert head[..64] == ElfHeader();
    assert head[120..] == seq(CODE_OFFSET - 120, _ => 0);
  }

  lemma SegmentHeld(image: seq<byte>, segment: seq<byte>)
    requires Holds(image, CODE_OFFSET, segment)
    ensures CODE_OFFSET + |segment| <= |image| && image[CODE_OFFSET..CODE_OFFSET + |segment|] == segment
  {
  }
}
