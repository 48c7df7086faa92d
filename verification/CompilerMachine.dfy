/**
 Running what NovaCC emits: the instructions it uses, the kernel's native write
 and exit calls (kernel/process.c), and the proof that a compiled program
 prints its message and exits with its value.
 */
module CompilerMachine {
  import opened VmTypes
  import opened Bytes
  import opened CompilerParser
  import opened CompilerCode

  const WRITE_LIMIT := 1024 * 1024
  const OUTPUT_MAX := 511

  /** The processor state and what the process has done so far. */
  datatype Cpu = Cpu(rip: nat, rax: nat, rdi: nat, rsi: nat, output: Text, writes: nat, exit: Option<int>)

  /** The loaded segment as the program headers of the image describe it. */
  function Load(image: seq<byte>): Option<seq<byte>>
    requires |image| >= 120
  {
    var offset, address, size :=
      FromLittle(image[72..80]), FromLittle(image[80..88]), FromLittle(image[96..104]);
    if address == ENTRY && offset + size <= |image| then Some(image[offset..offset + size]) else None
  }

  function EntryPoint(image: seq<byte>): nat
    requires |image| >= 120
  {
    FromLittle(image[24..32])
  }

  /** The bytes of the segment at an address. */
  predicate Readable(segment: seq<byte>, address: nat, n: nat) {
    ENTRY <= address && address + n <= ENTRY + |segment|
  }

  function Read(segment: seq<byte>, address: nat, n: nat): (bytes: seq<byte>)
    requires Readable(segment, address, n)
    ensures |bytes| == n
  {
    segment[address - ENTRY..address - ENTRY + n]
  }

  /** append_output: the console buffer keeps the first 511 bytes. */
  function Append(output: Text, text: Text): Text {
    if |output + text| <= OUTPUT_MAX then output + text else (output + text)[..OUTPUT_MAX]
  }

  /** process_handle_syscall for the program in `segment`; a failing write prints nothing. */
  function SystemCall(segment: seq<byte>, cpu: Cpu): Cpu {
    if cpu.rax == SYS_WRITE then
      if cpu.rsi <= WRITE_LIMIT && Readable(segment, cpu.rdi, cpu.rsi)
      then cpu.(output := Append(cpu.output, Read(segment, cpu.rdi, cpu.rsi)), writes := cpu.writes + 1, rax := cpu.rsi)
      else cpu.(writes := cpu.writes + 1, rax := WORD - 1)
    else if cpu.rax == SYS_YIELD then cpu.(rax := 0)
    else if cpu.rax == SYS_EXIT then cpu.(exit := Some(ToInt(cpu.rdi)), rax := 0)
    else cpu.(rax := WORD - 1)
  }

  /** One instruction, or none when the bytes at the instruction pointer are not one of those modelled. */
  function Step(segment: seq<byte>, cpu: Cpu): Option<Cpu> {
    if Readable(segment, cpu.rip, 10) && Read(segment, cpu.rip, 1) == [REX_W] then
      var opcode, value := Read(segment, cpu.rip + 1, 1)[0], FromLittle(Read(segment, cpu.rip + 2, 8));
      var next := cpu.(rip := cpu.rip + 10);
      if opcode == MOV_RAX then Some(next.(rax := value))
      else if opcode == MOV_RDI then Some(next.(rdi := value))
      else if opcode == MOV_RSI then Some(next.(rsi := value))
      else None
    else if Readable(segment, cpu.rip, 2) then
      var pair := Read(segment, cpu.rip, 2);
      if pair == Interrupt() then Some(SystemCall(segment, cpu.(rip := cpu.rip + 2)))
      else if pair == Forever() then Some(cpu)
      else None
    else None
  }

  /** At most `n` instructions, stopping once the process has exited. */
  function Execute(segment: seq<byte>, cpu: Cpu, n: nat): Option<Cpu>
    decreases n
  {
    if n == 0 || cpu.exit.Some? then Some(cpu)
    else match Step(segment, cpu)
         case None => None
         case Some(next) => Execute(segment, next, n - 1)
  }

  const START := Cpu(ENTRY, 0, 0, 0, [], 0, None)

  // ----- reading the emitted bytes back

  lemma Part(s: seq<byte>, o: nat, n: nat, a: nat, b: nat)
    requires a <= b <= n && o + n <= |s|
    ensures s[o..o + n][a..b] == s[o + a..o + b]
  {
    var whole := s[o..o + n];
    forall k: nat | k < b - a ensures whole[a..b][k] == s[o + a..o + b][k] {
    }
  }

  lemma StepMov(segment: seq<byte>, cpu: Cpu, opcode: byte, value: nat)
    requires ENTRY <= cpu.rip && value < WORD && Holds(segment, cpu.rip - ENTRY, Mov(opcode, value))
    requires opcode == MOV_RAX || opcode == MOV_RDI || opcode == MOV_RSI
    ensures var next := cpu.(rip := cpu.rip + 10);
      Step(segment, cpu) == Some(
        if opcode == MOV_RAX then next.(rax := value)
        else if opcode == MOV_RDI then next.(rdi := value) else next.(rsi := value))
  {
    hide ToLittle, FromLittle;
    var o := cpu.rip - ENTRY;
    var piece := segment[o..o + 10];
    assert piece == [REX_W, opcode] + ToLittle(value, 8);
    Part(segment, o, 10, 0, 1);
    Part(segment, o, 10, 1, 2);
    Part(segment, o, 10, 2, 10);
    assert piece[0..1] == [REX_W] && piece[1..2] == [opcode] && piece[2..10] == ToLittle(value, 8);
    WidthRanges();
    LittleRoundTrip(value, 8);
  }

  lemma StepInterrupt(segment: seq<byte>, cpu: Cpu)
    requires ENTRY <= cpu.rip && Holds(segment, cpu.rip - ENTRY, Interrupt())
    ensures Step(segment, cpu) == Some(SystemCall(segment, cpu.(rip := cpu.rip + 2)))
  {
    hide SystemCall;
    var o := cpu.rip - ENTRY;
    var pair := segment[o..o + 2];
    assert pair == Interrupt() && segment[o] == pair[0];
    assert segment[o..o + 1] == [0xCD];
  }

  /** Where each instruction of a program with a message lies. */
  lemma WritePieces(message: Text, value: int)
    requires message != []
    ensures var s := Segment(message, value);
      && Holds(s, 0, Mov(MOV_RAX, SYS_WRITE)) && Holds(s, 10, Mov(MOV_RDI, ENTRY + 56))
      && Holds(s, 20, Mov(MOV_RSI, |message|)) && Holds(s, 30, Interrupt())
      && Holds(s, 32, Mov(MOV_RAX, SYS_EXIT)) && Holds(s, 42, Mov(MOV_RDI, Unsigned(value))) && Holds(s, 52, Interrupt())
      && Holds(s, 56, message)
  {
    hide ToLittle, Mov;
  }

  lemma ExitPieces(value: int)
    ensures var s := Segment([], value);
      && Holds(s, 0, Mov(MOV_RAX, SYS_EXIT)) && Holds(s, 10, Mov(MOV_RDI, Unsigned(value))) && Holds(s, 20, Interrupt())
  {
    hide ToLittle, Mov;
  }

  /** The exit status survives the trip through the 64-bit argument. */
  lemma StatusRoundTrip(value: int)
    requires -0x8000_0000 <= value < 0x8000_0000
    ensures ToInt(Unsigned(value)) == value
  {
    if value < 0 {
      assert Unsigned(value) == WORD + value;
    }
  }

  /** The exit sequence at offset `o` ends the process with the value. */
  lemma ExitRuns(segment: seq<byte>, cpu: Cpu, o: nat, value: int)
    requires cpu.rip == ENTRY + o && cpu.exit.None? && -0x8000_0000 <= value < 0x8000_0000
    requires Holds(segment, o, Mov(MOV_RAX, SYS_EXIT)) && Holds(segment, o + 10, Mov(MOV_RDI, Unsigned(value)))
    requires Holds(segment, o + 20, Interrupt())
    ensures var last := Execute(segment, cpu, 3);
      && last.Some? && last.value.exit == Some(value)
      && last.value.output == cpu.output && last.value.writes == cpu.writes
  {
    hide Step, Mov, Holds;
    StatusRoundTrip(value);
    StepMov(segment, cpu, MOV_RAX, SYS_EXIT);
    var c1 := cpu.(rip := cpu.rip + 10, rax := SYS_EXIT);
    StepMov(segment, c1, MOV_RDI, Unsigned(value));
    var c2 := c1.(rip := c1.rip + 10, rdi := Unsigned(value));
    StepInterrupt(segment, c2);
    var c3 := SystemCall(segment, c2.(rip := c2.rip + 2));
    Chain(segment, cpu, c1, 2);
    Chain(segment, c1, c2, 1);
    Chain(segment, c2, c3, 0);
  }

  lemma Chain(segment: seq<byte>, cpu: Cpu, next: Cpu, n: nat)
    requires cpu.exit.None? && Step(segment, cpu) == Some(next)
    ensures Execute(segment, cpu, n + 1) == Execute(segment, next, n)
  {
  }

  /** The process has ended with the value, having printed the message in at most one write. */
  predicate Behaves(last: Option<Cpu>, message: Text, value: int) {
    && last.Some? && last.value.exit == Some(value) && last.value.output == message
    && last.value.writes == if message == [] then 0 else 1
  }

  /**
   NovaCC preserves meaning: from the entry point the emitted bytes print exactly
   the message, in a single write or none when it is empty, and then exit with the value.
   */
  lemma ProgramRuns(message: Text, value: int)
    requires |message| <= MESSAGE_MAX && -0x8000_0000 <= value < 0x8000_0000
    ensures exists n: nat :: Behaves(Execute(Segment(message, value), START, n), message, value)
  {
    hide Step, Mov, Holds, Execute;
    var s := Segment(message, value);
    if message == [] {
      ExitPieces(value);
      ExitRuns(s, START, 0, value);
      assert Behaves(Execute(s, START, 3), message, value);
    } else {
      WritePieces(message, value);
      StepMov(s, START, MOV_RAX, SYS_WRITE);
      var c1 := START.(rip := ENTRY + 10, rax := SYS_WRITE);
      StepMov(s, c1, MOV_RDI, ENTRY + 56);
      var c2 := c1.(rip := ENTRY + 20, rdi := ENTRY + 56);
      StepMov(s, c2, MOV_RSI, |message|);
      var c3 := c2.(rip := ENTRY + 30, rsi := |message|);
      StepInterrupt(s, c3);
      WriteCall(s, message, c3.(rip := ENTRY + 32));
      var c4 := c3.(rip := ENTRY + 32, rax := |message|, output := message, writes := 1);
      ExitRuns(s, c4, 32, value);
      Chain(s, START, c1, 6);
      Chain(s, c1, c2, 5);
      Chain(s, c2, c3, 4);
      Chain(s, c3, c4, 3);
      assert Behaves(Execute(s, START, 7), message, value);
    }
  }

  lemma WriteCall(s: seq<byte>, message: Text, cpu: Cpu)
    requires Holds(s, 56, message) && |message| <= MESSAGE_MAX && cpu.output == []
    requires cpu.rax == SYS_WRITE && cpu.rdi == ENTRY + 56 && cpu.rsi == |message|
    ensures SystemCall(s, cpu) == cpu.(output := message, writes := cpu.writes + 1, rax := |message|)
  {
    assert [] + message == message;
  }

  /** The headers lead the loader to the segment and the entry point. */
  lemma ImageLoads(message: Text, value: int)
    requires |message| <= MESSAGE_MAX
    ensures var image := Image(message, value);
      |image| >= 120 && EntryPoint(image) == ENTRY && Load(image) == Some(Segment(message, value))
  {
    hide ToLittle, FromLittle, Segment, ElfHeader, ProgramHeader;
    var image, size := Image(message, value), CodeSize(message) + |message|;
    var elf, program := ElfHeader(), ProgramHeader(size);
    WidthRanges();
    HeaderFields(size);
    assert image[24..32] == elf[24..32] && image[72..80] == program[8..16];
    assert image[80..88] == program[16..24] && image[96..104] == program[32..40];
    LittleRoundTrip(ENTRY, 8);
    LittleRoundTrip(CODE_OFFSET, 8);
    LittleRoundTrip(size, 8);
    assert image[CODE_OFFSET..CODE_OFFSET + size] == Segment(message, value);
  }

  lemma HeaderFields(size: nat)
    ensures ElfHeader()[24..32] == ToLittle(ENTRY, 8)
    ensures var p := ProgramHeader(size);
      p[8..16] == ToLittle(CODE_OFFSET, 8) && p[16..24] == ToLittle(ENTRY, 8) && p[32..40] == ToLittle(size, 8)
  {
    hide ToLittle;
  }

  /** From source to behaviour, for every source NovaCC accepts. */
  lemma CompiledMeansSource(source: Text)
    requires Denotes(source).Some?
    ensures var p := Denotes(source).value;
      var image := Image(p.message, p.value);
      && |image| >= 120 && EntryPoint(image) == ENTRY && Load(image).Some?
      && exists n: nat :: Behaves(Execute(Load(image).value, START, n), p.message, p.value)
  {
    hide Execute, Image, ReturnValue, Message, Load;
    var p := Denotes(source).value;
    MessageBound(source);
    ReturnFits(source);
    ImageLoads(p.message, p.value);
    ProgramRuns(p.message, p.value);
  }
}
