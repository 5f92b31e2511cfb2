/** The bytes of compiled programs, read back as instructions of the processor. */
module BrainfuckBytes {
  import opened Brainfuck
  import opened BrainfuckAssembler
  import opened Wrappers
  import opened XbyakJumps
  import X86
  import Xbyak

  /** v as a signed number of 32 bits. */
  function Signed32(v: int): int {
    (v + 0x8000_0000) % WORD - 0x8000_0000
  }

  /** What the processor should read for an instruction, and whether it works on 64 bits; a jump leads to `dest`. */
  function Meaning(instr: Instr, dest: int): (X86.Op, bool) {
    var cell := X86.Mem(X86.R12);
    match instr
    case IncCur => (X86.Inc(cell), false)
    case DecCur => (X86.Dec(cell), false)
    case AddCur(v) => (X86.Add(cell, Signed32(v)), false)
    case AddStack(v) => (X86.Add(X86.Reg(X86.R12), v), true)
    case MovEdiCur => (X86.Mov(X86.Reg(X86.RDI), cell), false)
    case CallPutchar => (X86.Call(X86.Reg(X86.RBX)), true)
    case CallGetchar => (X86.Call(X86.Reg(X86.RBP)), true)
    case MovCurEax => (X86.Mov(cell, X86.Reg(X86.RAX)), false)
    case MovEaxCur => (X86.Mov(X86.Reg(X86.RAX), cell), false)
    case TestEax => (X86.Test(X86.Reg(X86.RAX), X86.Reg(X86.RAX)), false)
    case Jz(_) => (X86.GoIfZero(dest), true)
    case Jmp(_) => (X86.Go(dest), true)
  }

  /** Decode(c, at) is this instruction, and the next one starts at `end`. */
  ghost predicate ReadAs(c: seq<Byte>, at: nat, instr: Instr, dest: int, end: nat) {
    X86.Decode(c, at) == Some(X86.Decoded(Meaning(instr, dest).0, Meaning(instr, dest).1, end))
  }

  /** One byte, or four, give a 32-bit number back. */
  lemma ShortValue(v: int)
    requires FitsByte(v)
    ensures SignExtended(LittleEndian(v, 1)) == Signed32(v)
  {
    var d, m := Signed32(v), (v + 0x8000_0000) / WORD;
    assert v == d + m * WORD == d + m * 0x100_0000 * 256;
    assert -128 <= d <= 127 && v % 256 == d % 256;
    assert LittleEndian(v, 1) == [v % 256] + [];
  }

  lemma LongValue(v: int)
    ensures SignExtended(LittleEndian(v, 4)) == Signed32(v)
  {
    var d := Signed32(v);
    SignedBack(d, 4);
    assert Half(1) == 128 && Half(2) == 0x8000 && Half(3) == 0x80_0000 && Half(4) == 0x8000_0000;
    SameLow(v, d, 4, (v - d) / WORD);
  }

  /** Only the low bits matter. */
  lemma SameLow(v: int, d: int, k: nat, m: int)
    requires k == 4 && v == d + m * WORD
    ensures LittleEndian(v, k) == LittleEndian(d, k)
  {
    var v1, d1 := v / 256, d / 256;
    var v2, d2 := v1 / 256, d1 / 256;
    assert v1 == d1 + m * 0x100_0000 && v2 == d2 + m * 0x1_0000 && v2 / 256 == d2 / 256 + m * 256;
  }

  lemma PlainReads(c: seq<Byte>, at: nat, instr: Instr)
    requires !IsJump(instr) && (instr.AddStack? ==> IsInInt32(instr.imm))
    requires at + |Encode(instr)| <= |c| && c[at..at + |Encode(instr)|] == Encode(instr)
    ensures ReadAs(c, at, instr, 0, at + |Encode(instr)|)
  {
    hide LittleEndian, SignExtended;
    if instr.AddCur? || instr.AddStack? {
      AddReads(c, at, instr);
    } else {
      var b := c[at..at + |Encode(instr)|];
      assert c[at] == b[0] && c[at + 1] == b[1];
      if |b| == 4 {
        assert c[at + 2] == b[2] && c[at + 3] == b[3];
      }
    }
  }

  lemma AddReads(c: seq<Byte>, at: nat, instr: Instr)
    requires instr.AddCur? || (instr.AddStack? && IsInInt32(instr.imm))
    requires at + |Encode(instr)| <= |c| && c[at..at + |Encode(instr)|] == Encode(instr)
    ensures ReadAs(c, at, instr, 0, at + |Encode(instr)|)
  {
    hide LittleEndian, SignExtended;
    var b, v := c[at..at + |Encode(instr)|], instr.imm;
    var m, n := if instr.AddCur? then 4 else 3, if FitsByte(v) then 1 else 4;
    assert forall k :: 0 <= k < |b| ==> c[at + k] == b[k];
    assert c[at + m..at + m + n] == b[m..] == LittleEndian(v, n);
    if n == 1 {
      ShortValue(v);
    } else {
      LongValue(v);
    }
  }

  /** A settled jump. */
  lemma JumpReads(c: seq<Byte>, j: Jump, instr: Instr, at: nat)
    requires IsJump(instr) && Written(c, j) && (j.size == 1 || j.size == 4) && |c| <= 0x7FFF_FFFF
    requires j.target.value <= |c| && at + |JumpOpcode(instr, j.size)| + j.size == j.end
    requires c[at..j.end - j.size] == JumpOpcode(instr, j.size)
    ensures ReadAs(c, at, instr, j.target.value, j.end)
  {
    SmallCodeLands(c, j);
    hide LittleEndian, SignExtended, Written;
    var op := c[at..j.end - j.size];
    assert c[at] == op[0] && (|op| == 2 ==> c[at + 1] == op[1]);
    assert X86.Immediate(c, j.end - j.size, j.end) == Some(SignExtended(Field(c, j)));
  }

  /** Moves of whole cells that a processor can add at once. */
  ghost predicate Moves(code: seq<Instr>) {
    forall i :: 0 <= i < |code| && code[i].AddStack? ==> code[i].imm % 4 == 0 && IsInInt32(code[i].imm)
  }

  /** Where a jump is to lead: the offset of the instruction that its label stands for. */
  function Dest(layout: Layout, instr: Instr): int {
    if IsJump(instr) && layout.Target(instr.target).Some? then layout.Target(instr.target).value else 0
  }

  ghost predicate InstrReads(layout: Layout, c: seq<Byte>, i: nat) {
    i < |layout.code| && |layout.starts| == |layout.code| + 1 &&
    ReadAs(c, layout.starts[i], layout.code[i], Dest(layout, layout.code[i]), layout.starts[i + 1])
  }

  /** The code is the prologue, the instructions of the layout, each with its jump resolved, and the epilogue. */
  ghost predicate Assembled(layout: Layout, c: seq<Byte>) {
    var n := |layout.code|;
    |layout.starts| == n + 1 && layout.starts[0] == |PROLOGUE| && layout.starts[n] + |EPILOGUE| == |c| &&
    |PROLOGUE| <= |c| && c[..|PROLOGUE|] == PROLOGUE && c[layout.starts[n]..] == EPILOGUE &&
    forall i :: 0 <= i < n ==> InstrReads(layout, c, i)
  }

  /** All jumps have their labels. */
  ghost predicate Labelled(layout: Layout) {
    forall i :: 0 <= i < |layout.code| && IsJump(layout.code[i]) ==> layout.code[i].target in layout.labels
  }

  /** What an assembler has put together reads as its instructions, whatever follows. */
  lemma Reads(a: Assembler, more: seq<Byte>, i: nat)
    requires a.Valid() && Labelled(a.layout) && Moves(a.layout.code) && i < |a.layout.code| && |more| <= MAX_SIZE
    ensures InstrReads(a.layout, a.gen.Code() + more, i)
  {
    hide Xbyak.CodeGenerator.Valid, Layout.Linked, Xbyak.CodeGenerator.Code, ReadAs, SignExtended, JumpPartOf;
    a.Shape();
    Parts(a, i);
    var bytes, layout := a.gen.Code(), a.layout;
    var at, end := layout.starts[i], layout.starts[i + 1];
    assert (bytes + more)[at..end] == bytes[at..end];
    if IsJump(layout.code[i]) {
      JumpPart(a, i);
      var k: nat :| JumpPartOf(a, i, k);
      JumpPartReads(a, more, i, k);
    } else {
      PlainReads(bytes + more, at, layout.code[i]);
    }
  }

  lemma JumpPartReads(a: Assembler, more: seq<Byte>, i: nat, k: nat)
    requires a.Valid() && Labelled(a.layout) && i < |a.layout.code| && IsJump(a.layout.code[i]) && JumpPartOf(a, i, k)
    requires |more| <= MAX_SIZE
    ensures InstrReads(a.layout, a.gen.Code() + more, i)
  {
    hide Xbyak.CodeGenerator.Valid, Layout.Linked, Xbyak.CodeGenerator.Code, ReadAs, SignExtended;
    a.Shape();
    Parts(a, i);
    a.TargetIs(Id(a.layout.code[i].target));
    var bytes, j := a.gen.Code(), a.gen.jumps[k];
    LongerWritten(bytes, more, j);
    var at := a.layout.starts[i];
    assert (bytes + more)[at..j.end - j.size] == bytes[at..j.end - j.size];
    JumpReads(bytes + more, j, a.layout.code[i], at);
  }

  /** With the epilogue after it, the code is all there. */
  lemma AllReads(a: Assembler)
    requires a.Valid() && Labelled(a.layout) && Moves(a.layout.code)
    ensures Assembled(a.layout, a.gen.Code() + EPILOGUE)
  {
    hide InstrReads;
    a.Shape();
    var c := a.gen.Code() + EPILOGUE;
    forall i | 0 <= i < |a.layout.code|
      ensures InstrReads(a.layout, c, i)
    {
      Reads(a, EPILOGUE, i);
    }
    assert c[..|PROLOGUE|] == a.gen.Code()[..|PROLOGUE|];
  }

  lemma Parts(a: Assembler, i: nat)
    requires a.Valid() && i < |a.layout.code|
    ensures var (layout, bytes) := (a.layout, a.gen.Code());
            |layout.starts| == |layout.code| + 1 && layout.starts[i] <= layout.starts[i + 1] <= |bytes| <= MAX_SIZE &&
            (!IsJump(layout.code[i]) ==> layout.PlainOk(bytes, i))
  {
  }

  ghost predicate JumpPartOf(a: Assembler, i: nat, k: nat)
    requires a.Valid()
    reads a, a.gen, a.gen.top
  {
    k < |a.gen.jumps| && var j := a.gen.jumps[k];
    a.layout.JumpOk(j, i) && a.layout.OpcodeOk(a.gen.Code(), j, i) &&
    (j.target.Some? ==> Written(a.gen.Code(), j)) && (j.size == 1 || j.size == 4)
  }

  lemma JumpPart(a: Assembler, i: nat)
    requires a.Valid() && i < |a.layout.code| && IsJump(a.layout.code[i])
    ensures exists k: nat :: JumpPartOf(a, i, k)
  {
    var k :| 0 <= k < |a.layout.js| && a.layout.js[k] == i;
    assert a.layout.JumpOk(a.gen.jumps[k], i) && a.layout.OpcodeOk(a.gen.Code(), a.gen.jumps[k], i);
    JumpSize(a.gen, k);
    if a.gen.jumps[k].target.Some? {
      JumpWritten(a.gen, k);
    }
    assert JumpPartOf(a, i, k);
  }

  lemma JumpSize(gen: Xbyak.CodeGenerator, k: nat)
    requires gen.Valid() && k < |gen.jumps|
    ensures gen.jumps[k].size == 1 || gen.jumps[k].size == 4
  {
  }

  /** The instruction uses what the one before it has left in a register or in the flag. */
  predicate Needs(instr: Instr) {
    instr.TestEax? || instr.Jz? || instr.CallPutchar? || instr.MovCurEax?
  }

  predicate Feeds(a: Instr, b: Instr) {
    (b.TestEax? ==> a.MovEaxCur?) && (b.Jz? ==> a.TestEax?) && (b.CallPutchar? ==> a.MovEdiCur?) &&
    (b.MovCurEax? ==> a.CallGetchar?)
  }

  /** Such an instruction comes right after the one that it needs, and no label stands between them. */
  ghost predicate Paired(code: seq<Instr>, labels: map<nat, nat>) {
    (forall i :: 0 <= i < |code| && Needs(code[i]) ==> 0 < i && Feeds(code[i - 1], code[i])) &&
    forall l :: l in labels ==> labels[l] <= |code| && (labels[l] < |code| ==> !Needs(code[labels[l]]))
  }

  /** What the next instruction needs is there. */
  ghost predicate Live(code: seq<Instr>, m: Machine, cpu: X86.Cpu)
    requires |cpu.regs| == 16
  {
    m.ip < |code| ==>
      (code[m.ip].TestEax? || code[m.ip].MovCurEax? ==> cpu.regs[X86.RAX] == m.eax < WORD) &&
      (code[m.ip].CallPutchar? ==> cpu.regs[X86.RDI] == m.edi < WORD) &&
      (code[m.ip].Jz? ==> cpu.zero == m.zero)
  }

  ghost predicate Words(tape: map<int, nat>, input: seq<nat>) {
    (forall p :: p in tape ==> tape[p] < WORD) && forall k :: 0 <= k < |input| ==> input[k] < WORD
  }

  /** What the instructions leave alone. */
  datatype Kept = Kept(stack: seq<int>, r13: int, r14: int, r15: int)

  /** The processor is where the instructions are, and its registers and memory are what they say. */
  ghost predicate Same(env: X86.Env, layout: Layout, kept: Kept, m: Machine, cpu: X86.Cpu) {
    m.ip <= |layout.code| && |layout.starts| == |layout.code| + 1 && cpu.ip == layout.starts[m.ip] &&
    |cpu.regs| == 16 && cpu.regs[X86.RBX] == env.putchar != env.getchar == cpu.regs[X86.RBP] &&
    cpu.regs[X86.R12] == env.tape + m.addr && m.addr % 4 == 0 && cpu.stack == kept.stack && cpu.tape == m.tape &&
    cpu.regs[13] == kept.r13 && cpu.regs[14] == kept.r14 && cpu.regs[15] == kept.r15 &&
    cpu.input == m.input && cpu.output == m.output && Words(m.tape, m.input) && Live(layout.code, m, cpu)
  }

  /** The code that runs: it is read correctly, and its moves are of whole cells. */
  ghost predicate Runnable(layout: Layout, c: seq<Byte>) {
    Assembled(layout, c) && Labelled(layout) && Moves(layout.code) && Paired(layout.code, layout.labels)
  }

  /** One step of the processor is that of the instruction. */
  lemma StepOf(env: X86.Env, layout: Layout, c: seq<Byte>, kept: Kept, m: Machine, cpu: X86.Cpu)
    requires Runnable(layout, c) && Same(env, layout, kept, m, cpu) && m.ip < |layout.code|
    ensures var (op, wide) := Meaning(layout.code[m.ip], Dest(layout, layout.code[m.ip]));
            X86.Proper(op, wide) &&
            X86.Step(c, env, cpu) == X86.Perform(env, cpu.(ip := layout.starts[m.ip + 1]), op, wide)
  {
    hide X86.Decode, X86.Perform, X86.Proper, Meaning, Words, Live, Paired, Moves, Labelled;
    assert InstrReads(layout, c, m.ip);
    MeaningProper(layout.code[m.ip], Dest(layout, layout.code[m.ip]));
  }

  lemma MeaningProper(instr: Instr, dest: int)
    ensures X86.Proper(Meaning(instr, dest).0, Meaning(instr, dest).1)
  {
  }

  /** Nothing that the instruction after one without a needed result uses is lost. */
  lemma LiveAfter(code: seq<Instr>, labels: map<nat, nat>, m: Machine, n: Machine, cpu: X86.Cpu)
    requires Paired(code, labels) && m.ip < |code| && n.ip == m.ip + 1 && |cpu.regs| == 16
    requires code[m.ip].MovEaxCur? || code[m.ip].CallGetchar? ==> cpu.regs[X86.RAX] == n.eax < WORD
    requires code[m.ip].MovEdiCur? ==> cpu.regs[X86.RDI] == n.edi < WORD
    requires code[m.ip].TestEax? ==> cpu.zero == n.zero
    ensures Live(code, n, cpu)
  {
  }

  lemma Lockstep(env: X86.Env, layout: Layout, c: seq<Byte>, kept: Kept, m: Machine, cpu: X86.Cpu)
    requires Runnable(layout, c) && Same(env, layout, kept, m, cpu) && m.ip < |layout.code|
    ensures Same(env, layout, kept, Execute(layout.code, layout.labels, m), X86.Step(c, env, cpu))
  {
    StepOf(env, layout, c, kept, m, cpu);
    var instr := layout.code[m.ip];
    hide X86.Step, X86.Decode, Assembled;
    if IsJump(instr) {
      JumpStep(env, layout, c, kept, m, cpu);
    } else {
      PlainStep(env, layout, c, kept, m, cpu);
    }
  }

  lemma JumpStep(env: X86.Env, layout: Layout, c: seq<Byte>, kept: Kept, m: Machine, cpu: X86.Cpu)
    requires Runnable(layout, c) && Same(env, layout, kept, m, cpu) && m.ip < |layout.code|
    requires IsJump(layout.code[m.ip])
    ensures Same(env, layout, kept, Execute(layout.code, layout.labels, m), X86.Step(c, env, cpu))
  {
    StepOf(env, layout, c, kept, m, cpu);
    hide X86.Step, X86.Decode, Assembled, Moves, Words, Paired, Live;
    var n := Execute(layout.code, layout.labels, m);
    LandsOn(layout, m, cpu);
    JumpLive(layout, m, cpu, X86.Step(c, env, cpu));
  }

  lemma LandsOn(layout: Layout, m: Machine, cpu: X86.Cpu)
    requires Labelled(layout) && Paired(layout.code, layout.labels) && |layout.starts| == |layout.code| + 1
    requires m.ip < |layout.code| && IsJump(layout.code[m.ip]) && |cpu.regs| == 16 && Live(layout.code, m, cpu)
    ensures var l := layout.code[m.ip].target;
            l in layout.labels && layout.labels[l] <= |layout.code| &&
            Dest(layout, layout.code[m.ip]) == layout.starts[layout.labels[l]]
    ensures layout.code[m.ip].Jz? ==> cpu.zero == m.zero
  {
  }

  /** Where a jump ends, and after a jump, nothing is needed. */
  lemma JumpLive(layout: Layout, m: Machine, cpu: X86.Cpu, next: X86.Cpu)
    requires Labelled(layout) && Paired(layout.code, layout.labels) && m.ip < |layout.code| && |next.regs| == 16
    requires IsJump(layout.code[m.ip])
    ensures Live(layout.code, Execute(layout.code, layout.labels, m), next)
  {
  }

  lemma CallStep(env: X86.Env, layout: Layout, kept: Kept, m: Machine, cpu: X86.Cpu)
    requires Same(env, layout, kept, m, cpu) && m.ip < |layout.code| && Paired(layout.code, layout.labels)
    requires layout.code[m.ip].CallPutchar? || layout.code[m.ip].CallGetchar?
    ensures Same(env, layout, kept, Execute(layout.code, layout.labels, m), Done(env, layout, m, cpu))
  {
    var n, next := Execute(layout.code, layout.labels, m), Done(env, layout, m, cpu);
    LiveAfter(layout.code, layout.labels, m, n, next);
  }

  lemma PlainStep(env: X86.Env, layout: Layout, c: seq<Byte>, kept: Kept, m: Machine, cpu: X86.Cpu)
    requires Runnable(layout, c) && Same(env, layout, kept, m, cpu) && m.ip < |layout.code|
    requires !IsJump(layout.code[m.ip])
    ensures Same(env, layout, kept, Execute(layout.code, layout.labels, m), X86.Step(c, env, cpu))
  {
    StepOf(env, layout, c, kept, m, cpu);
    hide X86.Step, X86.Decode, Assembled, X86.Perform;
    var instr := layout.code[m.ip];
    var n, next := Execute(layout.code, layout.labels, m), X86.Step(c, env, cpu);
    if instr.IncCur? || instr.DecCur? || instr.AddCur? {
      AddStep(env, layout, kept, m, cpu);
    } else if instr.AddStack? {
      MoveStep(env, layout, kept, m, cpu);
    } else if instr.CallPutchar? || instr.CallGetchar? {
      CallStep(env, layout, kept, m, cpu);
    } else {
      CopyStep(env, layout, kept, m, cpu);
    }
  }

  /** The processor after the instruction, before anything is said about where it is. */
  function Done(env: X86.Env, layout: Layout, m: Machine, cpu: X86.Cpu): X86.Cpu
    requires m.ip < |layout.code| && |layout.starts| == |layout.code| + 1 && |cpu.regs| == 16
    requires X86.Proper(Meaning(layout.code[m.ip], Dest(layout, layout.code[m.ip])).0,
                        Meaning(layout.code[m.ip], Dest(layout, layout.code[m.ip])).1)
  {
    var (op, wide) := Meaning(layout.code[m.ip], Dest(layout, layout.code[m.ip]));
    X86.Perform(env, cpu.(ip := layout.starts[m.ip + 1]), op, wide)
  }

  lemma SumOfWord(a: int, v: int)
    ensures (a + Signed32(v)) % WORD == (a + v) % WORD
  {
  }


  lemma AddStep(env: X86.Env, layout: Layout, kept: Kept, m: Machine, cpu: X86.Cpu)
    requires Same(env, layout, kept, m, cpu) && m.ip < |layout.code| && Paired(layout.code, layout.labels)
    requires var i := layout.code[m.ip]; i.IncCur? || i.DecCur? || i.AddCur?
    ensures Same(env, layout, kept, Execute(layout.code, layout.labels, m), Done(env, layout, m, cpu))
  {
    var instr := layout.code[m.ip];
    var n, next := Execute(layout.code, layout.labels, m), Done(env, layout, m, cpu);
    var k := if instr.IncCur? then 1 else if instr.DecCur? then -1 else instr.imm;
    SumOfWord(At(m), k);
    assert env.tape + m.addr - env.tape == m.addr;
    assert n.ip == m.ip + 1 && n.tape == m.tape[m.addr / 4 := (At(m) + k) % WORD];
    assert next.tape == n.tape && next.regs == cpu.regs;
    LiveAfter(layout.code, layout.labels, m, n, next);
  }

  lemma MoveStep(env: X86.Env, layout: Layout, kept: Kept, m: Machine, cpu: X86.Cpu)
    requires Same(env, layout, kept, m, cpu) && m.ip < |layout.code| && Paired(layout.code, layout.labels)
    requires Moves(layout.code) && layout.code[m.ip].AddStack?
    ensures Same(env, layout, kept, Execute(layout.code, layout.labels, m), Done(env, layout, m, cpu))
  {
    var n, next := Execute(layout.code, layout.labels, m), Done(env, layout, m, cpu);
    LiveAfter(layout.code, layout.labels, m, n, next);
  }

  lemma CopyStep(env: X86.Env, layout: Layout, kept: Kept, m: Machine, cpu: X86.Cpu)
    requires Same(env, layout, kept, m, cpu) && m.ip < |layout.code| && Paired(layout.code, layout.labels)
    requires var i := layout.code[m.ip]; i.MovEdiCur? || i.MovCurEax? || i.MovEaxCur? || i.TestEax?
    ensures Same(env, layout, kept, Execute(layout.code, layout.labels, m), Done(env, layout, m, cpu))
  {
    var n, next := Execute(layout.code, layout.labels, m), Done(env, layout, m, cpu);
    assert env.tape + m.addr - env.tape == m.addr;
    LiveAfter(layout.code, layout.labels, m, n, next);
  }
}
