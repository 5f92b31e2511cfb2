/** As much of a 64-bit processor as compiled programs use: how bytes are read as instructions, and what these do. */
module X86 {
  import opened XbyakJumps
  import opened Wrappers

  const WORD: nat := 0x1_0000_0000
  const EOF: nat := 0xFFFF_FFFF

  const RAX: nat := 0
  const RDX: nat := 2
  const RBX: nat := 3
  const RBP: nat := 5
  const RSI: nat := 6
  const RDI: nat := 7
  const R12: nat := 12

  /** A register, or the four bytes at the address in one. */
  datatype Place = Reg(n: nat) | Mem(n: nat)

  datatype Op =
    | Inc(rm: Place)
    | Dec(rm: Place)
    | Add(rm: Place, imm: int)
    | Mov(to: Place, from: Place)
    | Test(a: Place, b: Place)
    | Call(rm: Place)
    | GoIfZero(dest: int)
    | Go(dest: int)
    | Push(r: nat)
    | Pop(r: nat)
    | Ret

  /** An instruction, whether it works on 64 bits, and where the next one starts. */
  datatype Decoded = Decoded(op: Op, wide: bool, end: nat)

  /** The bytes from a up to b as a signed number, least significant byte first. */
  function Immediate(c: seq<Byte>, a: nat, b: nat): Option<int>
    requires a < b
  {
    if b <= |c| then Some(SignExtended(c[a..b])) else None
  }

  /** The register field, and the operand that a ModRM byte at q and maybe an SIB byte name, and where they end; no
      displacements and no index registers. */
  function Operand(c: seq<Byte>, q: nat, rex: nat): Option<(nat, Place, nat)> {
    if q >= |c| then
      None
    else
      var mode, reg, rm := c[q] / 64, c[q] / 8 % 8, c[q] % 8;
      if mode == 3 then
        Some((reg, Reg(rm + 8 * (rex % 2)), q + 1))
      else if mode == 0 && rm != 4 && rm != 5 then
        Some((reg, Mem(rm + 8 * (rex % 2)), q + 1))
      else if mode == 0 && rm == 4 && q + 1 < |c| && c[q + 1] / 8 % 8 == 4 && c[q + 1] % 8 != 5 && rex / 2 % 2 == 0 then
        Some((reg, Mem(c[q + 1] % 8 + 8 * (rex % 2)), q + 2))
      else
        None
  }

  /** Instructions of opcode o with an operand. */
  function WithOperand(c: seq<Byte>, o: Byte, rex: nat, reg: nat, rm: Place, e: nat): Option<Decoded> {
    var wide, r := rex / 8 % 2 == 1, Reg(reg + 8 * (rex / 4 % 2));
    if o == 0xFF && reg == 0 then Some(Decoded(Inc(rm), wide, e))
    else if o == 0xFF && reg == 1 then Some(Decoded(Dec(rm), wide, e))
    else if o == 0xFF && reg == 2 then Some(Decoded(Call(rm), true, e))
    else if o == 0x83 && reg == 0 && Immediate(c, e, e + 1).Some? then
      Some(Decoded(Add(rm, Immediate(c, e, e + 1).value), wide, e + 1))
    else if o == 0x81 && reg == 0 && Immediate(c, e, e + 4).Some? then
      Some(Decoded(Add(rm, Immediate(c, e, e + 4).value), wide, e + 4))
    else if o == 0x89 then Some(Decoded(Mov(rm, r), wide, e))
    else if o == 0x8B then Some(Decoded(Mov(r, rm), wide, e))
    else if o == 0x85 then Some(Decoded(Test(rm, r), wide, e))
    else None
  }

  /** The instruction whose opcode is at p. */
  function AfterPrefix(c: seq<Byte>, p: nat, rex: nat): Option<Decoded> {
    if p >= |c| then
      None
    else
      var o := c[p];
      if o == 0xC3 then Some(Decoded(Ret, true, p + 1))
      else if 0x50 <= o < 0x58 then Some(Decoded(Push(o - 0x50 + 8 * (rex % 2)), true, p + 1))
      else if 0x58 <= o < 0x60 then Some(Decoded(Pop(o - 0x58 + 8 * (rex % 2)), true, p + 1))
      else if (o == 0x74 || o == 0xEB) && Immediate(c, p + 1, p + 2).Some? then
        var dest := p + 2 + Immediate(c, p + 1, p + 2).value;
        Some(Decoded(if o == 0x74 then GoIfZero(dest) else Go(dest), true, p + 2))
      else if o == 0xE9 && Immediate(c, p + 1, p + 5).Some? then
        Some(Decoded(Go(p + 5 + Immediate(c, p + 1, p + 5).value), true, p + 5))
      else if o == 0x0F && p + 1 < |c| && c[p + 1] == 0x84 && Immediate(c, p + 2, p + 6).Some? then
        Some(Decoded(GoIfZero(p + 6 + Immediate(c, p + 2, p + 6).value), true, p + 6))
      else
        match Operand(c, p + 1, rex)
        case Some((reg, rm, e)) => WithOperand(c, o, rex, reg, rm, e)
        case None => None
  }

  /** The instruction at offset `at`, after its REX prefix if it has one. */
  function Decode(c: seq<Byte>, at: int): Option<Decoded> {
    if !(0 <= at < |c|) then None
    else if 0x40 <= c[at] < 0x50 then AfterPrefix(c, at + 1, c[at] - 0x40)
    else AfterPrefix(c, at, 0)
  }

  /** A run of machine code: addresses are offsets in the code; the four-byte cells of the tape are counted from where
      it starts. Registers hold 64 bits, taken as numbers that do not wrap. */
  datatype Cpu = Cpu(ip: int, regs: seq<int>, zero: bool, stack: seq<int>, tape: map<int, nat>, input: seq<nat>,
                     output: seq<nat>)

  /** Where the two functions and the tape are, and what a call leaves in the registers and in the flag. */
  datatype Env = Env(putchar: int, getchar: int, tape: int, scratch: Cpu -> seq<int>, flag: Cpu -> bool)

  /** Registers that a called function gives back as they were. */
  predicate CalleeSaved(r: nat) {
    r == RBX || r == RBP || 12 <= r < 16
  }

  function Scratched(before: seq<int>, scratch: seq<int>): (regs: seq<int>)
    ensures |regs| == |before|
    ensures forall r :: 0 <= r < |before| && CalleeSaved(r) ==> regs[r] == before[r]
  {
    if before == [] then []
    else
      var r := |before| - 1;
      Scratched(before[..r], scratch) + [if CalleeSaved(r) || r >= |scratch| then before[r] else scratch[r]]
  }

  function Load(env: Env, cpu: Cpu, p: Place, wide: bool): int
    requires p.n < |cpu.regs|
  {
    var v := cpu.regs[p.n];
    if p.Mem? then
      var cell := (v - env.tape) / 4;
      if cell in cpu.tape then cpu.tape[cell] else 0
    else if wide then v else v % WORD
  }

  function Store(env: Env, cpu: Cpu, p: Place, wide: bool, v: int): Cpu
    requires p.n < |cpu.regs|
  {
    if p.Mem? then cpu.(tape := cpu.tape[(cpu.regs[p.n] - env.tape) / 4 := v % WORD])
    else cpu.(regs := cpu.regs[p.n := if wide then v else v % WORD])
  }

  /** An addition, which sets the flag. */
  function Increase(env: Env, cpu: Cpu, p: Place, wide: bool, k: int): Cpu
    requires p.n < |cpu.regs|
  {
    var v := Load(env, cpu, p, wide) + k;
    Store(env, cpu, p, wide, v).(zero := (if wide then v else v % WORD) == 0)
  }

  /** A call of one of the two functions, which returns to the next instruction. */
  function CallTo(env: Env, cpu: Cpu, f: int): Cpu
    requires |cpu.regs| == 16
  {
    var regs := Scratched(cpu.regs, env.scratch(cpu));
    if f == env.putchar then
      cpu.(output := cpu.output + [cpu.regs[RDI] % WORD], regs := regs, zero := env.flag(cpu))
    else if f == env.getchar && cpu.input == [] then
      cpu.(regs := regs[RAX := EOF], zero := env.flag(cpu))
    else if f == env.getchar then
      cpu.(input := cpu.input[1..], regs := regs[RAX := cpu.input[0]], zero := env.flag(cpu))
    else cpu
  }

  /** The operands are registers that there are; memory is used by four bytes. */
  predicate Proper(op: Op, wide: bool) {
    match op
    case Inc(p) => p.n < 16 && !(wide && p.Mem?)
    case Dec(p) => p.n < 16 && !(wide && p.Mem?)
    case Add(p, _) => p.n < 16 && !(wide && p.Mem?)
    case Mov(p, q) => p.n < 16 && q.n < 16 && !(wide && (p.Mem? || q.Mem?))
    case Test(p, q) => p == q && p.Reg? && p.n < 16
    case Call(p) => p.n < 16 && p.Reg?
    case Push(r) => r < 16
    case Pop(r) => r < 16
    case _ => true
  }

  /** What an instruction does, before the processor goes on at `ip`. */
  function Perform(env: Env, cpu: Cpu, op: Op, wide: bool): Cpu
    requires |cpu.regs| == 16 && Proper(op, wide)
  {
    match op
    case Inc(p) => Increase(env, cpu, p, wide, 1)
    case Dec(p) => Increase(env, cpu, p, wide, -1)
    case Add(p, imm) => Increase(env, cpu, p, wide, imm)
    case Mov(p, q) => Store(env, cpu, p, wide, Load(env, cpu, q, wide))
    case Test(p, _) => cpu.(zero := Load(env, cpu, p, wide) == 0)
    case Call(p) => CallTo(env, cpu, cpu.regs[p.n])
    case GoIfZero(dest) => if cpu.zero then cpu.(ip := dest) else cpu
    case Go(dest) => cpu.(ip := dest)
    case Push(r) => cpu.(stack := cpu.stack + [cpu.regs[r]])
    case Pop(r) =>
      var n := |cpu.stack|;
      if n == 0 then cpu else cpu.(stack := cpu.stack[..n - 1], regs := cpu.regs[r := cpu.stack[n - 1]])
    case Ret =>
      var n := |cpu.stack|;
      if n == 0 then cpu else cpu.(stack := cpu.stack[..n - 1], ip := cpu.stack[n - 1])
  }

  /** One instruction; nothing happens outside the code or where the bytes are no instruction known here. */
  function Step(c: seq<Byte>, env: Env, cpu: Cpu): Cpu {
    match Decode(c, cpu.ip)
    case Some(d) =>
      if |cpu.regs| == 16 && Proper(d.op, d.wide) then Perform(env, cpu.(ip := d.end), d.op, d.wide) else cpu
    case None => cpu
  }

  function Steps(c: seq<Byte>, env: Env, cpu: Cpu, n: nat): Cpu {
    if n == 0 then cpu else Step(c, env, Steps(c, env, cpu, n - 1))
  }

  lemma {:induction false} StepsAdd(c: seq<Byte>, env: Env, cpu: Cpu, i: nat, j: nat)
    ensures Steps(c, env, cpu, i + j) == Steps(c, env, Steps(c, env, cpu, i), j)
    decreases j
  {
    hide Step;
    if j > 0 {
      StepsAdd(c, env, cpu, i, j - 1);
    }
  }
}
