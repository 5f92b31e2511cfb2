/** A call of a compiled program: from its prologue to its return it does what the program does. */
module BrainfuckCalls {
  import opened Brainfuck
  import opened BrainfuckAssembler
  import opened BrainfuckBytes
  import opened BrainfuckSimulation
  import opened XbyakJumps
  import opened Wrappers
  import X86

  /** A call as `f(putchar, getchar, tape)` makes it: the return address is on the stack. */
  ghost predicate Called(env: X86.Env, c: seq<Byte>, below: seq<int>, back: int, cpu: X86.Cpu) {
    cpu.ip == 0 && |cpu.regs| == 16 && cpu.regs[X86.RDI] == env.putchar != env.getchar == cpu.regs[X86.RSI] &&
    cpu.regs[X86.RDX] == env.tape && cpu.stack == below + [back] && !(0 <= back <= |c|) && cpu.tape == map[] &&
    cpu.output == [] && Words(map[], cpu.input)
  }

  /** What the prologue saves. */
  function Frame(below: seq<int>, back: int, cpu: X86.Cpu): seq<int>
    requires |cpu.regs| == 16
  {
    below + [back, cpu.regs[X86.RBX], cpu.regs[X86.RBP], cpu.regs[X86.R12]]
  }

  function KeptBy(below: seq<int>, back: int, cpu: X86.Cpu): Kept
    requires |cpu.regs| == 16
  {
    Kept(Frame(below, back, cpu), cpu.regs[13], cpu.regs[14], cpu.regs[15])
  }

  function Start(input: seq<nat>): Machine {
    Machine(0, map[], 0, 0, 0, false, input, [])
  }

  ghost predicate CodeBegins(c: seq<Byte>) {
    |PROLOGUE| <= |c| && c[..|PROLOGUE|] == PROLOGUE
  }

  ghost predicate CodeEnds(c: seq<Byte>, at: nat) {
    at + |EPILOGUE| == |c| && c[at..] == EPILOGUE
  }

  /** How each byte of the prologue reads. */
  lemma PrologueReads(c: seq<Byte>)
    requires CodeBegins(c)
    ensures X86.Decode(c, 0) == Some(X86.Decoded(X86.Push(X86.RBX), true, 1))
    ensures X86.Decode(c, 1) == Some(X86.Decoded(X86.Push(X86.RBP), true, 2))
    ensures X86.Decode(c, 2) == Some(X86.Decoded(X86.Push(X86.R12), true, 4))
    ensures X86.Decode(c, 4) == Some(X86.Decoded(X86.Mov(X86.Reg(X86.RBX), X86.Reg(X86.RDI)), true, 7))
    ensures X86.Decode(c, 7) == Some(X86.Decoded(X86.Mov(X86.Reg(X86.RBP), X86.Reg(X86.RSI)), true, 10))
    ensures X86.Decode(c, 10) == Some(X86.Decoded(X86.Mov(X86.Reg(X86.R12), X86.Reg(X86.RDX)), true, 13))
  {
    assert forall k :: 0 <= k < |PROLOGUE| ==> c[k] == c[..|PROLOGUE|][k] == PROLOGUE[k];
  }

  lemma EpilogueReads(c: seq<Byte>, at: nat)
    requires CodeEnds(c, at)
    ensures X86.Decode(c, at) == Some(X86.Decoded(X86.Pop(X86.R12), true, at + 2))
    ensures X86.Decode(c, at + 2) == Some(X86.Decoded(X86.Pop(X86.RBP), true, at + 3))
    ensures X86.Decode(c, at + 3) == Some(X86.Decoded(X86.Pop(X86.RBX), true, at + 4))
    ensures X86.Decode(c, at + 4) == Some(X86.Decoded(X86.Ret, true, at + 5))
  {
    assert forall k :: 0 <= k < |EPILOGUE| ==> c[at + k] == c[at..][k] == EPILOGUE[k];
  }

  lemma Pushes(c: seq<Byte>, env: X86.Env, cpu: X86.Cpu, r: nat, end: nat)
    requires X86.Decode(c, cpu.ip) == Some(X86.Decoded(X86.Push(r), true, end)) && r < |cpu.regs| == 16
    ensures X86.Step(c, env, cpu) == cpu.(ip := end, stack := cpu.stack + [cpu.regs[r]])
  {
  }

  lemma Copies(c: seq<Byte>, env: X86.Env, cpu: X86.Cpu, to: nat, from: nat, end: nat)
    requires X86.Decode(c, cpu.ip) == Some(X86.Decoded(X86.Mov(X86.Reg(to), X86.Reg(from)), true, end))
    requires to < 16 && from < |cpu.regs| == 16
    ensures X86.Step(c, env, cpu) == cpu.(ip := end, regs := cpu.regs[to := cpu.regs[from]])
  {
  }

  lemma Pops(c: seq<Byte>, env: X86.Env, cpu: X86.Cpu, r: nat, end: nat, stack: seq<int>, v: int)
    requires X86.Decode(c, cpu.ip) == Some(X86.Decoded(X86.Pop(r), true, end)) && r < |cpu.regs| == 16
    requires cpu.stack == stack + [v]
    ensures X86.Step(c, env, cpu) == cpu.(ip := end, stack := stack, regs := cpu.regs[r := v])
  {
    assert cpu.stack[..|stack|] == stack;
  }

  /** The state after the prologue. */
  function Entered(below: seq<int>, back: int, cpu: X86.Cpu): X86.Cpu
    requires |cpu.regs| == 16
  {
    cpu.(ip := 13, stack := Frame(below, back, cpu),
         regs := cpu.regs[X86.RBX := cpu.regs[X86.RDI]][X86.RBP := cpu.regs[X86.RSI]][X86.R12 := cpu.regs[X86.RDX]])
  }

  lemma PrologueRuns(env: X86.Env, c: seq<Byte>, below: seq<int>, back: int, cpu: X86.Cpu)
    requires CodeBegins(c) && Called(env, c, below, back, cpu)
    ensures X86.Steps(c, env, cpu, 6) == Entered(below, back, cpu)
    ensures forall i :: 0 <= i <= 6 ==> Inside(c, X86.Steps(c, env, cpu, i), [])
  {
    hide X86.Decode, X86.Steps, X86.Step, Words, Entered, Frame, Loaded, CodeBegins;
    var u3 := Saves(env, c, below, back, cpu);
    var u6 := Loads(env, c, u3);
    EnteredIs(below, back, cpu, u3, u6);
    StepsNext(c, env, cpu, 0);
    StepsNext(c, env, cpu, 1);
    StepsNext(c, env, cpu, 2);
    StepsNext(c, env, cpu, 3);
    StepsNext(c, env, cpu, 4);
    StepsNext(c, env, cpu, 5);
  }

  lemma EnteredIs(below: seq<int>, back: int, cpu: X86.Cpu, u3: X86.Cpu, u6: X86.Cpu)
    requires |cpu.regs| == 16 && u3 == cpu.(ip := 4, stack := Frame(below, back, cpu)) && u6 == Loaded(u3)
    ensures u6 == Entered(below, back, cpu)
  {
  }

  function Loaded(u: X86.Cpu): X86.Cpu
    requires |u.regs| == 16
  {
    u.(ip := 13, regs := u.regs[X86.RBX := u.regs[X86.RDI]][X86.RBP := u.regs[X86.RSI]][X86.R12 := u.regs[X86.RDX]])
  }

  /** Three pushes. */
  lemma Saves(env: X86.Env, c: seq<Byte>, below: seq<int>, back: int, cpu: X86.Cpu) returns (u3: X86.Cpu)
    requires CodeBegins(c) && Called(env, c, below, back, cpu)
    ensures var u1 := X86.Step(c, env, cpu); var u2 := X86.Step(c, env, u1);
            u3 == X86.Step(c, env, u2) == cpu.(ip := 4, stack := Frame(below, back, cpu)) &&
            Inside(c, cpu, []) && Inside(c, u1, []) && Inside(c, u2, []) && Inside(c, u3, [])
  {
    PrologueReads(c);
    hide X86.Decode, X86.Step, Words;
    Pushes(c, env, cpu, X86.RBX, 1);
    var u1 := X86.Step(c, env, cpu);
    Pushes(c, env, u1, X86.RBP, 2);
    var u2 := X86.Step(c, env, u1);
    Pushes(c, env, u2, X86.R12, 4);
    u3 := X86.Step(c, env, u2);
    assert u3.stack == Frame(below, back, cpu);
  }

  /** Three copies. */
  lemma Loads(env: X86.Env, c: seq<Byte>, u3: X86.Cpu) returns (u6: X86.Cpu)
    requires CodeBegins(c) && u3.ip == 4 && |u3.regs| == 16 && Inside(c, u3, [])
    ensures var u4 := X86.Step(c, env, u3); var u5 := X86.Step(c, env, u4);
            u6 == X86.Step(c, env, u5) == Loaded(u3) && Inside(c, u4, []) && Inside(c, u5, []) && Inside(c, u6, [])
  {
    PrologueReads(c);
    hide X86.Decode, X86.Step;
    Copies(c, env, u3, X86.RBX, X86.RDI, 7);
    var u4 := X86.Step(c, env, u3);
    Copies(c, env, u4, X86.RBP, X86.RSI, 10);
    var u5 := X86.Step(c, env, u4);
    Copies(c, env, u5, X86.R12, X86.RDX, 13);
    u6 := X86.Step(c, env, u5);
  }

  /** After the prologue the processor is where the instructions start. */
  lemma Enters(env: X86.Env, layout: Layout, c: seq<Byte>, below: seq<int>, back: int, cpu: X86.Cpu)
    requires Runnable(layout, c) && Called(env, c, below, back, cpu)
    ensures Same(env, layout, KeptBy(below, back, cpu), Start(cpu.input), Entered(below, back, cpu))
  {
    hide X86.Decode, X86.Steps, Labelled, Moves, Paired;
    AssembledStart(layout, c);
    StartLive(layout.code, layout.labels, Start(cpu.input), Entered(below, back, cpu));
  }

  lemma StartLive(code: seq<Instr>, labels: map<nat, nat>, m: Machine, cpu: X86.Cpu)
    requires Paired(code, labels) && m.ip == 0 && |cpu.regs| == 16
    ensures Live(code, m, cpu)
  {
  }

  lemma AssembledStart(layout: Layout, c: seq<Byte>)
    requires Assembled(layout, c)
    ensures |layout.starts| == |layout.code| + 1 && layout.starts[0] == 13
  {
  }

  lemma StepsNext(c: seq<Byte>, env: X86.Env, cpu: X86.Cpu, i: nat)
    ensures X86.Steps(c, env, cpu, i + 1) == X86.Step(c, env, X86.Steps(c, env, cpu, i))
    ensures X86.Steps(c, env, cpu, 0) == cpu
  {
  }

  /** Within the function, with this output. */
  ghost predicate Inside(c: seq<Byte>, u: X86.Cpu, output: seq<nat>) {
    0 <= u.ip <= |c| && u.output == output
  }

  /** The state after the return: the registers that a function has to keep are as they were, and the stack is too. */
  function Left(below: seq<int>, back: int, cpu: X86.Cpu, u: X86.Cpu): X86.Cpu
    requires |cpu.regs| == 16 && |u.regs| == 16
  {
    u.(ip := back, stack := below,
       regs := u.regs[X86.R12 := cpu.regs[X86.R12]][X86.RBP := cpu.regs[X86.RBP]][X86.RBX := cpu.regs[X86.RBX]])
  }

  /** The epilogue, from the end of the instructions. */
  lemma EpilogueRuns(env: X86.Env, c: seq<Byte>, at: nat, below: seq<int>, back: int, cpu: X86.Cpu, u: X86.Cpu)
    requires CodeEnds(c, at) && u.ip == at
    requires |cpu.regs| == 16 && |u.regs| == 16 && u.stack == Frame(below, back, cpu)
    ensures X86.Steps(c, env, u, 4) == Left(below, back, cpu, u)
    ensures forall i :: 0 <= i < 4 ==> Inside(c, X86.Steps(c, env, u, i), u.output)
  {
    hide X86.Steps, X86.Step, Left, Frame, CodeEnds;
    var u3 := Restores(env, c, at, below, back, cpu, u);
    StepsNext(c, env, u, 0);
    StepsNext(c, env, u, 1);
    StepsNext(c, env, u, 2);
    StepsNext(c, env, u, 3);
  }

  lemma Restores(env: X86.Env, c: seq<Byte>, at: nat, below: seq<int>, back: int, cpu: X86.Cpu, u: X86.Cpu)
    returns (u3: X86.Cpu)
    requires CodeEnds(c, at) && u.ip == at
    requires |cpu.regs| == 16 && |u.regs| == 16 && u.stack == Frame(below, back, cpu)
    ensures var u1 := X86.Step(c, env, u); var u2 := X86.Step(c, env, u1);
            u3 == X86.Step(c, env, u2) && X86.Step(c, env, u3) == Left(below, back, cpu, u) &&
            Inside(c, u, u.output) && Inside(c, u1, u.output) && Inside(c, u2, u.output) && Inside(c, u3, u.output)
  {
    EpilogueReads(c, at);
    hide X86.Decode, X86.Step;
    var b, p, r := cpu.regs[X86.RBX], cpu.regs[X86.RBP], cpu.regs[X86.R12];
    assert u.stack == below + [back, b, p] + [r];
    Pops(c, env, u, X86.R12, at + 2, below + [back, b, p], r);
    var u1 := X86.Step(c, env, u);
    assert u1.stack == below + [back, b] + [p];
    Pops(c, env, u1, X86.RBP, at + 3, below + [back, b], p);
    var u2 := X86.Step(c, env, u1);
    assert u2.stack == below + [back] + [b];
    Pops(c, env, u2, X86.RBX, at + 4, below + [back], b);
    u3 := X86.Step(c, env, u2);
    Returning(c, env, u3, at + 5, below, back);
  }

  lemma Returning(c: seq<Byte>, env: X86.Env, cpu: X86.Cpu, end: nat, below: seq<int>, back: int)
    requires X86.Decode(c, cpu.ip) == Some(X86.Decoded(X86.Ret, true, end)) && |cpu.regs| == 16
    requires cpu.stack == below + [back]
    ensures X86.Step(c, env, cpu) == cpu.(ip := back, stack := below)
  {
    assert cpu.stack[..|below|] == below;
  }

  /** The instructions and the processor in step, as long as there are instructions. */
  lemma {:induction false} InStep(env: X86.Env, layout: Layout, c: seq<Byte>, kept: Kept, m: Machine, cpu: X86.Cpu,
                                  n: nat)
    requires Runnable(layout, c) && Same(env, layout, kept, m, cpu)
    requires n == 0 || Executes(layout.code, layout.labels, m, n - 1).ip < |layout.code|
    ensures Same(env, layout, kept, Executes(layout.code, layout.labels, m, n), X86.Steps(c, env, cpu, n))
    decreases n
  {
    hide Runnable, Same, Execute, X86.Step;
    if n > 0 {
      if n > 1 && Executes(layout.code, layout.labels, m, n - 2).ip >= |layout.code| {
        ExecutesAdd(layout.code, layout.labels, m, n - 2, 1);
        StaysReturned(layout.code, layout.labels, Executes(layout.code, layout.labels, m, n - 2), 1);
      }
      InStep(env, layout, c, kept, m, cpu, n - 1);
      Lockstep(env, layout, c, kept, Executes(layout.code, layout.labels, m, n - 1), X86.Steps(c, env, cpu, n - 1));
    }
  }

  /** The first time that the instructions are at their end. */
  lemma {:induction false} FirstEnd(code: seq<Instr>, labels: map<nat, nat>, m: Machine, n: nat) returns (k: nat)
    requires Executes(code, labels, m, n).ip >= |code|
    ensures k <= n && Executes(code, labels, m, k).ip >= |code| &&
            Executes(code, labels, m, k) == Executes(code, labels, m, n)
    ensures k == 0 || Executes(code, labels, m, k - 1).ip < |code|
    decreases n
  {
    hide Execute;
    k := n;
    if n > 0 && Executes(code, labels, m, n - 1).ip >= |code| {
      k := FirstEnd(code, labels, m, n - 1);
      ExecutesAdd(code, labels, m, n - 1, 1);
      StaysReturned(code, labels, Executes(code, labels, m, n - 1), 1);
    }
  }

  /** The call returns when the instructions have come to their end. */
  lemma BodyEnds(env: X86.Env, layout: Layout, c: seq<Byte>, below: seq<int>, back: int, cpu: X86.Cpu, k: nat)
    requires Runnable(layout, c) && Called(env, c, below, back, cpu)
    requires Executes(layout.code, layout.labels, Start(cpu.input), k).ip >= |layout.code|
    requires k == 0 || Executes(layout.code, layout.labels, Start(cpu.input), k - 1).ip < |layout.code|
    ensures var u := X86.Steps(c, env, cpu, 6 + k);
            Same(env, layout, KeptBy(below, back, cpu), Executes(layout.code, layout.labels, Start(cpu.input), k), u) &&
            X86.Steps(c, env, cpu, 10 + k) == Left(below, back, cpu, u) &&
            forall i :: 6 + k <= i < 10 + k ==> Inside(c, X86.Steps(c, env, cpu, i), u.output)
  {
    hide Execute, Executes, X86.Step, X86.Steps, Runnable, Left, Frame;
    var u0, u := Entered(below, back, cpu), X86.Steps(c, env, cpu, 6 + k);
    Enters(env, layout, c, below, back, cpu);
    Borders(layout, c);
    PrologueRuns(env, c, below, back, cpu);
    X86.StepsAdd(c, env, cpu, 6, k);
    InStep(env, layout, c, KeptBy(below, back, cpu), Start(cpu.input), u0, k);
    EpilogueRuns(env, c, layout.starts[|layout.code|], below, back, cpu, u);
    X86.StepsAdd(c, env, cpu, 6 + k, 4);
    forall i | 6 + k <= i < 10 + k
      ensures Inside(c, X86.Steps(c, env, cpu, i), u.output)
    {
      X86.StepsAdd(c, env, cpu, 6 + k, i - 6 - k);
    }
  }

  lemma Borders(layout: Layout, c: seq<Byte>)
    requires Runnable(layout, c)
    ensures CodeBegins(c) && |layout.starts| == |layout.code| + 1 && CodeEnds(c, layout.starts[|layout.code|])
  {
  }

  /** Outside the code nothing happens. */
  lemma {:induction false} StaysOut(c: seq<Byte>, env: X86.Env, cpu: X86.Cpu, n: nat)
    requires !(0 <= cpu.ip <= |c|)
    ensures X86.Steps(c, env, cpu, n) == cpu
    decreases n
  {
    if n > 0 {
      StaysOut(c, env, cpu, n - 1);
    }
  }

  /** The state of a call that has returned: the stack and all registers that a function has to keep are as before; the
      tape, what is left of the input and the output are these. */
  ghost predicate Result(below: seq<int>, back: int, cpu: X86.Cpu, tape: map<int, nat>, input: seq<nat>,
                         output: seq<nat>, u: X86.Cpu) {
    u.ip == back && u.stack == below && u.tape == tape && u.input == input && u.output == output &&
    |cpu.regs| == |u.regs| == 16 && forall r :: 0 <= r < 16 && X86.CalleeSaved(r) ==> u.regs[r] == cpu.regs[r]
  }

  lemma LeftIs(env: X86.Env, layout: Layout, below: seq<int>, back: int, cpu: X86.Cpu, m: Machine, u: X86.Cpu)
    requires |cpu.regs| == 16 && Same(env, layout, KeptBy(below, back, cpu), m, u)
    ensures var r := Left(below, back, cpu, u);
            Result(below, back, cpu, m.tape, m.input, m.output, r) && r.ip == back && r.output == m.output
  {
  }

  /** Whenever one looks at the call, it has written what the instructions have written at some time; and if it has
      returned, they have come to their end. */
  lemma Somewhere(env: X86.Env, layout: Layout, c: seq<Byte>, below: seq<int>, back: int, cpu: X86.Cpu, n: nat)
    returns (i: nat)
    requires Runnable(layout, c) && Called(env, c, below, back, cpu)
    ensures var u, m := X86.Steps(c, env, cpu, n), Executes(layout.code, layout.labels, Start(cpu.input), i);
            u.output == m.output &&
            (u.ip == back ==>
              m.ip >= |layout.code| && Result(below, back, cpu, m.tape, m.input, m.output, u))
  {
    hide Execute, Executes, X86.Step, X86.Steps, Runnable, Left, Same, Result;
    var m := Start(cpu.input);
    ExecutesNone(layout.code, layout.labels, m);
    Borders(layout, c);
    PrologueRuns(env, c, below, back, cpu);
    if n <= 6 {
      i := 0;
    } else if Executes(layout.code, layout.labels, m, n - 7).ip < |layout.code| {
      i := n - 6;
      Enters(env, layout, c, below, back, cpu);
      InStep(env, layout, c, KeptBy(below, back, cpu), m, Entered(below, back, cpu), i);
      X86.StepsAdd(c, env, cpu, 6, i);
      Within(env, layout, c, KeptBy(below, back, cpu), Executes(layout.code, layout.labels, m, i),
             X86.Steps(c, env, cpu, n));
    } else {
      i := FirstEnd(layout.code, layout.labels, m, n - 7);
      BodyEnds(env, layout, c, below, back, cpu, i);
      var u := X86.Steps(c, env, cpu, 6 + i);
      var end := Executes(layout.code, layout.labels, m, i);
      Within(env, layout, c, KeptBy(below, back, cpu), end, u);
      if n < 10 + i {
        assert Inside(c, X86.Steps(c, env, cpu, n), u.output);
      } else {
        LeftIs(env, layout, below, back, cpu, end, u);
        StaysOut(c, env, Left(below, back, cpu, u), n - 10 - i);
        X86.StepsAdd(c, env, cpu, 10 + i, n - 10 - i);
      }
    }
  }

  /** The code c of a program: its instructions do what its commands do, and its bytes are read as these. */
  ghost predicate Compiles(prog: string, layout: Layout, at: map<nat, nat>, c: seq<Byte>) {
    Compiled(prog, layout.code, layout.labels, at) && Runnable(layout, c)
  }

  lemma Together(prog: string, layout: Layout, at: map<nat, nat>, input: seq<nat>)
    requires Compiled(prog, layout.code, layout.labels, at)
    ensures Balanced(prog) && Match(at, State(0, map[], 0, input, []), Start(input))
  {
  }

  /** Whatever the program has written at some time the call writes too, and the other way round, also if they run
      forever. */
  lemma CallWrites(prog: string, env: X86.Env, layout: Layout, at: map<nat, nat>, c: seq<Byte>, below: seq<int>,
                   back: int, cpu: X86.Cpu, count: nat) returns (n: nat, k: nat)
    requires Compiles(prog, layout, at, c) && Called(env, c, below, back, cpu)
    ensures Balanced(prog)
    ensures Steps(prog, State(0, map[], 0, cpu.input, []), count).output <= X86.Steps(c, env, cpu, k).output
    ensures X86.Steps(c, env, cpu, count).output <= Steps(prog, State(0, map[], 0, cpu.input, []), n).output
  {
    hide Execute, Executes, Step, Steps, X86.Step, X86.Steps, Runnable, Compiled, Called, Balanced, Match;
    var s, m := State(0, map[], 0, cpu.input, []), Start(cpu.input);
    Together(prog, layout, at, cpu.input);
    var i := Somewhere(env, layout, c, below, back, cpu, count);
    var j;
    n, j := SameOutput(prog, layout.code, layout.labels, at, s, m, i);
    var x;
    x, j := SameOutput(prog, layout.code, layout.labels, at, s, m, count);
    k := Reached(env, layout, c, below, back, cpu, j);
  }

  /** Whenever one looks at the instructions, the call has written at some time what they have. */
  lemma Reached(env: X86.Env, layout: Layout, c: seq<Byte>, below: seq<int>, back: int, cpu: X86.Cpu, i: nat)
    returns (n: nat)
    requires Runnable(layout, c) && Called(env, c, below, back, cpu)
    ensures X86.Steps(c, env, cpu, n).output == Executes(layout.code, layout.labels, Start(cpu.input), i).output
    ensures Executes(layout.code, layout.labels, Start(cpu.input), i).ip >= |layout.code| ==>
              X86.Steps(c, env, cpu, n).ip == back
  {
    hide Execute, Executes, X86.Step, X86.Steps, Runnable, Left, Same, Result;
    var m, kept := Start(cpu.input), KeptBy(below, back, cpu);
    if Executes(layout.code, layout.labels, m, i).ip < |layout.code| {
      n := 6 + i;
      Borders(layout, c);
      PrologueRuns(env, c, below, back, cpu);
      Enters(env, layout, c, below, back, cpu);
      Before(layout.code, layout.labels, m, i);
      InStep(env, layout, c, kept, m, Entered(below, back, cpu), i);
      X86.StepsAdd(c, env, cpu, 6, i);
      Within(env, layout, c, kept, Executes(layout.code, layout.labels, m, i), X86.Steps(c, env, cpu, n));
    } else {
      var k := FirstEnd(layout.code, layout.labels, m, i);
      n := 10 + k;
      BodyEnds(env, layout, c, below, back, cpu, k);
      Within(env, layout, c, kept, Executes(layout.code, layout.labels, m, k), X86.Steps(c, env, cpu, 6 + k));
      LeftIs(env, layout, below, back, cpu, Executes(layout.code, layout.labels, m, k), X86.Steps(c, env, cpu, 6 + k));
    }
  }

  lemma Before(code: seq<Instr>, labels: map<nat, nat>, m: Machine, i: nat)
    requires Executes(code, labels, m, i).ip < |code|
    ensures i == 0 || Executes(code, labels, m, i - 1).ip < |code|
  {
  }

  ghost predicate CallEnds(env: X86.Env, c: seq<Byte>, back: int, cpu: X86.Cpu) {
    exists n: nat :: X86.Steps(c, env, cpu, n).ip == back
  }

  /** The call returns exactly if the program ends, and then with the same tape, input and output; the stack and all
      registers that a function has to keep are as they were. */
  lemma CallReturns(prog: string, env: X86.Env, layout: Layout, at: map<nat, nat>, c: seq<Byte>, below: seq<int>,
                    back: int, cpu: X86.Cpu)
    requires Compiles(prog, layout, at, c) && Called(env, c, below, back, cpu)
    ensures Balanced(prog) && (Ends(prog, State(0, map[], 0, cpu.input, [])) <==> CallEnds(env, c, back, cpu))
    ensures forall n: nat, k: nat ::
              var s, u := Steps(prog, State(0, map[], 0, cpu.input, []), n), X86.Steps(c, env, cpu, k);
              s.pc >= |prog| && u.ip == back ==> Result(below, back, cpu, s.tape, s.input, s.output, u)
  {
    hide Execute, Executes, Step, Steps, X86.Step, X86.Steps, Runnable, Compiled, Called, Balanced, Match, Result;
    var s, m := State(0, map[], 0, cpu.input, []), Start(cpu.input);
    Together(prog, layout, at, cpu.input);
    SameEnd(prog, layout.code, layout.labels, at, s, m);
    if Returns(layout.code, layout.labels, m) {
      var i: nat :| Executes(layout.code, layout.labels, m, i).ip >= |layout.code|;
      var n := Reached(env, layout, c, below, back, cpu, i);
    }
    if CallEnds(env, c, back, cpu) {
      var n: nat :| X86.Steps(c, env, cpu, n).ip == back;
      var i := Somewhere(env, layout, c, below, back, cpu, n);
    }
    forall n: nat, k: nat | Steps(prog, s, n).pc >= |prog| && X86.Steps(c, env, cpu, k).ip == back
      ensures var t := Steps(prog, s, n); Result(below, back, cpu, t.tape, t.input, t.output, X86.Steps(c, env, cpu, k))
    {
      var i := Somewhere(env, layout, c, below, back, cpu, k);
      SameData(at, Steps(prog, s, n), Executes(layout.code, layout.labels, m, i));
    }
  }

  lemma SameData(at: map<nat, nat>, s: State, m: Machine)
    requires Match(at, s, m)
    ensures s.tape == m.tape && s.input == m.input && s.output == m.output
  {
  }

  lemma Within(env: X86.Env, layout: Layout, c: seq<Byte>, kept: Kept, m: Machine, cpu: X86.Cpu)
    requires Runnable(layout, c) && Same(env, layout, kept, m, cpu)
    ensures 0 <= cpu.ip <= |c| && cpu.output == m.output && |cpu.regs| == 16
  {
    assert InstrReads(layout, c, m.ip) || m.ip == |layout.code|;
  }
}
