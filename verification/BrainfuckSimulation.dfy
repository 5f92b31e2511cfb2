/** Compiled code does what the program does, step by step, whether or not the program ends. */
module BrainfuckSimulation {
  import opened Brainfuck

  ghost predicate Run(prog: string, i: nat, r: nat) {
    1 <= r && i + r <= |prog| && forall k :: i <= k < i + r ==> prog[k] == prog[i]
  }

  function AddInstr(c: char, r: nat): Instr {
    if r == 1 then if c == '+' then IncCur else DecCur
    else AddCur(if c == '+' then r else 0 - r)
  }

  function MoveInstr(c: char, r: nat): Instr {
    AddStack(4 * if c == '>' then r else 0 - r)
  }

  /** The code from p on begins with these instructions. */
  predicate Has(code: seq<Instr>, p: nat, instrs: seq<Instr>) {
    p + |instrs| <= |code| && code[p..p + |instrs|] == instrs
  }

  predicate IsCommand(c: char) {
    c in "+-><.,[]"
  }

  /** `at` tells for some places in the program where their code begins; i is one of them, and its block is the code
      for the run of equal commands that starts there. */
  ghost predicate BlockOk(prog: string, code: seq<Instr>, labels: map<nat, nat>, at: map<nat, nat>, i: nat)
    requires Balanced(prog) && i in at && i < |prog|
  {
    var p := at[i];
    match prog[i]
    case '+' => exists r :: Run(prog, i, r) && Next(at, i + r, p + 1) && Has(code, p, [AddInstr('+', r)])
    case '-' => exists r :: Run(prog, i, r) && Next(at, i + r, p + 1) && Has(code, p, [AddInstr('-', r)])
    case '>' => exists r :: Run(prog, i, r) && Next(at, i + r, p + 1) && Has(code, p, [MoveInstr('>', r)])
    case '<' => exists r :: Run(prog, i, r) && Next(at, i + r, p + 1) && Has(code, p, [MoveInstr('<', r)])
    case '.' => Next(at, i + 1, p + 2) && Has(code, p, [MovEdiCur, CallPutchar])
    case ',' => Next(at, i + 1, p + 2) && Has(code, p, [CallGetchar, MovCurEax])
    case '[' => Next(at, i + 1, p + 3) && exists f :: OpenCode(code, p, f) && Leads(at, labels, f, CloseOf(prog, i) + 1)
    case ']' => Next(at, i + 1, p + 1) && exists b :: Has(code, p, [Jmp(b)]) && Leads(at, labels, b, OpenOf(prog, i))
    case _ => Next(at, i + 1, p)
  }

  predicate OpenCode(code: seq<Instr>, p: nat, f: nat) {
    Has(code, p, [MovEaxCur, TestEax, Jz(f)])
  }

  /** The label l stands where the code for index i begins. */
  ghost predicate Leads(at: map<nat, nat>, labels: map<nat, nat>, l: nat, i: nat) {
    l in labels && Next(at, i, labels[l])
  }

  ghost predicate Next(at: map<nat, nat>, i: nat, p: nat) {
    i in at && at[i] == p
  }

  ghost predicate Compiled(prog: string, code: seq<Instr>, labels: map<nat, nat>, at: map<nat, nat>) {
    Balanced(prog) && Next(at, 0, 0) && Next(at, |prog|, |code|) &&
    forall i :: i in at ==> i <= |prog| && at[i] <= |code| && (i < |prog| ==> BlockOk(prog, code, labels, at, i))
  }

  /** The run of the code has got exactly as far as the run of the program. */
  ghost predicate Match(at: map<nat, nat>, s: State, m: Machine) {
    s.pc in at && m.ip == at[s.pc] && m.tape == s.tape && m.addr == 4 * s.ptr && m.input == s.input &&
    m.output == s.output
  }

  function Added(s: State, d: int): State {
    s.(tape := s.tape[s.ptr := (Cell(s.tape, s.ptr) + d) % WORD])
  }

  lemma ModuloAdd(a: int, d: int, e: int)
    ensures ((a + d) % WORD + e) % WORD == (a + (d + e)) % WORD
  {
  }

  /** r, counted down for '-' and '<'. */
  function Signed(c: char, r: nat): int {
    if c == '+' || c == '>' then r else 0 - r
  }

  lemma StepAdds(prog: string, s: State)
    requires Balanced(prog) && s.pc < |prog| && (prog[s.pc] == '+' || prog[s.pc] == '-')
    ensures Step(prog, s) == Added(s, Signed(prog[s.pc], 1)).(pc := s.pc + 1)
  {
    hide Balanced;
  }

  lemma StepMoves(prog: string, s: State)
    requires Balanced(prog) && s.pc < |prog| && (prog[s.pc] == '>' || prog[s.pc] == '<')
    ensures Step(prog, s) == s.(pc := s.pc + 1, ptr := s.ptr + Signed(prog[s.pc], 1))
  {
    hide Balanced;
  }

  lemma StepsOne(prog: string, s: State)
    requires Balanced(prog)
    ensures Steps(prog, s, 1) == Step(prog, s)
  {
    hide Step;
    assert Steps(prog, s, 0) == s;
  }

  lemma StepsNext(prog: string, s: State, n: nat)
    requires Balanced(prog) && 1 <= n
    ensures Steps(prog, s, n) == Step(prog, Steps(prog, s, n - 1))
  {
    hide Step;
  }

  lemma AddedTwice(s: State, c: char, n: nat, pc: nat)
    requires 1 <= n
    ensures Added(Added(s, Signed(c, n - 1)).(pc := pc), Signed(c, 1)).tape == Added(s, Signed(c, n)).tape
  {
    ModuloAdd(Cell(s.tape, s.ptr), Signed(c, n - 1), Signed(c, 1));
  }

  /** A run of r additions. */
  lemma {:induction false} RunAdds(prog: string, s: State, r: nat, n: nat)
    requires Balanced(prog) && Run(prog, s.pc, r) && 1 <= n <= r && (prog[s.pc] == '+' || prog[s.pc] == '-')
    ensures Steps(prog, s, n) == Added(s, Signed(prog[s.pc], n)).(pc := s.pc + n)
    decreases n
  {
    hide Step, Steps, Balanced;
    if n == 1 {
      StepsOne(prog, s);
      StepAdds(prog, s);
    } else {
      RunAdds(prog, s, r, n - 1);
      var t := Steps(prog, s, n - 1);
      assert prog[t.pc] == prog[s.pc];
      StepsNext(prog, s, n);
      StepAdds(prog, t);
      AddedTwice(s, prog[s.pc], n, t.pc);
    }
  }

  lemma {:induction false} RunMoves(prog: string, s: State, r: nat, n: nat)
    requires Balanced(prog) && Run(prog, s.pc, r) && 1 <= n <= r && (prog[s.pc] == '>' || prog[s.pc] == '<')
    ensures Steps(prog, s, n) == s.(pc := s.pc + n, ptr := s.ptr + Signed(prog[s.pc], n))
    decreases n
  {
    hide Step, Steps, Balanced;
    if n == 1 {
      StepsOne(prog, s);
      StepMoves(prog, s);
    } else {
      RunMoves(prog, s, r, n - 1);
      var t := Steps(prog, s, n - 1);
      assert prog[t.pc] == prog[s.pc];
      StepsNext(prog, s, n);
      StepMoves(prog, t);
    }
  }

  lemma OneInstr(code: seq<Instr>, labels: map<nat, nat>, m: Machine, i: Instr)
    requires Has(code, m.ip, [i])
    ensures m.ip < |code| && code[m.ip] == i && Executes(code, labels, m, 1) == Execute(code, labels, m)
  {
    assert code[m.ip] == code[m.ip..m.ip + 1][0];
    assert Executes(code, labels, m, 0) == m;
  }

  lemma TwoInstrs(code: seq<Instr>, labels: map<nat, nat>, m: Machine, i: Instr, j: Instr)
    requires Has(code, m.ip, [i, j])
    ensures m.ip + 1 < |code| && code[m.ip] == i && code[m.ip + 1] == j
    ensures Executes(code, labels, m, 2) == Execute(code, labels, Execute(code, labels, m))
  {
    assert code[m.ip] == code[m.ip..m.ip + 2][0] && code[m.ip + 1] == code[m.ip..m.ip + 2][1];
    assert Executes(code, labels, m, 0) == m;
    assert Executes(code, labels, m, 1) == Execute(code, labels, m);
  }

  lemma ThreeInstrs(code: seq<Instr>, labels: map<nat, nat>, m: Machine, i: Instr, j: Instr, k: Instr)
    requires Has(code, m.ip, [i, j, k])
    ensures m.ip + 2 < |code| && code[m.ip] == i && code[m.ip + 1] == j && code[m.ip + 2] == k
    ensures Executes(code, labels, m, 3) == Execute(code, labels, Execute(code, labels, Execute(code, labels, m)))
  {
    assert code[m.ip] == code[m.ip..m.ip + 3][0] && code[m.ip + 1] == code[m.ip..m.ip + 3][1];
    assert code[m.ip + 2] == code[m.ip..m.ip + 3][2];
    assert Executes(code, labels, m, 0) == m;
    assert Executes(code, labels, m, 1) == Execute(code, labels, m);
    assert Executes(code, labels, m, 2) == Execute(code, labels, Execute(code, labels, m));
  }

  lemma OutBlock(prog: string, code: seq<Instr>, labels: map<nat, nat>, at: map<nat, nat>, s: State, m: Machine)
    requires Balanced(prog) && s.pc < |prog| && Match(at, s, m) && BlockOk(prog, code, labels, at, s.pc)
    requires prog[s.pc] == '.' || prog[s.pc] == ','
    ensures Match(at, Step(prog, s), Executes(code, labels, m, 2))
  {
    hide Executes, Balanced;
    assert m.addr / 4 == s.ptr;
    if prog[s.pc] == '.' {
      TwoInstrs(code, labels, m, MovEdiCur, CallPutchar);
    } else {
      TwoInstrs(code, labels, m, CallGetchar, MovCurEax);
    }
  }

  lemma OpenBlock(prog: string, code: seq<Instr>, labels: map<nat, nat>, at: map<nat, nat>, s: State, m: Machine)
    requires Balanced(prog) && s.pc < |prog| && Match(at, s, m) && BlockOk(prog, code, labels, at, s.pc)
    requires prog[s.pc] == '['
    ensures Match(at, Step(prog, s), Executes(code, labels, m, 3))
  {
    hide Executes, Balanced, Matching;
    assert m.addr / 4 == s.ptr;
    var f :| OpenCode(code, m.ip, f) && Leads(at, labels, f, CloseOf(prog, s.pc) + 1);
    ThreeInstrs(code, labels, m, MovEaxCur, TestEax, Jz(f));
  }

  lemma CloseBlock(prog: string, code: seq<Instr>, labels: map<nat, nat>, at: map<nat, nat>, s: State, m: Machine)
    requires Balanced(prog) && s.pc < |prog| && Match(at, s, m) && BlockOk(prog, code, labels, at, s.pc)
    requires prog[s.pc] == ']'
    ensures Match(at, Step(prog, s), Executes(code, labels, m, 1))
  {
    hide Executes, Balanced, Matching;
    var b :| Has(code, m.ip, [Jmp(b)]) && Leads(at, labels, b, OpenOf(prog, s.pc));
    OneInstr(code, labels, m, Jmp(b));
  }

  lemma OtherBlock(prog: string, code: seq<Instr>, labels: map<nat, nat>, at: map<nat, nat>, s: State, m: Machine)
    requires Balanced(prog) && s.pc < |prog| && Match(at, s, m) && BlockOk(prog, code, labels, at, s.pc)
    requires !IsCommand(prog[s.pc])
    ensures Match(at, Step(prog, s), m) && Step(prog, s) == s.(pc := s.pc + 1)
  {
    hide Balanced, Matching;
    var c := prog[s.pc];
    assert c != '+' && c != '-' && c != '>' && c != '<' && c != '.' && c != ',' && c != '[' && c != ']';
  }

  /** One block: n commands of the program are k instructions of the code. */
  lemma Block(prog: string, code: seq<Instr>, labels: map<nat, nat>, at: map<nat, nat>, s: State, m: Machine)
    returns (n: nat, k: nat)
    requires Compiled(prog, code, labels, at) && Match(at, s, m) && s.pc < |prog|
    ensures 1 <= n && Match(at, Steps(prog, s, n), Executes(code, labels, m, k))
    ensures IsCommand(prog[s.pc]) ==> 1 <= k
    ensures !IsCommand(prog[s.pc]) ==> n == 1 && k == 0 && Steps(prog, s, n) == s.(pc := s.pc + 1)
  {
    BlockAt(prog, code, labels, at, s.pc);
    hide Compiled, Match, Step, Steps, Executes, BlockOk, Balanced;
    InAt(at, s, m);
    var c := prog[s.pc];
    StepsOne(prog, s);
    ExecutesNone(code, labels, m);
    if c == '+' || c == '-' {
      n, k := AddBlock(prog, code, labels, at, s, m);
    } else if c == '>' || c == '<' {
      n, k := MoveBlock(prog, code, labels, at, s, m);
    } else if c == '.' || c == ',' {
      n, k := 1, 2;
      OutBlock(prog, code, labels, at, s, m);
    } else if c == '[' {
      n, k := 1, 3;
      OpenBlock(prog, code, labels, at, s, m);
    } else if c == ']' {
      n, k := 1, 1;
      CloseBlock(prog, code, labels, at, s, m);
    } else {
      n, k := 1, 0;
      OtherBlock(prog, code, labels, at, s, m);
    }
  }

  lemma InAt(at: map<nat, nat>, s: State, m: Machine)
    requires Match(at, s, m)
    ensures s.pc in at && at[s.pc] == m.ip
  {
  }

  lemma ExecutesNone(code: seq<Instr>, labels: map<nat, nat>, m: Machine)
    ensures Executes(code, labels, m, 0) == m
  {
  }

  lemma BlockAt(prog: string, code: seq<Instr>, labels: map<nat, nat>, at: map<nat, nat>, i: nat)
    requires Compiled(prog, code, labels, at) && i in at && i < |prog|
    ensures Balanced(prog) && BlockOk(prog, code, labels, at, i)
  {
  }

  lemma AddBlock(prog: string, code: seq<Instr>, labels: map<nat, nat>, at: map<nat, nat>, s: State, m: Machine)
    returns (n: nat, k: nat)
    requires Balanced(prog) && s.pc < |prog| && Match(at, s, m) && BlockOk(prog, code, labels, at, s.pc)
    requires prog[s.pc] == '+' || prog[s.pc] == '-'
    ensures 1 <= n && 1 <= k && Match(at, Steps(prog, s, n), Executes(code, labels, m, k))
  {
    hide Steps, Step, Balanced;
    var c := prog[s.pc];
    n :| Run(prog, s.pc, n) && Next(at, s.pc + n, m.ip + 1) && Has(code, m.ip, [AddInstr(c, n)]);
    k := 1;
    RunAdds(prog, s, n, n);
    OneInstr(code, labels, m, AddInstr(c, n));
    assert m.addr / 4 == s.ptr;
  }

  lemma MoveBlock(prog: string, code: seq<Instr>, labels: map<nat, nat>, at: map<nat, nat>, s: State, m: Machine)
    returns (n: nat, k: nat)
    requires Balanced(prog) && s.pc < |prog| && Match(at, s, m) && BlockOk(prog, code, labels, at, s.pc)
    requires prog[s.pc] == '>' || prog[s.pc] == '<'
    ensures 1 <= n && 1 <= k && Match(at, Steps(prog, s, n), Executes(code, labels, m, k))
  {
    hide Steps, Step, Balanced;
    var c := prog[s.pc];
    n :| Run(prog, s.pc, n) && Next(at, s.pc + n, m.ip + 1) && Has(code, m.ip, [MoveInstr(c, n)]);
    k := 1;
    RunMoves(prog, s, n, n);
    OneInstr(code, labels, m, MoveInstr(c, n));
  }

  /** From where both have got equally far, both go on: each by at least one step, or the program ends. */
  lemma {:induction false} Onward(prog: string, code: seq<Instr>, labels: map<nat, nat>, at: map<nat, nat>, s: State,
                                  m: Machine)
    returns (n: nat, k: nat)
    requires Compiled(prog, code, labels, at) && Match(at, s, m) && s.pc < |prog|
    ensures 1 <= n && Match(at, Steps(prog, s, n), Executes(code, labels, m, k))
    ensures 1 <= k || Steps(prog, s, n).pc == |prog|
    decreases |prog| - s.pc
  {
    hide Match, Step, Execute, Compiled, Steps, Executes, Balanced;
    CompiledBalanced(prog, code, labels, at);
    n, k := Block(prog, code, labels, at, s, m);
    if k == 0 && s.pc + 1 < |prog| {
      var t := Steps(prog, s, 1);
      ExecutesNone(code, labels, m);
      var i, j := Onward(prog, code, labels, at, t, m);
      StepsAdd(prog, s, 1, i);
      n, k := 1 + i, j;
    }
  }

  lemma CompiledBalanced(prog: string, code: seq<Instr>, labels: map<nat, nat>, at: map<nat, nat>)
    requires Compiled(prog, code, labels, at)
    ensures Balanced(prog)
  {
  }

  lemma MatchPlace(prog: string, code: seq<Instr>, labels: map<nat, nat>, at: map<nat, nat>, s: State, m: Machine)
    requires Compiled(prog, code, labels, at) && Match(at, s, m)
    ensures s.pc <= |prog| && (s.pc == |prog| ==> m.ip == |code|)
  {
  }

  /** For any number of steps both get as far as each other after at least that many, or at the end of both. */
  lemma {:induction false} Follows(prog: string, code: seq<Instr>, labels: map<nat, nat>, at: map<nat, nat>, s: State,
                                   m: Machine, count: nat)
    returns (n: nat, k: nat)
    requires Compiled(prog, code, labels, at) && Match(at, s, m)
    ensures Balanced(prog) && Match(at, Steps(prog, s, n), Executes(code, labels, m, k))
    ensures Steps(prog, s, n).pc == |prog| || (count <= n && count <= k)
    decreases count
  {
    hide Match, Step, Execute, Compiled, Steps, Executes, Balanced;
    CompiledBalanced(prog, code, labels, at);
    if count == 0 {
      n, k := 0, 0;
      ExecutesNone(code, labels, m);
      StepsNone(prog, s);
    } else {
      n, k := Follows(prog, code, labels, at, s, m, count - 1);
      var t, u := Steps(prog, s, n), Executes(code, labels, m, k);
      MatchPlace(prog, code, labels, at, t, u);
      if t.pc < |prog| {
        var i, j := Onward(prog, code, labels, at, t, u);
        StepsAdd(prog, s, n, i);
        ExecutesAdd(code, labels, m, k, j);
        n, k := n + i, k + j;
      }
    }
  }

  lemma StepsNone(prog: string, s: State)
    requires Balanced(prog)
    ensures Steps(prog, s, 0) == s
  {
  }

  /** A program that has ended stays where it is; so does the code. */
  lemma {:induction false} StaysEnded(prog: string, s: State, n: nat)
    requires Balanced(prog) && s.pc >= |prog|
    ensures Steps(prog, s, n) == s
  {
    if n > 0 {
      StaysEnded(prog, s, n - 1);
    }
  }

  lemma {:induction false} StaysReturned(code: seq<Instr>, labels: map<nat, nat>, m: Machine, n: nat)
    requires m.ip >= |code|
    ensures Executes(code, labels, m, n) == m
  {
    if n > 0 {
      StaysReturned(code, labels, m, n - 1);
    }
  }

  lemma OutputStep(prog: string, s: State)
    requires Balanced(prog)
    ensures s.output <= Step(prog, s).output
  {
    hide Balanced, Matching;
  }

  lemma {:induction false} OutputGrows(prog: string, s: State, n: nat, i: nat)
    requires Balanced(prog)
    ensures Steps(prog, s, n).output <= Steps(prog, s, n + i).output
    decreases i
  {
    hide Step, Balanced;
    if i > 0 {
      OutputGrows(prog, s, n, i - 1);
      OutputStep(prog, Steps(prog, s, n + i - 1));
    }
  }

  lemma {:induction false} PrintedGrows(code: seq<Instr>, labels: map<nat, nat>, m: Machine, n: nat, i: nat)
    ensures Executes(code, labels, m, n).output <= Executes(code, labels, m, n + i).output
    decreases i
  {
    hide Execute;
    if i > 0 {
      PrintedGrows(code, labels, m, n, i - 1);
      PrintStep(code, labels, Executes(code, labels, m, n + i - 1));
    }
  }

  lemma PrintStep(code: seq<Instr>, labels: map<nat, nat>, m: Machine)
    ensures m.output <= Execute(code, labels, m).output
  {
  }

  ghost predicate Ends(prog: string, s: State)
    requires Balanced(prog)
  {
    exists n: nat :: Steps(prog, s, n).pc >= |prog|
  }

  ghost predicate Returns(code: seq<Instr>, labels: map<nat, nat>, m: Machine) {
    exists k: nat :: Executes(code, labels, m, k).ip >= |code|
  }

  lemma CommandHasCode(prog: string, code: seq<Instr>, labels: map<nat, nat>, at: map<nat, nat>, i: nat)
    requires Balanced(prog) && i in at && i < |prog| && BlockOk(prog, code, labels, at, i) && IsCommand(prog[i])
    ensures at[i] < |code|
  {
    hide Balanced, Matching;
  }

  lemma CommentStep(prog: string, code: seq<Instr>, labels: map<nat, nat>, at: map<nat, nat>, s: State, m: Machine)
    requires Compiled(prog, code, labels, at) && Match(at, s, m) && s.pc < |prog| && m.ip >= |code|
    ensures Balanced(prog) && Match(at, Step(prog, s), m) && Step(prog, s).pc == s.pc + 1
  {
    CompiledBalanced(prog, code, labels, at);
    InAt(at, s, m);
    BlockAt(prog, code, labels, at, s.pc);
    hide Compiled, Step, Balanced, BlockOk, Match, IsCommand;
    if IsCommand(prog[s.pc]) {
      CommandHasCode(prog, code, labels, at, s.pc);
    } else {
      OtherBlock(prog, code, labels, at, s, m);
    }
  }

  /** Where the code is used up, nothing but comments is left of the program. */
  lemma {:induction false} OnlyComments(prog: string, code: seq<Instr>, labels: map<nat, nat>, at: map<nat, nat>,
                                        s: State, m: Machine)
    requires Compiled(prog, code, labels, at) && Match(at, s, m) && s.pc <= |prog| && m.ip >= |code|
    ensures Balanced(prog) && Steps(prog, s, |prog| - s.pc).pc == |prog|
    decreases |prog| - s.pc
  {
    hide *;
    CompiledBalanced(prog, code, labels, at);
    if s.pc == |prog| {
      StepsNone(prog, s);
    } else {
      CommentStep(prog, code, labels, at, s, m);
      var t, left := Step(prog, s), |prog| - s.pc - 1;
      OnlyComments(prog, code, labels, at, t, m);
      StepsOne(prog, s);
      StepsAdd(prog, s, 1, left);
    }
  }

  lemma EndsMatch(prog: string, code: seq<Instr>, labels: map<nat, nat>, at: map<nat, nat>, s: State, m: Machine,
                  n: nat)
    returns (i: nat, j: nat)
    requires Compiled(prog, code, labels, at) && Match(at, s, m) && Balanced(prog) && Steps(prog, s, n).pc >= |prog|
    ensures Match(at, Steps(prog, s, n), Executes(code, labels, m, j)) && Executes(code, labels, m, j).ip >= |code|
  {
    hide Match, Step, Execute, Compiled, Steps, Executes, Balanced;
    i, j := Follows(prog, code, labels, at, s, m, n);
    MatchPlace(prog, code, labels, at, Steps(prog, s, i), Executes(code, labels, m, j));
    if i >= n {
      StepsAdd(prog, s, n, i - n);
      StaysEnded(prog, Steps(prog, s, n), i - n);
    } else {
      StepsAdd(prog, s, i, n - i);
      StaysEnded(prog, Steps(prog, s, i), n - i);
    }
  }

  lemma SameReturned(code: seq<Instr>, labels: map<nat, nat>, m: Machine, j: nat, k: nat)
    requires Executes(code, labels, m, j).ip >= |code| && Executes(code, labels, m, k).ip >= |code|
    ensures Executes(code, labels, m, j) == Executes(code, labels, m, k)
  {
    hide Execute, Executes;
    if j <= k {
      ExecutesAdd(code, labels, m, j, k - j);
      StaysReturned(code, labels, Executes(code, labels, m, j), k - j);
    } else {
      ExecutesAdd(code, labels, m, k, j - k);
      StaysReturned(code, labels, Executes(code, labels, m, k), j - k);
    }
  }

  /** Whatever the program has written at some point the code writes too, and the other way round, also if they run
      forever. */
  lemma SameOutput(prog: string, code: seq<Instr>, labels: map<nat, nat>, at: map<nat, nat>, s: State, m: Machine,
                   count: nat)
    returns (n: nat, k: nat)
    requires Compiled(prog, code, labels, at) && Match(at, s, m)
    ensures Balanced(prog)
    ensures Steps(prog, s, count).output <= Executes(code, labels, m, k).output
    ensures Executes(code, labels, m, count).output <= Steps(prog, s, n).output
  {
    hide Match, Step, Execute, Compiled, Steps, Executes, Balanced;
    CompiledBalanced(prog, code, labels, at);
    n, k := Follows(prog, code, labels, at, s, m, count);
    MatchPlace(prog, code, labels, at, Steps(prog, s, n), Executes(code, labels, m, k));
    MatchOutput(at, Steps(prog, s, n), Executes(code, labels, m, k));
    if count <= n {
      OutputGrows(prog, s, count, n - count);
    } else {
      StepsAdd(prog, s, n, count - n);
      StaysEnded(prog, Steps(prog, s, n), count - n);
    }
    if count <= k {
      PrintedGrows(code, labels, m, count, k - count);
    } else {
      ExecutesAdd(code, labels, m, k, count - k);
      StaysReturned(code, labels, Executes(code, labels, m, k), count - k);
    }
  }

  lemma MatchOutput(at: map<nat, nat>, s: State, m: Machine)
    requires Match(at, s, m)
    ensures s.output == m.output
  {
  }

  /** The code returns exactly if the program ends, and then with the same tape, cell, input and output. */
  lemma SameEnd(prog: string, code: seq<Instr>, labels: map<nat, nat>, at: map<nat, nat>, s: State, m: Machine)
    requires Compiled(prog, code, labels, at) && Match(at, s, m)
    ensures Balanced(prog) && (Ends(prog, s) <==> Returns(code, labels, m))
    ensures forall n: nat, k: nat ::
              Steps(prog, s, n).pc >= |prog| && Executes(code, labels, m, k).ip >= |code| ==>
                Match(at, Steps(prog, s, n), Executes(code, labels, m, k))
  {
    hide Match, Step, Execute, Compiled, Steps, Executes, Balanced;
    CompiledBalanced(prog, code, labels, at);
    if Ends(prog, s) {
      var n: nat :| Steps(prog, s, n).pc >= |prog|;
      var i, j := EndsMatch(prog, code, labels, at, s, m, n);
    }
    if Returns(code, labels, m) {
      var k: nat :| Executes(code, labels, m, k).ip >= |code|;
      var i, j := Follows(prog, code, labels, at, s, m, k);
      if Steps(prog, s, i).pc != |prog| {
        var e := j - k;
        ExecutesAdd(code, labels, m, k, e);
        StaysReturned(code, labels, Executes(code, labels, m, k), e);
        MatchPlace(prog, code, labels, at, Steps(prog, s, i), Executes(code, labels, m, j));
        var x := |prog| - Steps(prog, s, i).pc;
        OnlyComments(prog, code, labels, at, Steps(prog, s, i), Executes(code, labels, m, j));
        StepsAdd(prog, s, i, x);
      }
    }
    forall n: nat, k: nat | Steps(prog, s, n).pc >= |prog| && Executes(code, labels, m, k).ip >= |code|
      ensures Match(at, Steps(prog, s, n), Executes(code, labels, m, k))
    {
      var i, j := EndsMatch(prog, code, labels, at, s, m, n);
      SameReturned(code, labels, m, j, k);
    }
  }
}
