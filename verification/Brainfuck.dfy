/** Brainfuck programs and the instructions of its compiler: how each of them runs. */
module Brainfuck {

  const WORD: nat := 0x1_0000_0000

  /** What getchar returns at the end of the input. */
  const EOF: nat := 0xFFFF_FFFF

  function Cell(tape: map<int, nat>, p: int): nat {
    if p in tape then tape[p] else 0
  }

  /** Brackets opened minus brackets closed from index a up to index b. */
  function Depth(prog: string, a: nat, b: nat): int
    requires a <= b <= |prog|
    decreases b
  {
    if a == b then 0
    else Depth(prog, a, b - 1) + if prog[b - 1] == '[' then 1 else if prog[b - 1] == ']' then -1 else 0
  }

  ghost predicate Closed(prog: string, a: nat, b: nat) {
    a <= b <= |prog| && Depth(prog, a, b) == 0 && forall k :: a <= k <= b ==> Depth(prog, a, k) >= 0
  }

  /** The brackets at j and i belong together. */
  ghost predicate Matching(prog: string, j: nat, i: nat) {
    j < i < |prog| && prog[j] == '[' && prog[i] == ']' && Closed(prog, j + 1, i)
  }

  ghost predicate Balanced(prog: string) {
    (forall j :: 0 <= j < |prog| && prog[j] == '[' ==> exists i :: Matching(prog, j, i)) &&
    (forall i :: 0 <= i < |prog| && prog[i] == ']' ==> exists j :: Matching(prog, j, i))
  }

  lemma {:induction false} DepthSplits(prog: string, a: nat, b: nat, c: nat)
    requires a <= b <= c <= |prog|
    ensures Depth(prog, a, c) == Depth(prog, a, b) + Depth(prog, b, c)
    decreases c
  {
    if b < c {
      DepthSplits(prog, a, b, c - 1);
    }
  }

  lemma OneBracket(prog: string, a: nat)
    requires a < |prog|
    ensures Depth(prog, a, a + 1) == if prog[a] == '[' then 1 else if prog[a] == ']' then -1 else 0
  {
    assert Depth(prog, a, a) == 0;
  }

  lemma MatchingUnique(prog: string, j: nat, i: nat, k: nat, l: nat)
    requires Matching(prog, j, i) && Matching(prog, k, l)
    ensures j == k <==> i == l
  {
    if j == k && i < l {
      OneBracket(prog, i);
      DepthSplits(prog, j + 1, i, i + 1);
    } else if j == k && l < i {
      OneBracket(prog, l);
      DepthSplits(prog, j + 1, l, l + 1);
    } else if i == l && j < k {
      Nested(prog, j, k, i);
    } else if i == l && k < j {
      Nested(prog, k, j, i);
    }
  }

  lemma Nested(prog: string, j: nat, k: nat, i: nat)
    requires j < k < i && Matching(prog, j, i)
    ensures !Matching(prog, k, i)
  {
    OneBracket(prog, k);
    DepthSplits(prog, j + 1, k, i);
    DepthSplits(prog, k, k + 1, i);
  }

  ghost function CloseOf(prog: string, j: nat): (i: nat)
    requires Balanced(prog) && j < |prog| && prog[j] == '['
    ensures Matching(prog, j, i)
  {
    var i: nat :| Matching(prog, j, i);
    i
  }

  ghost function OpenOf(prog: string, i: nat): (j: nat)
    requires Balanced(prog) && i < |prog| && prog[i] == ']'
    ensures Matching(prog, j, i)
  {
    var j: nat :| Matching(prog, j, i);
    j
  }

  /** A run of a program: where it is, the tape and the cell it looks at, the input left and the output so far. */
  datatype State = State(pc: nat, tape: map<int, nat>, ptr: int, input: seq<nat>, output: seq<nat>)

  /** One command; anything that is no command does nothing. */
  ghost function Step(prog: string, s: State): State
    requires Balanced(prog)
  {
    if s.pc >= |prog| then s
    else
      var cell := Cell(s.tape, s.ptr);
      var next := s.(pc := s.pc + 1);
      match prog[s.pc]
      case '+' => next.(tape := s.tape[s.ptr := (cell + 1) % WORD])
      case '-' => next.(tape := s.tape[s.ptr := (cell - 1) % WORD])
      case '>' => next.(ptr := s.ptr + 1)
      case '<' => next.(ptr := s.ptr - 1)
      case '.' => next.(output := s.output + [cell])
      case ',' =>
        if s.input == [] then next.(tape := s.tape[s.ptr := EOF])
        else next.(tape := s.tape[s.ptr := s.input[0]], input := s.input[1..])
      case '[' => if cell == 0 then s.(pc := CloseOf(prog, s.pc) + 1) else next
      case ']' => s.(pc := OpenOf(prog, s.pc))
      case _ => next
  }

  ghost function Steps(prog: string, s: State, n: nat): State
    requires Balanced(prog)
  {
    if n == 0 then s else Step(prog, Steps(prog, s, n - 1))
  }

  datatype Instr =
    | IncCur
    | DecCur
    | AddCur(imm: int)
    | AddStack(imm: int)
    | MovEdiCur
    | CallPutchar
    | CallGetchar
    | MovCurEax
    | MovEaxCur
    | TestEax
    | Jz(target: nat)
    | Jmp(target: nat)

  /** A run of the code; addr is the byte address in the register that points into the tape. */
  datatype Machine = Machine(ip: nat, tape: map<int, nat>, addr: int, eax: nat, edi: nat, zero: bool, input: seq<nat>,
                             output: seq<nat>)

  function At(m: Machine): nat {
    Cell(m.tape, m.addr / 4)
  }

  function Store(m: Machine, v: int): Machine {
    m.(tape := m.tape[m.addr / 4 := v % WORD])
  }

  /** One instruction; a label leads to where it was defined in the code. */
  function Execute(code: seq<Instr>, labels: map<nat, nat>, m: Machine): Machine {
    if m.ip >= |code| then m
    else
      var next := m.(ip := m.ip + 1);
      match code[m.ip]
      case IncCur => Store(next, At(m) + 1)
      case DecCur => Store(next, At(m) - 1)
      case AddCur(imm) => Store(next, At(m) + imm)
      case AddStack(imm) => next.(addr := m.addr + imm)
      case MovEdiCur => next.(edi := At(m))
      case CallPutchar => next.(output := m.output + [m.edi])
      case CallGetchar =>
        if m.input == [] then next.(eax := EOF) else next.(eax := m.input[0], input := m.input[1..])
      case MovCurEax => next.(tape := m.tape[m.addr / 4 := m.eax])
      case MovEaxCur => next.(eax := At(m))
      case TestEax => next.(zero := m.eax == 0)
      case Jz(l) => if m.zero then m.(ip := if l in labels then labels[l] else m.ip + 1) else next
      case Jmp(l) => m.(ip := if l in labels then labels[l] else m.ip + 1)
  }

  function Executes(code: seq<Instr>, labels: map<nat, nat>, m: Machine, n: nat): Machine {
    if n == 0 then m else Execute(code, labels, Executes(code, labels, m, n - 1))
  }

  lemma {:induction false} StepsAdd(prog: string, s: State, i: nat, j: nat)
    requires Balanced(prog)
    ensures Steps(prog, s, i + j) == Steps(prog, Steps(prog, s, i), j)
    decreases j
  {
    hide Step;
    if j > 0 {
      StepsAdd(prog, s, i, j - 1);
    }
  }

  lemma {:induction false} ExecutesAdd(code: seq<Instr>, labels: map<nat, nat>, m: Machine, i: nat, j: nat)
    ensures Executes(code, labels, m, i + j) == Executes(code, labels, Executes(code, labels, m, i), j)
    decreases j
  {
    hide Execute;
    if j > 0 {
      ExecutesAdd(code, labels, m, i, j - 1);
    }
  }
}
