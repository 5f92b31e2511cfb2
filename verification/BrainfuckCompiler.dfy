/** The compiler of bf.cpp: reads the program from a stream and emits its code in one pass. */
module BrainfuckCompiler {
  import opened Brainfuck
  import opened BrainfuckAssembler
  import opened BrainfuckBytes
  import opened BrainfuckCalls
  import opened BrainfuckSimulation
  import Xbyak

  /** Space, and the characters from tab to carriage return. */
  predicate IsSpace(c: char) {
    c == ' ' || '\t' <= c <= '\r'
  }

  /** What `>>` reads of a text, character by character. */
  function Visible(text: string): string {
    if text == "" then ""
    else (if IsSpace(text[0]) then "" else [text[0]]) + Visible(text[1..])
  }

  class Stream {
    const text: string
    var pos: nat
    var good: bool

    ghost predicate Valid()
      reads this
    {
      pos <= |text|
    }

    ghost function Rest(): string
      requires Valid()
      reads this
    {
      Visible(text[pos..])
    }

    constructor (text: string)
      ensures Valid() && good && this.text == text && Rest() == Visible(text)
    {
      this.text, pos, good := text, 0, true;
      new;
      assert text[0..] == text;
    }

    /** is >> c */
    method Get() returns (ok: bool, c: char)
      requires Valid()
      modifies this
      ensures Valid() && (ok ==> good && old(good) && old(Rest()) == [c] + Rest())
      ensures ok ==> pos > 0 && text[pos - 1] == c && !IsSpace(c)
      ensures !ok ==> !good && (old(good) ==> old(Rest()) == "")
    {
      c := ' ';
      if !good {
        return false, c;
      }
      while pos < |text| && IsSpace(text[pos])
        invariant Valid() && good == old(good) && Rest() == old(Rest())
      {
        assert text[pos..][1..] == text[pos + 1..];
        pos := pos + 1;
      }
      if pos == |text| {
        good := false;
        assert text[pos..] == "";
        return false, c;
      }
      c := text[pos];
      assert text[pos..][1..] == text[pos + 1..];
      pos := pos + 1;
      ok := true;
    }

    /** Puts the last character back, unless the stream has failed. */
    method Unget()
      requires Valid() && (good ==> pos > 0 && !IsSpace(text[pos - 1]))
      modifies this`pos
      ensures Valid() && good == old(good)
      ensures good ==> Rest() == [old(text[pos - 1])] + old(Rest())
      ensures !good ==> pos == old(pos)
    {
      if good {
        assert text[pos - 1..][1..] == text[pos..];
        pos := pos - 1;
      }
    }
  }

  /** Counts c, which was just read, and the equal characters that follow it, and reads these. */
  method GetContinuousChar(stream: Stream, c: char) returns (count: nat)
    requires stream.Valid() && stream.good
    modifies stream
    ensures stream.Valid() && 1 <= count <= |old(stream.Rest())| + 1
    ensures forall k :: 0 <= k < count - 1 ==> old(stream.Rest())[k] == c
    ensures var rest := old(stream.Rest())[count - 1..];
            if stream.good then stream.Rest() == rest else rest == ""
  {
    count := 1;
    ghost var all := stream.Rest();
    assert all[0..] == all;
    while true
      invariant stream.Valid() && stream.good && 1 <= count <= |all| + 1
      invariant forall k :: 0 <= k < count - 1 ==> all[k] == c
      invariant stream.Rest() == all[count - 1..]
      decreases |all| - count
    {
      var ok, p := stream.Get();
      if !ok {
        break;
      }
      if p != c {
        break;
      }
      assert all[count - 1..][1..] == all[count..];
      count := count + 1;
    }
    stream.Unget();
  }

  /** How far the compiler has got: pc characters of the program are read; `at` tells where the code of some of them
      begins; os are the brackets still open, whose labels are fs (after the loop) and bs (its start); labels from
      number `unused` on have not been used. */
  datatype Progress = Progress(pc: nat, code: seq<Instr>, labels: map<nat, nat>, at: map<nat, nat>, os: seq<nat>,
                               fs: seq<nat>, bs: seq<nat>, unused: nat)

  /** The open brackets enclose each other and what was read since. */
  ghost predicate Chain(prog: string, os: seq<nat>, pc: nat) {
    (forall k :: 0 <= k < |os| ==> os[k] < pc <= |prog|) &&
    (forall k :: 0 <= k < |os| - 1 ==> os[k] < os[k + 1] && Closed(prog, os[k] + 1, os[k + 1])) &&
    (if os == [] then Closed(prog, 0, pc) else Closed(prog, 0, os[0]) && Closed(prog, os[|os| - 1] + 1, pc))
  }

  ghost predicate OpenAt(prog: string, p: Progress, k: nat)
    requires |p.os| == |p.fs| == |p.bs| && k < |p.os|
  {
    var j, f, b := p.os[k], p.fs[k], p.bs[k];
    j in p.at && j < |prog| && prog[j] == '[' && Next(p.at, j + 1, p.at[j] + 3) && OpenCode(p.code, p.at[j], f) &&
    b in p.labels && p.labels[b] == p.at[j] && f !in p.labels && f < p.unused &&
    forall i :: 0 <= i < k ==> p.fs[i] != f
  }

  ghost predicate Ok(prog: string, p: Progress) {
    Balanced(prog) && p.pc <= |prog| && Next(p.at, 0, 0) && Next(p.at, p.pc, |p.code|) &&
    (forall i :: i in p.at ==> i <= p.pc && p.at[i] <= |p.code|) &&
    (forall i :: i in p.at && i < p.pc && i !in p.os ==> BlockOk(prog, p.code, p.labels, p.at, i)) &&
    |p.os| == |p.fs| == |p.bs| && (forall k :: 0 <= k < |p.os| ==> OpenAt(prog, p, k)) &&
    Chain(prog, p.os, p.pc) && (forall l :: l in p.labels ==> l < p.unused)
  }

  ghost predicate Extends(labels: map<nat, nat>, more: map<nat, nat>) {
    forall l :: l in labels ==> l in more && more[l] == labels[l]
  }

  /** A finished block stays one when code, labels and places are added. */
  lemma BlockStays(prog: string, p: Progress, q: Progress, i: nat)
    requires Balanced(prog) && i in p.at && i < |prog| && BlockOk(prog, p.code, p.labels, p.at, i)
    requires p.code <= q.code && Extends(p.labels, q.labels) && Extends(p.at, q.at)
    ensures BlockOk(prog, q.code, q.labels, q.at, i)
  {
    hide Balanced, Matching, Run;
    var c, at := prog[i], p.at[i];
    HasStays(p.code, q.code, at);
    if c == '+' || c == '-' {
      var r :| Run(prog, i, r) && Next(p.at, i + r, at + 1) && Has(p.code, at, [AddInstr(c, r)]);
      assert Next(q.at, i + r, at + 1) && Has(q.code, at, [AddInstr(c, r)]);
    } else if c == '>' || c == '<' {
      var r :| Run(prog, i, r) && Next(p.at, i + r, at + 1) && Has(p.code, at, [MoveInstr(c, r)]);
      assert Next(q.at, i + r, at + 1) && Has(q.code, at, [MoveInstr(c, r)]);
    } else if c == '[' {
      var f :| OpenCode(p.code, at, f) && Leads(p.at, p.labels, f, CloseOf(prog, i) + 1);
      assert OpenCode(q.code, at, f) && Leads(q.at, q.labels, f, CloseOf(prog, i) + 1);
    } else if c == ']' {
      var b :| Has(p.code, at, [Jmp(b)]) && Leads(p.at, p.labels, b, OpenOf(prog, i));
      assert Has(q.code, at, [Jmp(b)]) && Leads(q.at, q.labels, b, OpenOf(prog, i));
    }
  }

  lemma HasStays(code: seq<Instr>, more: seq<Instr>, at: nat)
    requires code <= more
    ensures forall instrs :: Has(code, at, instrs) ==> Has(more, at, instrs)
  {
    forall instrs | Has(code, at, instrs)
      ensures Has(more, at, instrs)
    {
      assert more[at..at + |instrs|] == code[at..at + |instrs|];
    }
  }

  lemma OpenStays(prog: string, p: Progress, q: Progress, k: nat)
    requires |p.os| == |p.fs| == |p.bs| && |q.os| == |q.fs| == |q.bs| && k < |p.os| && k < |q.os|
    requires OpenAt(prog, p, k) && p.os[..k + 1] == q.os[..k + 1] && p.fs[..k + 1] == q.fs[..k + 1] &&
             p.bs[..k + 1] == q.bs[..k + 1]
    requires p.code <= q.code && Extends(p.labels, q.labels) && Extends(p.at, q.at) && p.unused <= q.unused
    requires p.fs[k] !in q.labels
    ensures OpenAt(prog, q, k)
  {
    assert p.os[k] == p.os[..k + 1][k] == q.os[k] && p.fs[k] == p.fs[..k + 1][k] == q.fs[k];
    assert p.bs[k] == p.bs[..k + 1][k] == q.bs[k];
    HasStays(p.code, q.code, p.at[p.os[k]]);
    forall i | 0 <= i < k
      ensures q.fs[i] != q.fs[k]
    {
      assert q.fs[i] == q.fs[..k + 1][i] == p.fs[..k + 1][i] == p.fs[i];
    }
  }

  lemma {:induction false} NoBrackets(prog: string, a: nat, pc: nat, n: nat)
    requires Closed(prog, a, pc) && pc + n <= |prog|
    requires forall k :: pc <= k < pc + n ==> prog[k] != '[' && prog[k] != ']'
    ensures Closed(prog, a, pc + n)
    decreases n
  {
    if n > 0 {
      NoBrackets(prog, a, pc, n - 1);
      OneBracket(prog, pc + n - 1);
      DepthSplits(prog, a, pc + n - 1, pc + n);
    }
  }

  /** The progress after n characters other than brackets have been compiled to instrs. */
  function Emitted(p: Progress, n: nat, instrs: seq<Instr>): Progress {
    var code := p.code + instrs;
    p.(pc := p.pc + n, code := code, at := p.at[p.pc + n := |code|])
  }

  lemma EmitOk(prog: string, p: Progress, n: nat, instrs: seq<Instr>)
    requires Ok(prog, p) && 1 <= n && p.pc + n <= |prog|
    requires forall k :: p.pc <= k < p.pc + n ==> prog[k] != '[' && prog[k] != ']'
    requires var q := Emitted(p, n, instrs); BlockOk(prog, q.code, q.labels, q.at, p.pc)
    ensures Ok(prog, Emitted(p, n, instrs))
  {
    hide BlockOk, Balanced, Closed, OpenAt;
    var q := Emitted(p, n, instrs);
    forall i | i in q.at && i < q.pc && i !in q.os
      ensures BlockOk(prog, q.code, q.labels, q.at, i)
    {
      if i != p.pc {
        BlockStays(prog, p, q, i);
      }
    }
    forall k | 0 <= k < |q.os|
      ensures OpenAt(prog, q, k)
    {
      OpenLabels(prog, p, k);
      OpenStays(prog, p, q, k);
    }
    NoBrackets(prog, if p.os == [] then 0 else p.os[|p.os| - 1] + 1, p.pc, n);
  }

  lemma OpenLabels(prog: string, p: Progress, k: nat)
    requires |p.os| == |p.fs| == |p.bs| && k < |p.os| && OpenAt(prog, p, k)
    ensures p.fs[k] !in p.labels && p.fs[k] < p.unused && p.bs[k] in p.labels && p.os[k] in p.at &&
            p.os[k] < |prog| && prog[p.os[k]] == '['
  {
  }

  /** The progress after an opening bracket. */
  function Opened(p: Progress): Progress {
    var code := p.code + [MovEaxCur, TestEax, Jz(p.unused + 1)];
    Progress(p.pc + 1, code, p.labels[p.unused := |p.code|], p.at[p.pc + 1 := |code|], p.os + [p.pc],
             p.fs + [p.unused + 1], p.bs + [p.unused], p.unused + 2)
  }

  lemma OpenOk(prog: string, p: Progress)
    requires Ok(prog, p) && p.pc < |prog| && prog[p.pc] == '['
    ensures Ok(prog, Opened(p))
  {
    hide BlockOk, Balanced, Chain, OpenAt;
    var q := Opened(p);
    forall i | i in q.at && i < q.pc && i !in q.os
      ensures BlockOk(prog, q.code, q.labels, q.at, i)
    {
      assert i != p.pc && i !in p.os;
      BlockStays(prog, p, q, i);
    }
    forall k | 0 <= k < |q.os|
      ensures OpenAt(prog, q, k)
    {
      if k < |p.os| {
        OpenLabels(prog, p, k);
        OpenStays(prog, p, q, k);
      } else {
        JustOpened(prog, p);
      }
    }
    ChainLonger(prog, p.os, p.pc);
  }

  lemma ChainLonger(prog: string, os: seq<nat>, pc: nat)
    requires Chain(prog, os, pc) && pc < |prog|
    ensures Chain(prog, os + [pc], pc + 1)
  {
    hide Closed;
    Trivial(prog, pc + 1);
  }

  lemma Trivial(prog: string, a: nat)
    requires a <= |prog|
    ensures Closed(prog, a, a)
  {
  }

  lemma JustOpened(prog: string, p: Progress)
    requires Ok(prog, p) && p.pc < |prog| && prog[p.pc] == '['
    ensures OpenAt(prog, Opened(p), |p.os|)
  {
    hide BlockOk, Balanced, Closed, Chain;
    var q := Opened(p);
    assert Has(q.code, |p.code|, [MovEaxCur, TestEax, Jz(p.unused + 1)]);
    forall i | 0 <= i < |p.os|
      ensures q.fs[i] != p.unused + 1
    {
      assert OpenAt(prog, p, i);
    }
  }

  /** The progress after a closing bracket. */
  function ClosedBracket(p: Progress): Progress
    requires p.os != [] && |p.os| == |p.fs| == |p.bs|
  {
    var n := |p.os| - 1;
    var code := p.code + [Jmp(p.bs[n])];
    Progress(p.pc + 1, code, p.labels[p.fs[n] := |code|], p.at[p.pc + 1 := |code|], p.os[..n], p.fs[..n], p.bs[..n],
             p.unused)
  }

  lemma NotClosed(prog: string, j: nat, i: nat)
    requires Matching(prog, j, i)
    ensures !Closed(prog, 0, i)
  {
    OneBracket(prog, j);
    DepthSplits(prog, 0, j, j + 1);
    DepthSplits(prog, 0, j + 1, i);
  }

  lemma MatchesLast(prog: string, o: nat, pc: nat)
    requires o < pc < |prog| && prog[o] == '[' && prog[pc] == ']' && Closed(prog, o + 1, pc)
    ensures Matching(prog, o, pc)
  {
  }

  /** A balanced program never closes a bracket that is not open, and the bracket it closes is the last one opened. */
  lemma ClosesLast(prog: string, os: seq<nat>, pc: nat)
    requires Balanced(prog) && Chain(prog, os, pc) && pc < |prog| && prog[pc] == ']'
    requires forall k :: 0 <= k < |os| ==> os[k] < |prog| && prog[os[k]] == '['
    ensures os != [] && Matching(prog, os[|os| - 1], pc) && OpenOf(prog, pc) == os[|os| - 1]
    ensures CloseOf(prog, os[|os| - 1]) == pc
  {
    hide Balanced, Matching, Closed;
    var j := OpenOf(prog, pc);
    NotClosed(prog, j, pc);
    if os != [] {
      var o := os[|os| - 1];
      MatchesLast(prog, o, pc);
      MatchingUnique(prog, o, pc, j, pc);
      MatchingUnique(prog, o, pc, o, CloseOf(prog, o));
    }
  }

  lemma ClosedWrap(prog: string, a: nat, j: nat, pc: nat)
    requires Closed(prog, a, j) && Matching(prog, j, pc)
    ensures Closed(prog, a, pc + 1)
  {
    OneBracket(prog, j);
    OneBracket(prog, pc);
    forall k | a <= k <= pc + 1
      ensures Depth(prog, a, k) >= 0 && (k == pc + 1 ==> Depth(prog, a, k) == 0)
    {
      if k > j {
        DepthSplits(prog, a, j, j + 1);
        if k <= pc {
          DepthSplits(prog, a, j + 1, k);
        } else {
          DepthSplits(prog, a, j + 1, pc);
          DepthSplits(prog, a, pc, pc + 1);
        }
      }
    }
  }

  lemma CloseOk(prog: string, p: Progress)
    requires Ok(prog, p) && p.pc < |prog| && prog[p.pc] == ']'
    ensures p.os != [] && Ok(prog, ClosedBracket(p))
  {
    hide BlockOk, Balanced, Closed, OpenAt, Matching, Chain;
    forall k | 0 <= k < |p.os|
      ensures p.os[k] < |prog| && prog[p.os[k]] == '['
    {
      OpenLabels(prog, p, k);
    }
    ClosesLast(prog, p.os, p.pc);
    var q := ClosedBracket(p);
    OpenLabels(prog, p, |p.os| - 1);
    forall i | i in q.at && i < q.pc && i !in q.os
      ensures BlockOk(prog, q.code, q.labels, q.at, i)
    {
      ClosedBlock(prog, p, i);
    }
    forall k | 0 <= k < |q.os|
      ensures OpenAt(prog, q, k)
    {
      StillOpen(prog, p, k);
    }
    ChainShortened(prog, p.os, p.pc);
  }

  lemma ClosedBlock(prog: string, p: Progress, i: nat)
    requires Ok(prog, p) && p.pc < |prog| && prog[p.pc] == ']' && p.os != [] && p.fs[|p.os| - 1] !in p.labels
    requires OpenOf(prog, p.pc) == p.os[|p.os| - 1] && p.os[|p.os| - 1] < |prog|
    requires prog[p.os[|p.os| - 1]] == '[' && CloseOf(prog, p.os[|p.os| - 1]) == p.pc
    requires i in p.at && i <= p.pc && i !in p.os[..|p.os| - 1]
    ensures var q := ClosedBracket(p); i in q.at && BlockOk(prog, q.code, q.labels, q.at, i)
  {
    hide BlockOk, Balanced, Closed, OpenAt, Matching, Chain;
    var n := |p.os| - 1;
    if i == p.pc {
      JumpsBack(prog, p);
    } else if i == p.os[n] {
      JumpsOut(prog, p);
    } else {
      assert p.os == p.os[..n] + [p.os[n]];
      BlockStays(prog, p, ClosedBracket(p), i);
    }
  }

  lemma StillOpen(prog: string, p: Progress, k: nat)
    requires Ok(prog, p) && k < |p.os| - 1 && p.fs[|p.os| - 1] !in p.labels
    ensures OpenAt(prog, ClosedBracket(p), k)
  {
    hide BlockOk, Balanced, Closed, OpenAt, Matching, Chain;
    OpenLabels(prog, p, k);
    OtherLabels(prog, p, k);
    OpenStays(prog, p, ClosedBracket(p), k);
  }

  lemma ChainShortened(prog: string, os: seq<nat>, pc: nat)
    requires Chain(prog, os, pc) && os != [] && Matching(prog, os[|os| - 1], pc)
    ensures Chain(prog, os[..|os| - 1], pc + 1)
  {
    hide Closed;
    var n := |os| - 1;
    ClosedWrap(prog, if n == 0 then 0 else os[n - 1] + 1, os[n], pc);
  }

  lemma OtherLabels(prog: string, p: Progress, k: nat)
    requires |p.os| == |p.fs| == |p.bs| && k < |p.os| - 1 && OpenAt(prog, p, |p.os| - 1)
    ensures p.fs[k] != p.fs[|p.os| - 1]
  {
  }

  lemma JumpsBack(prog: string, p: Progress)
    requires Ok(prog, p) && p.pc < |prog| && prog[p.pc] == ']' && p.os != [] && OpenOf(prog, p.pc) == p.os[|p.os| - 1]
    ensures var q := ClosedBracket(p); BlockOk(prog, q.code, q.labels, q.at, p.pc)
  {
    hide Balanced, Closed, Chain, Matching;
    var q, n := ClosedBracket(p), |p.os| - 1;
    assert OpenAt(prog, p, n);
    assert Has(q.code, |p.code|, [Jmp(p.bs[n])]) && Leads(q.at, q.labels, p.bs[n], p.os[n]);
  }

  lemma JumpsOut(prog: string, p: Progress)
    requires Ok(prog, p) && p.pc < |prog| && prog[p.pc] == ']' && p.os != []
    requires prog[p.os[|p.os| - 1]] == '[' && CloseOf(prog, p.os[|p.os| - 1]) == p.pc
    ensures var q, i := ClosedBracket(p), p.os[|p.os| - 1];
            i in q.at && BlockOk(prog, q.code, q.labels, q.at, i)
  {
    hide Balanced, Closed, Chain, Matching;
    var q, n := ClosedBracket(p), |p.os| - 1;
    assert OpenAt(prog, p, n);
    HasStays(p.code, q.code, p.at[p.os[n]]);
    assert OpenCode(q.code, q.at[p.os[n]], p.fs[n]) && Leads(q.at, q.labels, p.fs[n], p.pc + 1);
  }

  /** At the end of a balanced program the code is complete. */
  lemma Completed(prog: string, p: Progress)
    requires Ok(prog, p) && p.pc == |prog|
    ensures Compiled(prog, p.code, p.labels, p.at)
  {
    hide BlockOk, Balanced, Chain, OpenAt;
    NoneOpen(prog, p);
  }

  /** The last open bracket is closed by one that is still to come. */
  lemma ClosesLater(prog: string, p: Progress)
    requires Ok(prog, p) && p.os != []
    ensures p.pc < |prog|
  {
    hide BlockOk, Balanced, Matching, Closed;
    var j := p.os[|p.os| - 1];
    OpenLabels(prog, p, |p.os| - 1);
    ClosesBeyond(prog, j, CloseOf(prog, j), p.pc);
  }

  lemma ClosesBeyond(prog: string, j: nat, i: nat, pc: nat)
    requires Matching(prog, j, i) && Closed(prog, j + 1, pc)
    ensures pc <= i < |prog|
  {
    if i < pc {
      OneBracket(prog, i);
      DepthSplits(prog, j + 1, i, i + 1);
    }
  }

  /** At the end of a balanced program no bracket is open. */
  lemma NoneOpen(prog: string, p: Progress)
    requires Ok(prog, p) && p.pc == |prog|
    ensures p.os == [] && p.fs == []
  {
    hide BlockOk, Balanced, OpenAt, Chain;
    if p.os != [] {
      ClosesLater(prog, p);
    }
  }

  lemma EmittedHas(p: Progress, n: nat, instrs: seq<Instr>)
    requires Next(p.at, p.pc, |p.code|) && 1 <= n
    ensures var q := Emitted(p, n, instrs);
            Has(q.code, |p.code|, instrs) && Next(q.at, p.pc + n, |p.code| + |instrs|) && Next(q.at, p.pc, |p.code|)
  {
  }

  lemma RunBlockOk(prog: string, code: seq<Instr>, labels: map<nat, nat>, at: map<nat, nat>, i: nat, count: nat,
                   instr: Instr)
    requires Balanced(prog) && i in at && i < |prog| && Run(prog, i, count) && Next(at, i + count, at[i] + 1)
    requires Has(code, at[i], [instr])
    requires var c := prog[i];
             if c == '+' || c == '-' then instr == AddInstr(c, count)
             else (c == '>' || c == '<') && instr == MoveInstr(c, count)
    ensures BlockOk(prog, code, labels, at, i)
  {
    hide Balanced, Matching, Run, Has;
  }

  lemma OneBlockOk(prog: string, code: seq<Instr>, labels: map<nat, nat>, at: map<nat, nat>, i: nat, instrs: seq<Instr>)
    requires Balanced(prog) && i in at && i < |prog| && Next(at, i + 1, at[i] + |instrs|) && Has(code, at[i], instrs)
    requires var c := prog[i];
             c != '+' && c != '-' && c != '>' && c != '<' && c != '[' && c != ']' &&
             instrs == if c == '.' then [MovEdiCur, CallPutchar] else if c == ',' then [CallGetchar, MovCurEax] else []
    ensures BlockOk(prog, code, labels, at, i)
  {
    hide Balanced, Matching, Run, Has;
  }

  /** Every jump in the code has its label, or waits for one of fs. */
  ghost predicate JumpsKnown(code: seq<Instr>, labels: map<nat, nat>, fs: seq<nat>) {
    forall i :: 0 <= i < |code| && IsJump(code[i]) ==> code[i].target in labels || code[i].target in fs
  }

  lemma PlainKnown(code: seq<Instr>, labels: map<nat, nat>, fs: seq<nat>, more: seq<Instr>)
    requires JumpsKnown(code, labels, fs) && forall k :: 0 <= k < |more| ==> !IsJump(more[k])
    ensures JumpsKnown(code + more, labels, fs)
  {
  }

  lemma OpenedKnown(p: Progress)
    requires JumpsKnown(p.code, p.labels, p.fs)
    ensures var q := Opened(p); JumpsKnown(q.code, q.labels, q.fs)
  {
    var q := Opened(p);
    assert q.fs[|p.fs|] == p.unused + 1;
  }

  lemma ClosedKnown(p: Progress)
    requires JumpsKnown(p.code, p.labels, p.fs) && p.os != [] && |p.os| == |p.fs| == |p.bs|
    requires p.bs[|p.bs| - 1] in p.labels
    ensures var q := ClosedBracket(p); JumpsKnown(q.code, q.labels, q.fs)
  {
    assert p.fs == p.fs[..|p.fs| - 1] + [p.fs[|p.fs| - 1]];
  }

  /** Moves are whole cells, at most n of them. */
  ghost predicate ShortMoves(code: seq<Instr>, n: nat) {
    forall i :: 0 <= i < |code| && code[i].AddStack? ==> code[i].imm % 4 == 0 && -4 * n <= code[i].imm <= 4 * n
  }

  /** Instructions that are emitted together: one that needs another comes right after it. */
  ghost predicate Joined(instrs: seq<Instr>) {
    (instrs != [] ==> !Needs(instrs[0])) &&
    forall i :: 1 <= i < |instrs| && Needs(instrs[i]) ==> Feeds(instrs[i - 1], instrs[i])
  }

  /** The processor can run the code of a program of n characters. */
  ghost predicate Fitting(code: seq<Instr>, labels: map<nat, nat>, n: nat) {
    Paired(code, labels) && ShortMoves(code, n)
  }

  lemma FittingWith(code: seq<Instr>, labels: map<nat, nat>, instrs: seq<Instr>, n: nat)
    requires Fitting(code, labels, n) && Joined(instrs) && ShortMoves(instrs, n)
    ensures Fitting(code + instrs, labels, n)
  {
  }

  lemma FittingRun(code: seq<Instr>, labels: map<nat, nat>, c: char, count: nat, n: nat, instr: Instr)
    requires Fitting(code, labels, n) && count <= n && (instr == AddInstr(c, count) || instr == MoveInstr(c, count))
    ensures Fitting(code + [instr], labels, n)
  {
    FittingWith(code, labels, [instr], n);
  }

  lemma FittingOpened(p: Progress, n: nat)
    requires Fitting(p.code, p.labels, n)
    ensures Fitting(Opened(p).code, Opened(p).labels, n)
  {
    FittingWith(p.code, p.labels[p.unused := |p.code|], [MovEaxCur, TestEax, Jz(p.unused + 1)], n);
  }

  lemma FittingClosed(p: Progress, n: nat)
    requires Fitting(p.code, p.labels, n) && p.os != [] && |p.os| == |p.fs| == |p.bs|
    ensures Fitting(ClosedBracket(p).code, ClosedBracket(p).labels, n)
  {
    FittingWith(p.code, p.labels, [Jmp(p.bs[|p.os| - 1])], n);
  }

  class Compiler {
    const asm: Assembler
    var unused: nat
    var labelF: seq<nat>
    var labelB: seq<nat>
    var complete: bool
    ghost var pc: nat
    ghost var at: map<nat, nat>
    ghost var os: seq<nat>

    ghost function Now(): Progress
      reads this, asm
    {
      Progress(pc, asm.layout.code, asm.layout.labels, at, os, labelF, labelB, unused)
    }

    /** The code so far is that of the characters read. */
    ghost predicate Valid(prog: string)
      reads this, asm, asm.gen, asm.gen.top
    {
      asm.Valid() && Ok(prog, Now()) && JumpsKnown(asm.layout.code, asm.layout.labels, labelF) &&
      Fitting(asm.layout.code, asm.layout.labels, |prog|)
    }

    /** Compiles a balanced program to the bytes of a function; incomplete exactly if the buffer is too small for it. */
    constructor (text: string)
      requires Balanced(Visible(text))
      ensures complete <==> asm.wanted <= MAX_SIZE
      ensures complete ==> asm.gen.InBuffer() && asm.gen.size == asm.wanted
      ensures complete ==> Compiled(Visible(text), asm.layout.code, asm.layout.labels, at)
      ensures complete && |Visible(text)| < 0x2000_0000 ==> Compiles(Visible(text), asm.layout, at, asm.gen.Code())
    {
      asm := new Assembler();
      unused, labelF, labelB, complete := 0, [], [], true;
      pc, at, os := 0, map[0 := 0], [];
      new;
      hide Ok, Compiled, Balanced, Assembler.Valid, Fitting, JumpsKnown, Runnable, Compiles, Xbyak.CodeGenerator.Code;
      ghost var prog := Visible(text);
      var stream := new Stream(text);
      Beginning(prog);
      assert prog[0..] == prog;
      var more := true;
      while more && complete
        invariant stream.Valid() && fresh(stream) && fresh(asm) && fresh(asm.gen) && fresh(asm.gen.top)
        invariant complete <==> asm.wanted <= MAX_SIZE
        invariant complete ==> pc <= |prog| && Valid(prog)
        invariant complete ==> if stream.good then stream.Rest() == prog[pc..] else pc == |prog|
        invariant complete && !more ==> pc == |prog|
        decreases if complete then |prog| - pc + 1 else 0, more
      {
        more := CompileNext(stream, prog);
      }
      if complete {
        Close(prog);
      }
    }

    /** The end of the function. */
    method Close(ghost prog: string)
      requires Valid(prog) && pc == |prog| && complete
      modifies this`complete, asm`wanted, asm.gen`top, asm.gen`size, asm.gen.top
      ensures asm.gen.top == old(asm.gen.top) && (complete <==> asm.wanted <= MAX_SIZE)
      ensures complete ==> asm.gen.InBuffer() && asm.gen.size == asm.wanted
      ensures complete ==> Compiled(prog, asm.layout.code, asm.layout.labels, at)
      ensures complete && |prog| < 0x2000_0000 ==> Compiles(prog, asm.layout, at, asm.gen.Code())
    {
      hide Ok, Compiled, Balanced, Assembler.Valid, Fitting, JumpsKnown, Runnable, Xbyak.CodeGenerator.Code;
      Completed(prog, Now());
      AllRead(prog);
      complete := asm.Finish();
    }

    lemma AllRead(prog: string)
      requires Valid(prog) && pc == |prog|
      ensures |prog| < 0x2000_0000 ==> Runnable(asm.layout, asm.gen.Code() + EPILOGUE)
    {
      hide Assembler.Valid, Ok;
      NoneOpen(prog, Now());
      if |prog| < 0x2000_0000 {
        AllReads(asm);
      }
    }

    /** Reads one character, or a run of equal ones, and compiles it. */
    method CompileNext(stream: Stream, ghost prog: string) returns (more: bool)
      requires stream.Valid() && pc <= |prog| && Valid(prog) && complete && asm.wanted <= MAX_SIZE
      requires if stream.good then stream.Rest() == prog[pc..] else pc == |prog|
      modifies this, stream, asm, asm.gen, asm.gen.top
      ensures asm.gen.top == old(asm.gen.top) && stream.Valid() && (complete <==> asm.wanted <= MAX_SIZE)
      ensures complete ==> pc <= |prog| && Valid(prog)
      ensures complete ==> if stream.good then stream.Rest() == prog[pc..] else pc == |prog|
      ensures complete ==> if more then pc > old(pc) else pc == old(pc) == |prog|
    {
      hide Ok, Balanced, Assembler.Valid, JumpsKnown, Fitting;
      var ok, c := stream.Get();
      if !ok {
        return false;
      }
      assert prog[pc] == c && prog[pc..][1..] == prog[pc + 1..];
      if c == '+' || c == '-' || c == '>' || c == '<' {
        ghost var rest := stream.Rest();
        var count := GetContinuousChar(stream, c);
        RunIs(prog, pc, count, rest);
        EmitRun(prog, c, count);
      } else {
        EmitOne(prog, c);
      }
      more := true;
    }

    lemma Beginning(prog: string)
      requires Balanced(prog)
      ensures Ok(prog, Progress(0, [], map[], map[0 := 0], [], [], [], 0))
    {
      Trivial(prog, 0);
    }

    lemma RunIs(prog: string, i: nat, count: nat, rest: string)
      requires i < |prog| && rest == prog[i + 1..] && 1 <= count <= |rest| + 1
      requires forall k :: 0 <= k < count - 1 ==> rest[k] == prog[i]
      ensures Run(prog, i, count) && rest[count - 1..] == prog[i + count..]
    {
      forall k | i <= k < i + count
        ensures prog[k] == prog[i]
      {
        assert k > i ==> prog[k] == rest[k - i - 1];
      }
    }

    /** A run of equal additions or moves, as one instruction. */
    method EmitRun(ghost prog: string, c: char, count: nat)
      requires Valid(prog) && pc < |prog| && prog[pc] == c && Run(prog, pc, count) && complete
      requires c == '+' || c == '-' || c == '>' || c == '<'
      modifies this, asm, asm.gen, asm.gen.top
      ensures asm.gen.top == old(asm.gen.top) && (complete <==> asm.wanted <= MAX_SIZE)
      ensures complete ==> Valid(prog) && pc == old(pc) + count <= |prog|
    {
      hide Ok, Balanced, Assembler.Valid, JumpsKnown, Fitting;
      ghost var p := Now();
      var instr;
      if c == '+' || c == '-' {
        if count == 1 {
          instr := if c == '+' then IncCur else DecCur;
        } else {
          instr := AddCur(if c == '+' then count else 0 - count);
        }
      } else {
        instr := AddStack(4 * if c == '>' then count else 0 - count);
      }
      PlainKnown(p.code, p.labels, p.fs, [instr]);
      FittingRun(p.code, p.labels, c, count, |prog|, instr);
      RunBlock(prog, p, count, instr);
      complete := asm.Put(instr);
      pc := pc + count;
      at := at[pc := |asm.layout.code|];
    }

    lemma RunBlock(prog: string, p: Progress, count: nat, instr: Instr)
      requires Ok(prog, p) && p.pc < |prog| && Run(prog, p.pc, count)
      requires var c := prog[p.pc];
               if c == '+' || c == '-' then instr == AddInstr(c, count)
               else (c == '>' || c == '<') && instr == MoveInstr(c, count)
      ensures Ok(prog, Emitted(p, count, [instr]))
    {
      hide Ok, Balanced, BlockOk, Has;
      BalancedOk(prog, p);
      var q := Emitted(p, count, [instr]);
      EmittedHas(p, count, [instr]);
      RunBlockOk(prog, q.code, q.labels, q.at, p.pc, count, instr);
      forall k | p.pc <= k < p.pc + count
        ensures prog[k] != '[' && prog[k] != ']'
      {
        assert prog[k] == prog[p.pc];
      }
      EmitOk(prog, p, count, [instr]);
    }

    lemma BalancedOk(prog: string, p: Progress)
      requires Ok(prog, p)
      ensures Balanced(prog) && Next(p.at, p.pc, |p.code|) && |p.os| == |p.fs| == |p.bs|
    {
    }

    /** Every other character by itself. */
    method EmitOne(ghost prog: string, c: char)
      requires Valid(prog) && pc < |prog| && prog[pc] == c && c != '+' && c != '-' && c != '>' && c != '<'
      requires complete && asm.wanted <= MAX_SIZE
      modifies this, asm, asm.gen, asm.gen.top
      ensures asm.gen.top == old(asm.gen.top) && (complete <==> asm.wanted <= MAX_SIZE)
      ensures complete ==> Valid(prog) && pc == old(pc) + 1
    {
      hide Ok, Balanced, Assembler.Valid, JumpsKnown, Fitting;
      ghost var p := Now();
      if c == '[' {
        EmitOpen(prog);
      } else if c == ']' {
        EmitClose(prog);
      } else {
        if c == '.' {
          OneBlock(prog, p, [MovEdiCur, CallPutchar]);
          PlainKnown(p.code, p.labels, p.fs, [MovEdiCur, CallPutchar]);
          FittingWith(p.code, p.labels, [MovEdiCur, CallPutchar], |prog|);
          PutTwo(MovEdiCur, CallPutchar);
        } else if c == ',' {
          OneBlock(prog, p, [CallGetchar, MovCurEax]);
          PlainKnown(p.code, p.labels, p.fs, [CallGetchar, MovCurEax]);
          FittingWith(p.code, p.labels, [CallGetchar, MovCurEax], |prog|);
          PutTwo(CallGetchar, MovCurEax);
        } else {
          OneBlock(prog, p, []);
          assert p.code + [] == p.code;
        }
        pc := pc + 1;
        at := at[pc := |asm.layout.code|];
      }
    }

    method PutTwo(a: Instr, b: Instr)
      requires asm.Valid() && !IsJump(a) && !IsJump(b) && complete
      modifies this`complete, asm, asm.gen, asm.gen.top
      ensures asm.gen.top == old(asm.gen.top) && (complete <==> asm.wanted <= MAX_SIZE)
      ensures complete ==> asm.Valid() && asm.layout.code == old(asm.layout.code) + [a, b] &&
                           asm.layout.labels == old(asm.layout.labels)
    {
      hide Assembler.Valid;
      complete := asm.Put(a);
      if complete {
        complete := asm.Put(b);
        assert old(asm.layout.code) + [a, b] == old(asm.layout.code) + [a] + [b];
      }
    }

    /** A jump to f unless the cell is other than zero. */
    method PutTest(f: nat)
      requires asm.Valid() && complete
      modifies this`complete, asm, asm.gen, asm.gen.top
      ensures asm.gen.top == old(asm.gen.top) && (complete <==> asm.wanted <= MAX_SIZE)
      ensures complete ==> asm.Valid() && asm.layout.labels == old(asm.layout.labels) &&
                           asm.layout.code == old(asm.layout.code) + [MovEaxCur, TestEax, Jz(f)]
    {
      hide Assembler.Valid;
      ghost var code := asm.layout.code;
      PutTwo(MovEaxCur, TestEax);
      if complete {
        complete := asm.Put(Jz(f));
        assert code + [MovEaxCur, TestEax] + [Jz(f)] == code + [MovEaxCur, TestEax, Jz(f)];
      }
    }

    method EmitOpen(ghost prog: string)
      requires Valid(prog) && pc < |prog| && prog[pc] == '[' && complete
      modifies this, asm, asm.gen, asm.gen.top
      ensures asm.gen.top == old(asm.gen.top) && (complete <==> asm.wanted <= MAX_SIZE)
      ensures complete ==> Valid(prog) && pc == old(pc) + 1
    {
      hide Ok, Balanced, Assembler.Valid, JumpsKnown, Fitting;
      ghost var p := Now();
      OpenedKnown(p);
      FittingOpened(p, |prog|);
      OpenOk(prog, p);
      NextLabels(prog, p);
      os := os + [pc];
      var b := unused;
      unused := unused + 1;
      asm.Label(b);
      labelB := labelB + [b];
      var f := unused;
      unused := unused + 1;
      PutTest(f);
      labelF := labelF + [f];
      pc := pc + 1;
      at := at[pc := |asm.layout.code|];
    }

    method EmitClose(ghost prog: string)
      requires Valid(prog) && pc < |prog| && prog[pc] == ']' && complete
      modifies this, asm, asm.gen, asm.gen.top
      ensures asm.gen.top == old(asm.gen.top) && (complete <==> asm.wanted <= MAX_SIZE)
      ensures complete ==> Valid(prog) && pc == old(pc) + 1
    {
      hide Ok, Balanced, Assembler.Valid, JumpsKnown, Fitting;
      ghost var p := Now();
      BalancedOk(prog, p);
      CloseOk(prog, p);
      LastLabels(prog, p);
      ClosedKnown(p);
      FittingClosed(p, |prog|);
      var b := labelB[|labelB| - 1];
      labelB := labelB[..|labelB| - 1];
      complete := asm.Put(Jmp(b));
      if !complete {
        return;
      }
      var f := labelF[|labelF| - 1];
      labelF := labelF[..|labelF| - 1];
      asm.Label(f);
      os := os[..|os| - 1];
      pc := pc + 1;
      at := at[pc := |asm.layout.code|];
    }

    lemma NextLabels(prog: string, p: Progress)
      requires Ok(prog, p)
      ensures p.unused !in p.labels
    {
    }

    lemma LastLabels(prog: string, p: Progress)
      requires Ok(prog, p) && p.os != []
      ensures |p.os| == |p.fs| == |p.bs| && p.bs[|p.bs| - 1] in p.labels && p.fs[|p.fs| - 1] !in p.labels
    {
      assert OpenAt(prog, p, |p.os| - 1);
    }

    lemma OneBlock(prog: string, p: Progress, instrs: seq<Instr>)
      requires Ok(prog, p) && p.pc < |prog|
      requires var c := prog[p.pc];
               c != '+' && c != '-' && c != '>' && c != '<' && c != '[' && c != ']' &&
                instrs ==
                if c == '.' then [MovEdiCur, CallPutchar] else if c == ',' then [CallGetchar, MovCurEax] else []
      ensures Ok(prog, Emitted(p, 1, instrs))
    {
      hide Ok, Balanced, BlockOk, Has;
      BalancedOk(prog, p);
      var q := Emitted(p, 1, instrs);
      EmittedHas(p, 1, instrs);
      OneBlockOk(prog, q.code, q.labels, q.at, p.pc, instrs);
      EmitOk(prog, p, 1, instrs);
    }
  }
}
