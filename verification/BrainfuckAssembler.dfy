/** The instructions of the Brainfuck compiler as bytes: its labels and jumps are those of the code generator. */
module BrainfuckAssembler {
  import opened Brainfuck
  import opened Wrappers
  import opened XbyakJumps
  import Xbyak

  /** The size of the code buffer, which may not grow. */
  const MAX_SIZE: nat := 100000

  predicate IsJump(instr: Instr) {
    instr.Jz? || instr.Jmp?
  }

  /** push rbx; push rbp; push r12; mov rbx, rdi; mov rbp, rsi; mov r12, rdx */
  const PROLOGUE: seq<Byte> := [0x53, 0x55, 0x41, 0x54, 0x48, 0x89, 0xFB, 0x48, 0x89, 0xF5, 0x49, 0x89, 0xD4]

  /** pop r12; pop rbp; pop rbx; ret */
  const EPILOGUE: seq<Byte> := [0x41, 0x5C, 0x5D, 0x5B, 0xC3]

  /** A 32-bit number is put in one byte if that gives it back. */
  predicate FitsByte(v: int) {
    v % WORD <= 0x7F || 0xFFFF_FF80 <= v % WORD
  }

  /** The bytes of an instruction other than a jump; the tape is at r12, the functions are in rbx and rbp. */
  function Encode(instr: Instr): seq<Byte> {
    match instr
    case IncCur => [0x41, 0xFF, 0x04, 0x24]
    case DecCur => [0x41, 0xFF, 0x0C, 0x24]
    case AddCur(v) =>
      if FitsByte(v) then [0x41, 0x83, 0x04, 0x24] + LittleEndian(v, 1)
      else [0x41, 0x81, 0x04, 0x24] + LittleEndian(v, 4)
    case AddStack(v) =>
      if FitsByte(v) then [0x49, 0x83, 0xC4] + LittleEndian(v, 1) else [0x49, 0x81, 0xC4] + LittleEndian(v, 4)
    case MovEdiCur => [0x41, 0x8B, 0x3C, 0x24]
    case CallPutchar => [0xFF, 0xD3]
    case CallGetchar => [0xFF, 0xD5]
    case MovCurEax => [0x41, 0x89, 0x04, 0x24]
    case MovEaxCur => [0x41, 0x8B, 0x04, 0x24]
    case TestEax => [0x85, 0xC0]
    case Jz(_) => []
    case Jmp(_) => []
  }

  /** The opcode of a jump with this many displacement bytes. */
  function JumpOpcode(instr: Instr, size: nat): seq<Byte> {
    if instr.Jz? then if size == 1 then [0x74] else [0x0F, 0x84]
    else if size == 1 then [0xEB] else [0xE9]
  }

  /** What has been assembled: instruction i lies from starts[i] up to starts[i + 1], jump number k of the generator is
      instruction number js[k], and labels stand for instructions by their number. */
  datatype Layout = Layout(code: seq<Instr>, labels: map<nat, nat>, starts: seq<nat>, js: seq<nat>) {
    ghost predicate Laid(size: nat) {
      |starts| == |code| + 1 && starts[|code|] == size &&
      forall i, k :: 0 <= i <= k < |starts| ==> starts[i] <= starts[k]
    }

    /** Labels are defined where their instructions start. */
    ghost predicate Placed(defs: map<Ref, nat>) {
      (forall l :: l in labels ==> labels[l] < |starts| && Id(l) in defs && defs[Id(l)] == starts[labels[l]]) &&
      (forall r :: r in defs ==> r.Id? && r.n in labels)
    }

    function Target(l: nat): Option<nat> {
      if l in labels && labels[l] < |starts| then Some(starts[labels[l]]) else None
    }

    ghost predicate JumpOk(j: Jump, i: nat) {
      i < |code| && |starts| == |code| + 1 && IsJump(code[i]) && j.ref == Id(code[i].target) &&
      j.target == Target(code[i].target) && (j.target.None? ==> j.size == 4) &&
      starts[i] + |JumpOpcode(code[i], j.size)| + j.size == j.end == starts[i + 1]
    }

    /** All jumps of the generator are instructions, and the other way round. */
    ghost predicate Jumping(jumps: seq<Jump>) {
      |js| == |jumps| && (forall k :: 0 <= k < |jumps| ==> JumpOk(jumps[k], js[k])) &&
      forall i :: 0 <= i < |code| && IsJump(code[i]) ==> i in js
    }

    ghost predicate PlainOk(bytes: seq<Byte>, i: nat) {
      i < |code| && |starts| == |code| + 1 && starts[i] <= starts[i + 1] <= |bytes| &&
      bytes[starts[i]..starts[i + 1]] == Encode(code[i])
    }

    /** The bytes of a jump before its displacement. */
    ghost predicate OpcodeOk(bytes: seq<Byte>, j: Jump, i: nat) {
      i < |code| && |starts| == |code| + 1 && j.size <= j.end <= |bytes| && starts[i] <= j.end - j.size &&
      bytes[starts[i]..j.end - j.size] == JumpOpcode(code[i], j.size)
    }

    ghost predicate Encoded(bytes: seq<Byte>, jumps: seq<Jump>) {
      |js| == |jumps| && (forall i :: 0 <= i < |code| && !IsJump(code[i]) ==> PlainOk(bytes, i)) &&
      forall k :: 0 <= k < |jumps| ==> OpcodeOk(bytes, jumps[k], js[k])
    }

    ghost predicate Linked(bytes: seq<Byte>, jumps: seq<Jump>, defs: map<Ref, nat>) {
      Laid(|bytes|) && Placed(defs) && Jumping(jumps) && Encoded(bytes, jumps)
    }

    /** The first instruction comes after the prologue. */
    ghost predicate Begun(bytes: seq<Byte>) {
      starts != [] && starts[0] == |PROLOGUE| <= |bytes| && bytes[..|PROLOGUE|] == PROLOGUE
    }

    lemma BegunStays(bytes: seq<Byte>, more: seq<Byte>, instr: Instr, n: nat)
      requires |starts| == |code| + 1 && Begun(bytes)
      ensures With(instr, n).Begun(bytes + more)
    {
      assert (bytes + more)[..|PROLOGUE|] == bytes[..|PROLOGUE|];
    }

    lemma BegunKept(bytes: seq<Byte>, c: seq<Byte>, jumps: seq<Jump>)
      requires Laid(|bytes|) && Jumping(jumps) && Begun(bytes) && OnlyFields(bytes, c, jumps)
      ensures Begun(c)
    {
      hide OnlyFields;
      SameLength(bytes, c, jumps);
      forall m | 0 <= m < |jumps|
        ensures |PROLOGUE| <= jumps[m].end - jumps[m].size
      {
        assert JumpOk(jumps[m], js[m]);
        assert starts[0] <= starts[js[m]];
      }
      RangeKept(bytes, c, jumps, 0, |PROLOGUE|);
    }

    /** One more instruction, of n bytes. */
    function With(instr: Instr, n: nat): Layout
      requires |starts| == |code| + 1
    {
      Layout(code + [instr], labels, starts + [starts[|code|] + n], if IsJump(instr) then js + [|code|] else js)
    }

    lemma LaidWith(instr: Instr, n: nat, size: nat)
      requires Laid(size)
      ensures With(instr, n).Laid(size + n)
    {
    }

    lemma PlacedWith(instr: Instr, n: nat, defs: map<Ref, nat>)
      requires |starts| == |code| + 1 && Placed(defs)
      ensures With(instr, n).Placed(defs)
    {
    }

    lemma JumpStays(instr: Instr, n: nat, j: Jump, i: nat)
      requires |starts| == |code| + 1 && JumpOk(j, i) && forall l :: l in labels ==> labels[l] < |starts|
      ensures With(instr, n).JumpOk(j, i)
    {
    }

    lemma PlainStays(bytes: seq<Byte>, more: seq<Byte>, instr: Instr, n: nat, i: nat)
      requires PlainOk(bytes, i)
      ensures With(instr, n).PlainOk(bytes + more, i)
    {
      assert (bytes + more)[starts[i]..starts[i + 1]] == bytes[starts[i]..starts[i + 1]];
    }

    lemma OpcodeStays(bytes: seq<Byte>, more: seq<Byte>, instr: Instr, n: nat, j: Jump, i: nat)
      requires OpcodeOk(bytes, j, i)
      ensures With(instr, n).OpcodeOk(bytes + more, j, i)
    {
      assert (bytes + more)[starts[i]..j.end - j.size] == bytes[starts[i]..j.end - j.size];
    }

    /** An instruction other than a jump. */
    lemma PlainLinked(bytes: seq<Byte>, jumps: seq<Jump>, defs: map<Ref, nat>, instr: Instr)
      requires Linked(bytes, jumps, defs) && !IsJump(instr)
      ensures With(instr, |Encode(instr)|).Linked(bytes + Encode(instr), jumps, defs)
    {
      hide JumpOk, PlainOk, OpcodeOk;
      var more := Encode(instr);
      var q, c := With(instr, |more|), bytes + more;
      LaidWith(instr, |more|, |bytes|);
      PlacedWith(instr, |more|, defs);
      forall k | 0 <= k < |jumps|
        ensures q.JumpOk(jumps[k], q.js[k]) && q.OpcodeOk(c, jumps[k], q.js[k])
      {
        JumpStays(instr, |more|, jumps[k], js[k]);
        OpcodeStays(bytes, more, instr, |more|, jumps[k], js[k]);
      }
      forall i | 0 <= i < |q.code| && !IsJump(q.code[i])
        ensures q.PlainOk(c, i)
      {
        if i < |code| {
          PlainStays(bytes, more, instr, |more|, i);
        } else {
          PlainLast(bytes, instr);
        }
      }
    }

    lemma PlainLast(bytes: seq<Byte>, instr: Instr)
      requires Laid(|bytes|)
      ensures With(instr, |Encode(instr)|).PlainOk(bytes + Encode(instr), |code|)
    {
    }

    /** A jump that is put at offset `at` as the bytes `more`. */
    ghost predicate JumpAt(instr: Instr, j: Jump, at: nat, more: seq<Byte>) {
      IsJump(instr) && j.ref == Id(instr.target) && j.target == Target(instr.target) &&
      (j.target.None? ==> j.size == 4) && j.end == at + |more| && |more| == |JumpOpcode(instr, j.size)| + j.size &&
      more[..|more| - j.size] == JumpOpcode(instr, j.size)
    }

    lemma JumpLinked(bytes: seq<Byte>, jumps: seq<Jump>, defs: map<Ref, nat>, instr: Instr,
                     j: Jump, more: seq<Byte>)
      requires Linked(bytes, jumps, defs) && JumpAt(instr, j, |bytes|, more)
      ensures With(instr, |more|).Linked(bytes + more, jumps + [j], defs)
    {
      assert |starts| == |code| + 1 && |js| == |jumps| && IsJump(instr);
      hide JumpOk, PlainOk, OpcodeOk, JumpAt, Laid, Placed;
      var q := With(instr, |more|);
      LaidWith(instr, |more|, |bytes|);
      PlacedWith(instr, |more|, defs);
      forall k | 0 <= k <= |jumps|
        ensures q.JumpOk((jumps + [j])[k], q.js[k]) && q.OpcodeOk(bytes + more, (jumps + [j])[k], q.js[k])
      {
        JumpsWith(bytes, jumps, defs, instr, j, more, k);
      }
      forall i | 0 <= i <= |code|
        ensures if IsJump(q.code[i]) then i in q.js else q.PlainOk(bytes + more, i)
      {
        InstrsWith(bytes, jumps, defs, instr, more, i);
      }
      q.Together(bytes + more, jumps + [j], defs);
    }

    lemma Together(bytes: seq<Byte>, jumps: seq<Jump>, defs: map<Ref, nat>)
      requires Laid(|bytes|) && Placed(defs) && |js| == |jumps|
      requires forall k :: 0 <= k < |jumps| ==> JumpOk(jumps[k], js[k]) && OpcodeOk(bytes, jumps[k], js[k])
      requires forall i :: 0 <= i < |code| ==> if IsJump(code[i]) then i in js else PlainOk(bytes, i)
      ensures Linked(bytes, jumps, defs)
    {
      hide JumpOk, PlainOk, OpcodeOk, Placed;
    }

    lemma JumpsWith(bytes: seq<Byte>, jumps: seq<Jump>, defs: map<Ref, nat>, instr: Instr,
                    j: Jump, more: seq<Byte>, k: nat)
      requires Linked(bytes, jumps, defs) && JumpAt(instr, j, |bytes|, more)
      requires k <= |jumps|
      ensures var q := With(instr, |more|);
              q.JumpOk((jumps + [j])[k], q.js[k]) && q.OpcodeOk(bytes + more, (jumps + [j])[k], q.js[k])
    {
      if k < |jumps| {
        hide JumpOk, OpcodeOk, PlainOk, JumpOpcode;
        assert |starts| == |code| + 1;
        JumpStays(instr, |more|, jumps[k], js[k]);
        OpcodeStays(bytes, more, instr, |more|, jumps[k], js[k]);
      } else {
        JumpLast(bytes, instr, j, more);
      }
    }

    lemma InstrsWith(bytes: seq<Byte>, jumps: seq<Jump>, defs: map<Ref, nat>, instr: Instr,
                     more: seq<Byte>, i: nat)
      requires Linked(bytes, jumps, defs) && IsJump(instr) && i <= |code|
      ensures var q := With(instr, |more|);
              if IsJump(q.code[i]) then i in q.js else q.PlainOk(bytes + more, i)
    {
      hide JumpOk, OpcodeOk, PlainOk, Placed;
      var q := With(instr, |more|);
      if i == |code| {
        assert q.js[|js|] == i;
      } else if IsJump(code[i]) {
        assert i in js;
      } else {
        PlainStays(bytes, more, instr, |more|, i);
      }
    }

    lemma JumpLast(bytes: seq<Byte>, instr: Instr, j: Jump, more: seq<Byte>)
      requires Laid(|bytes|) && JumpAt(instr, j, |bytes|, more) && forall l :: l in labels ==> labels[l] < |starts|
      ensures With(instr, |more|).JumpOk(j, |code|) && With(instr, |more|).OpcodeOk(bytes + more, j, |code|)
    {
      var n := |more| - j.size;
      assert (bytes + more)[|bytes|..|bytes| + n] == more[..n];
    }

    /** A label defined at the end of the code. */
    function WithLabel(l: nat): Layout {
      this.(labels := labels[l := |code|])
    }

    lemma LabelLinked(bytes: seq<Byte>, jumps: seq<Jump>, defs: map<Ref, nat>, l: nat,
                      c: seq<Byte>)
      requires Linked(bytes, jumps, defs) && l !in labels
      requires Apart(jumps, |bytes|) && OnlyFields(bytes, c, jumps)
      ensures WithLabel(l).Linked(c, Defined(jumps, Id(l), |bytes|), defs[Id(l) := |bytes|])
    {
      hide PlainOk, OpcodeOk, OnlyFields, Apart, JumpOk, Laid, Placed;
      SameLength(bytes, c, jumps);
      LabelPlaced(defs, l, |bytes|);
      var q, all := WithLabel(l), Defined(jumps, Id(l), |bytes|);
      forall k | 0 <= k < |jumps|
        ensures q.JumpOk(all[k], q.js[k]) && q.OpcodeOk(c, all[k], q.js[k])
      {
        JumpDefined(jumps[k], js[k], l, |bytes|, defs);
        OpcodeKept(bytes, c, jumps, k);
        SameOpcode(c, jumps[k], all[k], js[k], l);
      }
      forall i | 0 <= i < |code| && !IsJump(code[i])
        ensures q.PlainOk(c, i)
      {
        PlainKept(bytes, c, jumps, i);
        SamePlain(c, i, l);
      }
    }

    lemma LabelPlaced(defs: map<Ref, nat>, l: nat, size: nat)
      requires Laid(size) && Placed(defs) && l !in labels
      ensures WithLabel(l).Laid(size) && WithLabel(l).Placed(defs[Id(l) := size])
    {
    }

    lemma SameLength(bytes: seq<Byte>, c: seq<Byte>, jumps: seq<Jump>)
      requires OnlyFields(bytes, c, jumps)
      ensures |c| == |bytes|
    {
    }

    lemma JumpDefined(j: Jump, i: nat, l: nat, size: nat, defs: map<Ref, nat>)
      requires JumpOk(j, i) && l !in labels && Laid(size) && Placed(defs)
      ensures WithLabel(l).JumpOk(if Meant(j, Id(l)) then j.(target := Some(size)) else j, i)
    {
    }

    lemma SameOpcode(c: seq<Byte>, j: Jump, d: Jump, i: nat, l: nat)
      requires OpcodeOk(c, j, i) && d == j.(target := d.target)
      ensures WithLabel(l).OpcodeOk(c, d, i)
    {
    }

    lemma SamePlain(c: seq<Byte>, i: nat, l: nat)
      requires PlainOk(c, i)
      ensures WithLabel(l).PlainOk(c, i)
    {
    }

    /** Filling in displacements changes neither opcodes nor other instructions. */
    lemma OpcodeKept(bytes: seq<Byte>, c: seq<Byte>, jumps: seq<Jump>, k: nat)
      requires Laid(|bytes|) && Jumping(jumps) && k < |jumps| && OpcodeOk(bytes, jumps[k], js[k])
      requires Apart(jumps, |bytes|) && OnlyFields(bytes, c, jumps)
      ensures OpcodeOk(c, jumps[k], js[k])
    {
      hide OnlyFields;
      SameLength(bytes, c, jumps);
      forall m | 0 <= m < |jumps|
        ensures jumps[m].end <= starts[js[k]] || jumps[k].end - jumps[k].size <= jumps[m].end - jumps[m].size
      {
        OtherPlace(|bytes|, jumps, m, js[k]);
      }
      RangeKept(bytes, c, jumps, starts[js[k]], jumps[k].end - jumps[k].size);
    }

    lemma PlainKept(bytes: seq<Byte>, c: seq<Byte>, jumps: seq<Jump>, i: nat)
      requires Laid(|bytes|) && Jumping(jumps) && i < |code| && !IsJump(code[i]) && PlainOk(bytes, i)
      requires OnlyFields(bytes, c, jumps)
      ensures PlainOk(c, i)
    {
      hide OnlyFields;
      SameLength(bytes, c, jumps);
      forall m | 0 <= m < |jumps|
        ensures jumps[m].end <= starts[i] || starts[i + 1] <= jumps[m].end - jumps[m].size
      {
        OtherPlace(|bytes|, jumps, m, i);
      }
      RangeKept(bytes, c, jumps, starts[i], starts[i + 1]);
    }

    /** A jump lies before an instruction, after it, or is it. */
    lemma OtherPlace(size: nat, jumps: seq<Jump>, m: nat, i: nat)
      requires Laid(size) && Jumping(jumps) && m < |jumps| && i < |code|
      ensures jumps[m].end <= starts[i] || starts[i + 1] <= jumps[m].end - jumps[m].size ||
              (js[m] == i && jumps[m].end == starts[i + 1])
    {
      assert JumpOk(jumps[m], js[m]);
      if js[m] < i {
        assert starts[js[m] + 1] <= starts[i];
      } else if i < js[m] {
        assert starts[i + 1] <= starts[js[m]];
      }
    }

    lemma RangeKept(bytes: seq<Byte>, c: seq<Byte>, jumps: seq<Jump>, a: nat, b: nat)
      requires OnlyFields(bytes, c, jumps) && a <= b <= |bytes|
      requires forall m :: 0 <= m < |jumps| ==> jumps[m].end <= a || b <= jumps[m].end - jumps[m].size
      ensures c[a..b] == bytes[a..b]
    {
      forall x | a <= x < b
        ensures c[x] == bytes[x]
      {
      }
    }
  }

  /** Puts instructions and labels into a code generator. */
  class Assembler {
    const gen: Xbyak.CodeGenerator
    ghost var layout: Layout
    ghost var wanted: nat  // the size of the code with the last instruction

    ghost predicate Valid()
      reads this, gen, gen.top
    {
      gen.Valid() && !gen.autoGrow && !gen.isDefaultJmpNear && gen.top.Length == MAX_SIZE &&
      layout.Linked(gen.Code(), gen.jumps, gen.defs) && layout.Begun(gen.Code())
    }

    constructor ()
      ensures Valid() && fresh(gen) && fresh(gen.top)
      ensures layout == Layout([], map[], [|PROLOGUE|], []) && wanted == |PROLOGUE| && gen.Code() == PROLOGUE
    {
      wanted := |PROLOGUE|;
      gen := new Xbyak.CodeGenerator(MAX_SIZE, false, false);
      layout := Layout([], map[], [|PROLOGUE|], []);
      new;
      var e := gen.Emit(PROLOGUE);
    }

    /** The number of bytes an instruction takes at the end of the code: a jump back has two if its label is within 126
        bytes. */
    ghost function Length(instr: Instr): nat
      reads this, gen
    {
      match instr
      case Jz(_) => 6
      case Jmp(l) => if layout.Target(l).Some? && layout.Target(l).value + 126 < gen.size then 5 else 2
      case _ => |Encode(instr)|
    }

    /** Emits an instruction; refused exactly if the buffer is too small for it. */
    method Put(instr: Instr) returns (ok: bool)
      requires Valid() && (instr.Jmp? ==> instr.target in layout.labels)
      modifies this, gen, gen.top
      ensures gen.top == old(gen.top) && wanted == old(gen.size + Length(instr))
      ensures ok <==> wanted <= MAX_SIZE
      ensures ok ==> Valid() && layout == old(layout.With(instr, Length(instr)))
    {
      if IsJump(instr) {
        ok := PutJump(instr);
      } else {
        ok := PutPlain(instr);
      }
    }

    method PutPlain(instr: Instr) returns (ok: bool)
      requires Valid() && !IsJump(instr)
      modifies this, gen, gen.top
      ensures gen.top == old(gen.top) && wanted == old(gen.size + Length(instr))
      ensures ok <==> wanted <= MAX_SIZE
      ensures ok ==> Valid() && layout == old(layout.With(instr, Length(instr)))
    {
      hide Xbyak.CodeGenerator.Valid, Xbyak.CodeGenerator.Code, Layout.Linked;
      Shape();
      layout.PlainLinked(gen.Code(), gen.jumps, gen.defs, instr);
      layout.BegunStays(gen.Code(), Encode(instr), instr, |Encode(instr)|);
      wanted := gen.size + |Encode(instr)|;
      var e := gen.Emit(Encode(instr));
      ok := e.None?;
      layout := layout.With(instr, |Encode(instr)|);
    }

    lemma Shape()
      requires Valid()
      ensures gen.InBuffer() && layout.Laid(gen.size) && gen.top.Length == MAX_SIZE && !gen.autoGrow
      ensures layout.Jumping(gen.jumps) && layout.Begun(gen.Code())
    {
    }

    method PutJump(instr: Instr) returns (ok: bool)
      requires Valid() && IsJump(instr) && (instr.Jmp? ==> instr.target in layout.labels)
      modifies this, gen, gen.top
      ensures gen.top == old(gen.top) && wanted == old(gen.size + Length(instr))
      ensures ok <==> wanted <= MAX_SIZE
      ensures ok ==> Valid() && layout == old(layout.With(instr, Length(instr)))
    {
      hide Xbyak.CodeGenerator.Valid, Xbyak.CodeGenerator.Code, Layout.Linked, JumpOpcode, Field;
      hide Layout.Begun, Layout.Jumping, Layout.Laid;
      Shape();
      var ref := Id(instr.target);
      TargetIs(ref);
      ghost var bytes, jumps0 := gen.Code(), gen.jumps;
      wanted := gen.size + Length(instr);
      var e := EmitJump(instr);
      ok := e.None?;
      if ok {
        ghost var j := gen.jumps[|gen.jumps| - 1];
        ghost var more := JumpOpcode(instr, j.size) + Field(gen.Code(), j);
        assert gen.Code() == bytes + more;
        layout.JumpLinked(bytes, jumps0, gen.defs, instr, j, more);
        layout.BegunStays(bytes, more, instr, |more|);
        layout := layout.With(instr, |more|);
      }
    }

    /** The jump as the generator emits it. */
    method EmitJump(instr: Instr) returns (e: Xbyak.Status)
      requires Valid() && IsJump(instr) && (instr.Jmp? ==> instr.target in layout.labels)
      modifies gen, gen.top
      ensures gen.top == old(gen.top) && gen.defs == old(gen.defs)
      ensures e.None? <==> old(gen.size + Length(instr)) <= MAX_SIZE
      ensures e.None? ==>
                gen.Valid() && gen.InBuffer() && gen.jumps != [] &&
                gen.jumps == old(gen.jumps) + [gen.jumps[|gen.jumps| - 1]] &&
                var j := gen.jumps[|gen.jumps| - 1];
                j.ref == Id(instr.target) && j.target == old(layout.Target(instr.target)) &&
                j.size <= j.end == gen.size && |Field(gen.Code(), j)| == j.size &&
                gen.Code() == old(gen.Code()) + JumpOpcode(instr, j.size) + Field(gen.Code(), j) &&
                gen.size == old(gen.size + Length(instr)) &&
                (j.target.None? && instr.Jz? ==> j.size == 4)
    {
      hide Xbyak.CodeGenerator.Valid, Xbyak.CodeGenerator.Code, Layout.Linked;
      Shape();
      var ref := Id(instr.target);
      TargetIs(ref);
      ghost var n;
      if instr.Jz? {
        e, n := gen.Jmp(ref, Xbyak.Near, 0x74, 0x84, 0x0F);
      } else {
        e, n := gen.Jmp(ref, Xbyak.Auto, 0xEB, 0xE9, 0);
      }
      if e.None? {
        InBuffer(gen);
      }
    }

    /** The end of the function. */
    method Finish() returns (ok: bool)
      requires Valid()
      modifies this`wanted, gen`top, gen`size, gen.top
      ensures gen.top == old(gen.top) && wanted == old(gen.size) + |EPILOGUE| && (ok <==> wanted <= MAX_SIZE)
      ensures ok ==> gen.InBuffer() && gen.Code() == old(gen.Code()) + EPILOGUE
    {
      hide Xbyak.CodeGenerator.Valid, Xbyak.CodeGenerator.Code, Layout.Linked;
      Shape();
      wanted := gen.size + |EPILOGUE|;
      var e := gen.Emit(EPILOGUE);
      ok := e.None?;
    }

    /** The generator and the layout agree on where labels are, and that all of it is within reach. */
    lemma TargetIs(ref: Ref)
      requires Valid() && ref.Id?
      ensures gen.TargetOf(ref) == layout.Target(ref.n) && (ref.n in layout.labels <==> layout.Target(ref.n).Some?)
      ensures gen.size <= MAX_SIZE && (layout.Target(ref.n).Some? ==> layout.Target(ref.n).value <= gen.size)
    {
    }

    /** Defines a new label; there is always room for it. */
    method Label(l: nat)
      requires Valid() && l !in layout.labels
      modifies this, gen, gen.top
      ensures gen.top == old(gen.top) && gen.size == old(gen.size) && wanted == old(wanted)
      ensures Valid() && layout == old(layout.WithLabel(l))
    {
      hide Xbyak.CodeGenerator.Valid, Xbyak.CodeGenerator.Code, Layout.Linked, Defined, OnlyFields;
      Shape();
      ghost var bytes, jumps0 := gen.Code(), gen.jumps;
      CanDefine(l);
      var e := gen.Define(Id(l));
      layout.LabelLinked(bytes, jumps0, old(gen.defs), l, gen.Code());
      layout.BegunKept(bytes, gen.Code(), jumps0);
      layout := layout.WithLabel(l);
    }

    lemma CanDefine(l: nat)
      requires Valid() && l !in layout.labels
      ensures !gen.Undefinable(Id(l)) && Apart(gen.jumps, gen.size)
    {
      hide Layout.Encoded, Tracked, InfosOwned, Layout.Laid;
      forall p | p in gen.undefs && p.key == Id(l)
        ensures !TooFar(gen.size - p.jmp.endOfJmp, p.jmp.jmpSize)
      {
        var k := WaiterOf(gen.undefs, gen.jumps, p);
        assert layout.JumpOk(gen.jumps[k], layout.js[k]);
      }
    }
  }

  lemma InBuffer(gen: Xbyak.CodeGenerator)
    requires gen.Valid()
    ensures gen.InBuffer()
  {
  }

  lemma JumpWritten(gen: Xbyak.CodeGenerator, k: nat)
    requires gen.Valid() && !gen.autoGrow && k < |gen.jumps| && gen.jumps[k].target.Some?
    ensures Written(gen.Code(), gen.jumps[k]) && (gen.jumps[k].size == 1 || gen.jumps[k].size == 4)
  {
    hide Written;
    assert Settled(gen.Code(), gen.addrInfo, gen.jumps[k]);
  }
}
