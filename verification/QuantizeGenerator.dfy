/** The code generator of quantize.cpp, and what the code it emits computes. */
module QuantizeGenerator {
  import opened Arithmetic
  import opened Powers
  import opened Quantize
  import opened QuantizeMultiplier

  const BLOCK: nat := 64

  datatype Register = Eax | Edx

  /** The instructions that udiv and the constructor emit. */
  datatype Instr =
    | Load(offset: nat)
    | Store(offset: nat)
    | Shr(r: Register, count: nat)
    | MovEdx(imm: nat)
    | MulEdx
    | AddEax(imm: nat)
    | AdcEdxZero
    | MovEaxEdx

  /** The registers, the carry flag, and the words that esi and edi point to. */
  datatype Machine = Machine(eax: nat, edx: nat, carry: bool, src: seq<nat>, dest: seq<nat>)

  ghost predicate Words(s: seq<nat>) {
    |s| == BLOCK && forall i :: 0 <= i < |s| ==> s[i] <= MAX_WORD
  }

  ghost predicate Ready(m: Machine) {
    Words(m.src) && |m.dest| == BLOCK
  }

  /** The processor uses the lowest five bits of a shift count. */
  function ShiftRight(x: nat, count: nat): nat {
    x / Pow2(count % 32)
  }

  function Word(s: seq<nat>, offset: nat): nat {
    if offset / 4 < |s| then s[offset / 4] else 0
  }

  function Step(i: Instr, m: Machine): Machine {
    match i
    case Load(offset) => m.(eax := Word(m.src, offset))
    case Store(offset) => if offset / 4 < |m.dest| then m.(dest := m.dest[offset / 4 := m.eax]) else m
    case Shr(Eax, count) => m.(eax := ShiftRight(m.eax, count))
    case Shr(Edx, count) => m.(edx := ShiftRight(m.edx, count))
    case MovEdx(imm) => m.(edx := imm % WORD)
    case MulEdx => m.(eax := m.eax * m.edx % WORD, edx := m.eax * m.edx / WORD)
    case AddEax(imm) => m.(eax := (m.eax + imm % WORD) % WORD, carry := m.eax + imm % WORD >= WORD)
    case AdcEdxZero => m.(edx := (m.edx + if m.carry then 1 else 0) % WORD)
    case MovEaxEdx => m.(eax := m.edx)
  }

  function Exec(code: seq<Instr>, m: Machine): Machine {
    if code == [] then m else Step(code[|code| - 1], Exec(code[..|code| - 1], m))
  }

  lemma {:induction false} ExecAppend(a: seq<Instr>, b: seq<Instr>, m: Machine)
    ensures Exec(a + b, m) == Exec(b, Exec(a, m))
    decreases |b|
  {
    if b == [] {
      assert a + b == a;
    } else {
      ExecAppend(a, b[..|b| - 1], m);
      assert (a + b)[..|a + b| - 1] == a + b[..|b| - 1];
    }
  }

  lemma ExecOne(code: seq<Instr>, i: Instr, m: Machine)
    ensures Exec(code + [i], m) == Step(i, Exec(code, m))
  {
    assert (code + [i])[..|code|] == code;
  }

  /** The code divides the source word at offset by the divisor, and writes nothing to memory. */
  ghost predicate Divides(code: seq<Instr>, offset: nat, divisor: nat)
    requires 0 < divisor
  {
    forall m: Machine :: Ready(m) ==> DividesOn(code, offset, divisor, m)
  }

  ghost predicate DividesOn(code: seq<Instr>, offset: nat, divisor: nat, m: Machine)
    requires 0 < divisor
  {
    var n := Exec(code, m);
    n.eax == Word(m.src, offset) / divisor && n.src == m.src && n.dest == m.dest
  }

  /** Multiplying a word by m, adding m if a is 1, and shifting by len divides it by divisor. */
  ghost predicate Exact(m: nat, a: nat, len: nat, divisor: nat)
    requires 0 < divisor
  {
    m <= MAX_WORD && a <= 1 && len <= 31 && forall x: nat :: x <= MAX_WORD ==> m * (x + a) / Power(len) == x / divisor
  }

  function MultiplyCode(offset: nat, m: nat, a: nat, len: nat): seq<Instr> {
    [Load(offset), MovEdx(m), MulEdx] + (if a != 0 then [AddEax(m), AdcEdxZero] else []) +
    (if len != 0 then [Shr(Edx, len)] else []) + [MovEaxEdx]
  }

  /** The high word of m * x, and of m * x + m, as the emitted instructions compute it. */
  lemma HighWord(m: nat, a: nat, x: nat)
    requires m <= MAX_WORD && a <= 1 && x <= MAX_WORD
    ensures var lo, hi := x * m % WORD, x * m / WORD;
            var top := if a == 1 then (hi + if lo + m >= WORD then 1 else 0) % WORD else hi;
            top == m * (x + a) / WORD
  {
    Regroup(x, m, 1);
    if a == 1 {
      HighWordPlus(m, x);
    }
  }

  lemma HighWordPlus(m: nat, x: nat)
    requires m <= MAX_WORD && x <= MAX_WORD
    ensures var lo, hi := x * m % WORD, x * m / WORD;
            (hi + if lo + m >= WORD then 1 else 0) % WORD == m * (x + 1) / WORD
  {
    Regroup(x, m, 1);
    Distribute(x, 1, m);
    LeTimes(x, MAX_WORD, m);
    Carry(x * m, m);
  }

  /** Adding m to the low word of p and the carry to its high word. */
  lemma Carry(p: nat, m: nat)
    requires m < WORD && p + m < WORD * WORD
    ensures (p / WORD + if p % WORD + m >= WORD then 1 else 0) % WORD == (p + m) / WORD
  {
    Carried(p, m, p / WORD, p % WORD);
  }

  lemma Carried(p: nat, m: nat, hi: nat, lo: nat)
    requires p == hi * WORD + lo && lo < WORD && m < WORD
    ensures (p + m) / WORD == hi + if lo + m >= WORD then 1 else 0
  {
    if lo + m >= WORD {
      QuotientRemainder(p + m, WORD, hi + 1, lo + m - WORD);
    } else {
      QuotientRemainder(p + m, WORD, hi, lo + m);
    }
  }

  lemma ShiftHigh(v: nat, len: nat)
    requires len <= 31
    ensures ShiftRight(v / WORD, len) == v / Power(len)
  {
    hide Pow2;
    WordIsPow2();
    Pow2Sum(32, len);
    DivDiv(v, WORD, Pow2(len));
  }

  lemma MultiplyCodeDivides(offset: nat, m: nat, a: nat, len: nat, divisor: nat)
    requires 0 < divisor && Exact(m, a, len, divisor)
    ensures Divides(MultiplyCode(offset, m, a, len), offset, divisor)
  {
    forall s: Machine | Ready(s)
      ensures DividesOn(MultiplyCode(offset, m, a, len), offset, divisor, s)
    {
      MultiplyCodeRuns(offset, m, a, len, s);
      var x := Word(s.src, offset);
      ShiftHigh(m * (x + a), len);
    }
  }

  lemma MultiplyCodeRuns(offset: nat, m: nat, a: nat, len: nat, s: Machine)
    requires m <= MAX_WORD && a <= 1 && len <= 31 && Ready(s)
    ensures var n := Exec(MultiplyCode(offset, m, a, len), s);
            n.eax == ShiftRight(m * (Word(s.src, offset) + a) / WORD, len) && n.src == s.src && n.dest == s.dest
  {
    hide Exec, ShiftRight;
    var x := Word(s.src, offset);
    HighWord(m, a, x);
    ProductRuns(offset, m, s);
    var c0 := [Load(offset), MovEdx(m), MulEdx];
    var c1 := if a != 0 then c0 + [AddEax(m)] + [AdcEdxZero] else c0;
    if a != 0 {
      ExecOne(c0, AddEax(m), s);
      ExecOne(c0 + [AddEax(m)], AdcEdxZero, s);
    }
    var c2 := if len != 0 then c1 + [Shr(Edx, len)] else c1;
    if len != 0 {
      ExecOne(c1, Shr(Edx, len), s);
    } else {
      ShiftNone(m * (x + a) / WORD);
    }
    ExecOne(c2, MovEaxEdx, s);
    assert MultiplyCode(offset, m, a, len) == c2 + [MovEaxEdx];
  }

  lemma ProductRuns(offset: nat, m: nat, s: Machine)
    requires m <= MAX_WORD && Ready(s)
    ensures var x := Word(s.src, offset);
            Exec([Load(offset), MovEdx(m), MulEdx], s) == s.(eax := x * m % WORD, edx := x * m / WORD)
  {
    hide Exec;
    ExecEmpty(s);
    ExecOne([], Load(offset), s);
    ExecOne([] + [Load(offset)], MovEdx(m), s);
    ExecOne([] + [Load(offset)] + [MovEdx(m)], MulEdx, s);
    assert [] + [Load(offset)] + [MovEdx(m)] + [MulEdx] == [Load(offset), MovEdx(m), MulEdx];
  }

  lemma ExecEmpty(s: Machine)
    ensures Exec([], s) == s
  {
  }

  lemma ShiftNone(x: nat)
    ensures ShiftRight(x, 0) == x
  {
  }

  /** A power of two is divided by with a shift alone, or with nothing. */
  lemma ShiftCodeDivides(offset: nat, exponent: nat)
    requires exponent <= 31
    ensures Divides([Load(offset)] + (if exponent != 0 then [Shr(Eax, exponent)] else []), offset, Pow2(exponent))
  {
    hide Pow2, Exec, Words;
    var code := [Load(offset)] + (if exponent != 0 then [Shr(Eax, exponent)] else []);
    forall s: Machine | Ready(s)
      ensures DividesOn(code, offset, Pow2(exponent), s)
    {
      ExecEmpty(s);
      ExecOne([], Load(offset), s);
      ShiftNone(Word(s.src, offset));
      assert [] + [Load(offset)] == [Load(offset)];
      if exponent != 0 {
        ExecOne([Load(offset)], Shr(Eax, exponent), s);
      } else {
        assert code == [Load(offset)];
      }
    }
  }

  lemma FirstIs(o: nat, L: nat)
    requires 0 < o <= MAX_WORD
    ensures 0 < Top(o) && FirstLow(o, L) == Power(L) / o && FirstHigh(o, L) == (Power(L) + Power(L) / Top(o)) / o
  {
    TopIs(o);
  }

  lemma ExactUp(o: nat, len: nat, low: nat, high: nat)
    requires 3 <= o < DIVISOR_LIMIT && o % 2 == 1 && len <= 30 && Narrowed(o, len, low, high) && high <= MAX_WORD
    ensures 0 < high && Exact(high, 0, len, o)
  {
    hide Power;
    forall x: nat | x <= MAX_WORD
      ensures high * (x + 0) / Power(len) == x / o
    {
      NarrowExact(o, len, low, high, x);
    }
  }

  lemma ExactDown(o: nat, L: nat)
    requires OddBits(o, L) && FirstLow(o, L) / 2 >= FirstHigh(o, L) / 2 && L <= 30
    ensures var m := Power(L - 1) / o; 0 < m && Exact(m, 1, L - 1, o)
  {
    hide FirstLow, FirstHigh, Power, Pow2;
    AddFormFits(o, L);
    forall x: nat | x <= MAX_WORD
      ensures Power(L - 1) / o * (x + 1) / Power(L - 1) == x / o
    {
      AddFormExact(o, L, x);
    }
  }

  /** Narrows the two multipliers for an odd divisor of L bits as far as they stay apart. */
  method NarrowMultipliers(odd: nat, L: nat) returns (mLow: nat, mHigh: nat, len: nat)
    requires OddBits(odd, L)
    ensures len <= L && Narrowed(odd, len, mLow, mHigh) && (mLow / 2 >= mHigh / 2 || len == 0)
    ensures len == L ==> FirstLow(odd, L) / 2 >= FirstHigh(odd, L) / 2
  {
    hide Pow2, Power, Narrowed, Top, FirstLow, FirstHigh;
    len := L;
    FirstIs(odd, L);
    NarrowStart(odd, L);
    var roundUp := Power(len);
    var k := roundUp / Top(odd);
    mLow, mHigh := roundUp / odd, (roundUp + k) / odd;
    while mLow / 2 < mHigh / 2 && len > 0
      invariant len <= L && Narrowed(odd, len, mLow, mHigh)
      invariant len == L ==> mLow == FirstLow(odd, L) && mHigh == FirstHigh(odd, L)
      decreases len
    {
      NarrowStep(odd, len, mLow, mHigh);
      mLow, mHigh, len := mLow / 2, mHigh / 2, len - 1;
    }
  }

  /** The multiplier for the form with the addition; it is never the one rounded up. */
  method RoundDown(odd: nat, ghost L: nat) returns (m: nat, len: nat)
    requires OddBits(odd, L) && FirstLow(odd, L) / 2 >= FirstHigh(odd, L) / 2 && L <= 30
    ensures len == L - 1 && m == Power(len) / odd
    ensures 0 < m && FewZeros(m, len) && Exact(m, 1, len, odd)
  {
    hide Pow2, Power, FewZeros, Exact, FirstLow, FirstHigh;
    len := ILog2(odd);
    SameLog(odd, len, L - 1);
    var roundDown := Power(len);
    var mLow, r := roundDown / odd, roundDown % odd;
    m := if r <= odd / 2 then mLow else mLow + 1;
    AddFormRoundsDown(odd, L);
    ExactDown(odd, L);
    AddFormFewZeros(odd, L, m);
  }

  /** The multiplier m, whether it is added once more, and the shift, for an odd divisor above 1. */
  method ChooseMultiplier(odd: nat) returns (m: nat, a: nat, len: nat)
    requires 3 <= odd < DIVISOR_LIMIT && odd % 2 == 1
    ensures 0 < m && FewZeros(m, len) && Exact(m, a, len, odd) && Pow2(len) < 2 * odd
  {
    hide Pow2, Power, Narrowed, FewZeros, Exact, OddBits, FirstLow, FirstHigh;
    var bits := ILog2(odd);
    OddBitsOf(odd, bits);
    var mLow, mHigh;
    mLow, mHigh, len := NarrowMultipliers(odd, bits + 1);
    if mHigh / WORD == 0 {
      m, a := mHigh, 0;
      NarrowOdd(odd, len, mLow, mHigh);
      OddFewZeros(m, len);
      ExactUp(odd, len, mLow, mHigh);
    } else {
      if len <= bits {
        NarrowFits(odd, bits + 1, len, mLow, mHigh);
      }
      m, len := RoundDown(odd, bits + 1);
      a := 1;
    }
    LenBound(odd, bits, len);
  }

  lemma OddBitsOf(o: nat, bits: nat)
    requires 3 <= o < DIVISOR_LIMIT && o % 2 == 1 && Pow2(bits) <= o < Pow2(bits + 1)
    ensures OddBits(o, bits + 1) && bits <= 29 && Pow2(bits) != o
  {
    WordIsPow2();
    if bits >= 30 {
      Pow2Monotone(30, bits);
    }
    if o == Pow2(bits) {
      OddDividesNoPower(o, bits, 1);
    }
  }

  lemma SameLog(o: nat, a: nat, b: nat)
    requires Pow2(a) <= o < Pow2(a + 1) && Pow2(b) <= o < Pow2(b + 1)
    ensures a == b
  {
    if a < b {
      Pow2Monotone(a + 1, b);
    } else if b < a {
      Pow2Monotone(b + 1, a);
    }
  }

  lemma LenBound(o: nat, bits: nat, len: nat)
    requires Pow2(bits) <= o < Pow2(bits + 1) && len <= bits + 1 && bits <= 29 && Pow2(bits) != o
    ensures Pow2(len) < 2 * o && len <= 31
  {
    Pow2Monotone(len, bits + 1);
  }

  /** Drops the zeros at the end of the multiplier and shifts less instead. */
  method StripZeros(m0: nat, a: nat, len0: nat, divisor: nat) returns (m: nat, len: nat)
    requires 0 < divisor && 0 < m0 && FewZeros(m0, len0) && Exact(m0, a, len0, divisor)
    ensures Exact(m, a, len, divisor) && m % 2 == 1 && len <= len0
  {
    hide Exact, FewZeros;
    m, len := m0, len0;
    while m % 2 == 0
      invariant 0 < m && len <= len0 && FewZeros(m, len) && Exact(m, a, len, divisor)
      decreases m
    {
      HalvedFewZeros(m, len);
      HalvedExact(m, a, len, divisor);
      m, len := m / 2, len - 1;
    }
  }

  lemma HalvedExact(m: nat, a: nat, len: nat, divisor: nat)
    requires 0 < divisor && m % 2 == 0 && 0 < len && Exact(m, a, len, divisor)
    ensures Exact(m / 2, a, len - 1, divisor)
  {
    hide Power;
    forall x: nat | x <= MAX_WORD
      ensures m / 2 * (x + a) / Power(len - 1) == x / divisor
    {
      HalvedSame(m, len, x + a);
    }
  }

  /** Shifting by the exponent as well divides by the whole divisor. */
  lemma ShiftedExact(m: nat, a: nat, len: nat, odd: nat, exponent: nat)
    requires 0 < odd && Exact(m, a, len, odd) && len + exponent <= 31
    ensures 0 < odd * Pow2(exponent) && Exact(m, a, len + exponent, odd * Pow2(exponent))
  {
    hide Pow2;
    LeTimes(1, Pow2(exponent), odd);
    Pow2Sum(32 + len, exponent);
    forall x: nat | x <= MAX_WORD
      ensures m * (x + a) / Power(len + exponent) == x / (odd * Pow2(exponent))
    {
      DivDiv(m * (x + a), Power(len), Pow2(exponent));
      DivDiv(x, odd, Pow2(exponent));
    }
  }

  lemma ShiftBound(odd: nat, exponent: nat, len: nat)
    requires 1 <= odd && odd * Pow2(exponent) < DIVISOR_LIMIT && Pow2(len) < 2 * odd
    ensures len + exponent <= 30 && odd < DIVISOR_LIMIT
  {
    hide Pow2;
    WordIsPow2();
    LeTimes(1, Pow2(exponent), odd);
    Pow2Sum(len, exponent);
    LessTimes(Pow2(len), 2 * odd, Pow2(exponent));
    Regroup(2, odd, Pow2(exponent));
    if len + exponent >= 31 {
      Pow2Monotone(31, len + exponent);
      Pow2Sum(1, 30);
      Pow2OfOne();
    }
  }

  lemma Pow2OfOne()
    ensures Pow2(1) == 2 && Pow2(0) == 1
  {
  }

  lemma OneMoreHalf(odd: nat, exponent: nat)
    requires odd % 2 == 0
    ensures odd * Pow2(exponent) == odd / 2 * Pow2(exponent + 1)
  {
    Regroup(2, odd / 2, Pow2(exponent));
    Regroup(odd / 2, 2, Pow2(exponent));
  }

  class Generator {
    var code: seq<Instr>

    constructor ()
      ensures code == []
    {
      code := [];
    }

    /** Emits code that divides the source word at offset by the divisor. */
    method UDiv(divisor: nat, offset: nat) returns (ghost emitted: seq<Instr>)
      requires 1 <= divisor < DIVISOR_LIMIT
      modifies this
      ensures code == old(code) + emitted && Divides(emitted, offset, divisor)
    {
      hide Pow2, Exact, Divides, FewZeros, MultiplyCode;
      code := code + [Load(offset)];
      var exponent: nat, odd := 0, divisor;
      Pow2OfOne();
      while odd % 2 == 0
        invariant 1 <= odd && divisor == odd * Pow2(exponent) && code == old(code) + [Load(offset)]
        decreases odd
      {
        OneMoreHalf(odd, exponent);
        odd, exponent := odd / 2, exponent + 1;
      }
      ShiftBound(odd, exponent, 0);
      if odd == 1 {
        ShiftCodeDivides(offset, exponent);
        if exponent != 0 {
          code := code + [Shr(Eax, exponent)];
        }
        emitted := [Load(offset)] + (if exponent != 0 then [Shr(Eax, exponent)] else []);
        assert code == old(code) + emitted;
        return;
      }
      var m, a, len := ChooseMultiplier(odd);
      ShiftBound(odd, exponent, len);
      m, len := StripZeros(m, a, len, odd);
      ShiftedExact(m, a, len, odd, exponent);
      len := len + exponent;
      MultiplyCodeDivides(offset, m, a, len, divisor);
      code := code + [MovEdx(m)];
      code := code + [MulEdx];
      if a != 0 {
        code := code + [AddEax(m)];
        code := code + [AdcEdxZero];
      }
      if len != 0 {
        code := code + [Shr(Edx, len)];
      }
      code := code + [MovEaxEdx];
      emitted := MultiplyCode(offset, m, a, len);
      CodeOf(offset, m, a, len);
      assert code == old(code) + emitted;
    }

    /** Emits code that divides every source word by its entry of the table. */
    constructor Quantize(qTbl: seq<nat>)
      requires |qTbl| == BLOCK && forall i :: 0 <= i < BLOCK ==> 1 <= qTbl[i] < DIVISOR_LIMIT
      ensures forall m: Machine :: Ready(m) ==> DividedBy(code, qTbl, BLOCK, m)
    {
      code := [];
      new;
      hide Divides, Ready, DividedBy, Exec;
      NothingDivided(qTbl);
      for i := 0 to BLOCK
        invariant forall m: Machine :: Ready(m) ==> DividedBy(code, qTbl, i, m)
      {
        ghost var before := code;
        ghost var emitted := UDiv(qTbl[i], i * 4);
        code := code + [Store(i * 4)];
        forall m: Machine | Ready(m)
          ensures DividedBy(code, qTbl, i + 1, m)
        {
          OneMoreDivided(before, emitted, qTbl, i, m);
        }
      }
    }
  }

  lemma CodeOf(offset: nat, m: nat, a: nat, len: nat)
    ensures MultiplyCode(offset, m, a, len)
         == [Load(offset)] + [MovEdx(m)] + [MulEdx] + (if a != 0 then [AddEax(m)] + [AdcEdxZero] else []) +
            (if len != 0 then [Shr(Edx, len)] else []) + [MovEaxEdx]
  {
  }

  /** The code has written the quotients of the first n source words, and nothing else. */
  ghost predicate DividedBy(code: seq<Instr>, qTbl: seq<nat>, n: nat, m: Machine)
    requires n <= |qTbl| == BLOCK && forall i :: 0 <= i < BLOCK ==> 1 <= qTbl[i]
  {
    var r := Exec(code, m);
    r.src == m.src && |r.dest| == |m.dest| && |m.src| == |m.dest| == BLOCK &&
    forall j :: 0 <= j < BLOCK ==> r.dest[j] == if j < n then m.src[j] / qTbl[j] else m.dest[j]
  }

  lemma NothingDivided(qTbl: seq<nat>)
    requires |qTbl| == BLOCK && forall i :: 0 <= i < BLOCK ==> 1 <= qTbl[i]
    ensures forall m: Machine :: Ready(m) ==> DividedBy([], qTbl, 0, m)
  {
  }

  lemma OneMoreDivided(before: seq<Instr>, emitted: seq<Instr>, qTbl: seq<nat>, i: nat, m: Machine)
    requires i < |qTbl| == BLOCK && forall j :: 0 <= j < BLOCK ==> 1 <= qTbl[j]
    requires Ready(m) && DividedBy(before, qTbl, i, m) && Divides(emitted, i * 4, qTbl[i])
    ensures DividedBy(before + emitted + [Store(i * 4)], qTbl, i + 1, m)
  {
    hide Exec;
    var r := Exec(before, m);
    ExecAppend(before, emitted, m);
    ExecOne(before + emitted, Store(i * 4), m);
    assert Ready(r) && DividesOn(emitted, i * 4, qTbl[i], r);
    assert i * 4 / 4 == i;
  }

  /** The reference routine. */
  method QuantizeReference(dest: array<nat>, src: seq<nat>, qTbl: seq<nat>)
    requires dest.Length == |src| == |qTbl| == BLOCK && forall i :: 0 <= i < BLOCK ==> 1 <= qTbl[i]
    modifies dest
    ensures forall i :: 0 <= i < BLOCK ==> dest[i] == src[i] / qTbl[i]
  {
    for i := 0 to BLOCK
      invariant forall j :: 0 <= j < i ==> dest[j] == src[j] / qTbl[j]
    {
      dest[i] := src[i] / qTbl[i];
    }
  }
}
