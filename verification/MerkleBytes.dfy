/** The byte forms of words, digests, paths and trees. */
module MerkleBytes {
  import opened Powers
  import opened MerkleSpec

  const WORD_BYTES: nat := 8

  /** n >> 8 * k */
  function ShiftRight8(n: nat, k: nat): nat {
    if k == 0 then n else ShiftRight8(n, k - 1) / 256
  }

  /** n << 8 * k */
  function ShiftLeft8(n: nat, k: nat): nat {
    if k == 0 then n else 256 * ShiftLeft8(n, k - 1)
  }

  lemma {:induction false} ShiftLeft8Step(n: nat, b: nat, k: nat)
    ensures ShiftLeft8(256 * n + b, k) == ShiftLeft8(n, k + 1) + ShiftLeft8(b, k)
  {
    if k > 0 {
      ShiftLeft8Step(n, b, k - 1);
    }
  }

  /** The k lowest bytes of n, most significant first. */
  function BigEndian(n: nat, k: nat): (s: seq<Byte>)
    ensures |s| == k
  {
    if k == 0 then [] else BigEndian(n / 256, k - 1) + [n % 256]
  }

  function Value(s: seq<Byte>): nat {
    if s == [] then 0 else 256 * Value(s[..|s| - 1]) + s[|s| - 1]
  }

  lemma {:induction false} ValueOfBigEndian(n: nat, k: nat)
    requires n < ShiftLeft8(1, k)
    ensures Value(BigEndian(n, k)) == n
  {
    if k > 0 {
      ValueOfBigEndian(n / 256, k - 1);
      assert BigEndian(n, k)[..k - 1] == BigEndian(n / 256, k - 1);
    }
  }

  lemma {:induction false} BigEndianOfValue(s: seq<Byte>)
    ensures BigEndian(Value(s), |s|) == s
  {
    if s != [] {
      BigEndianOfValue(s[..|s| - 1]);
      assert s == s[..|s| - 1] + [s[|s| - 1]];
    }
  }

  function Word(n: nat): (s: seq<Byte>)
    ensures |s| == WORD_BYTES
  {
    BigEndian(n, WORD_BYTES)
  }

  ghost predicate IsWord(n: nat) {
    n < ShiftLeft8(1, WORD_BYTES)
  }

  method SerialiseWord(n: nat, bytes: seq<Byte>) returns (r: seq<Byte>)
    ensures r == bytes + Word(n)
  {
    r := bytes;
    for i := 0 to WORD_BYTES
      invariant r == bytes + BigEndian(ShiftRight8(n, WORD_BYTES - i), i)
    {
      r := r + [ShiftRight8(n, WORD_BYTES - i - 1) % 256];
    }
  }

  /** The bytes are or-ed into places where the word is still zero, which adds them. */
  method DeserialiseWord(bytes: seq<Byte>, index: nat) returns (r: nat, next: nat)
    requires index + WORD_BYTES <= |bytes|
    ensures r == Value(bytes[index..index + WORD_BYTES]) && next == index + WORD_BYTES
  {
    r, next := 0, index;
    for i := 0 to WORD_BYTES
      invariant next == index + i
      invariant r == ShiftLeft8(Value(bytes[index..index + i]), WORD_BYTES - i)
    {
      assert bytes[index..index + i + 1] == bytes[index..index + i] + [bytes[index + i]];
      ShiftLeft8Step(Value(bytes[index..index + i]), bytes[index + i], WORD_BYTES - i - 1);
      r := r + ShiftLeft8(bytes[next], WORD_BYTES - i - 1);
      next := next + 1;
    }
  }

  /** Digests one after the other. */
  function Flat(ds: seq<Digest>): (s: seq<Byte>)
    ensures |s| == HASH_SIZE * |ds|
  {
    if ds == [] then [] else Flat(ds[..|ds| - 1]) + ds[|ds| - 1].bytes
  }

  lemma FlatSnoc(ds: seq<Digest>, d: Digest)
    ensures Flat(ds + [d]) == Flat(ds) + d.bytes
  {
    assert (ds + [d])[..|ds|] == ds;
  }

  lemma {:induction false} FlatAppend(a: seq<Digest>, b: seq<Digest>)
    ensures Flat(a + b) == Flat(a) + Flat(b)
    decreases |b|
  {
    if b == [] {
      assert a + b == a;
    } else {
      var b' := b[..|b| - 1];
      FlatAppend(a, b');
      assert a + b == (a + b') + [b[|b| - 1]];
      assert b == b' + [b[|b| - 1]];
      FlatSnoc(a + b', b[|b| - 1]);
    }
  }

  lemma {:induction false} FlatAt(ds: seq<Digest>, i: nat)
    requires i < |ds|
    ensures HASH_SIZE * (i + 1) <= |Flat(ds)|
    ensures Flat(ds)[HASH_SIZE * i..HASH_SIZE * (i + 1)] == ds[i].bytes
    decreases |ds|
  {
    if i < |ds| - 1 {
      FlatAt(ds[..|ds| - 1], i);
    }
  }

  /** A tree, as the leaves from number fl on and the blocks flushed before it. */
  function TreeBytes(h: HashFunction, ls: seq<Digest>, fl: nat): seq<Byte>
    requires fl <= |ls|
  {
    Word(|ls| - fl) + Word(fl) + Flat(ls[fl..]) + Flat(Extras(h, ls, fl, 0))
  }

  lemma TreeBytesOf(h: HashFunction, ls: seq<Digest>, fl: nat)
    requires fl <= |ls|
    ensures TreeBytes(h, ls, fl) == Word(|ls| - fl) + Word(fl) + Flat(ls[fl..]) + Flat(Extras(h, ls, fl, 0))
  {
  }

  /** The byte form of a segment takes its blocks from the whole tree. */
  lemma SegmentBytes(h: HashFunction, ls: seq<Digest>, from: nat, to: nat)
    requires from <= to < |ls|
    ensures TreeBytes(h, ls[..to + 1], from)
         == Word(to + 1 - from) + Word(from) + Flat(ls[..to + 1][from..]) + Flat(Extras(h, ls, from, 0))
  {
    hide Extras, Flat, Word;
    ExtrasPrefix(h, ls, to + 1, from, 0);
  }

  lemma FourParts<T>(s: seq<T>, a: seq<T>, b: seq<T>, c: seq<T>, d: seq<T>)
    requires s == a + b + c + d
    ensures s[..|a|] == a && s[|a|..|a| + |b|] == b && s[|a| + |b|..|a| + |b| + |c|] == c && s[|a| + |b| + |c|..] == d
  {
  }

  lemma SubSlice<T>(s: seq<T>, f: seq<T>, position: nat, i: nat, j: nat)
    requires position + |f| <= |s| && s[position..position + |f|] == f && i <= j <= |f|
    ensures s[position + i..position + j] == f[i..j]
  {
    forall x | i <= x < j
      ensures s[position + x] == f[x]
    {
      assert s[position..position + |f|][x] == f[x];
    }
  }

  /** Where the parts of a tree's byte form lie. */
  lemma TreeBytesAt(h: HashFunction, bytes: seq<Byte>, position: nat, ls: seq<Digest>, fl: nat)
    requires fl <= |ls| && IsWord(|ls|)
    requires position + |TreeBytes(h, ls, fl)| <= |bytes|
    requires bytes[position..position + |TreeBytes(h, ls, fl)|] == TreeBytes(h, ls, fl)
    ensures var a := position + WORD_BYTES; var b := a + WORD_BYTES; var c := b + HASH_SIZE * (|ls| - fl);
            var d := position + |TreeBytes(h, ls, fl)|;
            c <= d && Value(bytes[position..a]) == |ls| - fl && Value(bytes[a..b]) == fl &&
            bytes[b..c] == Flat(ls[fl..]) && bytes[c..d] == Flat(Extras(h, ls, fl, 0))
  {
    hide Extras, Flat, Word, TreeBytes, IsWord;
    var f := TreeBytes(h, ls, fl);
    var k := 2 * WORD_BYTES + HASH_SIZE * (|ls| - fl);
    TreeBytesOf(h, ls, fl);
    FourParts(f, Word(|ls| - fl), Word(fl), Flat(ls[fl..]), Flat(Extras(h, ls, fl, 0)));
    SubSlice(bytes, f, position, 0, WORD_BYTES);
    SubSlice(bytes, f, position, WORD_BYTES, 2 * WORD_BYTES);
    SubSlice(bytes, f, position, 2 * WORD_BYTES, k);
    SubSlice(bytes, f, position, k, |f|);
    SmallerWord(|ls| - fl, |ls|);
    SmallerWord(fl, |ls|);
    ValueOfWord(|ls| - fl);
    ValueOfWord(fl);
  }

  lemma SmallerWord(m: nat, n: nat)
    requires m <= n && IsWord(n)
    ensures IsWord(m)
  {
  }

  lemma ValueOfWord(n: nat)
    requires IsWord(n)
    ensures Value(Word(n)) == n
  {
    ValueOfBigEndian(n, WORD_BYTES);
  }

  lemma WordBound()
    ensures ShiftLeft8(1, WORD_BYTES) == Pow2(64)
  {
    ghost var k := 0;
    while k < WORD_BYTES
      invariant 0 <= k <= WORD_BYTES && ShiftLeft8(1, k) == Pow2(8 * k)
    {
      Pow2Sum(8, 8 * k);
      assert Pow2(8) == 256 by {
        assert Pow2(4) == 16;
      }
      k := k + 1;
    }
  }
}
