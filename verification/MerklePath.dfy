/** Paths extracted from a tree: their root, their verification and their byte form. */
module MerklePath {
  import opened MerkleSpec
  import opened MerkleBytes
  import opened Wrappers

  datatype Path = Path(leaf: Digest, leafIndex: nat, elements: seq<Element>, maxIndex: nat)

  const ELEMENT_SIZE: nat := HASH_SIZE + 1
  const HEADER_SIZE: nat := HASH_SIZE + 3 * WORD_BYTES

  /** The path of leaf i in the tree over ls. */
  ghost function PathOf(h: HashFunction, ls: seq<Digest>, i: nat): Path
    requires i < |ls|
  {
    Path(ls[i], i, AuditPath(h, ls, i), |ls| - 1)
  }

  method PathRoot(h: HashFunction, p: Path) returns (r: Digest)
    ensures r == Fold(h, p.leaf, p.elements)
  {
    r := p.leaf;
    for i := 0 to |p.elements|
      invariant r == Fold(h, p.leaf, p.elements[..i])
    {
      var e := p.elements[i];
      FoldSnoc(h, p.leaf, p.elements[..i], e);
      assert p.elements[..i + 1] == p.elements[..i] + [e];
      if e.direction == PATH_LEFT {
        r := h(e.hash, r);
      } else {
        r := h(r, e.hash);
      }
    }
    assert p.elements[..|p.elements|] == p.elements;
  }

  method Verify(h: HashFunction, p: Path, expectedRoot: Digest) returns (ok: bool)
    ensures ok <==> Fold(h, p.leaf, p.elements) == expectedRoot
  {
    var r := PathRoot(h, p);
    ok := r == expectedRoot;
  }

  /** A path with the turns of leaf i verifies against the root exactly if it is the path of leaf i, unless
      verifying it finds a collision of the hash function with the genuine path. */
  lemma VerifiedPathIsGenuine(h: HashFunction, ls: seq<Digest>, i: nat, p: Path)
    requires i < |ls| && SameTurns(p.elements, AuditPath(h, ls, i))
    ensures p.leaf == ls[i] && p.elements == AuditPath(h, ls, i) ==> Fold(h, p.leaf, p.elements) == Root(h, ls)
    ensures Fold(h, p.leaf, p.elements) == Root(h, ls) ==>
              (p.leaf == ls[i] && p.elements == AuditPath(h, ls, i)) ||
              exists k :: 0 <= k < |p.elements| &&
                Collides(h, HashedAt(h, p.leaf, p.elements, k), HashedAt(h, ls[i], AuditPath(h, ls, i), k))
  {
    AuditPathFolds(h, ls, i);
    if Fold(h, p.leaf, p.elements) == Root(h, ls) {
      PathsAgree(h, p.leaf, p.elements, ls[i], AuditPath(h, ls, i));
    }
  }

  function DirectionByte(d: Direction): Byte {
    if d == PATH_LEFT then 1 else 0
  }

  function ElementsBytes(es: seq<Element>): (s: seq<Byte>)
    ensures |s| == ELEMENT_SIZE * |es|
  {
    if es == [] then []
    else
      var e := es[|es| - 1];
      ElementsBytes(es[..|es| - 1]) + e.hash.bytes + [DirectionByte(e.direction)]
  }

  function PathBytes(p: Path): (s: seq<Byte>)
    ensures |s| == HEADER_SIZE + ELEMENT_SIZE * |p.elements|
  {
    p.leaf.bytes + Word(p.leafIndex) + Word(p.maxIndex) + Word(|p.elements|) + ElementsBytes(p.elements)
  }

  method Serialise(p: Path, bytes: seq<Byte>) returns (r: seq<Byte>)
    ensures r == bytes + PathBytes(p)
  {
    r := bytes + p.leaf.bytes;
    r := SerialiseWord(p.leafIndex, r);
    r := SerialiseWord(p.maxIndex, r);
    r := SerialiseWord(|p.elements|, r);
    ghost var header := r;
    assert header == bytes + p.leaf.bytes + Word(p.leafIndex) + Word(p.maxIndex) + Word(|p.elements|);
    for i := 0 to |p.elements|
      invariant r == header + ElementsBytes(p.elements[..i])
    {
      hide ElementsBytes, Word;
      var e := p.elements[i];
      NextElement(p.elements, i);
      r := r + e.hash.bytes;
      r := r + [if e.direction == PATH_LEFT then 1 else 0];
    }
    assert p.elements[..|p.elements|] == p.elements;
    hide ElementsBytes, Word;
  }

  lemma NextElement(es: seq<Element>, i: nat)
    requires i < |es|
    ensures ElementsBytes(es[..i + 1]) ==
            ElementsBytes(es[..i]) + es[i].hash.bytes + [DirectionByte(es[i].direction)]
  {
    assert es[..i + 1][..i] == es[..i];
  }

  function ElementAt(s: seq<Byte>, k: nat): Element
    requires ELEMENT_SIZE * (k + 1) <= |s|
  {
    var at := ELEMENT_SIZE * k;
    Element(Digest(s[at..at + HASH_SIZE]), if s[at + HASH_SIZE] != 0 then PATH_LEFT else PATH_RIGHT)
  }

  function ElementsIn(s: seq<Byte>, n: nat): (es: seq<Element>)
    requires ELEMENT_SIZE * n <= |s|
    ensures |es| == n
  {
    if n == 0 then [] else ElementsIn(s, n - 1) + [ElementAt(s, n - 1)]
  }

  ghost predicate HasPath(s: seq<Byte>) {
    HEADER_SIZE <= |s| && HEADER_SIZE + ELEMENT_SIZE * ElementCount(s) <= |s|
  }

  ghost function ElementCount(s: seq<Byte>): nat
    requires HEADER_SIZE <= |s|
  {
    Value(s[HASH_SIZE + 2 * WORD_BYTES..HEADER_SIZE])
  }

  ghost function Parsed(s: seq<Byte>): Path
    requires HasPath(s)
  {
    Path(Digest(s[..HASH_SIZE]), Value(s[HASH_SIZE..HASH_SIZE + WORD_BYTES]),
         ElementsIn(s[HEADER_SIZE..], ElementCount(s)),
         Value(s[HASH_SIZE + WORD_BYTES..HASH_SIZE + 2 * WORD_BYTES]))
  }

  /** Words and direction bytes are read unchecked, so they must be there; digests are checked for. */
  ghost predicate Readable(s: seq<Byte>) {
    |s| < HASH_SIZE ||
    (HEADER_SIZE <= |s| && (HasPath(s) || (|s| - HEADER_SIZE) % ELEMENT_SIZE < HASH_SIZE))
  }

  /** Where the first digest that is not there would be. */
  ghost function Missing(s: seq<Byte>): nat {
    if |s| < HEADER_SIZE then 0 else HEADER_SIZE + (|s| - HEADER_SIZE) / ELEMENT_SIZE * ELEMENT_SIZE
  }

  /** Reads a path off the bytes from position on; refused, at the first digest that is not there, exactly if the
      path is not there as a whole. */
  method Deserialise(bytes: seq<Byte>, position: nat) returns (r: Option<Path>, next: nat)
    requires position <= |bytes| && Readable(bytes[position..])
    ensures r.Some? <==> HasPath(bytes[position..])
    ensures r.Some? ==> r.value == Parsed(bytes[position..]) &&
                        next == position + HEADER_SIZE + ELEMENT_SIZE * |r.value.elements|
    ensures r.None? ==> next == position + Missing(bytes[position..])
  {
    hide Value;
    ghost var s := bytes[position..];
    next := position;
    if |bytes| - next < HASH_SIZE {
      return None, next;
    }
    var leaf := Digest(bytes[next..next + HASH_SIZE]);
    next := next + HASH_SIZE;
    var leafIndex, maxIndex, n;
    leafIndex, next := DeserialiseWord(bytes, next);
    maxIndex, next := DeserialiseWord(bytes, next);
    n, next := DeserialiseWord(bytes, next);
    WordsIn(bytes, position);
    ghost var start := next;
    var elements: seq<Element> := [];
    for i := 0 to n
      invariant next == start + ELEMENT_SIZE * i <= |bytes|
      invariant elements == ElementsIn(s[HEADER_SIZE..], i)
    {
      if |bytes| - next < HASH_SIZE {
        ElementMissing(|s| - HEADER_SIZE, i, n);
        return None, next;
      }
      ElementThere(|s| - HEADER_SIZE, i, n);
      ElementIn(bytes, position, i);
      var hash := Digest(bytes[next..next + HASH_SIZE]);
      var direction := if bytes[next + HASH_SIZE] != 0 then PATH_LEFT else PATH_RIGHT;
      next := next + ELEMENT_SIZE;
      elements := elements + [Element(hash, direction)];
    }
    r := Some(Path(leaf, leafIndex, elements, maxIndex));
  }

  lemma ElementMissing(size: nat, i: nat, n: nat)
    requires ELEMENT_SIZE * i <= size < ELEMENT_SIZE * i + HASH_SIZE && i < n
    ensures size < ELEMENT_SIZE * n && size / ELEMENT_SIZE * ELEMENT_SIZE == ELEMENT_SIZE * i
  {
  }

  lemma ElementThere(size: nat, i: nat, n: nat)
    requires ELEMENT_SIZE * i + HASH_SIZE <= size && i < n
    requires ELEMENT_SIZE * n <= size || size % ELEMENT_SIZE < HASH_SIZE
    ensures ELEMENT_SIZE * (i + 1) <= size
  {
  }

  lemma WordsIn(bytes: seq<Byte>, position: nat)
    requires position + HEADER_SIZE <= |bytes|
    ensures var s := bytes[position..]; var at := position + HASH_SIZE;
            bytes[position..at] == s[..HASH_SIZE] &&
            bytes[at..at + WORD_BYTES] == s[HASH_SIZE..HASH_SIZE + WORD_BYTES] &&
            bytes[at + WORD_BYTES..at + 2 * WORD_BYTES] == s[HASH_SIZE + WORD_BYTES..HASH_SIZE + 2 * WORD_BYTES] &&
            bytes[at + 2 * WORD_BYTES..at + 3 * WORD_BYTES] == s[HASH_SIZE + 2 * WORD_BYTES..HEADER_SIZE]
  {
  }

  lemma ElementIn(bytes: seq<Byte>, position: nat, k: nat)
    requires position + HEADER_SIZE + ELEMENT_SIZE * (k + 1) <= |bytes|
    ensures var at := position + HEADER_SIZE + ELEMENT_SIZE * k;
            ElementAt(bytes[position..][HEADER_SIZE..], k) ==
            Element(Digest(bytes[at..at + HASH_SIZE]), if bytes[at + HASH_SIZE] != 0 then PATH_LEFT else PATH_RIGHT)
  {
    assert bytes[position..][HEADER_SIZE..] == bytes[position + HEADER_SIZE..];
    var at := position + HEADER_SIZE + ELEMENT_SIZE * k;
    assert bytes[position + HEADER_SIZE..][ELEMENT_SIZE * k..ELEMENT_SIZE * k + HASH_SIZE] == bytes[at..at + HASH_SIZE];
  }

  lemma {:induction false} ElementsRoundTrip(es: seq<Element>, rest: seq<Byte>)
    ensures ElementsIn(ElementsBytes(es) + rest, |es|) == es
    decreases |es|
  {
    if es != [] {
      var n := |es| - 1;
      var e := es[n];
      var tail := e.hash.bytes + [DirectionByte(e.direction)] + rest;
      ElementsRoundTrip(es[..n], tail);
      assert ElementsBytes(es) + rest == ElementsBytes(es[..n]) + tail;
      var s := ElementsBytes(es[..n]) + tail;
      assert s[ELEMENT_SIZE * n..ELEMENT_SIZE * n + HASH_SIZE] == e.hash.bytes;
      assert s[ELEMENT_SIZE * n + HASH_SIZE] == DirectionByte(e.direction);
      assert es == es[..n] + [e];
    }
  }

  /** What was serialised is read back, whatever bytes follow. */
  lemma PathRoundTrip(p: Path, rest: seq<Byte>)
    requires IsWord(p.leafIndex) && IsWord(p.maxIndex) && IsWord(|p.elements|)
    ensures HasPath(PathBytes(p) + rest) && Parsed(PathBytes(p) + rest) == p
  {
    hide ElementsBytes, ElementsIn, Value, BigEndian;
    var s := PathBytes(p) + rest;
    ValueOfBigEndian(p.leafIndex, WORD_BYTES);
    ValueOfBigEndian(p.maxIndex, WORD_BYTES);
    ValueOfBigEndian(|p.elements|, WORD_BYTES);
    assert s[..HASH_SIZE] == p.leaf.bytes;
    assert s[HASH_SIZE..HASH_SIZE + WORD_BYTES] == Word(p.leafIndex);
    assert s[HASH_SIZE + WORD_BYTES..HASH_SIZE + 2 * WORD_BYTES] == Word(p.maxIndex);
    assert s[HASH_SIZE + 2 * WORD_BYTES..HEADER_SIZE] == Word(|p.elements|);
    assert s[HEADER_SIZE..] == ElementsBytes(p.elements) + rest;
    ElementsRoundTrip(p.elements, rest);
  }

  ghost predicate CanonicalDirections(s: seq<Byte>, n: nat)
    requires ELEMENT_SIZE * n <= |s|
  {
    forall k :: 0 <= k < n ==> s[ELEMENT_SIZE * k + HASH_SIZE] <= 1
  }

  /** The last of n elements, read and written again. */
  lemma LastReserialised(s: seq<Byte>, n: nat)
    requires 1 <= n && ELEMENT_SIZE * n <= |s|
    ensures var at := ELEMENT_SIZE * (n - 1);
            ElementsBytes(ElementsIn(s, n)) == ElementsBytes(ElementsIn(s, n - 1)) + s[at..at + HASH_SIZE]
                                               + [if s[at + HASH_SIZE] != 0 then 1 else 0]
  {
    var es := ElementsIn(s, n);
    assert es == ElementsIn(s, n - 1) + [ElementAt(s, n - 1)];
    hide ElementsIn;
    assert es[..n - 1] == ElementsIn(s, n - 1);
  }

  lemma SamePieces<T>(a: seq<T>, b: seq<T>, h: seq<T>, x: T, y: T)
    requires |a| == |b|
    ensures a + h + [x] == b + h + [y] <==> a == b && x == y
  {
    if a + h + [x] == b + h + [y] {
      assert a == (a + h + [x])[..|a|] && b == (b + h + [y])[..|b|];
      assert x == (a + h + [x])[|a| + |h|] && y == (b + h + [y])[|b| + |h|];
    }
  }

  lemma {:induction false} ElementsReserialise(s: seq<Byte>, n: nat)
    requires ELEMENT_SIZE * n <= |s|
    ensures ElementsBytes(ElementsIn(s, n)) == s[..ELEMENT_SIZE * n] <==> CanonicalDirections(s, n)
  {
    if n == 0 {
      assert ElementsIn(s, 0) == [] && s[..0] == [];
    } else {
      hide ElementsBytes, ElementsIn, CanonicalDirections;
      ElementsReserialise(s, n - 1);
      OneMoreReserialised(s, n);
      OneMoreCanonical(s, n);
    }
  }

  lemma OneMoreReserialised(s: seq<Byte>, n: nat)
    requires 1 <= n && ELEMENT_SIZE * n <= |s|
    ensures ElementsBytes(ElementsIn(s, n)) == s[..ELEMENT_SIZE * n] <==>
            ElementsBytes(ElementsIn(s, n - 1)) == s[..ELEMENT_SIZE * (n - 1)] &&
            s[ELEMENT_SIZE * (n - 1) + HASH_SIZE] <= 1
  {
    var at := ELEMENT_SIZE * (n - 1);
    LastReserialised(s, n);
    hide ElementsBytes, ElementsIn;
    OnePieceMore(s, at, HASH_SIZE);
    var left, piece, b := ElementsBytes(ElementsIn(s, n - 1)), s[at..at + HASH_SIZE], s[at + HASH_SIZE];
    SamePieces(left, s[..at], piece, if b != 0 then 1 else 0, b);
  }

  lemma OnePieceMore<T>(s: seq<T>, at: nat, k: nat)
    requires at + k < |s|
    ensures s[..at + k + 1] == s[..at] + s[at..at + k] + [s[at + k]]
  {
  }

  lemma OneMoreCanonical(s: seq<Byte>, n: nat)
    requires 1 <= n && ELEMENT_SIZE * n <= |s|
    ensures CanonicalDirections(s, n) <==>
            CanonicalDirections(s, n - 1) && s[ELEMENT_SIZE * (n - 1) + HASH_SIZE] <= 1
  {
    if CanonicalDirections(s, n) {
      assert s[ELEMENT_SIZE * (n - 1) + HASH_SIZE] <= 1;
    }
  }

  /** A path of one element whose direction byte is 2 is read, and written with a 1 there. */
  lemma DirectionTwoIsLost(leaf: Digest, hash: Digest)
    ensures var s := leaf.bytes + Word(0) + Word(1) + Word(1) + hash.bytes + [2];
            HasPath(s) && ElementCount(s) == 1 && PathBytes(Parsed(s)) != s
  {
    hide Value, BigEndian, ElementsBytes, ElementsIn, PathBytes, Parsed, CanonicalDirections;
    var header := leaf.bytes + Word(0) + Word(1) + Word(1);
    var s := header + hash.bytes + [2];
    ValueOfBigEndian(1, WORD_BYTES);
    assert s[HASH_SIZE + 2 * WORD_BYTES..HEADER_SIZE] == Word(1);
    assert s[..HEADER_SIZE + ELEMENT_SIZE] == s;
    assert s[HEADER_SIZE..][HASH_SIZE] == 2;
    NotCanonical(s[HEADER_SIZE..]);
    PathReserialises(s);
  }

  lemma NotCanonical(body: seq<Byte>)
    requires ELEMENT_SIZE <= |body| && body[HASH_SIZE] == 2
    ensures !CanonicalDirections(body, 1)
  {
    assert body[ELEMENT_SIZE * 0 + HASH_SIZE] == 2;
  }

  /** Serialising what was read gives the bytes back exactly if every direction byte is 0 or 1: any other
      byte is read as PATH_LEFT and written as 1. */
  lemma PathReserialises(s: seq<Byte>)
    requires HasPath(s)
    ensures PathBytes(Parsed(s)) == s[..HEADER_SIZE + ELEMENT_SIZE * ElementCount(s)]
       <==> CanonicalDirections(s[HEADER_SIZE..], ElementCount(s))
  {
    hide ElementsBytes, ElementsIn, Value, BigEndian, CanonicalDirections;
    var n, p, body := ElementCount(s), Parsed(s), s[HEADER_SIZE..];
    var header := s[..HEADER_SIZE];
    BigEndianOfValue(s[HASH_SIZE..HASH_SIZE + WORD_BYTES]);
    BigEndianOfValue(s[HASH_SIZE + WORD_BYTES..HASH_SIZE + 2 * WORD_BYTES]);
    BigEndianOfValue(s[HASH_SIZE + 2 * WORD_BYTES..HEADER_SIZE]);
    assert p.leaf.bytes + Word(p.leafIndex) + Word(p.maxIndex) + Word(|p.elements|) == header;
    ElementsReserialise(body, n);
    assert s[..HEADER_SIZE + ELEMENT_SIZE * n] == header + body[..ELEMENT_SIZE * n];
    assert PathBytes(p) == header + ElementsBytes(p.elements);
    assert PathBytes(p)[HEADER_SIZE..] == ElementsBytes(p.elements);
    assert s[..HEADER_SIZE + ELEMENT_SIZE * n][HEADER_SIZE..] == body[..ELEMENT_SIZE * n];
  }
}
