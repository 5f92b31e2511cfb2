/** Jump fields in emitted code, and what it takes for them to lead to their labels. */
module XbyakJumps {
  import opened Wrappers

  type Byte = x: nat | x < 256 witness 0

  /** A label: a Label object by its number, or a name. */
  datatype Ref = Id(n: nat) | Name(s: string)

  /** A place in the code that waits for its label. */
  datatype JmpLabel = JmpLabel(endOfJmp: nat, jmpSize: nat)

  datatype Pending = Pending(key: Ref, jmp: JmpLabel)

  /** A displacement to be written when the buffer no longer moves. */
  datatype AddrInfo = AddrInfo(codeOffset: nat, disp: int, jmpSize: nat)

  /** A jump in the code: the label it names, the key under which that label is or will be defined, where its
      displacement ends, how many bytes it has, and the offset of the label once there is one. */
  datatype Jump = Jump(ref: Ref, key: Ref, end: nat, size: nat, target: Option<nat>)

  /** The k lowest bytes of d in two's complement, least significant first. */
  function LittleEndian(d: int, k: nat): (s: seq<Byte>)
    ensures |s| == k
    decreases k
  {
    if k == 0 then [] else [d % 256] + LittleEndian(d / 256, k - 1)
  }

  /** Byte number i of d: the lowest eight bits of d >> 8 * i. */
  function ByteOf(d: int, i: nat): Byte
    decreases i
  {
    if i == 0 then d % 256 else ByteOf(d / 256, i - 1)
  }

  lemma {:induction false} LittleEndianAt(d: int, k: nat, i: nat)
    requires i < k
    ensures LittleEndian(d, k)[i] == ByteOf(d, i)
    decreases i
  {
    if i > 0 {
      LittleEndianAt(d / 256, k - 1, i - 1);
    }
  }

  /** The number that k bytes stand for, with the sign of the last one. */
  function SignExtended(s: seq<Byte>): int
    requires s != []
  {
    if |s| == 1 then if s[0] < 128 then s[0] else s[0] - 256
    else s[0] + 256 * SignExtended(s[1..])
  }

  /** Half the number of values that k bytes have. */
  function Half(k: nat): nat
    requires 1 <= k
  {
    if k == 1 then 128 else 256 * Half(k - 1)
  }

  /** k bytes give a number back, exactly when it lies in their range. */
  lemma {:induction false} SignedBack(d: int, k: nat)
    requires 1 <= k
    ensures SignExtended(LittleEndian(d, k)) == d <==> 0 - Half(k) <= d < Half(k)
    decreases k
  {
    var s := LittleEndian(d, k);
    if k > 1 {
      SignedBack(d / 256, k - 1);
      assert s[1..] == LittleEndian(d / 256, k - 1);
    } else {
      assert s == [d % 256] + [];
    }
  }

  predicate IsInDisp8(d: int) {
    -128 <= d <= 127
  }

  predicate IsInInt32(d: int) {
    -0x8000_0000 <= d <= 0x7FFF_FFFF
  }

  /** The displacement does not fit the jump. */
  predicate TooFar(disp: int, size: nat) {
    !IsInInt32(disp) || (size == 1 && !IsInDisp8(disp))
  }

  function Field(code: seq<Byte>, j: Jump): seq<Byte>
    requires j.size <= j.end <= |code|
  {
    code[j.end - j.size..j.end]
  }

  /** The bytes of the jump hold the distance from its end to its label. */
  ghost predicate Written(code: seq<Byte>, j: Jump) {
    j.target.Some? && j.size <= j.end <= |code| &&
    Field(code, j) == LittleEndian(j.target.value - j.end, j.size) &&
    (j.size == 1 ==> IsInDisp8(j.target.value - j.end))
  }

  function InfoOf(j: Jump): AddrInfo
    requires j.target.Some? && j.size <= j.end
  {
    AddrInfo(j.end - j.size, j.target.value - j.end, j.size)
  }

  /** The displacement is to be written later. */
  ghost predicate Saved(infos: seq<AddrInfo>, j: Jump) {
    j.target.Some? && j.size <= j.end && InfoOf(j) in infos &&
    IsInInt32(j.target.value - j.end) && (j.size == 1 ==> IsInDisp8(j.target.value - j.end))
  }

  ghost predicate Settled(code: seq<Byte>, infos: seq<AddrInfo>, j: Jump) {
    Written(code, j) || Saved(infos, j)
  }

  function PendingOf(j: Jump): Pending {
    Pending(j.key, JmpLabel(j.end, j.size))
  }

  /** Jumps do not overlap and lie within the code. */
  ghost predicate Apart(jumps: seq<Jump>, size: nat) {
    (forall k :: 0 <= k < |jumps| ==>
      (jumps[k].size == 1 || jumps[k].size == 4) && jumps[k].size <= jumps[k].end <= size) &&
    (forall i, k :: 0 <= i < k < |jumps| ==> jumps[i].end + jumps[k].size <= jumps[k].end)
  }

  /** Every jump has its displacement, or will be given one, or waits for its label. */
  ghost predicate Tracked(code: seq<Byte>, infos: seq<AddrInfo>, undefs: seq<Pending>, jumps: seq<Jump>) {
    (forall k :: 0 <= k < |jumps| && jumps[k].target.Some? ==> Settled(code, infos, jumps[k])) &&
    (forall k :: 0 <= k < |jumps| && jumps[k].target.None? ==> PendingOf(jumps[k]) in undefs)
  }

  ghost predicate Waits(jumps: seq<Jump>, p: Pending) {
    exists k :: 0 <= k < |jumps| && jumps[k].target.None? && PendingOf(jumps[k]) == p
  }

  /** Everything that waits belongs to a jump. */
  ghost predicate UndefsOwned(undefs: seq<Pending>, jumps: seq<Jump>) {
    forall p :: p in undefs ==> Waits(jumps, p)
  }

  ghost predicate Owns(j: Jump, a: AddrInfo) {
    j.target.Some? && j.size <= j.end && InfoOf(j) == a && !TooFar(j.target.value - j.end, j.size)
  }

  /** Everything that is saved belongs to a jump. */
  ghost predicate InfosOwned(infos: seq<AddrInfo>, jumps: seq<Jump>) {
    forall a :: a in infos ==> exists k :: 0 <= k < |jumps| && Owns(jumps[k], a)
  }

  /** The jumps once the label under this key is at offset at. */
  function Resolved(jumps: seq<Jump>, key: Ref, at: nat): (r: seq<Jump>)
    ensures |r| == |jumps|
    ensures forall k :: 0 <= k < |jumps| ==>
              r[k] == if jumps[k].target.None? && jumps[k].key == key then jumps[k].(target := Some(at)) else jumps[k]
  {
    if jumps == [] then []
    else
      var j := jumps[|jumps| - 1];
      Resolved(jumps[..|jumps| - 1], key, at) +
      [if j.target.None? && j.key == key then j.(target := Some(at)) else j]
  }

  /** Bytes written over the code from offset on. */
  function Overwrite(code: seq<Byte>, offset: nat, bytes: seq<Byte>): (r: seq<Byte>)
    requires offset + |bytes| <= |code|
    ensures |r| == |code|
  {
    code[..offset] + bytes + code[offset + |bytes|..]
  }

  lemma OverwriteElsewhere(code: seq<Byte>, offset: nat, bytes: seq<Byte>, a: nat, b: nat)
    requires offset + |bytes| <= |code| && a <= b <= |code| && (b <= offset || offset + |bytes| <= a)
    ensures Overwrite(code, offset, bytes)[a..b] == code[a..b]
  {
    var r := Overwrite(code, offset, bytes);
    forall i | a <= i < b
      ensures r[i] == code[i]
    {
    }
  }

  lemma OverwriteHere(code: seq<Byte>, offset: nat, bytes: seq<Byte>)
    requires offset + |bytes| <= |code|
    ensures Overwrite(code, offset, bytes)[offset..offset + |bytes|] == bytes
  {
  }

  /** Emitting more code leaves everything settled as it is. */
  lemma LongerWritten(code: seq<Byte>, more: seq<Byte>, j: Jump)
    requires Written(code, j)
    ensures Written(code + more, j)
  {
    assert Field(code + more, j) == Field(code, j);
  }

  lemma LongerTracked(code: seq<Byte>, more: seq<Byte>, infos: seq<AddrInfo>, undefs: seq<Pending>, jumps: seq<Jump>)
    requires Tracked(code, infos, undefs, jumps)
    ensures Tracked(code + more, infos, undefs, jumps)
  {
    hide Written, Saved;
    forall k | 0 <= k < |jumps| && jumps[k].target.Some?
      ensures Settled(code + more, infos, jumps[k])
    {
      if Written(code, jumps[k]) {
        LongerWritten(code, more, jumps[k]);
      }
    }
  }

  /** Writing the displacement of one jump settles it and leaves the others as they are. */
  lemma OverwriteSettles(code: seq<Byte>, infos: seq<AddrInfo>, jumps: seq<Jump>, i: nat, j: Jump)
    requires Apart(jumps, |code|) && i < |jumps| && j == jumps[i].(target := j.target) && j.target.Some?
    requires j.size == 1 ==> IsInDisp8(j.target.value - j.end)
    ensures var c := Overwrite(code, j.end - j.size, LittleEndian(j.target.value - j.end, j.size));
            Written(c, j) && forall k :: 0 <= k < |jumps| && k != i && Written(code, jumps[k]) ==> Written(c, jumps[k])
  {
    var bytes := LittleEndian(j.target.value - j.end, j.size);
    OverwriteHere(code, j.end - j.size, bytes);
    forall k | 0 <= k < |jumps| && k != i && Written(code, jumps[k])
      ensures Written(Overwrite(code, j.end - j.size, bytes), jumps[k])
    {
      OverwriteElsewhere(code, j.end - j.size, bytes, jumps[k].end - jumps[k].size, jumps[k].end);
    }
  }

  /** What is left to do when the label under `key` is defined at offset at and the places in `todo` are still to be
      seen: jumps waiting elsewhere wait on in `rest`, those already seen are settled. */
  ghost predicate Resolving(code: seq<Byte>, infos: seq<AddrInfo>, todo: seq<Pending>, rest: seq<Pending>,
                            jumps: seq<Jump>, key: Ref, at: nat) {
    (forall k :: 0 <= k < |jumps| && jumps[k].target.Some? ==> Settled(code, infos, jumps[k])) &&
    (forall k :: 0 <= k < |jumps| && jumps[k].target.None? ==>
      PendingOf(jumps[k]) in todo ||
      (if jumps[k].key == key then Settled(code, infos, jumps[k].(target := Some(at)))
       else PendingOf(jumps[k]) in rest))
  }

  lemma ResolvingStart(code: seq<Byte>, infos: seq<AddrInfo>, undefs: seq<Pending>, jumps: seq<Jump>, key: Ref, at: nat)
    requires Tracked(code, infos, undefs, jumps)
    ensures Resolving(code, infos, undefs, [], jumps, key, at)
  {
    hide Settled;
  }

  lemma ResolvingEnd(code: seq<Byte>, infos: seq<AddrInfo>, rest: seq<Pending>, jumps: seq<Jump>, key: Ref, at: nat)
    requires Resolving(code, infos, [], rest, jumps, key, at)
    ensures Tracked(code, infos, rest, Resolved(jumps, key, at))
  {
    hide Settled;
  }

  lemma ResolvingSkips(code: seq<Byte>, infos: seq<AddrInfo>, todo: seq<Pending>, rest: seq<Pending>, jumps: seq<Jump>,
                       key: Ref, at: nat)
    requires Resolving(code, infos, todo, rest, jumps, key, at) && todo != [] && todo[0].key != key
    ensures Resolving(code, infos, todo[1..], rest + [todo[0]], jumps, key, at)
  {
    hide Settled;
    forall k | 0 <= k < |jumps| && jumps[k].target.None? && PendingOf(jumps[k]) !in todo[1..]
      ensures if jumps[k].key == key then Settled(code, infos, jumps[k].(target := Some(at)))
              else PendingOf(jumps[k]) in rest + [todo[0]]
    {
      if PendingOf(jumps[k]) in todo {
        assert PendingOf(jumps[k]) == todo[0];
      }
    }
  }

  /** A saved displacement. */
  lemma ResolvingSaves(code: seq<Byte>, infos: seq<AddrInfo>, todo: seq<Pending>, rest: seq<Pending>, jumps: seq<Jump>,
                       key: Ref, at: nat, i: nat)
    requires Resolving(code, infos, todo, rest, jumps, key, at) && todo != [] && todo[0].key == key
    requires Apart(jumps, |code|) && i < |jumps| && jumps[i].target.None? && PendingOf(jumps[i]) == todo[0]
    requires !TooFar(at - jumps[i].end, jumps[i].size)
    ensures var a := InfoOf(jumps[i].(target := Some(at)));
            Resolving(code, infos + [a], todo[1..], rest, jumps, key, at) &&
            Saved(infos + [a], jumps[i].(target := Some(at)))
  {
    var a := InfoOf(jumps[i].(target := Some(at)));
    forall k | 0 <= k < |jumps|
      ensures jumps[k].target.Some? ==> Settled(code, infos + [a], jumps[k])
      ensures jumps[k].target.None? ==>
                PendingOf(jumps[k]) in todo[1..] ||
                (if jumps[k].key == key then Settled(code, infos + [a], jumps[k].(target := Some(at)))
                 else PendingOf(jumps[k]) in rest)
    {
      if jumps[k].target.None? && PendingOf(jumps[k]) in todo && PendingOf(jumps[k]) !in todo[1..] {
        assert PendingOf(jumps[k]) == todo[0];
        SamePlace(jumps, |code|, i, k);
      }
    }
  }

  lemma SamePlace(jumps: seq<Jump>, size: nat, i: nat, k: nat)
    requires Apart(jumps, size) && i < |jumps| && k < |jumps| && jumps[i].end == jumps[k].end
    ensures i == k
  {
  }

  /** A displacement written at once. */
  lemma ResolvingWrites(code: seq<Byte>, infos: seq<AddrInfo>, todo: seq<Pending>, rest: seq<Pending>, jumps: seq<Jump>,
                        key: Ref, at: nat, i: nat)
    requires Resolving(code, infos, todo, rest, jumps, key, at) && todo != [] && todo[0].key == key && infos == []
    requires Apart(jumps, |code|) && i < |jumps| && jumps[i].target.None? && PendingOf(jumps[i]) == todo[0]
    requires !TooFar(at - jumps[i].end, jumps[i].size)
    ensures var j := jumps[i].(target := Some(at));
            Resolving(Overwrite(code, j.end - j.size, LittleEndian(at - j.end, j.size)), infos, todo[1..], rest, jumps,
                      key, at)
  {
    hide Written, LittleEndian;
    var j := jumps[i].(target := Some(at));
    var c := Overwrite(code, j.end - j.size, LittleEndian(at - j.end, j.size));
    hide Overwrite;
    OverwriteSettles(code, infos, jumps, i, j);
    forall k | 0 <= k < |jumps|
      ensures jumps[k].target.Some? ==> Settled(c, infos, jumps[k])
      ensures jumps[k].target.None? ==>
                PendingOf(jumps[k]) in todo[1..] ||
                (if jumps[k].key == key then Settled(c, infos, jumps[k].(target := Some(at)))
                 else PendingOf(jumps[k]) in rest)
    {
      if jumps[k].target.None? {
        if k != i {
          OthersWritten(code, jumps, i, k, at);
        }
        if PendingOf(jumps[k]) in todo && PendingOf(jumps[k]) !in todo[1..] {
          assert PendingOf(jumps[k]) == todo[0];
          SamePlace(jumps, |code|, i, k);
        }
      }
    }
  }

  lemma OthersWritten(code: seq<Byte>, jumps: seq<Jump>, i: nat, k: nat, at: nat)
    requires Apart(jumps, |code|) && i < |jumps| && k < |jumps| && i != k
    ensures var j, o := jumps[i], jumps[k].(target := Some(at));
            Written(code, o) ==>
              Written(Overwrite(code, j.end - j.size, LittleEndian(at - j.end, j.size)), o)
  {
    var j := jumps[i];
    OverwriteElsewhere(code, j.end - j.size, LittleEndian(at - j.end, j.size),
                       jumps[k].end - jumps[k].size, jumps[k].end);
  }

  lemma OwnedResolved(infos: seq<AddrInfo>, jumps: seq<Jump>, key: Ref, at: nat)
    requires InfosOwned(infos, jumps)
    ensures InfosOwned(infos, Resolved(jumps, key, at))
  {
    var r := Resolved(jumps, key, at);
    forall a | a in infos
      ensures exists k :: 0 <= k < |r| && Owns(r[k], a)
    {
      var k :| 0 <= k < |jumps| && Owns(jumps[k], a);
      assert Owns(r[k], a);
    }
  }

  lemma OwnedSaved(infos: seq<AddrInfo>, jumps: seq<Jump>, key: Ref, at: nat, i: nat)
    requires InfosOwned(infos, Resolved(jumps, key, at)) && i < |jumps| && jumps[i].target.None? && jumps[i].key == key
    requires jumps[i].size <= jumps[i].end && !TooFar(at - jumps[i].end, jumps[i].size)
    ensures InfosOwned(infos + [InfoOf(jumps[i].(target := Some(at)))], Resolved(jumps, key, at))
  {
    var r := Resolved(jumps, key, at);
    assert Owns(r[i], InfoOf(r[i]));
  }

  lemma WaitersLeft(undefs: seq<Pending>, rest: seq<Pending>, jumps: seq<Jump>, key: Ref, at: nat)
    requires UndefsOwned(undefs, jumps) && forall p :: p in rest ==> p in undefs && p.key != key
    ensures UndefsOwned(rest, Resolved(jumps, key, at))
  {
    var r := Resolved(jumps, key, at);
    forall p | p in rest
      ensures Waits(r, p)
    {
      assert Waits(jumps, p);
      var k :| 0 <= k < |jumps| && jumps[k].target.None? && PendingOf(jumps[k]) == p;
      assert r[k] == jumps[k];
    }
  }

  lemma ApartResolved(jumps: seq<Jump>, size: nat, key: Ref, at: nat)
    requires Apart(jumps, size)
    ensures Apart(Resolved(jumps, key, at), size)
  {
  }

  /** The owner of something that waits. */
  lemma WaiterOf(undefs: seq<Pending>, jumps: seq<Jump>, p: Pending) returns (i: nat)
    requires UndefsOwned(undefs, jumps) && p in undefs
    ensures i < |jumps| && jumps[i].target.None? && PendingOf(jumps[i]) == p
  {
    assert Waits(jumps, p);
    i :| 0 <= i < |jumps| && jumps[i].target.None? && PendingOf(jumps[i]) == p;
  }

  /** A new jump at the end of the code. */
  lemma NewJump(code: seq<Byte>, infos: seq<AddrInfo>, undefs: seq<Pending>, jumps: seq<Jump>, old_: nat, j: Jump)
    requires Apart(jumps, old_) && old_ <= |code| && Tracked(code, infos, undefs, jumps)
    requires (j.size == 1 || j.size == 4) && old_ + j.size <= j.end == |code|
    requires j.target.Some? ==> Written(code, j)
    ensures Apart(jumps + [j], |code|)
    ensures Tracked(code, infos, if j.target.None? then undefs + [PendingOf(j)] else undefs, jumps + [j])
  {
    hide Written, Saved;
  }

  lemma NewJumpOwned(infos: seq<AddrInfo>, undefs: seq<Pending>, jumps: seq<Jump>, j: Jump)
    requires UndefsOwned(undefs, jumps) && InfosOwned(infos, jumps)
    ensures UndefsOwned(if j.target.None? then undefs + [PendingOf(j)] else undefs, jumps + [j])
    ensures InfosOwned(infos, jumps + [j])
  {
    var more, all := if j.target.None? then undefs + [PendingOf(j)] else undefs, jumps + [j];
    forall p | p in more
      ensures Waits(all, p)
    {
      if p in undefs {
        var k := WaiterOf(undefs, jumps, p);
        assert all[k] == jumps[k];
      } else {
        assert all[|jumps|] == j;
      }
    }
    forall a | a in infos
      ensures exists k :: 0 <= k < |all| && Owns(all[k], a)
    {
      var k :| 0 <= k < |jumps| && Owns(jumps[k], a);
      assert Owns(all[k], a);
    }
  }

  /** All jumps but those saved from number n on are written. */
  ghost predicate Applying(code: seq<Byte>, infos: seq<AddrInfo>, jumps: seq<Jump>) {
    forall k :: 0 <= k < |jumps| ==> Settled(code, infos, jumps[k])
  }

  lemma ApplyOne(code: seq<Byte>, infos: seq<AddrInfo>, jumps: seq<Jump>)
    requires Applying(code, infos, jumps) && infos != [] && InfosOwned(infos, jumps) && Apart(jumps, |code|)
    ensures var a := infos[0];
            a.codeOffset + a.jmpSize <= |code| && !TooFar(a.disp, a.jmpSize) && (a.jmpSize == 1 || a.jmpSize == 4) &&
            Applying(Overwrite(code, a.codeOffset, LittleEndian(a.disp, a.jmpSize)), infos[1..], jumps) &&
            InfosOwned(infos[1..], jumps)
  {
    hide Written, LittleEndian;
    var a := infos[0];
    assert a in infos;
    var i :| 0 <= i < |jumps| && Owns(jumps[i], a);
    OverwriteSettles(code, infos, jumps, i, jumps[i]);
    var c := Overwrite(code, a.codeOffset, LittleEndian(a.disp, a.jmpSize));
    assert forall b :: b in infos[1..] ==> b in infos;
    forall k | 0 <= k < |jumps|
      ensures Settled(c, infos[1..], jumps[k])
    {
      assert infos == [a] + infos[1..];
    }
  }

  /** What a program means by a label: the jumps that the definition of `ref` at offset at gives their target. */
  predicate Meant(j: Jump, ref: Ref) {
    j.target.None? && j.ref == (if ref == Name("@@") then Name("@f") else ref)
  }

  function Defined(jumps: seq<Jump>, ref: Ref, at: nat): (r: seq<Jump>)
    ensures |r| == |jumps|
    ensures forall k :: 0 <= k < |jumps| ==>
              r[k] == if Meant(jumps[k], ref) then jumps[k].(target := Some(at)) else jumps[k]
  {
    if jumps == [] then []
    else
      var j := jumps[|jumps| - 1];
      Defined(jumps[..|jumps| - 1], ref, at) + [if Meant(j, ref) then j.(target := Some(at)) else j]
  }

  /** Code only changes in the fields of jumps. */
  ghost predicate OnlyFields(code: seq<Byte>, c: seq<Byte>, jumps: seq<Jump>) {
    |c| == |code| &&
    forall i :: 0 <= i < |code| && c[i] != code[i] ==> InField(jumps, i)
  }

  ghost predicate InField(jumps: seq<Jump>, i: nat) {
    exists k :: 0 <= k < |jumps| && jumps[k].end - jumps[k].size <= i < jumps[k].end
  }

  lemma OverwriteOnly(code: seq<Byte>, c: seq<Byte>, jumps: seq<Jump>, i: nat, bytes: seq<Byte>)
    requires OnlyFields(code, c, jumps) && i < |jumps| && |bytes| == jumps[i].size <= jumps[i].end <= |c|
    ensures OnlyFields(code, Overwrite(c, jumps[i].end - jumps[i].size, bytes), jumps)
  {
    var n := Overwrite(c, jumps[i].end - jumps[i].size, bytes);
    forall x | 0 <= x < |code| && n[x] != code[x]
      ensures InField(jumps, x)
    {
    }
  }

  /** A jump with its displacement written leads to its label: always if it is short, and if it is long exactly when
      the distance is one that 32 bits can hold. */
  lemma JumpLands(code: seq<Byte>, j: Jump)
    requires Written(code, j) && (j.size == 1 || j.size == 4)
    ensures j.end + SignExtended(Field(code, j)) == j.target.value <==>
            j.size == 1 || IsInInt32(j.target.value - j.end)
  {
    SignedBack(j.target.value - j.end, j.size);
    assert Half(1) == 128 && Half(2) == 0x8000 && Half(4) == 0x8000_0000;
  }

  /** Distances within less than two gigabytes of code can always be held. */
  lemma SmallCodeLands(code: seq<Byte>, j: Jump)
    requires Written(code, j) && (j.size == 1 || j.size == 4) && |code| <= 0x7FFF_FFFF && j.target.value <= |code|
    ensures j.end + SignExtended(Field(code, j)) == j.target.value
  {
    JumpLands(code, j);
  }
}
