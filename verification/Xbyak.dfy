/** Code emission, labels and jumps of xbyak.h. */
module Xbyak {
  import opened XbyakJumps
  import opened Wrappers

  const DEFAULT_MAX_CODE_SIZE: nat := 4096

  const AT_F: Ref := Name("@f")
  const AT_B: Ref := Name("@b")
  const AT_AT: Ref := Name("@@")

  datatype LabelType = Short | Near | Far | Auto

  datatype Error = CodeIsTooBig | OffsetIsTooBig | LabelIsTooFar | LabelIsNotFound | LabelIsRedefined | BadLabelStr |
                   NotSupported

  type Status = Option<Error>

  ghost predicate Fits(free: Option<nat>, n: nat) {
    free.Some? ==> n <= free.value
  }

  /** A jump over `dist` bytes, counted from where it starts, to a known label: e says why it is refused; otherwise it
      has n bytes. The short form has two and reaches from 128 bytes back to 127 on from its end; the long, `long`. */
  ghost predicate Reaches(typ: LabelType, dist: int, long: nat, free: Option<nat>, e: Status, n: nat) {
    var short, inInt32 := -128 <= dist - 2 <= 127, -0x8000_0000 <= dist < 0x8000_0000;
    (typ == Short ==> (e.None? <==> short && Fits(free, 2)) && (e.None? ==> n == 2)) &&
    (typ == Auto && short ==> (e.None? <==> Fits(free, 2)) && (e.None? ==> n == 2)) &&
    (typ == Auto && !short ==> (e.None? <==> inInt32 && Fits(free, long)) && (e.None? ==> n == long)) &&
    (typ == Near ==> (e.None? <==> inInt32 && Fits(free, long)) && (e.None? ==> n == long)) &&
    (e.Some? ==> (e.value == OffsetIsTooBig <==> !inInt32) &&
                 (e.value == LabelIsTooFar <==> typ == Short && inInt32 && !short) &&
                 e.value in {OffsetIsTooBig, LabelIsTooFar, CodeIsTooBig})
  }

  /** A jump to a label that is not defined yet: only room is needed. It is long if it is to be near, or if nothing is
      said and the generator's jumps are near. */
  ghost predicate Awaits(typ: LabelType, near: bool, long: nat, free: Option<nat>, e: Status, n: nat) {
    (typ == Short ==> n == 2) && (typ == Near ==> n == long) && (typ == Auto ==> n == if near then long else 2) &&
    (e.None? <==> Fits(free, n)) && (e.Some? ==> e.value == CodeIsTooBig)
  }

  function Max(a: nat, b: nat): nat {
    if a < b then b else a
  }

  class CodeGenerator {
    const autoGrow: bool
    const isDefaultJmpNear: bool
    var top: array<Byte>
    var size: nat
    var addrInfo: seq<AddrInfo>
    var isCalledCalcJmpAddress: bool
    var defs: map<Ref, nat>
    var undefs: seq<Pending>
    ghost var jumps: seq<Jump>
    ghost var anonymous: Option<nat>  // where "@@" was last defined

    ghost predicate InBuffer()
      reads this`top, this`size
    {
      size <= top.Length
    }

    function Code(): (c: seq<Byte>)
      requires InBuffer()
      reads this`top, this`size, top
      ensures |c| == size
    {
      top[..size]
    }

    /** At most one of "@f" and "@b" is defined, as where "@@" was last; what waits for the next "@@" waits under the
        other name. */
    ghost predicate Toggled()
      reads this`defs, this`undefs, this`anonymous
    {
      !(AT_F in defs && AT_B in defs) &&
      (anonymous.None? ==> AT_F !in defs && AT_B !in defs) &&
      (anonymous.Some? ==> (AT_F in defs && defs[AT_F] == anonymous.value) ||
                           (AT_B in defs && defs[AT_B] == anonymous.value)) &&
      (forall p :: p in undefs && p.key == AT_B ==> AT_F in defs)
    }

    /** Jumps to the next "@@" are those that wait for "@f" or "@b"; all others wait under their own label. */
    ghost predicate KeysOk()
      reads this`jumps
    {
      forall k :: 0 <= k < |jumps| && jumps[k].target.None? ==>
        (if jumps[k].ref == AT_F then jumps[k].key == AT_F || jumps[k].key == AT_B
         else jumps[k].key == jumps[k].ref && jumps[k].key != AT_B)
    }

    ghost predicate Valid()
      reads this, top
    {
      InBuffer() && !isCalledCalcJmpAddress && Apart(jumps, size) && Tracked(Code(), addrInfo, undefs, jumps) &&
      UndefsOwned(undefs, jumps) && InfosOwned(addrInfo, jumps) && (forall p :: p in undefs ==> p.key !in defs) &&
      Toggled() && KeysOk() && (!autoGrow ==> addrInfo == [])
    }

    constructor (maxSize: nat, autoGrow: bool, isDefaultJmpNear: bool)
      ensures Valid() && Code() == [] && jumps == [] && defs == map[] && undefs == [] && anonymous == None
      ensures fresh(top) && top.Length == Max(maxSize, 1)
      ensures this.autoGrow == autoGrow && this.isDefaultJmpNear == isDefaultJmpNear
    {
      this.autoGrow, this.isDefaultJmpNear := autoGrow, isDefaultJmpNear;
      top := new Byte[Max(maxSize, 1)];
      size, addrInfo, isCalledCalcJmpAddress, defs, undefs := 0, [], false, map[], [];
      jumps, anonymous := [], None;
    }

    /** Moves the code to a buffer of at least twice the size. */
    method GrowMemory()
      requires InBuffer()
      modifies this`top
      ensures InBuffer() && Code() == old(Code()) && fresh(top) && top.Length > old(top.Length)
    {
      var newSize := Max(DEFAULT_MAX_CODE_SIZE, top.Length * 2);
      var newTop := new Byte[newSize];
      for i := 0 to size
        invariant top == old(top) && newTop[..i] == top[..i]
      {
        newTop[i] := top[i];
      }
      top := newTop;
    }

    /** The bytes left in the buffer, if it may not grow. */
    ghost function Free(): Option<nat>
      requires InBuffer()
      reads this`top, this`size
    {
      if autoGrow then None else Some(top.Length - size)
    }

    /** Appends one byte. */
    method Db(code: Byte) returns (e: Status)
      requires InBuffer()
      modifies this`top, this`size, top
      ensures InBuffer() && (top == old(top) || fresh(top)) && (!autoGrow ==> top == old(top))
      ensures e.Some? <==> !autoGrow && old(size) == old(top.Length)
      ensures e.None? ==> Code() == old(Code()) + [code]
      ensures e.Some? ==> e.value == CodeIsTooBig && Code() == old(Code())
    {
      if size >= top.Length {
        if autoGrow {
          GrowMemory();
        } else {
          return Some(CodeIsTooBig);
        }
      }
      top[size] := code;
      size := size + 1;
      assert Code()[..old(size)] == old(Code());
      return None;
    }

    method EmitBytes(bytes: seq<Byte>) returns (e: Status)
      requires InBuffer()
      modifies this`top, this`size, top
      ensures InBuffer() && (top == old(top) || fresh(top)) && (!autoGrow ==> top == old(top))
      ensures e.None? ==> Code() == old(Code()) + bytes
      ensures e == if Fits(old(Free()), |bytes|) then None else Some(CodeIsTooBig)
    {
      hide Code;
      label start:
      assert Code() == old(Code()) + bytes[..0];
      for i := 0 to |bytes|
        invariant InBuffer() && (top == old(top) || fresh(top)) && Code() == old(Code()) + bytes[..i]
        invariant (!autoGrow ==> top == old(top)) && size == old(size) + i
      {
        e := Db(bytes[i]);
        if e.Some? {
          return;
        }
        assert bytes[..i + 1] == bytes[..i] + [bytes[i]];
      }
      assert bytes[..|bytes|] == bytes;
      return None;
    }

    /** Emits an instruction without a label. */
    method Emit(bytes: seq<Byte>) returns (e: Status)
      requires Valid()
      modifies this`top, this`size, top
      ensures e.None? ==> Valid() && Code() == old(Code()) + bytes && (top == old(top) || fresh(top))
      ensures !autoGrow ==> top == old(top)
      ensures e == if Fits(old(Free()), |bytes|) then None else Some(CodeIsTooBig)
    {
      hide Tracked, UndefsOwned, InfosOwned, Toggled, KeysOk, Code;
      e := EmitBytes(bytes);
      if e.None? {
        LongerTracked(old(Code()), bytes, addrInfo, undefs, jumps);
      }
    }

    /** Writes `bytes` bytes of disp from offset on. */
    method Rewrite(offset: nat, disp: int, bytes: nat)
      requires InBuffer() && offset + bytes <= size
      modifies top
      ensures Code() == Overwrite(old(Code()), offset, LittleEndian(disp, bytes))
    {
      ghost var c := Code();
      for i := 0 to bytes
        invariant forall j :: 0 <= j < i ==> top[offset + j] == ByteOf(disp, j)
        invariant forall j :: 0 <= j < size && (j < offset || offset + i <= j) ==> top[j] == c[j]
      {
        top[offset + i] := ByteOf(disp, i);
      }
      forall j | 0 <= j < bytes
        ensures LittleEndian(disp, bytes)[j] == ByteOf(disp, j)
      {
        LittleEndianAt(disp, bytes, j);
      }
    }

    /** The part of Valid that concerns the jumps. */
    ghost predicate Consistent()
      reads this, top
    {
      InBuffer() && Apart(jumps, size) && Tracked(Code(), addrInfo, undefs, jumps) &&
      UndefsOwned(undefs, jumps) && InfosOwned(addrInfo, jumps) && (!autoGrow ==> addrInfo == [])
    }

    /** Settles one jump that waits for the label at the end of the code, unless it is too far away. */
    method SettleOne(p: Pending, key: Ref, ghost code0: seq<Byte>, ghost todo: seq<Pending>, ghost rest: seq<Pending>,
                     ghost k: nat) returns (e: Status)
      requires InBuffer() && Apart(jumps, size) && (!autoGrow ==> addrInfo == [])
      requires Resolving(Code(), addrInfo, todo, rest, jumps, key, size) && todo != [] && todo[0] == p && p.key == key
      requires InfosOwned(addrInfo, Resolved(jumps, key, size)) && OnlyFields(code0, Code(), jumps)
      requires k < |jumps| && jumps[k].target.None? && PendingOf(jumps[k]) == p
      modifies this`addrInfo, top
      ensures InBuffer() && (!autoGrow ==> addrInfo == [])
      ensures e.Some? <==> TooFar(size - p.jmp.endOfJmp, p.jmp.jmpSize)
      ensures e.None? ==> Resolving(Code(), addrInfo, todo[1..], rest, jumps, key, size) &&
                          InfosOwned(addrInfo, Resolved(jumps, key, size)) && OnlyFields(code0, Code(), jumps)
      ensures e.Some? ==> e.value == if IsInInt32(size - p.jmp.endOfJmp) then LabelIsTooFar else OffsetIsTooBig
    {
      hide Code, InfosOwned, Resolving, OnlyFields, Overwrite, LittleEndian, Resolved;
      var offset, disp := p.jmp.endOfJmp - p.jmp.jmpSize, size - p.jmp.endOfJmp;
      if !IsInInt32(disp) {
        return Some(OffsetIsTooBig);
      }
      if p.jmp.jmpSize == 1 && !IsInDisp8(disp) {
        return Some(LabelIsTooFar);
      }
      if autoGrow {
        ResolvingSaves(Code(), addrInfo, todo, rest, jumps, key, size, k);
        OwnedSaved(addrInfo, jumps, key, size, k);
        addrInfo := addrInfo + [AddrInfo(offset, disp, p.jmp.jmpSize)];
      } else {
        ResolvingWrites(Code(), addrInfo, todo, rest, jumps, key, size, k);
        OverwriteOnly(code0, Code(), jumps, k, LittleEndian(disp, p.jmp.jmpSize));
        Rewrite(offset, disp, p.jmp.jmpSize);
      }
      return None;
    }

    /** Defines the label at the end of the code and settles the jumps that wait for it. */
    method DefineInner(key: Ref) returns (e: Status)
      requires Consistent()
      modifies this`defs, this`undefs, this`addrInfo, this`jumps, top
      ensures e.None? ==> key !in old(defs) && defs == old(defs)[key := size] && Consistent() &&
                          jumps == Resolved(old(jumps), key, size) && OnlyFields(old(Code()), Code(), old(jumps)) &&
                          forall p :: p in undefs ==> p in old(undefs) && p.key != key
      ensures e.Some? ==> key in old(defs) ||
                          exists p :: p in old(undefs) && p.key == key && TooFar(size - p.jmp.endOfJmp, p.jmp.jmpSize)
      ensures e.None? ==> forall p :: p in old(undefs) && p.key == key ==> !TooFar(size - p.jmp.endOfJmp, p.jmp.jmpSize)
    {
      hide Code, Tracked, UndefsOwned, InfosOwned, Resolving, OnlyFields, Resolved, TooFar;
      if key in defs {
        return Some(LabelIsRedefined);
      }
      ghost var code0, jumps0 := Code(), jumps;
      var all, addrOffset := undefs, size;
      defs := defs[key := addrOffset];
      var rest := [];
      ResolvingStart(code0, addrInfo, all, jumps0, key, addrOffset);
      OwnedResolved(addrInfo, jumps0, key, addrOffset);
      assert all[0..] == all;
      UnchangedOnly(code0, jumps0);
      for i := 0 to |all|
        invariant InBuffer() && size == addrOffset && jumps == jumps0 && (!autoGrow ==> addrInfo == [])
        invariant defs == old(defs)[key := addrOffset]
        invariant Resolving(Code(), addrInfo, all[i..], rest, jumps0, key, addrOffset)
        invariant InfosOwned(addrInfo, Resolved(jumps0, key, addrOffset)) && OnlyFields(code0, Code(), jumps0)
        invariant forall p :: p in rest ==> p in all && p.key != key
        invariant forall p :: p in all[..i] && p.key == key ==> !TooFar(size - p.jmp.endOfJmp, p.jmp.jmpSize)
      {
        var p := all[i];
        assert all[i..][0] == p && all[i..][1..] == all[i + 1..] && all[..i + 1] == all[..i] + [p];
        if p.key == key {
          ghost var k := WaiterOf(all, jumps0, p);
          undefs := rest + all[i..];
          e := SettleOne(p, key, code0, all[i..], rest, k);
          if e.Some? {
            return;
          }
        } else {
          ResolvingSkips(Code(), addrInfo, all[i..], rest, jumps0, key, addrOffset);
          rest := rest + [p];
        }
      }
      assert all[|all|..] == [] && all[..|all|] == all;
      ResolvingEnd(Code(), addrInfo, rest, jumps0, key, addrOffset);
      WaitersLeft(all, rest, jumps0, key, addrOffset);
      ApartResolved(jumps0, size, key, addrOffset);
      undefs := rest;
      jumps := Resolved(jumps0, key, addrOffset);
      return None;
    }

    lemma UnchangedOnly(c: seq<Byte>, js: seq<Jump>)
      ensures OnlyFields(c, c, js)
    {
    }

    /** The name that the next "@@" is defined under. */
    function NextName(): Ref
      reads this`defs
    {
      if AT_F in defs then AT_B else AT_F
    }

    /** A label may not be called "@b" or "@f", be defined already, or be too far from a jump that waits for it. */
    ghost predicate Undefinable(ref: Ref)
      reads this`defs, this`undefs, this`size
    {
      ref == AT_B || ref == AT_F || (ref != AT_AT && ref in defs) ||
      exists p :: p in undefs && p.key == (if ref == AT_AT then NextName() else ref) &&
                  TooFar(size - p.jmp.endOfJmp, p.jmp.jmpSize)
    }

    /** L: defines a label at the end of the code. "@@" may be defined any number of times. */
    method Define(ref: Ref) returns (e: Status)
      requires Valid()
      modifies this`defs, this`undefs, this`addrInfo, this`jumps, this`anonymous, top
      ensures ref == AT_B || ref == AT_F ==> e == Some(BadLabelStr)
      ensures e.Some? <==> old(Undefinable(ref))
      ensures e.None? ==> Valid() && jumps == Defined(old(jumps), ref, size) &&
                          OnlyFields(old(Code()), Code(), old(jumps))
      ensures e.None? ==> anonymous == (if ref == AT_AT then Some(size) else old(anonymous))
      ensures e.None? && ref != AT_AT ==> defs == old(defs)[ref := size]
      ensures e.None? && ref == AT_AT ==> forall r :: r != AT_F && r != AT_B ==>
                (r in defs <==> r in old(defs)) && (r in defs ==> defs[r] == old(defs)[r])
    {
      hide Code, Tracked, UndefsOwned, InfosOwned, OnlyFields, Resolved, Defined, TooFar;
      if ref == AT_B || ref == AT_F {
        return Some(BadLabelStr);
      }
      var key := ref;
      SameMeaning(ref, size);
      if ref == AT_AT {
        if AT_F in defs {
          defs := defs - {AT_F};
          key := AT_B;
        } else {
          if AT_B in defs {
            defs := defs - {AT_B};
          }
          key := AT_F;
        }
      }
      ghost var jumps0, undefs0 := jumps, undefs;
      e := DefineInner(key);
      if e.None? {
        KeysStay(jumps0, key);
        if ref == AT_AT {
          anonymous := Some(size);
        }
      }
    }

    /** The jumps a definition is meant for are those that wait under the name it gets. */
    lemma SameMeaning(ref: Ref, at: nat)
      requires Valid() && ref != AT_F && ref != AT_B
      ensures Resolved(jumps, if ref == AT_AT then NextName() else ref, at) == Defined(jumps, ref, at)
    {
      var key := if ref == AT_AT then NextName() else ref;
      forall k | 0 <= k < |jumps| && jumps[k].target.None?
        ensures jumps[k].key == key <==> Meant(jumps[k], ref)
      {
        assert PendingOf(jumps[k]) in undefs;
        assert PendingOf(jumps[k]).key == jumps[k].key;
      }
    }

    lemma KeysStay(before: seq<Jump>, key: Ref)
      requires jumps == Resolved(before, key, size)
      requires forall k :: 0 <= k < |before| && before[k].target.None? ==>
        (if before[k].ref == AT_F then before[k].key == AT_F || before[k].key == AT_B
         else before[k].key == before[k].ref && before[k].key != AT_B)
      ensures KeysOk()
    {
    }

    /** Where a label is, if it is defined; otherwise the name under which a jump waits for it. */
    method GetOffset(ref: Ref) returns (offset: Option<nat>, key: Ref, e: Status)
      requires Valid()
      ensures e == if ref == AT_B && anonymous.None? then Some(LabelIsNotFound) else None
      ensures e.None? ==> offset == TargetOf(ref)
      ensures offset.Some? ==> key in defs
      ensures offset.None? && e.None? ==>
                key !in defs && (if ref == AT_F then key == NextName() else key == ref != AT_B)
    {
      hide Code, Tracked, UndefsOwned, InfosOwned, KeysOk, Apart;
      key := ref;
      if ref == AT_B {
        if AT_F in defs {
          key := AT_F;
        } else if AT_B !in defs {
          return None, key, Some(LabelIsNotFound);
        }
      } else if ref == AT_F {
        if AT_F in defs {
          key := AT_B;
        }
      }
      if key in defs {
        return Some(defs[key]), key, None;
      }
      return None, key, None;
    }

    /** What a program means by a label in a jump: "@b" is the last "@@", "@f" the next one. */
    ghost function TargetOf(ref: Ref): Option<nat>
      reads this`defs, this`anonymous
    {
      if ref == AT_B then anonymous
      else if ref == AT_F then None
      else if ref in defs then Some(defs[ref]) else None
    }

    predicate IsNear(typ: LabelType) {
      typ == Near || (typ == Auto && isDefaultJmpNear)
    }

    /** A growing buffer is moved before a jump, not within one. */
    method MakeRoom()
      requires Valid()
      modifies this`top
      ensures Valid() && Code() == old(Code()) && (top == old(top) || (autoGrow && fresh(top)))
    {
      hide Code, Tracked, UndefsOwned, InfosOwned, Apart, Toggled, KeysOk;
      if autoGrow && size + 16 >= top.Length {
        GrowMemory();
      }
    }

    /** Emits a jump to a label. */
    method Jmp(ref: Ref, typ: LabelType, shortCode: Byte, longCode: Byte, longPref: Byte)
      returns (e: Status, ghost n: nat)
      requires Valid()
      modifies this`top, this`size, this`undefs, this`jumps, top
      ensures typ == Far ==> e == Some(NotSupported)
      ensures typ != Far && ref == AT_B && anonymous.None? ==> e == Some(LabelIsNotFound)
      ensures typ != Far && !(ref == AT_B && anonymous.None?) ==>
                var long := if longPref != 0 then 6 else 5;
                if old(TargetOf(ref)).Some? then
                  Reaches(typ, old(TargetOf(ref)).value - old(size), long, old(Free()), e, n)
                else Awaits(typ, isDefaultJmpNear, long, old(Free()), e, n)
      ensures !autoGrow ==> top == old(top)
      ensures e.None? ==>
                Valid() && jumps != [] && jumps[..|jumps| - 1] == old(jumps) && (top == old(top) || fresh(top)) &&
                size == old(size) + n && var j := jumps[|jumps| - 1];
                j.ref == ref && j.end == size && j.target == old(TargetOf(ref)) &&
                j.size == (if n == 2 then 1 else 4) &&
                Code()[..old(size)] == old(Code()) && Header(Code(), n, shortCode, longCode, longPref) &&
                (j.target.None? ==> forall i :: size - j.size <= i < size ==> Code()[i] == 0)
    {
      hide Code, Tracked, UndefsOwned, InfosOwned, Apart, Toggled, KeysOk, Valid, Header, Reaches, Awaits;
      n := 0;
      if typ == Far {
        return Some(NotSupported), 0;
      }
      MakeRoom();
      var offset, key;
      offset, key, e := GetOffset(ref);
      if e.Some? {
        return;
      }
      e, n := EmitTracked(ref, key, offset, typ, shortCode, longCode, longPref);
    }

    /** Emits a jump and notes it under key. */
    method EmitTracked(ref: Ref, key: Ref, offset: Option<nat>, typ: LabelType, shortCode: Byte, longCode: Byte,
                       longPref: Byte)
      returns (e: Status, ghost n: nat)
      requires Valid() && typ != Far && offset == TargetOf(ref)
      requires if key in defs then offset.Some?
               else offset.None? && (if ref == AT_F then key == NextName() else key == ref != AT_B)
      modifies this`top, this`size, this`undefs, this`jumps, top
      ensures var long := if longPref != 0 then 6 else 5;
              if offset.Some? then Reaches(typ, offset.value - old(size), long, old(Free()), e, n)
              else Awaits(typ, isDefaultJmpNear, long, old(Free()), e, n)
      ensures !autoGrow ==> top == old(top)
      ensures e.None? ==>
                Valid() && jumps != [] && jumps[..|jumps| - 1] == old(jumps) && (top == old(top) || fresh(top)) &&
                size == old(size) + n && var j := jumps[|jumps| - 1];
                j.ref == ref && j.end == size && j.target == offset && j.size == (if n == 2 then 1 else 4) &&
                Code()[..old(size)] == old(Code()) && Header(Code(), n, shortCode, longCode, longPref) &&
                (j.target.None? ==> forall i :: size - j.size <= i < size ==> Code()[i] == 0)
    {
      hide Code, Tracked, UndefsOwned, InfosOwned, Apart, LittleEndian, Written, Toggled, KeysOk;
      hide Reaches, Awaits, Opcode, Header;
      var jmpSize;
      ghost var code0 := Code();
      ghost var field;
      e, jmpSize, field := EmitJmp(offset, typ, shortCode, longCode, longPref);
      ghost var op := Opcode(jmpSize, shortCode, longCode, longPref);
      n := |op| + jmpSize;
      if e.None? {
        ghost var j := Jump(ref, key, size, jmpSize, offset);
        FieldAtEnd(code0, op, field, Code(), j);
        HeaderOf(code0, jmpSize, shortCode, longCode, longPref, field);
        Track(key, jmpSize, j, |code0|);
      }
    }

    /** The instruction itself, with zeros for the displacement to a label that is not defined yet. */
    method EmitJmp(offset: Option<nat>, typ: LabelType, shortCode: Byte, longCode: Byte, longPref: Byte)
      returns (e: Status, jmpSize: nat, ghost field: seq<Byte>)
      requires Valid() && typ != Far
      modifies this`top, this`size, top
      ensures jmpSize == 1 || jmpSize == 4
      ensures var n := |Opcode(jmpSize, shortCode, longCode, longPref)| + jmpSize;
              var long := if longPref != 0 then 6 else 5;
              if offset.Some? then Reaches(typ, offset.value - old(size), long, old(Free()), e, n)
              else Awaits(typ, isDefaultJmpNear, long, old(Free()), e, n)
      ensures !autoGrow ==> top == old(top)
      ensures e.None? ==> Valid() && (top == old(top) || fresh(top)) && |field| == jmpSize &&
                          Code() == old(Code()) + Opcode(jmpSize, shortCode, longCode, longPref) + field &&
                          (offset.Some? ==> field == LittleEndian(offset.value - size, jmpSize) &&
                                            (jmpSize == 1 ==> IsInDisp8(offset.value - size))) &&
                          (offset.None? ==> forall i :: 0 <= i < jmpSize ==> field[i] == 0)
    {
      hide Code, LittleEndian;
      if offset.Some? {
        e, jmpSize := MakeJmp(offset.value, typ, shortCode, longCode, longPref);
        field := LittleEndian(offset.value - size, jmpSize);
        return;
      }
      jmpSize := if IsNear(typ) then 4 else 1;
      var zeros := if IsNear(typ) then [0, 0, 0, 0] else [0];
      field := zeros;
      var op := Opcode(jmpSize, shortCode, longCode, longPref);
      ghost var code0 := Code();
      e := Emit(op + zeros);
      assert e.None? ==> Code() == code0 + op + field;
    }

    /** Notes a jump; one without a target is added to those that wait. */
    method Track(key: Ref, jmpSize: nat, ghost j: Jump, ghost at: nat)
      requires Valid() && Apart(jumps, at) && at + jmpSize <= size && (jmpSize == 1 || jmpSize == 4)
      requires j.key == key && j.end == size && j.size == jmpSize
      requires j.target.Some? ==> Field(Code(), j) == LittleEndian(j.target.value - j.end, j.size) &&
                                  (j.size == 1 ==> IsInDisp8(j.target.value - j.end))
      requires if key in defs then j.target.Some?
               else j.target.None? && (if j.ref == AT_F then key == NextName() else key == j.ref != AT_B)
      modifies this`undefs, this`jumps
      ensures Valid() && jumps == old(jumps) + [j]
    {
      hide Code, Tracked, UndefsOwned, InfosOwned, Apart, LittleEndian, Written;
      ghost var undefs0, jumps0 := undefs, jumps;
      if j.target.Some? {
        IsWritten(Code(), j);
      }
      NewJump(Code(), addrInfo, undefs0, jumps0, at, j);
      NewJumpOwned(addrInfo, undefs0, jumps0, j);
      if key !in defs {
        undefs := undefs + [Pending(key, JmpLabel(size, jmpSize))];
      }
      jumps := jumps0 + [j];
    }

    lemma IsWritten(code: seq<Byte>, j: Jump)
      requires j.target.Some? && j.size <= j.end <= |code|
      requires Field(code, j) == LittleEndian(j.target.value - j.end, j.size)
      requires j.size == 1 ==> IsInDisp8(j.target.value - j.end)
      ensures Written(code, j)
    {
    }

    /** A jump to a label that is defined already, as short as its type allows. */
    method MakeJmp(offset: nat, typ: LabelType, shortCode: Byte, longCode: Byte, longPref: Byte)
      returns (e: Status, jmpSize: nat)
      requires Valid() && typ != Far
      modifies this`top, this`size, top
      ensures jmpSize == 1 || jmpSize == 4
      ensures Reaches(typ, offset - old(size), if longPref != 0 then 6 else 5, old(Free()), e,
                      |Opcode(jmpSize, shortCode, longCode, longPref)| + jmpSize)
      ensures !autoGrow ==> top == old(top)
      ensures e.None? ==> Valid() && (top == old(top) || fresh(top)) &&
                          Code() == old(Code()) + Opcode(jmpSize, shortCode, longCode, longPref) +
                                    LittleEndian(offset - size, jmpSize) &&
                          (jmpSize == 1 ==> IsInDisp8(offset - size))
    {
      hide Code, LittleEndian;
      var disp := offset - size;
      jmpSize := 1;
      if !IsInInt32(disp) {
        return Some(OffsetIsTooBig), 1;
      }
      var shortJmpSize := 2;
      var longJmpSize := (if longPref != 0 then 2 else 1) + 4;
      ghost var code0 := Code();
      if typ != Near && IsInDisp8(disp - shortJmpSize) {
        jmpSize := 1;
        e := Emit([shortCode] + LittleEndian(disp - shortJmpSize, 1));
        assert e.None? ==> Code() == code0 + [shortCode] + LittleEndian(disp - shortJmpSize, 1);
      } else {
        if typ == Short {
          return Some(LabelIsTooFar), 1;
        }
        jmpSize := 4;
        var op := Opcode(4, shortCode, longCode, longPref);
        e := Emit(op + LittleEndian(disp - longJmpSize, 4));
        assert e.None? ==> Code() == code0 + op + LittleEndian(disp - longJmpSize, 4);
      }
    }

    lemma FieldAtEnd(code0: seq<Byte>, op: seq<Byte>, field: seq<Byte>, code: seq<Byte>, j: Jump)
      requires code == code0 + op + field && |field| == j.size && j.end == |code|
      ensures Field(code, j) == field
    {
    }

    /** Writes the displacements that were saved. */
    method CalcJmpAddress() returns (e: Status)
      requires Valid() && undefs == []
      modifies this`isCalledCalcJmpAddress, top
      ensures InBuffer() && e.None? && isCalledCalcJmpAddress && Apart(jumps, size)
      ensures forall k :: 0 <= k < |jumps| ==> Written(Code(), jumps[k])
      ensures OnlyFields(old(Code()), Code(), jumps)
    {
      hide Code, InfosOwned, Applying, OnlyFields, Overwrite, LittleEndian, Written, Toggled, KeysOk, UndefsOwned;
      hide Apart;
      ghost var code0 := Code();
      AllSettled(code0, addrInfo, jumps);
      UnchangedOnly(code0, jumps);
      assert addrInfo[0..] == addrInfo;
      for i := 0 to |addrInfo|
        invariant InBuffer() && Apart(jumps, size) && Applying(Code(), addrInfo[i..], jumps)
        invariant InfosOwned(addrInfo[i..], jumps) && OnlyFields(code0, Code(), jumps)
      {
        var a := addrInfo[i];
        assert addrInfo[i..][0] == a && addrInfo[i..][1..] == addrInfo[i + 1..];
        ApplyOne(Code(), addrInfo[i..], jumps);
        if a.jmpSize == 4 && !IsInInt32(a.disp) {
          return Some(OffsetIsTooBig);
        }
        AppliedOnly(code0, Code(), addrInfo[i..], jumps);
        Rewrite(a.codeOffset, a.disp, a.jmpSize);
      }
      assert addrInfo[|addrInfo|..] == [];
      NothingSaved(Code(), jumps);
      isCalledCalcJmpAddress := true;
      return None;
    }

    /** Completes the code: fails exactly when a label is still undefined, and otherwise leaves every jump with the
        displacement to its label, wherever the code was moved to. */
    method Ready() returns (e: Status)
      requires Valid()
      modifies this`isCalledCalcJmpAddress, top
      ensures e == if old(undefs) != [] then Some(LabelIsNotFound) else None
      ensures e.None? <==> forall k :: 0 <= k < |jumps| ==> jumps[k].target.Some?
      ensures InBuffer() && OnlyFields(old(Code()), Code(), jumps)
      ensures e.None? ==> forall k :: 0 <= k < |jumps| ==> Written(Code(), jumps[k])
    {
      hide Code, InfosOwned, OnlyFields, Written, Toggled, KeysOk, Apart, Tracked;
      UnchangedOnly(Code(), jumps);
      AllDefined(Code(), addrInfo, undefs, jumps);
      if undefs != [] {
        return Some(LabelIsNotFound);
      }
      if autoGrow {
        e := CalcJmpAddress();
      } else {
        AllSettled(Code(), addrInfo, jumps);
        NothingSaved(Code(), jumps);
        e := None;
      }
    }
  }

  lemma AllDefined(code: seq<Byte>, infos: seq<AddrInfo>, undefs: seq<Pending>, jumps: seq<Jump>)
    requires Tracked(code, infos, undefs, jumps) && UndefsOwned(undefs, jumps)
    ensures undefs == [] <==> forall k :: 0 <= k < |jumps| ==> jumps[k].target.Some?
  {
    if undefs != [] {
      assert undefs[0] in undefs;
      assert Waits(jumps, undefs[0]);
    }
  }

  lemma AllSettled(code: seq<Byte>, infos: seq<AddrInfo>, jumps: seq<Jump>)
    requires Tracked(code, infos, [], jumps)
    ensures Applying(code, infos, jumps)
  {
    hide Settled;
    forall k | 0 <= k < |jumps|
      ensures jumps[k].target.Some?
    {
      assert PendingOf(jumps[k]) !in [];
    }
  }

  lemma NothingSaved(code: seq<Byte>, jumps: seq<Jump>)
    requires Applying(code, [], jumps)
    ensures forall k :: 0 <= k < |jumps| ==> Written(code, jumps[k])
  {
    hide Written;
    forall k | 0 <= k < |jumps|
      ensures Written(code, jumps[k])
    {
      assert Settled(code, [], jumps[k]);
    }
  }

  lemma AppliedOnly(code0: seq<Byte>, code: seq<Byte>, infos: seq<AddrInfo>, jumps: seq<Jump>)
    requires OnlyFields(code0, code, jumps) && infos != [] && InfosOwned(infos, jumps) && Apart(jumps, |code|)
    requires infos[0].codeOffset + infos[0].jmpSize <= |code|
    ensures var i := infos[0];
            OnlyFields(code0, Overwrite(code, i.codeOffset, LittleEndian(i.disp, i.jmpSize)), jumps)
  {
    hide OnlyFields, Overwrite, LittleEndian;
    assert infos[0] in infos;
    var i :| 0 <= i < |jumps| && Owns(jumps[i], infos[0]);
    OverwriteOnly(code0, code, jumps, i, LittleEndian(infos[0].disp, infos[0].jmpSize));
  }

  function Opcode(jmpSize: nat, shortCode: Byte, longCode: Byte, longPref: Byte): seq<Byte> {
    if jmpSize == 1 then [shortCode] else (if longPref != 0 then [longPref] else []) + [longCode]
  }

  /** How the n bytes of a jump at the end of the code begin. */
  ghost predicate Header(code: seq<Byte>, n: nat, shortCode: Byte, longCode: Byte, longPref: Byte) {
    var at := |code| - n;
    0 <= at &&
    ((n == 2 && code[at] == shortCode) || (n == 5 && longPref == 0 && code[at] == longCode) ||
     (n == 6 && longPref != 0 && code[at] == longPref && code[at + 1] == longCode))
  }

  lemma HeaderOf(code: seq<Byte>, jmpSize: nat, shortCode: Byte, longCode: Byte, longPref: Byte, field: seq<Byte>)
    requires |field| == jmpSize && (jmpSize == 1 || jmpSize == 4)
    ensures var op := Opcode(jmpSize, shortCode, longCode, longPref); var c := code + op + field;
            Header(c, |op| + jmpSize, shortCode, longCode, longPref) && c[..|code|] == code &&
            (|op| + jmpSize == 2 <==> jmpSize == 1) &&
            forall i :: 0 <= i < jmpSize ==> c[|c| - jmpSize + i] == field[i]
  {
    var op := Opcode(jmpSize, shortCode, longCode, longPref);
    var c := code + op + field;
    assert forall i :: 0 <= i < |op| ==> c[|code| + i] == op[i];
  }
}
