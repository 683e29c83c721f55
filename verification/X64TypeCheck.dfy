// x64 with GC64: fused type checks of loads (asm_ahuvload, asm_sload).
module X64TypeCheck {
  import opened Words
  import opened ModArith
  import opened TValue
  import opened TypeCheck

  datatype Cc = CC_AE | CC_NE

  datatype X64Ins =
    | Mov64         // mov r64, [addr]
    | Mov32         // mov r32, [addr]
    | Movsd         // movsd xmm, [addr]
    | Ror47 | Rorx47 | Sar47 | Shr17
    | CmpR16(imm8: int) | CmpR32(imm8: int)
    | CmpM32(imm: u32)     // cmp dword [addr+4], imm32
    | CmpM64(imm8: int)    // cmp qword [addr], imm8
    | Jcc(cc: Cc)          // to the exit

  function Ror47Of(x: u64): u64 { x % TWO47 * TWO17 + x / TWO47 }

  // The destination register, and the outcome of the last compare.
  datatype X64State = X64State(r: u64, below: bool, equal: bool)

  function X64Exec(i: X64Ins, s: X64State, o: u64): X64State {
    match i
    case Mov64 => s.(r := o)
    case Mov32 => s.(r := Lo32(o))
    case Movsd => s.(r := o)
    case Ror47 => s.(r := Ror47Of(s.r))
    case Rorx47 => s.(r := Ror47Of(o))
    case Sar47 => s.(r := Signed64(s.r) / TWO47 % TWO64)
    case Shr17 => s.(r := s.r / TWO17)
    case CmpR16(imm8) => s.(below := s.r % 0x1_0000 < imm8 % 0x1_0000, equal := s.r % 0x1_0000 == imm8 % 0x1_0000)
    case CmpR32(imm8) => s.(below := s.r % TWO32 < imm8 % TWO32, equal := s.r % TWO32 == imm8 % TWO32)
    case CmpM32(imm) => s.(below := Hi32(o) < imm, equal := Hi32(o) == imm)
    case CmpM64(imm8) => s.(below := o < imm8 % TWO64, equal := o == imm8 % TWO64)
    case Jcc(_) => s
  }

  predicate Taken(cc: Cc, s: X64State) { match cc case CC_AE => !s.below case CC_NE => !s.equal }

  function X64Run(code: seq<X64Ins>, s: X64State, o: u64): Outcome {
    if code == [] then Pass(s.r)
    else if code[0].Jcc? && Taken(code[0].cc, s) then Exit
    else X64Run(code[1..], X64Exec(code[0], s, o), o)
  }

  lemma X64Step(i: X64Ins, rest: seq<X64Ins>, s: X64State, o: u64)
    ensures X64Run([i] + rest, s, o) ==
      if i.Jcc? && Taken(i.cc, s) then Exit else X64Run(rest, X64Exec(i, s, o), o)
  {
  }

  // After the rotate the low 16 bits are the type without its sign and the rest is the pointer. The
  // sign is not looked at: only the bits of positive NaNs, which no number has, are taken for a type.
  lemma RorCheck(o: u64, t: nat)
    requires LIGHTUD <= t <= UDATA
    ensures Ror47Of(o) / TWO17 == GcVal(o)
    ensures Ror47Of(o) % 0x1_0000 == (-1 - t) % 0x1_0000 <==> IsTag(o, t) || (o < TWO63 && IsTag(o + TWO63, t))
    ensures o < TWO63 && IsTag(o + TWO63, t) ==> IsNan(o) && o != 0xfff8_0000_0000_0000 && !WellFormed(o)
  {
    hide Ror47Of, Itype, Tag17, Low47, GcVal, Canonical, IsNan;
    RorParts(o);
    TagLow(Tag17(o), t);
    ItypeTag(o);
    if o < TWO63 {
      SignTag(o);
      ItypeTag(o + TWO63);
      if IsTag(o + TWO63, t) { PositiveNan(o); }
    } else {
      assert Tag17(o) >= 0x1_0000 by { NegativeTag(o); }
    }
  }

  lemma RorParts(o: u64)
    ensures Ror47Of(o) / TWO17 == GcVal(o) && Ror47Of(o) % 0x1_0000 == Tag17(o) % 0x1_0000 && Tag17(o) < TWO17
  {
    var tag, low := o / TWO47, o % TWO47;
    assert Ror47Of(o) == low * TWO17 + tag;
    LowBits(low, tag);
  }

  lemma TagLow(tag: nat, t: nat)
    requires tag < TWO17 && LIGHTUD <= t <= UDATA
    ensures tag % 0x1_0000 == (-1 - t) % 0x1_0000 <==> tag == TWO17 - 1 - t || tag + 0x1_0000 == TWO17 - 1 - t
  {
  }

  lemma SignTag(o: u64)
    requires o < TWO63
    ensures Tag17(o + TWO63) == Tag17(o) + 0x1_0000 && Tag17(o) < 0x1_0000
  {
    assert o + TWO63 == (o / TWO47 + 0x1_0000) * TWO47 + o % TWO47;
    ModUnique(o + TWO63, TWO47, o / TWO47 + 0x1_0000, o % TWO47);
  }

  lemma NegativeTag(o: u64)
    requires o >= TWO63
    ensures Tag17(o) >= 0x1_0000
  {
  }

  // A positive word with the low tag bits of a type is a NaN with a payload.
  lemma PositiveNan(o: u64)
    requires o < TWO63 && 0xfff3 <= Tag17(o) < 0xfffd
    ensures IsNan(o) && o != 0xfff8_0000_0000_0000 && !WellFormed(o)
  {
    ItypeTag(o);
    hide Itype;
  }

  lemma LowBits(h: nat, l: nat)
    ensures (h * TWO17 + l) % 0x1_0000 == l % 0x1_0000
  {
  }

  lemma SarCheck(o: u64)
    ensures Signed64(o) / TWO47 % TWO64 % TWO32 == Itype(o)
  {
  }

  // The compare that decides, and the rest of the code behind it.
  function X64Check(t: IrType): seq<X64Ins>
    requires Valid(t)
  {
    if !t.Tag? then [CmpM32(Lsl15(TISNUM))]
    else if IsAddr(t) then [Mov64, Sar47, CmpR32(-1 - t.t)]
    else if t.t == NIL then [CmpM64(-1)]
    else [CmpM32(Lsl15(ToItype(t)) + 0x7fff)]
  }

  function X64Load(t: IrType, used: bool, bmi2: bool): seq<X64Ins>
    requires Valid(t)
  {
    if used && IsAddr(t) then
      (if bmi2 then [Rorx47] else [Mov64, Ror47]) + [CmpR16(-1 - t.t), Jcc(CC_NE), Shr17]
    else
      X64Check(t) + [Jcc(if t.Num? then CC_AE else CC_NE)] +
      (if used then [if t.Num? then Movsd else Mov32] else [])
  }

  // Straight-line code before the check.
  lemma {:induction false} X64Straight(pre: seq<X64Ins>, rest: seq<X64Ins>, s: X64State, o: u64)
    requires forall i :: 0 <= i < |pre| ==> !pre[i].Jcc?
    ensures X64Run(pre + rest, s, o) == X64Run(rest, X64After(pre, s, o), o)
    decreases |pre|
  {
    if pre == [] {
      assert pre + rest == rest;
    } else {
      assert (pre + rest)[1..] == pre[1..] + rest;
      X64Straight(pre[1..], rest, X64Exec(pre[0], s, o), o);
    }
  }

  function X64After(pre: seq<X64Ins>, s: X64State, o: u64): X64State
    decreases |pre|
  {
    if pre == [] then s else X64After(pre[1..], X64Exec(pre[0], s, o), o)
  }

  lemma AfterOne(i: X64Ins, s: X64State, o: u64)
    ensures X64After([i], s, o) == X64Exec(i, s, o)
  {
  }

  lemma AfterTwo(i: X64Ins, j: X64Ins, s: X64State, o: u64)
    ensures X64After([i, j], s, o) == X64Exec(j, X64Exec(i, s, o), o)
  {
    assert [i, j][1..] == [j];
    AfterOne(j, X64Exec(i, s, o), o);
  }

  lemma AfterThree(i: X64Ins, j: X64Ins, k: X64Ins, s: X64State, o: u64)
    ensures X64After([i, j, k], s, o) == X64Exec(k, X64Exec(j, X64Exec(i, s, o), o), o)
  {
    assert [i, j, k][1..] == [j, k];
    AfterTwo(j, k, X64Exec(i, s, o), o);
  }

  // The flags after the check say whether the word has the type.
  lemma CheckDecides(t: IrType, s: X64State, o: u64)
    requires Valid(t) && WellFormed(o)
    ensures !Taken(if t.Num? then CC_AE else CC_NE, X64After(X64Check(t), s, o)) <==> Is(t, o)
  {
    hide WellFormed, Itype, Canonical, Signed64, Hi32;
    var c := X64Check(t);
    if IsAddr(t) {
      AfterThree(Mov64, Sar47, CmpR32(-1 - t.t), s, o);
      SarCheck(o);
      assert (-1 - t.t) % TWO32 == Not32(t.t);
    } else {
      AfterOne(c[0], s, o);
      HiCheck(o);
      NilWord(o);
    }
  }

  lemma NilWord(o: u64)
    ensures o == (-1) % TWO64 <==> TvIsNil(o)
  {
  }

  lemma RotatedRuns(t: nat, bmi2: bool, s: X64State, o: u64)
    ensures var pre := if bmi2 then [Rorx47, CmpR16(-1 - t)] else [Mov64, Ror47, CmpR16(-1 - t)];
      X64Run([Jcc(CC_NE), Shr17], X64After(pre, s, o), o) ==
        if Ror47Of(o) % 0x1_0000 == (-1 - t) % 0x1_0000 then Pass(Ror47Of(o) / TWO17) else Exit
  {
    hide Ror47Of;
    var pre := if bmi2 then [Rorx47, CmpR16(-1 - t)] else [Mov64, Ror47, CmpR16(-1 - t)];
    if bmi2 { AfterTwo(Rorx47, CmpR16(-1 - t), s, o); } else { AfterThree(Mov64, Ror47, CmpR16(-1 - t), s, o); }
    var s' := X64After(pre, s, o);
    assert s'.r == Ror47Of(o) && s'.equal == (Ror47Of(o) % 0x1_0000 == (-1 - t) % 0x1_0000);
    X64Step(Jcc(CC_NE), [Shr17], s', o);
    X64Step(Shr17, [], s', o);
    assert [Jcc(CC_NE)] + [Shr17] == [Jcc(CC_NE), Shr17] && [Shr17] + [] == [Shr17];
  }

  // asm_ahuvload and asm_sload: every well-formed word of the type passes, every other one exits.
  lemma X64LoadChecks(t: IrType, used: bool, bmi2: bool, s: X64State, o: u64)
    requires Valid(t) && WellFormed(o)
    ensures Checks(X64Run(X64Load(t, used, bmi2), s, o), t, used, o)
  {
    var code := X64Load(t, used, bmi2);
    if used && IsAddr(t) {
      var pre := if bmi2 then [Rorx47, CmpR16(-1 - t.t)] else [Mov64, Ror47, CmpR16(-1 - t.t)];
      var rest := [Jcc(CC_NE), Shr17];
      assert code == pre + rest;
      X64Straight(pre, rest, s, o);
      RotatedRuns(t.t, bmi2, s, o);
      RorCheck(o, t.t);
      hide Ror47Of, X64After, WellFormed, IsTag;
    } else {
      var cc := if t.Num? then CC_AE else CC_NE;
      var rest := [Jcc(cc)] + if used then [if t.Num? then Movsd else Mov32] else [];
      assert code == X64Check(t) + rest;
      X64Straight(X64Check(t), rest, s, o);
      CheckDecides(t, s, o);
      var s' := X64After(X64Check(t), s, o);
      hide X64Check, X64After, WellFormed, Is;
      X64Step(Jcc(cc), rest[1..], s', o);
      if used { X64Step(rest[1], [], s', o); }
    }
  }

  class X64Asm {
    var code: seq<X64Ins>

    method Emit(i: X64Ins)
      modifies this
      ensures code == [i] + old(code)
    {
      code := [i] + code;
    }

    // The compare of the upper word, or of the shifted word for a pointer.
    method EmitCheck(t: IrType)
      requires Valid(t)
      modifies this
      ensures code == X64Check(t) + old(code)
    {
      if !t.Tag? {
        Emit(CmpM32(Lsl15(TISNUM)));
      } else if IsAddr(t) {
        Emit(CmpR32(-1 - t.t));
        Emit(Sar47);
        Emit(Mov64);
      } else if t.t == NIL {
        Emit(CmpM64(-1));
      } else {
        Emit(CmpM32(Lsl15(ToItype(t)) + 0x7fff));
      }
    }

    // asm_ahuvload: the type check, and the load if the result is used.
    method AhuvLoad(t: IrType, used: bool, bmi2: bool) returns (ghost ins: seq<X64Ins>)
      requires Valid(t)
      modifies this
      ensures code == ins + old(code)
      ensures forall s: X64State, o: u64 :: WellFormed(o) ==> Checks(X64Run(ins, s, o), t, used, o)
    {
      hide WellFormed, Checks, X64Run, X64Check;
      ins := X64Load(t, used, bmi2);
      forall s: X64State, o: u64 | WellFormed(o) { X64LoadChecks(t, used, bmi2, s, o); }
      if used {
        if IsAddr(t) {
          Emit(Shr17);
          Emit(Jcc(CC_NE));
          Emit(CmpR16(-1 - t.t));
          if bmi2 {
            Emit(Rorx47);
          } else {
            Emit(Ror47);
            Emit(Mov64);
          }
          return;
        }
        Emit(if t.Num? then Movsd else Mov32);
      }
      Emit(Jcc(if t.Num? then CC_AE else CC_NE));
      EmitCheck(t);
    }
  }
}
