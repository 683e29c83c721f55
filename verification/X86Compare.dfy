// x86: 64-bit comparisons in 32-bit mode, and dropping a test of the previous result.
module X86Compare {
  import opened Words
  import opened CmpOps

  // Condition codes; the lowest bit negates.
  const CC_O: int := 0
  const CC_NO: int := 1
  const CC_B: int := 2
  const CC_AE: int := 3
  const CC_E: int := 4
  const CC_NE: int := 5
  const CC_BE: int := 6
  const CC_A: int := 7
  const CC_L: int := 12
  const CC_GE: int := 13
  const CC_LE: int := 14
  const CC_G: int := 15

  datatype Flags = Flags(cf: bool, zf: bool, sf: bool, pf: bool, of: bool)

  predicate Cond(cc: int, f: Flags) {
    var base := match cc / 2
      case 0 => f.of
      case 1 => f.cf
      case 2 => f.zf
      case 3 => f.cf || f.zf
      case 4 => f.sf
      case 5 => f.pf
      case 6 => f.sf != f.of
      case _ => f.zf || f.sf != f.of;
    base == (cc % 2 == 0)
  }

  // The number of ones in the low byte is even.
  predicate Parity(x: nat, n: nat) { n == 0 || (if x % 2 == 0 then Parity(x / 2, n - 1) else !Parity(x / 2, n - 1)) }

  // m is 2^32 or 2^64.
  predicate IsWidth(m: int) { m == TWO32 || m == TWO32 * TWO32 }

  function SignedOf(x: int, m: int): int { if 2 * x < m then x else x - m }
  predicate Fits(x: int, m: int) { -m <= 2 * x < m }

  function ResultFlags(r: nat, m: int, cf: bool, of: bool): Flags {
    Flags(cf, r == 0, 2 * r >= m, Parity(r % 256, 8), of)
  }

  function SubFlags(a: nat, b: nat, m: int): Flags
    requires m > 0
  {
    ResultFlags((a - b) % m, m, a < b, !Fits(SignedOf(a, m) - SignedOf(b, m), m))
  }

  function AddFlags(a: nat, b: nat, m: int): Flags
    requires m > 0
  {
    ResultFlags((a + b) % m, m, a + b >= m, !Fits(SignedOf(a, m) + SignedOf(b, m), m))
  }

  // AND, OR, XOR and TEST clear the carry and overflow flags.
  function LogicFlags(r: nat, m: int): Flags { ResultFlags(r, m, false, false) }

  // The conditions read off a comparison are the orders they are named for.
  lemma CondMeaning(a: u32, b: u32)
    ensures var f := SubFlags(a, b, TWO32);
      && (Cond(CC_E, f) <==> a == b) && (Cond(CC_NE, f) <==> a != b)
      && (Cond(CC_B, f) <==> a < b) && (Cond(CC_AE, f) <==> a >= b)
      && (Cond(CC_BE, f) <==> a <= b) && (Cond(CC_A, f) <==> a > b)
      && (Cond(CC_L, f) <==> Signed(a) < Signed(b)) && (Cond(CC_GE, f) <==> Signed(a) >= Signed(b))
      && (Cond(CC_LE, f) <==> Signed(a) <= Signed(b)) && (Cond(CC_G, f) <==> Signed(a) > Signed(b))
  {
    hide Parity;
    var d := (a - b) % TWO32;
    assert d == if a < b then a - b + TWO32 else a - b;
  }

  // test r,r leaves the flags of cmp r,0.
  lemma TestIsCmpZero(a: u32)
    ensures LogicFlags(a, TWO32) == SubFlags(a, 0, TWO32)
  {
    hide Parity;
    assert (a - 0) % TWO32 == a;
  }

  // asm_compmap: the exit conditions for the whole comparison, for the high words without the
  // equality check, and for the unsigned comparison.
  datatype CompMap = CompMap(ci: int, cin: int, cu: int)

  function AsmCompMap(op: CmpOp): CompMap {
    match op
    case LT => CompMap(CC_GE, CC_G, CC_AE)
    case GE => CompMap(CC_L, CC_L, CC_B)
    case LE => CompMap(CC_G, CC_G, CC_A)
    case GT => CompMap(CC_LE, CC_L, CC_BE)
    case ULT => CompMap(CC_AE, CC_A, CC_AE)
    case UGE => CompMap(CC_B, CC_B, CC_B)
    case ULE => CompMap(CC_A, CC_A, CC_A)
    case UGT => CompMap(CC_BE, CC_B, CC_BE)
    case EQ => CompMap(CC_NE, CC_NE, CC_NE)
    case NE => CompMap(CC_E, CC_E, CC_E)
  }

  // -- Code ------------------------------------------------------------------------------

  datatype Src = LeftHi | LeftLo | RightHi | RightLo | Imm(i: u32)

  // A label is the number of instructions from it to the end of the code.
  datatype Target = Exit | Label(left: nat)
  datatype Ins = Cmp(l: Src, r: Src) | Test(l: Src) | Jcc(cc: int, to: Target) | Tail

  function Value(s: Src, a: Pair, b: Pair): u32 {
    match s case LeftHi => a.hi case LeftLo => a.lo case RightHi => b.hi case RightLo => b.lo case Imm(i) => i
  }

  function FlagsOf(i: Ins, a: Pair, b: Pair, f: Flags): Flags {
    match i
    case Cmp(l, r) => SubFlags(Value(l, a, b), Value(r, a, b), TWO32)
    case Test(l) => LogicFlags(Value(l, a, b), TWO32)
    case _ => f
  }

  // Whether the code leaves through the exit before it reaches the tail.
  predicate Exits(code: seq<Ins>, a: Pair, b: Pair, f: Flags)
    decreases |code|
  {
    if code == [] then false
    else match code[0]
      case Tail => false
      case Jcc(cc, to) =>
        if !Cond(cc, f) then Exits(code[1..], a, b, f)
        else if to.Exit? then true
        else to.left < |code| && Exits(code[|code| - to.left..], a, b, f)
      case _ => Exits(code[1..], a, b, FlagsOf(code[0], a, b, f))
  }

  predicate Matches(k: Option<u32>, x: u32) { k.Some? ==> k.value == x }

  // Compares the words given by l and r.
  ghost predicate Compares(i: Ins, l: Src, r: Src, a: Pair, b: Pair) {
    !i.Jcc? && !i.Tail? && forall f :: FlagsOf(i, a, b, f) == SubFlags(Value(l, a, b), Value(r, a, b), TWO32)
  }

  function LoPart(op: CmpOp, lo: Ins, tail: seq<Ins>): seq<Ins> { [lo, Jcc(AsmCompMap(op).cu, Exit)] + tail }

  function HiPart(op: CmpOp, hi: Ins, code: seq<Ins>, around: nat): seq<Ins> {
    var c := AsmCompMap(op);
    var skip := if c.ci != CC_NE then [Jcc(CC_NE, Label(around))] + code else code;
    [hi] + if c.ci != CC_E then [Jcc(c.cin, Exit)] + skip else skip
  }

  lemma StepCompare(i: Ins, rest: seq<Ins>, a: Pair, b: Pair, f: Flags)
    requires !i.Jcc? && !i.Tail?
    ensures Exits([i] + rest, a, b, f) == Exits(rest, a, b, FlagsOf(i, a, b, f))
  {
  }

  lemma StepExit(cc: int, rest: seq<Ins>, a: Pair, b: Pair, f: Flags)
    ensures Exits([Jcc(cc, Exit)] + rest, a, b, f) == (Cond(cc, f) || Exits(rest, a, b, f))
  {
  }

  lemma StepAround(cc: int, rest: seq<Ins>, tail: seq<Ins>, a: Pair, b: Pair, f: Flags)
    requires tail != [] && tail[0].Tail? && |rest| >= |tail| && rest[|rest| - |tail|..] == tail
    ensures Exits([Jcc(cc, Label(|tail|))] + rest, a, b, f) == (!Cond(cc, f) && Exits(rest, a, b, f))
  {
  }

  lemma LoExits(op: CmpOp, lo: Ins, tail: seq<Ins>, a: Pair, b: Pair, f: Flags)
    requires Compares(lo, LeftLo, RightLo, a, b) && tail != [] && tail[0].Tail?
    ensures Exits(LoPart(op, lo, tail), a, b, f) == Cond(AsmCompMap(op).cu, SubFlags(a.lo, b.lo, TWO32))
  {
    hide Cond, SubFlags, AsmCompMap;
    var g := SubFlags(a.lo, b.lo, TWO32);
    assert LoPart(op, lo, tail) == [lo] + ([Jcc(AsmCompMap(op).cu, Exit)] + tail);
    StepCompare(lo, [Jcc(AsmCompMap(op).cu, Exit)] + tail, a, b, f);
    StepExit(AsmCompMap(op).cu, tail, a, b, g);
    assert !Exits(tail, a, b, g);
  }

  lemma HiExits(op: CmpOp, hi: Ins, code: seq<Ins>, tail: seq<Ins>, a: Pair, b: Pair, f: Flags)
    requires Compares(hi, LeftHi, RightHi, a, b) && tail != [] && tail[0].Tail?
    requires |code| > |tail| && code[|code| - |tail|..] == tail
    ensures var (c, g) := (AsmCompMap(op), SubFlags(a.hi, b.hi, TWO32));
      Exits(HiPart(op, hi, code, |tail|), a, b, f) ==
        ((c.ci != CC_E && Cond(c.cin, g)) || (!(c.ci != CC_NE && Cond(CC_NE, g)) && Exits(code, a, b, g)))
  {
    hide SubFlags, Cond, AsmCompMap, Exits;
    var c, g := AsmCompMap(op), SubFlags(a.hi, b.hi, TWO32);
    var skip := if c.ci != CC_NE then [Jcc(CC_NE, Label(|tail|))] + code else code;
    var rest := if c.ci != CC_E then [Jcc(c.cin, Exit)] + skip else skip;
    StepCompare(hi, rest, a, b, f);
    StepExit(c.cin, skip, a, b, g);
    StepAround(CC_NE, code, tail, a, b, g);
  }

  // The two halves decide the 64-bit comparison.
  lemma Decides(op: CmpOp, a: Pair, b: Pair)
    ensures var (c, g) := (AsmCompMap(op), SubFlags(a.hi, b.hi, TWO32));
      !Holds64(op, a, b) <==>
        (c.ci != CC_E && Cond(c.cin, g)) ||
        (!(c.ci != CC_NE && Cond(CC_NE, g)) && Cond(c.cu, SubFlags(a.lo, b.lo, TWO32)))
  {
    CondMeaning(a.hi, b.hi);
    CondMeaning(a.lo, b.lo);
    SplitLess(a, b);
    SplitLess(b, a);
    hide SubFlags, Cond, SignedPair, UnsignedPair, Signed;
  }

  class Asm {
    var code: seq<Ins>

    method Emit(i: Ins)
      modifies this
      ensures code == [i] + old(code)
    {
      code := [i] + code;
    }

    // cmp l, r, or test l, l for a register compared with zero unless the condition is unsigned.
    method EmitCompare(cc: int, l: Src, r: Src, k: Option<u32>, mem: bool) returns (ghost i: Ins)
      modifies this
      ensures code == [i] + old(code)
      ensures forall a, b :: Matches(k, Value(r, a, b)) ==> Compares(i, l, r, a, b)
    {
      hide SubFlags;
      forall x: u32 { TestIsCmpZero(x); }
      if k.Some? {
        if k.value == 0 && cc / 2 !in {1, 3} && !mem {
          Emit(Test(l));
          return Test(l);
        }
        Emit(Cmp(l, Imm(k.value)));
        return Cmp(l, Imm(k.value));
      }
      Emit(Cmp(l, r));
      return Cmp(l, r);
    }

    // The guard exits exactly when the 64-bit comparison does not hold. kHi and kLo are constant
    // right operands, memHi and memLo say whether the left operands are in memory.
    method CompInt64(op: CmpOp, kHi: Option<u32>, kLo: Option<u32>, memHi: bool, memLo: bool)
      requires code != [] && code[0].Tail?
      modifies this
      ensures |code| >= |old(code)| && code[|code| - |old(code)|..] == old(code)
      ensures forall a: Pair, b: Pair, f: Flags :: Matches(kHi, b.hi) && Matches(kLo, b.lo) ==>
        (Exits(code, a, b, f) <==> !Holds64(op, a, b))
    {
      hide SubFlags, Cond, Holds64, Exits, Compares;
      ghost var tail := code;
      var cc := AsmCompMap(op);
      var around := |code|;
      Emit(Jcc(cc.cu, Exit));
      ghost var lo := EmitCompare(cc.cu, LeftLo, RightLo, kLo, memLo);
      ghost var low := code;
      assert low == LoPart(op, lo, tail);
      if cc.ci != CC_NE { Emit(Jcc(CC_NE, Label(around))); }
      if cc.ci != CC_E { Emit(Jcc(cc.cin, Exit)); }
      ghost var hi := EmitCompare(cc.ci, LeftHi, RightHi, kHi, memHi);
      assert code == HiPart(op, hi, low, around);
      forall a: Pair, b: Pair, f: Flags | Matches(kHi, b.hi) && Matches(kLo, b.lo)
        ensures Exits(code, a, b, f) <==> !Holds64(op, a, b)
      {
        HiExits(op, hi, low, tail, a, b, f);
        LoExits(op, lo, tail, a, b, SubFlags(a.hi, b.hi, TWO32));
        Decides(op, a, b);
      }
    }
  }
}
