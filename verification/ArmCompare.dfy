// ARM32: 64-bit comparisons, and dropping a compare of the previous result with zero.
module ArmCompare {
  import opened Words
  import opened CmpOps
  import ArmImm

  datatype Cc =
    | CC_EQ | CC_NE | CC_HS | CC_LO | CC_MI | CC_PL | CC_VS | CC_VC
    | CC_HI | CC_LS | CC_GE | CC_LT | CC_GT | CC_LE

  type Flags = ArmImm.Flags

  predicate Cond(cc: Cc, f: Flags) {
    match cc
    case CC_EQ => f.z case CC_NE => !f.z
    case CC_HS => f.c case CC_LO => !f.c
    case CC_MI => f.n case CC_PL => !f.n
    case CC_VS => f.v case CC_VC => !f.v
    case CC_HI => f.c && !f.z case CC_LS => !f.c || f.z
    case CC_GE => f.n == f.v case CC_LT => f.n != f.v
    case CC_GT => !f.z && f.n == f.v case CC_LE => f.z || f.n != f.v
  }

  // cc ^ 1
  function Negate(cc: Cc): Cc {
    match cc
    case CC_EQ => CC_NE case CC_NE => CC_EQ case CC_HS => CC_LO case CC_LO => CC_HS
    case CC_MI => CC_PL case CC_PL => CC_MI case CC_VS => CC_VC case CC_VC => CC_VS
    case CC_HI => CC_LS case CC_LS => CC_HI case CC_GE => CC_LT case CC_LT => CC_GE
    case CC_GT => CC_LE case CC_LE => CC_GT
  }

  function CmpFlags(a: u32, b: u32): Flags { ArmImm.AddWithCarry(a, Not32(b), true).1 }

  lemma CondMeaning(a: u32, b: u32)
    ensures var f := CmpFlags(a, b);
      && (Cond(CC_EQ, f) <==> a == b) && (Cond(CC_NE, f) <==> a != b)
      && (Cond(CC_LO, f) <==> a < b) && (Cond(CC_HS, f) <==> a >= b)
      && (Cond(CC_LS, f) <==> a <= b) && (Cond(CC_HI, f) <==> a > b)
      && (Cond(CC_LT, f) <==> Signed(a) < Signed(b)) && (Cond(CC_GE, f) <==> Signed(a) >= Signed(b))
      && (Cond(CC_LE, f) <==> Signed(a) <= Signed(b)) && (Cond(CC_GT, f) <==> Signed(a) > Signed(b))
  {
    var u := a + Not32(b) + 1;
    assert u % TWO32 == if a < b then a - b + TWO32 else a - b;
  }

  // asm_compmap: the condition under which the guard exits.
  function AsmCompMap(op: CmpOp): Cc {
    match op
    case LT => CC_GE case GE => CC_LT case LE => CC_GT case GT => CC_LE
    case ULT => CC_HS case UGE => CC_LO case ULE => CC_HI case UGT => CC_LS
    case EQ => CC_NE case NE => CC_EQ
  }

  // op + 4 in ORDER IR
  function UnsignedOf(op: CmpOp): CmpOp {
    match op case LT => ULT case GE => UGE case LE => ULE case GT => UGT case _ => op
  }

  // -- Code ------------------------------------------------------------------------------

  datatype Half = Hi | Lo

  // A label is the number of instructions from it to the end of the code. Tail stands for whatever
  // follows: in a loop, the branch back to its start.
  datatype Target = Exit | LoopStart | Label(left: nat)
  datatype Ins = Cmp(h: Half) | CmpEq(h: Half) | B(cc: Cc, to: Target) | ExitAlways | Tail

  datatype Outcome = Exits | Continues | Stuck

  function HalfFlags(h: Half, a: Pair, b: Pair): Flags {
    if h == Hi then CmpFlags(a.hi, b.hi) else CmpFlags(a.lo, b.lo)
  }

  function Run(code: seq<Ins>, a: Pair, b: Pair, f: Flags): Outcome
    decreases |code|
  {
    if code == [] then Stuck
    else match code[0]
      case Tail => Continues
      case ExitAlways => Exits
      case Cmp(h) => Run(code[1..], a, b, HalfFlags(h, a, b))
      case CmpEq(h) => Run(code[1..], a, b, if Cond(CC_EQ, f) then HalfFlags(h, a, b) else f)
      case B(cc, to) =>
        if !Cond(cc, f) then Run(code[1..], a, b, f)
        else match to
          case Exit => Exits
          case LoopStart => Continues
          case Label(n) => if n < |code| then Run(code[|code| - n..], a, b, f) else Stuck
  }

  lemma StepCmp(i: Ins, rest: seq<Ins>, a: Pair, b: Pair, f: Flags)
    requires i.Cmp? || i.CmpEq?
    ensures Run([i] + rest, a, b, f) == Run(rest, a, b, if i.Cmp? || Cond(CC_EQ, f) then HalfFlags(i.h, a, b) else f)
  {
  }

  lemma StepB(cc: Cc, to: Target, rest: seq<Ins>, a: Pair, b: Pair, f: Flags)
    requires to.Label? ==> to.left <= |rest|
    ensures Run([B(cc, to)] + rest, a, b, f) ==
      if !Cond(cc, f) then Run(rest, a, b, f)
      else match to case Exit => Exits case LoopStart => Continues case Label(n) => Run(rest[|rest| - n..], a, b, f)
  {
    var code := [B(cc, to)] + rest;
    assert code[1..] == rest;
    if to.Label? { assert code[|code| - to.left..] == rest[|rest| - to.left..]; }
  }

  function Outcome64(op: CmpOp, a: Pair, b: Pair): Outcome { if Holds64(op, a, b) then Continues else Exits }

  // The guard of the low words, inverted at the end of a loop.
  function Guarded(cc: Cc, inv: bool, tail: seq<Ins>): seq<Ins>
    requires tail != []
  {
    if inv then [B(Negate(cc), LoopStart), ExitAlways] + tail[1..] else [B(cc, Exit)] + tail
  }

  lemma GuardRuns(cc: Cc, inv: bool, tail: seq<Ins>, a: Pair, b: Pair, f: Flags)
    requires tail != [] && tail[0].Tail?
    ensures Run(Guarded(cc, inv, tail), a, b, f) == if Cond(cc, f) then Exits else Continues
  {
    if inv {
      StepB(Negate(cc), LoopStart, [ExitAlways] + tail[1..], a, b, f);
      assert Guarded(cc, inv, tail) == [B(Negate(cc), LoopStart)] + ([ExitAlways] + tail[1..]);
    } else {
      StepB(cc, Exit, tail, a, b, f);
    }
  }

  // The conditions for the high words decide together with the unsigned ones for the low words.
  lemma Decides(op: CmpOp, a: Pair, b: Pair)
    ensures var (g, l) := (CmpFlags(a.hi, b.hi), CmpFlags(a.lo, b.lo));
      var (hi, lo) := (HiCc(op), AsmCompMap(UnsignedOf(op)));
      !Holds64(op, a, b) <==>
        if IsSigned(op) then Cond(hi, g) || (a.hi == b.hi && Cond(lo, l))
        else Cond(lo, if a.hi == b.hi then l else g)
  {
    CondMeaning(a.hi, b.hi);
    CondMeaning(a.lo, b.lo);
    SplitLess(a, b);
    SplitLess(b, a);
    hide CmpFlags, Cond, SignedPair, UnsignedPair, Signed;
  }

  // GE -> GT, LE -> LT: the high words compare without equality.
  function HiCc(op: CmpOp): Cc {
    var cc := AsmCompMap(op);
    if cc == CC_GE then CC_GT else if cc == CC_LE then CC_LT else cc
  }

  // Where the code after the comparison is reached through the wrong end of an inverted loop branch.
  predicate Astray(op: CmpOp, inv: bool, a: Pair, b: Pair) {
    inv && IsSigned(op) && a.hi != b.hi && Holds64(op, a, b)
  }

  class Asm {
    var code: seq<Ins>
    var invmcp: nat   // length of the code at the place where a loop branch may be inverted, or 0

    method Emit(i: Ins)
      modifies this`code
      ensures code == [i] + old(code)
    {
      code := [i] + code;
    }

    method GuardCc(cc: Cc)
      requires code != []
      modifies this`code
      ensures code == Guarded(cc, |old(code)| == invmcp, old(code))
    {
      if |code| == invmcp {
        code := [B(Negate(cc), LoopStart)] + [ExitAlways] + code[1..];
      } else {
        Emit(B(cc, Exit));
      }
    }

    // The guard exits exactly when the 64-bit comparison does not hold, unless an inverted loop
    // branch has replaced the instruction that the branch around the low words goes to.
    method Int64Comp(op: CmpOp)
      requires code != [] && code[0].Tail?
      modifies this`code
      ensures forall a: Pair, b: Pair, f: Flags ::
        Run(code, a, b, f) == Outcome64(op, a, b) <==> !Astray(op, |old(code)| == invmcp, a, b)
      ensures forall a: Pair, b: Pair, f: Flags ::
        Astray(op, |old(code)| == invmcp, a, b) ==> Run(code, a, b, f) == Exits
    {
      hide Run, Cond, CmpFlags, Holds64;
      ghost var tail, inv := code, |code| == invmcp;
      var signedcomp := IsSigned(op);
      var cclo := AsmCompMap(UnsignedOf(op));
      var cchi := AsmCompMap(op);
      if signedcomp {
        var around := |code|;
        GuardCc(cclo);
        ghost var c1 := code;
        Emit(Cmp(Lo));
        ghost var c2 := code;
        Emit(B(CC_NE, Label(around)));
        ghost var c3 := code;
        if cchi == CC_GE || cchi == CC_LE { cchi := if cchi == CC_GE then CC_GT else CC_LT; }
        Emit(B(cchi, Exit));
        ghost var c4 := code;
        Emit(Cmp(Hi));
        forall a: Pair, b: Pair, f: Flags
          ensures Run(code, a, b, f) == Outcome64(op, a, b) <==> !Astray(op, inv, a, b)
          ensures Astray(op, inv, a, b) ==> Run(code, a, b, f) == Exits
        {
          SignedRuns(op, inv, tail, a, b, f);
        }
      } else {
        GuardCc(cclo);
        ghost var c1 := code;
        Emit(CmpEq(Lo));
        ghost var c2 := code;
        Emit(Cmp(Hi));
        forall a: Pair, b: Pair, f: Flags ensures Run(code, a, b, f) == Outcome64(op, a, b) {
          UnsignedRuns(op, inv, tail, a, b, f);
        }
      }
    }
  }

  function SignedCode(op: CmpOp, inv: bool, tail: seq<Ins>): seq<Ins>
    requires tail != []
  {
    [Cmp(Hi)] + ([B(HiCc(op), Exit)] + ([B(CC_NE, Label(|tail|))] +
      ([Cmp(Lo)] + Guarded(AsmCompMap(UnsignedOf(op)), inv, tail))))
  }

  lemma SignedRuns(op: CmpOp, inv: bool, tail: seq<Ins>, a: Pair, b: Pair, f: Flags)
    requires tail != [] && tail[0].Tail? && IsSigned(op)
    ensures var code := SignedCode(op, inv, tail);
      Run(code, a, b, f) == if Astray(op, inv, a, b) then Exits else Outcome64(op, a, b)
  {
    hide Cond, CmpFlags, Run, Holds64;
    var g, l := CmpFlags(a.hi, b.hi), CmpFlags(a.lo, b.lo);
    var cclo := AsmCompMap(UnsignedOf(op));
    var c1 := Guarded(cclo, inv, tail);
    var c2 := [Cmp(Lo)] + c1;
    var c3 := [B(CC_NE, Label(|tail|))] + c2;
    var c4 := [B(HiCc(op), Exit)] + c3;
    StepCmp(Cmp(Hi), c4, a, b, f);
    StepB(HiCc(op), Exit, c3, a, b, g);
    StepB(CC_NE, Label(|tail|), c2, a, b, g);
    StepCmp(Cmp(Lo), c1, a, b, g);
    GuardRuns(cclo, inv, tail, a, b, l);
    AroundRuns(cclo, inv, tail, c2, a, b, g);
    Decides(op, a, b);
    EqualWords(a.hi, b.hi);
  }

  // A signed guard is right for all operands if and only if its branch is not inverted.
  lemma SignedRightExact(op: CmpOp, inv: bool, tail: seq<Ins>, f: Flags)
    requires tail != [] && tail[0].Tail? && IsSigned(op)
    ensures (forall a: Pair, b: Pair :: Run(SignedCode(op, inv, tail), a, b, f) == Outcome64(op, a, b)) <==> !inv
  {
    hide Run, SignedCode, Holds64;
    if inv {
      AstrayInput(op);
      var (a, b) := FarPair(op);
      SignedRuns(op, inv, tail, a, b, f);
    } else {
      forall a: Pair, b: Pair ensures Run(SignedCode(op, inv, tail), a, b, f) == Outcome64(op, a, b) {
        SignedRuns(op, inv, tail, a, b, f);
      }
    }
  }

  // 0 and 2^32, in the order that makes the comparison true.
  function FarPair(op: CmpOp): (Pair, Pair) {
    if op in {LT, LE} then (Pair(0, 0), Pair(1, 0)) else (Pair(1, 0), Pair(0, 0))
  }

  lemma AstrayInput(op: CmpOp)
    requires IsSigned(op)
    ensures Holds64(op, FarPair(op).0, FarPair(op).1) && Astray(op, true, FarPair(op).0, FarPair(op).1)
  {
  }

  lemma EqualWords(x: u32, y: u32)
    ensures Cond(CC_NE, CmpFlags(x, y)) <==> x != y
    ensures Cond(CC_EQ, CmpFlags(x, y)) <==> x == y
  {
  }

  // The branch around ends up at the tail, or at the exit branch that has replaced its first word.
  lemma AroundRuns(cc: Cc, inv: bool, tail: seq<Ins>, rest: seq<Ins>, a: Pair, b: Pair, f: Flags)
    requires tail != [] && tail[0].Tail? && rest == [Cmp(Lo)] + Guarded(cc, inv, tail)
    ensures |rest| >= |tail| && Run(rest[|rest| - |tail|..], a, b, f) == if inv then Exits else Continues
  {
  }

  lemma UnsignedRuns(op: CmpOp, inv: bool, tail: seq<Ins>, a: Pair, b: Pair, f: Flags)
    requires tail != [] && tail[0].Tail? && !IsSigned(op)
    ensures var code := [Cmp(Hi)] + ([CmpEq(Lo)] + Guarded(AsmCompMap(op), inv, tail));
      Run(code, a, b, f) == Outcome64(op, a, b)
  {
    hide Cond, CmpFlags, Run, Holds64;
    var g, l := CmpFlags(a.hi, b.hi), CmpFlags(a.lo, b.lo);
    var c1 := Guarded(AsmCompMap(op), inv, tail);
    StepCmp(Cmp(Hi), [CmpEq(Lo)] + c1, a, b, f);
    StepCmp(CmpEq(Lo), c1, a, b, g);
    EqualWords(a.hi, b.hi);
    GuardRuns(AsmCompMap(op), inv, tail, a, b, if a.hi == b.hi then l else g);
    Decides(op, a, b);
  }
}
