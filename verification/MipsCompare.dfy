// MIPS32: 64-bit comparisons. The instruction after a branch is executed before it takes effect.
module MipsCompare {
  import opened Words
  import opened CmpOps

  // Registers: the operand words, the assembler temporary, a scratch register and zero.
  datatype Reg = LeftHi | LeftLo | RightHi | RightLo | TMP | SCRATCH | ZERO

  // A label is the number of instructions from it to the end of the code.
  datatype Target = Exit | LoopStart | Label(left: nat)
  datatype Ins =
    | Slt(signed: bool, rd: Reg, rs: Reg, rt: Reg)
    | Xor(rd: Reg, rs: Reg, rt: Reg)
    | Or(rd: Reg, rs: Reg, rt: Reg)
    | Beq(rs: Reg, rt: Reg, to: Target)
    | Bne(rs: Reg, rt: Reg, to: Target)
    | LoadSnap(snapno: u32)   // li TMP, snapno
    | Nop
    | Tail                    // what follows: in a loop, the jump back to its start
    | ExitStub                // the common exit code behind a trace

  predicate IsBranch(i: Ins) { i.Beq? || i.Bne? }

  datatype State = State(a: Pair, b: Pair, tmp: u32, scratch: u32)

  function Value(r: Reg, s: State): u32 {
    match r
    case LeftHi => s.a.hi case LeftLo => s.a.lo case RightHi => s.b.hi case RightLo => s.b.lo
    case TMP => s.tmp case SCRATCH => s.scratch case ZERO => 0
  }

  // The operand registers are never written.
  function Write(r: Reg, x: u32, s: State): State {
    match r case TMP => s.(tmp := x) case SCRATCH => s.(scratch := x) case _ => s
  }

  // The low w bits of x | y or x ^ y.
  function Bits(or: bool, x: nat, y: nat, w: nat): (r: nat)
    ensures r < Pow2(w)
  {
    if w == 0 then 0
    else
      var bit := if or then x % 2 == 1 || y % 2 == 1 else x % 2 != y % 2;
      (if bit then 1 else 0) + 2 * Bits(or, x / 2, y / 2, w - 1)
  }

  function Bits32(or: bool, x: u32, y: u32): u32 {
    Pow2Values();
    Bits(or, x, y, 32)
  }

  // x ^ y is zero for equal words only, x | y for two zeros only.
  lemma {:induction false} BitsZero(x: nat, y: nat, w: nat)
    requires x < Pow2(w) && y < Pow2(w)
    ensures Bits(false, x, y, w) == 0 <==> x == y
    ensures Bits(true, x, y, w) == 0 <==> x == 0 && y == 0
    decreases w
  {
    if w > 0 { BitsZero(x / 2, y / 2, w - 1); }
  }

  lemma Bits32Zero(x: u32, y: u32)
    ensures Bits32(false, x, y) == 0 <==> x == y
    ensures Bits32(true, x, y) == 0 <==> x == 0 && y == 0
  {
    Pow2Values();
    BitsZero(x, y, 32);
  }

  function Exec(i: Ins, s: State): State {
    match i
    case Slt(signed, rd, rs, rt) =>
      var (x, y) := (Value(rs, s), Value(rt, s));
      Write(rd, if (if signed then Signed(x) < Signed(y) else x < y) then 1 else 0, s)
    case Xor(rd, rs, rt) => Write(rd, Bits32(false, Value(rs, s), Value(rt, s)), s)
    case Or(rd, rs, rt) => Write(rd, Bits32(true, Value(rs, s), Value(rt, s)), s)
    case LoadSnap(n) => s.(tmp := n)
    case _ => s
  }

  function Taken(i: Ins, s: State): bool
    requires IsBranch(i)
  {
    (Value(i.rs, s) == Value(i.rt, s)) == i.Beq?
  }

  // An exit carries the snapshot number in TMP.
  datatype Outcome = Exits(snapno: u32) | Continues | Stuck

  function Run(code: seq<Ins>, s: State): Outcome
    decreases |code|
  {
    if code == [] then Stuck
    else if code[0].Tail? then Continues
    else if code[0].ExitStub? then Exits(s.tmp)
    else if !IsBranch(code[0]) then Run(code[1..], Exec(code[0], s))
    else if |code| < 2 || IsBranch(code[1]) || code[1].ExitStub? then Stuck
    else
      var s' := Exec(code[1], s);
      if !Taken(code[0], s) then (if code[1].Tail? then Continues else Run(code[2..], s'))
      else match code[0].to
        case Exit => Exits(s'.tmp)
        case LoopStart => Continues
        case Label(n) => if n < |code| then Run(code[|code| - n..], s') else Stuck
  }

  predicate Plain(i: Ins) { !IsBranch(i) && !i.Tail? && !i.ExitStub? }

  lemma StepPlain(i: Ins, rest: seq<Ins>, s: State)
    requires Plain(i)
    ensures Run([i] + rest, s) == Run(rest, Exec(i, s))
  {
  }

  // MIPSI_BEQ ^ MIPSI_BNE; the target of an inverted branch is filled in when the loop is closed.
  function Invert(br: Ins): Ins
    requires IsBranch(br)
  {
    if br.Beq? then Bne(br.rs, br.rt, LoopStart) else Beq(br.rs, br.rt, LoopStart)
  }

  // The guard, with the snapshot number loaded in its delay slot. As the last guard of a loop it takes
  // the place of the jump back, and execution that passes it runs into the exit stub.
  function Guarded(br: Ins, snapno: u32, inv: bool, tail: seq<Ins>): seq<Ins>
    requires IsBranch(br) && tail != []
  {
    if inv then [Invert(br)] + ([LoadSnap(snapno)] + tail[1..]) else [br] + ([LoadSnap(snapno)] + tail)
  }

  // The end of a trace: the tail, and for a loop the NOP and the exit stub behind it.
  predicate IsTail(tail: seq<Ins>, inv: bool) {
    if inv then tail == [Tail, Nop, ExitStub] else tail != [] && tail[0].Tail?
  }

  lemma GuardRuns(br: Ins, n: u32, inv: bool, tail: seq<Ins>, s: State)
    requires IsBranch(br) && br.to.Exit? && IsTail(tail, inv)
    ensures Run(Guarded(br, n, inv, tail), s) == if Taken(br, s) then Exits(n) else Continues
  {
    if inv {
      var code := Guarded(br, n, inv, tail);
      assert code == [Invert(br), LoadSnap(n), Nop, ExitStub];
      assert Taken(Invert(br), s) != Taken(br, s);
      assert code[2..] == [Nop, ExitStub];
      StepPlain(Nop, [ExitStub], Exec(LoadSnap(n), s));
      assert [Nop] + [ExitStub] == [Nop, ExitStub];
    }
  }

  // A branch over the next two instructions, the first of which is its delay slot.
  lemma BranchRuns(br: Ins, x: Ins, y: Ins, rest: seq<Ins>, s: State)
    requires IsBranch(br) && br.to == Label(|rest|) && Plain(x) && Plain(y)
    ensures Run([br] + ([x] + ([y] + rest)), s) == Run(rest, if Taken(br, s) then Exec(x, s) else Exec(y, Exec(x, s)))
  {
    var code := [br] + ([x] + ([y] + rest));
    assert code[1] == x && code[2..] == [y] + rest && code[|code| - |rest|..] == rest;
    StepPlain(y, rest, Exec(x, s));
  }

  // Bits of the operator's number in ORDER IR.
  predicate Bit0(op: CmpOp) { op in {GE, GT, UGE, UGT, NE} }
  predicate Bit1(op: CmpOp) { op in {LE, GT, ULE, UGT} }
  predicate Bit2(op: CmpOp) { op in {ULT, UGE, ULE, UGT} }

  // The comparison is decided by one less-than, of the operands or of the swapped operands.
  lemma Decides(op: CmpOp, a: Pair, b: Pair)
    requires op !in {EQ, NE}
    ensures var less := if Bit1(op) then Less(!Bit2(op), b, a) else Less(!Bit2(op), a, b);
      Holds64(op, a, b) <==> less != (Bit0(op) != Bit1(op))
  {
  }

  class Asm {
    var code: seq<Ins>
    const snapno: u32
    var invmcp: nat   // length of the code at the place where a loop branch may be inverted, or 0

    method Emit(i: Ins)
      modifies this`code
      ensures code == [i] + old(code)
    {
      code := [i] + code;
    }

    method Guard(br: Ins)
      requires IsBranch(br) && code != []
      modifies this
      ensures code == Guarded(br, snapno, |old(code)| == old(invmcp), old(code))
      ensures invmcp == if |old(code)| == old(invmcp) then 0 else old(invmcp)
    {
      var mi := br;
      if |code| == invmcp {
        invmcp := 0;
        code := code[1..];
        mi := Invert(br);
      }
      Emit(LoadSnap(snapno));
      Emit(mi);
    }

    // Ordered comparisons. With same, both high words are in one register.
    method Comp64(op: CmpOp, same: bool)
      requires op !in {EQ, NE} && IsTail(code, |code| == invmcp)
      modifies this
      ensures forall s: State :: (same ==> s.a.hi == s.b.hi) ==>
        Run(code, s) == if Holds64(op, s.a, s.b) then Continues else Exits(snapno)
    {
      hide Run, Holds64, Exec;
      ghost var tail, inv := code, |code| == invmcp;
      var br := if Bit0(op) != Bit1(op) then Bne(TMP, ZERO, Exit) else Beq(TMP, ZERO, Exit);
      Guard(br);
      ghost var guard := code;
      var end := |code|;
      if !same {
        Emit(Slt(!Bit2(op), TMP, if Bit1(op) then RightHi else LeftHi, if Bit1(op) then LeftHi else RightHi));
      }
      Emit(Slt(false, TMP, if Bit1(op) then RightLo else LeftLo, if Bit1(op) then LeftLo else RightLo));
      if !same { Emit(Beq(LeftHi, RightHi, Label(end))); }
      forall s: State | same ==> s.a.hi == s.b.hi
        ensures Run(code, s) == if Holds64(op, s.a, s.b) then Continues else Exits(snapno)
      {
        var lo := Slt(false, TMP, if Bit1(op) then RightLo else LeftLo, if Bit1(op) then LeftLo else RightLo);
        var hi := Slt(!Bit2(op), TMP, if Bit1(op) then RightHi else LeftHi, if Bit1(op) then LeftHi else RightHi);
        if same {
          StepPlain(lo, guard, s);
        } else {
          BranchRuns(Beq(LeftHi, RightHi, Label(end)), lo, hi, guard, s);
        }
        var s' := if s.a.hi == s.b.hi then Exec(lo, s) else Exec(hi, Exec(lo, s));
        LessRuns(op, s);
        GuardRuns(br, snapno, inv, tail, s');
        Decides(op, s.a, s.b);
      }
    }

    // Equality comparisons.
    method Comp64Eq(op: CmpOp)
      requires op in {EQ, NE} && IsTail(code, |code| == invmcp)
      modifies this
      ensures forall s: State :: Run(code, s) == if Holds64(op, s.a, s.b) then Continues else Exits(snapno)
    {
      hide Run, Bits32;
      ghost var tail, inv := code, |code| == invmcp;
      var br := if Bit0(op) then Beq(TMP, ZERO, Exit) else Bne(TMP, ZERO, Exit);
      Guard(br);
      ghost var c1 := code;
      Emit(Or(TMP, TMP, SCRATCH));
      ghost var c2 := code;
      Emit(Xor(SCRATCH, LeftHi, RightHi));
      ghost var c3 := code;
      Emit(Xor(TMP, LeftLo, RightLo));
      forall s: State ensures Run(code, s) == if Holds64(op, s.a, s.b) then Continues else Exits(snapno) {
        hide Exec, Holds64;
        var s1 := Exec(Xor(TMP, LeftLo, RightLo), s);
        var s2 := Exec(Xor(SCRATCH, LeftHi, RightHi), s1);
        var s3 := Exec(Or(TMP, TMP, SCRATCH), s2);
        EqRuns(s);
        EqHolds(s.a, s.b);
        StepPlain(Xor(TMP, LeftLo, RightLo), c3, s);
        StepPlain(Xor(SCRATCH, LeftHi, RightHi), c2, s1);
        StepPlain(Or(TMP, TMP, SCRATCH), c1, s2);
        GuardRuns(br, snapno, inv, tail, s3);
      }
    }
  }

  // TMP is zero in front of the guard exactly for equal operands.
  lemma EqRuns(s: State)
    ensures var s1 := Exec(Xor(TMP, LeftLo, RightLo), s);
      var s2 := Exec(Xor(SCRATCH, LeftHi, RightHi), s1);
      Exec(Or(TMP, TMP, SCRATCH), s2).tmp == 0 <==> s.a == s.b
  {
    hide Bits32;
    Bits32Zero(s.a.lo, s.b.lo);
    Bits32Zero(s.a.hi, s.b.hi);
    Bits32Zero(Bits32(false, s.a.lo, s.b.lo), Bits32(false, s.a.hi, s.b.hi));
  }

  lemma EqHolds(a: Pair, b: Pair)
    ensures (Holds64(EQ, a, b) <==> a == b) && (Holds64(NE, a, b) <==> a != b)
  {
    SplitLess(a, b);
    hide UnsignedPair;
  }

  // TMP holds the 64-bit less-than at the end label.
  lemma LessRuns(op: CmpOp, s: State)
    requires op !in {EQ, NE}
    ensures var (lo, hi) := (
        Slt(false, TMP, if Bit1(op) then RightLo else LeftLo, if Bit1(op) then LeftLo else RightLo),
        Slt(!Bit2(op), TMP, if Bit1(op) then RightHi else LeftHi, if Bit1(op) then LeftHi else RightHi));
      var s' := if s.a.hi == s.b.hi then Exec(lo, s) else Exec(hi, Exec(lo, s));
      s'.tmp != 0 <==> if Bit1(op) then Less(!Bit2(op), s.b, s.a) else Less(!Bit2(op), s.a, s.b)
  {
    SplitLess(s.a, s.b);
    SplitLess(s.b, s.a);
  }
}
