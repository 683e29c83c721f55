// ARM32: dropping `cmp r, #0` when the previous instruction can set the flags (asm_drop_cmp0).
module ArmDropCmp {
  import opened Words
  import opened ArmCompare
  import ArmImm

  type Reg = r: nat | r < 16

  datatype Op = ADD | SUB | RSB | AND | ORR | EOR | MVN

  datatype Code =
    | Alu(op: Op, s: bool, rd: Reg, rn: Reg, rm: Reg)
    | CmpZero(rn: Reg)
    | Branch(cc: Cc)   // to the exit
    | Rest

  predicate IsRegs(r: seq<u32>) { |r| == 16 }

  // Result and flags; c is the carry out of the shifter.
  function Result(op: Op, x: u32, y: u32, f: Flags, c: bool): (u32, Flags) {
    match op
    case ADD => ArmImm.AddWithCarry(x, y, false)
    case SUB => ArmImm.AddWithCarry(x, Not32(y), true)
    case RSB => ArmImm.AddWithCarry(y, Not32(x), true)
    case MVN => ArmImm.Logical(Not32(y), f, c)
    case AND => ArmImm.Logical(ArmImm.And(x, y, 32), f, c)
    case ORR => ArmImm.Logical(ArmImm.Or32(x, y), f, c)
    case EOR => ArmImm.Logical(ArmImm.Eor32(x, y), f, c)
  }

  // Whether the code exits, and the registers it leaves.
  function Execute(code: seq<Code>, r: seq<u32>, f: Flags, c: bool): (bool, seq<u32>)
    requires IsRegs(r)
  {
    if code == [] then (false, r)
    else match code[0]
      case Rest => (false, r)
      case Branch(cc) => if Cond(cc, f) then (true, r) else Execute(code[1..], r, f, c)
      case CmpZero(rn) => Execute(code[1..], r, CmpFlags(r[rn], 0), c)
      case Alu(op, s, rd, rn, rm) =>
        var (v, g) := Result(op, r[rn], r[rm], f, c);
        Execute(code[1..], r[rd := v], if s then g else f, c)
  }

  // The condition that reads the same off the result's own flags, if there is one.
  function DropCc(cc: Cc): Option<Cc> {
    match cc
    case CC_EQ => Some(CC_EQ) case CC_NE => Some(CC_NE)
    case CC_GE => Some(CC_PL) case CC_LT => Some(CC_MI)
    case _ => None
  }

  lemma ResultSign(op: Op, x: u32, y: u32, f: Flags, c: bool)
    ensures var (v, g) := Result(op, x, y, f, c); g.z == (v == 0) && g.n == (v >= TWO31)
  {
  }

  lemma CmpZeroFlags(x: u32)
    ensures var f := CmpFlags(x, 0); f.z == (x == 0) && f.n == (x >= TWO31) && f.c && !f.v
  {
  }

  // Replacing the compare by the flags of the operation keeps every branch outcome.
  lemma DropKeeps(op: Op, x: u32, y: u32, f: Flags, c: bool, cc: Cc)
    requires DropCc(cc).Some?
    ensures var (v, g) := Result(op, x, y, f, c); Cond(DropCc(cc).value, g) == Cond(cc, CmpFlags(v, 0))
  {
    var v := Result(op, x, y, f, c).0;
    ResultSign(op, x, y, f, c);
    CmpZeroFlags(v);
    hide Result, CmpFlags;
  }

  predicate AddAgrees(cc: Cc, cc': Cc, x: u32, y: u32) {
    var (v, g) := ArmImm.AddWithCarry(x, y, false);
    Cond(cc', g) == Cond(cc, CmpFlags(v, 0))
  }

  // GT and LE cannot be read off the flags of an addition, whatever they are rewritten to.
  lemma DropOnly(cc: Cc, cc': Cc)
    requires cc in {CC_GT, CC_LE}
    ensures exists x: u32, y: u32 :: !AddAgrees(cc, cc', x, y)
  {
    if AddAgrees(cc, cc', 1, 0) && AddAgrees(cc, cc', 0, 0) && AddAgrees(cc, cc', 0x8000_0000, 0) {
      assert !AddAgrees(cc, cc', 0x7fff_ffff, 1);
    }
  }

  class Asm {
    var code: seq<Code>
    var flagmcp: nat   // length of the code that starts with a compare that may be dropped, or 0

    // The compare is followed by its branch, and nothing else uses its flags.
    ghost predicate Droppable(rd: Reg)
      reads this
    {
      flagmcp == |code| ==> |code| >= 3 && code[0] == CmpZero(rd) && code[1].Branch? && code[2].Rest?
    }

    method DropCmp0(rd: Reg) returns (s: bool)
      requires Droppable(rd) && code != []
      modifies this
      ensures s ==> old(flagmcp) == |old(code)| && DropCc(old(code[1].cc)).Some?
      ensures s ==> code == [Branch(DropCc(old(code[1].cc)).value)] + old(code)[2..]
      ensures !s ==> code == old(code)
      ensures s <==> old(flagmcp) == |old(code)| && old(code)[1].cc in {CC_EQ, CC_NE, CC_GE, CC_LT}
    {
      s := false;
      if flagmcp == |code| {
        var cc := code[1].cc;
        flagmcp := 0;
        if cc == CC_EQ || cc == CC_NE {
          code := code[1..];
          s := true;
        } else if cc == CC_GE {
          code := [Branch(CC_PL)] + code[2..];
          s := true;
        } else if cc == CC_LT {
          code := [Branch(CC_MI)] + code[2..];
          s := true;
        }
      }
    }

    // An integer operation, guarded against overflow or not: the code exits for the same registers and
    // leaves the same ones as with the compare kept.
    method IntOpS(op: Op, rd: Reg, rn: Reg, rm: Reg, guard: bool)
      requires Droppable(rd) && code != []
      modifies this
      ensures forall r: seq<u32>, f: Flags, c: bool :: IsRegs(r) ==>
        Execute(code, r, f, c) == Execute(Plain(op, rd, rn, rm, guard, old(code)), r, f, c)
      ensures old(flagmcp) == |old(code)| && old(code)[1].cc in {CC_EQ, CC_NE, CC_GE, CC_LT} ==>
        |code| == |old(code)| + (if guard then 1 else 0) && CmpZero(rd) !in code[..3]
    {
      ghost var before := code;
      var s := DropCmp0(rd);
      if guard {
        code := [Branch(CC_VS)] + code;
        code := [Alu(op, true, rd, rn, rm)] + code;
      } else {
        code := [Alu(op, s, rd, rn, rm)] + code;
      }
      forall r: seq<u32>, f: Flags, c: bool | IsRegs(r) && s
        ensures Execute(code, r, f, c) == Execute(Plain(op, rd, rn, rm, guard, before), r, f, c)
      {
        Dropped(op, rd, rn, rm, guard, before, r, f, c);
      }
    }
  }

  // The operation with the compare kept.
  function Plain(op: Op, rd: Reg, rn: Reg, rm: Reg, guard: bool, code: seq<Code>): seq<Code> {
    if guard then [Alu(op, true, rd, rn, rm)] + ([Branch(CC_VS)] + code) else [Alu(op, false, rd, rn, rm)] + code
  }

  lemma Dropped(op: Op, rd: Reg, rn: Reg, rm: Reg, guard: bool, old': seq<Code>, r: seq<u32>, f: Flags, c: bool)
    requires IsRegs(r) && |old'| >= 3 && old'[0] == CmpZero(rd) && old'[1].Branch? && old'[2].Rest?
    requires DropCc(old'[1].cc).Some?
    ensures var code := [Branch(DropCc(old'[1].cc).value)] + old'[2..];
      var guarded := if guard then [Branch(CC_VS)] + code else code;
      Execute([Alu(op, true, rd, rn, rm)] + guarded, r, f, c)
      == Execute(Plain(op, rd, rn, rm, guard, old'), r, f, c)
  {
    hide Result, Cond, CmpFlags;
    var code := [Branch(DropCc(old'[1].cc).value)] + old'[2..];
    var (v, g) := Result(op, r[rn], r[rm], f, c);
    var r' := r[rd := v];
    DropKeeps(op, r[rn], r[rm], f, c, old'[1].cc);
    assert old'[1..][1..] == old'[2..] && code[1..] == old'[2..];
    assert Execute(old'[2..], r', g, c) == (false, r') && Execute(old'[2..], r', CmpFlags(v, 0), c) == (false, r');
    assert Execute(code, r', g, c) == (Cond(DropCc(old'[1].cc).value, g), r');
    forall h: Flags ensures Execute(old', r', h, c) == Execute(code, r', g, c) {
      assert Execute(old', r', h, c) == Execute(old'[1..], r', CmpFlags(v, 0), c);
    }
    AluStep(op, true, rd, rn, rm, code, r, f, c);
    AluStep(op, false, rd, rn, rm, old', r, f, c);
    AluStep(op, true, rd, rn, rm, [Branch(CC_VS)] + code, r, f, c);
    AluStep(op, true, rd, rn, rm, [Branch(CC_VS)] + old', r, f, c);
    assert ([Branch(CC_VS)] + code)[1..] == code && ([Branch(CC_VS)] + old')[1..] == old';
  }

  lemma AluStep(op: Op, s: bool, rd: Reg, rn: Reg, rm: Reg, rest: seq<Code>, r: seq<u32>, f: Flags, c: bool)
    requires IsRegs(r)
    ensures var (v, g) := Result(op, r[rn], r[rm], f, c);
      Execute([Alu(op, s, rd, rn, rm)] + rest, r, f, c) == Execute(rest, r[rd := v], if s then g else f, c)
  {
  }
}
