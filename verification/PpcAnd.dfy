// PPC: BAND with a constant, fused with a shift or rotate, as rlwinm.
module PpcAnd {
  import opened Bits

  type Reg = r: nat | r < 32
  type Word32 = x: Word | |x| == 32 witness Zero(32)

  datatype Ins =
    | Rlwinm(rc: bool, ra: Reg, rs: Reg, sh: int, mb: int, me: int)
    | Andi(ra: Reg, rs: Reg, ui: Word)
    | Andis(ra: Reg, rs: Reg, ui: Word)
    | AndReg(rc: bool, ra: Reg, rs: Reg, rb: Reg)
    | Andc(rc: bool, ra: Reg, rs: Reg, rb: Reg)

  predicate Legal(i: Ins) {
    match i
    case Rlwinm(_, _, _, sh, mb, me) => 0 <= sh < 32 && 0 <= mb < 32 && 0 <= me < 32
    case Andi(_, _, ui) => |ui| == 16
    case Andis(_, _, ui) => |ui| == 16
    case _ => true
  }

  // CR0 is set from the result; andi. and andis. always record.
  predicate Records(i: Ins) { i.Andi? || i.Andis? || i.rc }

  function Rotl(x: Word32, n: nat): (r: Word32) { seq(32, i requires 0 <= i < 32 => x[(i - n) % 32]) }

  // MASK(mb, me) of section 3.3.14 of Power ISA Book I; bit 0 is the most significant one.
  function Mask(mb: nat, me: nat): (r: Word32) {
    seq(32, i requires 0 <= i < 32 => if mb <= me then mb <= 31 - i <= me else mb <= 31 - i || 31 - i <= me)
  }

  predicate IsRegs(r: seq<Word32>) { |r| == 32 }

  function Result(i: Ins, r: seq<Word32>): (x: Word32)
    requires Legal(i) && IsRegs(r)
  {
    match i
    case Rlwinm(_, _, rs, sh, mb, me) => And(Rotl(r[rs], sh), Mask(mb, me))
    case Andi(_, rs, ui) => And(r[rs], ui + Zero(16))
    case Andis(_, rs, ui) => And(r[rs], Zero(16) + ui)
    case AndReg(_, _, rs, rb) => And(r[rs], r[rb])
    case Andc(_, _, rs, rb) => And(r[rs], Not(r[rb]))
  }

  // -- Operands -----------------------------------------------------------------------

  datatype Shift = BSHL | BSHR | BSAR | BROL | BROR

  // The left operand: its register, and its defining shift by a constant when that may be fused.
  datatype Left = Plain(home: Reg) | Fusible(home: Reg, sh: Shift, x: Reg, k: int)

  // The right operand: a constant with the register it is loaded into if need be, a register, or a
  // fusible complement.
  datatype Right = Const(home: Reg, k: Word32) | InReg(home: Reg) | NotOf(x: Reg)

  predicate Loaded(o: Right, i: Ins, r: seq<Word32>)
    requires IsRegs(r)
  {
    o.Const? && i.AndReg? ==> r[o.home] == o.k
  }

  function Shifted(x: Word32, sh: Shift, k: int): (r: Word32) {
    match sh
    case BSHL => Lsl(x, k % 32)
    case BSHR => Lsr(x, k % 32)
    case BSAR => Asr(x, k % 32)
    case BROL => Rotl(x, k % 32)
    case BROR => Ror(x, k % 32)
  }

  // A fused operand is never computed into its own register.
  function LeftValue(l: Left, fused: bool, r: seq<Word32>): (x: Word32)
    requires IsRegs(r) && (fused ==> l.Fusible?)
  {
    if fused then Shifted(r[l.x], l.sh, l.k) else r[l.home]
  }

  function RightValue(o: Right, r: seq<Word32>): (x: Word32)
    requires IsRegs(r)
  {
    match o case Const(_, k) => k case InReg(h) => r[h] case NotOf(x) => Not(r[x])
  }

  // -- Masks ----------------------------------------------------------------------------

  ghost predicate Contiguous(k: Word) { exists lo: nat, hi: nat :: Run(k, lo, hi) }

  // (k1 & (k1+1)) == 0 for k shifted down to its lowest one.
  predicate RunTest(k: Word)
    requires true in k
  {
    var k1 := Lsr(k, Ctz(k));
    true !in And(k1, Inc(k1))
  }

  lemma RunTestExact(k: Word)
    requires true in k
    ensures RunTest(k) ==> Run(k, Ctz(k), |k| - 1 - Clz(k))
    ensures RunTest(k) <==> Contiguous(k)
  {
    hide And, Lsr, RunTest, IsRun, LowRun, Run, Ctz, Clz, Inc;
    var k1 := Lsr(k, Ctz(k));
    RunTestIsRun(k);
    RunExact(k1);
    if RunTest(k) { LiftRun(k, |k1| - 1 - Clz(k1)); }
    if lo: nat, hi: nat :| Run(k, lo, hi) { LowerRun(k, lo, hi); }
  }

  // The shifted mask has its lowest bit set, so the test is that for a run at the bottom.
  lemma RunTestIsRun(k: Word)
    requires true in k
    ensures RunTest(k) <==> IsRun(Lsr(k, Ctz(k)))
  {
    var k1 := Lsr(k, Ctz(k));
    assert k1[0];
    hide And, Inc, Ctz, Lsr;
    AndCommutes(k1, Inc(k1));
  }

  // A run stays one when shifted down to its lowest bit, and back.
  lemma LiftRun(k: Word, t: nat)
    requires true in k && LowRun(Lsr(k, Ctz(k)), t)
    ensures Run(k, Ctz(k), |k| - 1 - Clz(k))
  {
    hide Lsr, Ctz, Clz;
    var s, hi := Ctz(k), |k| - 1 - Clz(k);
    forall i | s <= i < |k| ensures k[i] <==> i <= s + t { LsrAt(k, s, i - s); }
    TopOfRun(k, s, t);
    assert k[hi] && s <= hi;
  }

  lemma LsrAt(k: Word, n: nat, j: nat)
    requires j + n < |k|
    ensures Lsr(k, n)[j] == k[j + n]
  {
  }

  lemma TopOfRun(k: Word, s: nat, t: nat)
    requires LowRun(Lsr(k, s), t)
    ensures s + t < |k| && k[s + t]
  {
    assert Lsr(k, s)[t];
  }

  lemma LowerRun(k: Word, lo: nat, hi: nat)
    requires Run(k, lo, hi) && true in k
    ensures lo <= hi && LowRun(Lsr(k, Ctz(k)), hi - lo)
  {
    assert k[lo] && Ctz(k) == lo;
  }

  lemma HasOne(k: Word)
    ensures Contiguous(k) ==> true in k
  {
    if lo: nat, hi: nat :| Run(k, lo, hi) { assert k[lo]; }
  }

  lemma AndCommutes(a: Word, b: Word)
    requires |a| == |b|
    ensures And(a, b) == And(b, a)
  {
  }

  lemma StraightMask(k: Word32, lo: nat, hi: nat)
    requires Run(k, lo, hi)
    ensures Mask(31 - hi, 31 - lo) == k
  {
  }

  // A run of zeros strictly inside gives a mask that wraps around.
  lemma WrappedMask(k: Word32, lo: nat, hi: nat)
    requires Run(Not(k), lo, hi) && true in k && !Contiguous(k)
    ensures lo >= 1 && hi <= 30 && Mask(32 - lo, 30 - hi) == k
  {
    forall i | 0 <= i < 32 ensures k[i] <==> !(lo <= i <= hi) { assert Not(k)[i] == !k[i]; }
    if lo == 0 && hi < 31 { assert Run(k, hi + 1, 31); }
    if hi == 31 && lo > 0 { assert Run(k, 0, lo - 1); }
  }

  // Inside the mask the rotate is the shift.
  predicate ShiftFits(sh: Shift, s: nat, k: Word32)
    requires s < 32
  {
    match sh
    case BSHL => true !in k[..s]
    case BSHR => true !in k[32 - s..]
    case BROL => true
    case _ => false
  }

  lemma RotateIsShift(x: Word32, sh: Shift, s: nat, k: Word32)
    requires s < 32 && ShiftFits(sh, s, k)
    ensures And(Rotl(x, if sh == BSHR then (32 - s) % 32 else s), k) == And(Shifted(x, sh, s), k)
  {
    hide And, Rotl, Lsl, Lsr;
    assert s % 32 == s;
    if sh == BSHL { RotateIsLeft(x, s, k); }
    if sh == BSHR { RotateIsRight(x, s, k); }
  }

  lemma RotateIsLeft(x: Word32, s: nat, k: Word32)
    requires s < 32 && true !in k[..s]
    ensures And(Rotl(x, s), k) == And(Lsl(x, s), k)
  {
  }

  lemma RotateIsRight(x: Word32, s: nat, k: Word32)
    requires s < 32 && true !in k[32 - s..]
    ensures And(Rotl(x, (32 - s) % 32), k) == And(Lsr(x, s), k)
  {
  }

  lemma NoRotate(x: Word32)
    ensures Rotl(x, 0) == x
  {
  }

  // A halfword mask is the immediate of andi. or andis.
  lemma HalfMask(k: Word32)
    ensures true !in k[16..] ==> k[..16] + Zero(16) == k
    ensures true !in k[..16] ==> Zero(16) + k[16..] == k
  {
    if true !in k[16..] {
      forall i | 16 <= i < 32 ensures !k[i] { assert !k[16..][i - 16]; }
    }
    if true !in k[..16] {
      forall i | 0 <= i < 16 ensures !k[i] { assert !k[..16][i]; }
    }
  }

  // The fields of a mask that is contiguous or wraps around.
  method FindMask(k: Word32) returns (found: bool, mb: nat, me: nat)
    ensures found <==> true in k && (Contiguous(k) || Contiguous(Not(k)))
    ensures found ==> mb < 32 && me < 32 && Mask(mb, me) == k
  {
    hide And, Mask, RunTest, Contiguous, Run, Not, Ctz, Clz;
    found, mb, me := false, 0, 0;
    if true in k {
      RunTestExact(k);
      if RunTest(k) {
        var s1, fls := Ctz(k), 31 - Clz(k);
        StraightMask(k, s1, fls);
        return true, 31 - fls, 31 - s1;
      }
      HasOne(Not(k));
      if true in Not(k) {
        RunTestExact(Not(k));
        if RunTest(Not(k)) {
          var s2, fls := Ctz(Not(k)), 31 - Clz(Not(k));
          WrappedMask(k, s2, fls);
          return true, 32 - s2, 30 - fls;
        }
      }
    }
  }

  class Asm {
    var code: seq<Ins>

    // A mask over a constant shift becomes one rotate-and-mask.
    method FuseAndSh(rc: bool, dest: Reg, mb: nat, me: nat, mask: Word32, l: Left) returns (ghost fused: bool)
      requires mb < 32 && me < 32 && Mask(mb, me) == mask
      modifies this
      ensures |code| == |old(code)| + 1 && code[1..] == old(code) && Legal(code[0])
      ensures code[0].Rlwinm? && code[0].ra == dest && code[0].rc == rc
      ensures fused <==> l.Fusible? && ShiftFits(l.sh, l.k % 32, mask)
      ensures forall r: seq<Word32> :: IsRegs(r) ==> Result(code[0], r) == And(LeftValue(l, fused, r), mask)
    {
      hide Mask, And, Rotl;
      if l.Fusible? {
        var sh := l.k % 32;
        var fits := match l.sh
          case BSHL => true !in mask[..sh]
          case BSHR => true !in mask[32 - sh..]
          case BROL => true
          case _ => false;
        if fits {
          forall r: seq<Word32> | IsRegs(r) { RotateIsShift(r[l.x], l.sh, l.k % 32, mask); }
          if l.sh == BSHR { sh := (32 - sh) % 32; }
          code := [Rlwinm(rc, dest, l.x, sh, mb, me)] + code;
          return true;
        }
      }
      forall r: seq<Word32> | IsRegs(r) { NoRotate(r[l.home]); }
      code := [Rlwinm(rc, dest, l.home, 0, mb, me)] + code;
      return false;
    }

    // dot: a compare of the result with zero was dropped, so the instruction has to record.
    method AsmBand(dot: bool, dest: Reg, l: Left, op2: Right) returns (ghost fused: bool)
      modifies this
      ensures |code| == |old(code)| + 1 && code[1..] == old(code) && Legal(code[0]) && code[0].ra == dest
      ensures dot ==> Records(code[0])
      ensures fused ==> l.Fusible?
      ensures code[0].Rlwinm? <==>
        op2.Const? && true in op2.k && (Contiguous(op2.k) || Contiguous(Not(op2.k)))
      ensures fused <==> code[0].Rlwinm? && l.Fusible? && ShiftFits(l.sh, l.k % 32, op2.k)
      ensures forall r: seq<Word32> :: IsRegs(r) && Loaded(op2, code[0], r) ==>
        Result(code[0], r) == And(LeftValue(l, fused, r), RightValue(op2, r))
    {
      hide And, Mask, Rotl, Contiguous, ShiftFits, Shifted;
      if op2.Const? {
        var k: Word32 := op2.k;
        var found, mb, me := FindMask(k);
        if found {
          fused := FuseAndSh(dot, dest, mb, me, k, l);
          return;
        }
        HalfMask(k);
        if true !in k[16..] {
          code := [Andi(dest, l.home, k[..16])] + code;
          return false;
        } else if true !in k[..16] {
          code := [Andis(dest, l.home, k[16..])] + code;
          return false;
        }
      }
      code := [if op2.NotOf? then Andc(dot, dest, l.home, op2.x) else AndReg(dot, dest, l.home, op2.home)] + code;
      return false;
    }
  }
}
