// ARM64 bitfield fusions: shift and mask to UBFM, shift pairs to UBFM/SBFM, OR of shifts to EXTR.
module A64Bitfield {
  import opened Words
  import opened Bits
  import opened ModArith

  type Reg = r: nat | r < 32

  datatype Ins =
    | Ubfm(w: nat, rd: Reg, rn: Reg, immr: int, imms: int)
    | Sbfm(w: nat, rd: Reg, rn: Reg, immr: int, imms: int)
    | Extr(w: nat, rd: Reg, rn: Reg, rm: Reg, imms: int)

  // An immediate outside 0..w-1 is unallocated or spills into the neighbouring field.
  predicate Legal(i: Ins) {
    i.w in {32, 64} && 0 <= i.imms < i.w && (!i.Extr? ==> 0 <= i.immr < i.w)
  }

  predicate IsRegs(r: seq<Word>) { |r| == 32 && forall j :: 0 <= j < 32 ==> |r[j]| == 64 }

  // A field of x is moved; the bits below it are zero, the bits above it zero or its sign.
  function Bitfield(x: Word, immr: nat, imms: nat, signed: bool): (r: Word)
    requires immr < |x| && imms < |x|
    ensures |r| == |x|
  {
    var (from, to) := if imms >= immr then (immr, 0) else (0, |x| - immr);
    seq(|x|, i requires 0 <= i < |x| =>
      i >= to && if i - to + from <= imms then x[i - to + from] else signed && x[imms])
  }

  function Extract(n: Word, m: Word, lsb: nat): (r: Word)
    requires |n| == |m| && lsb < |n|
    ensures |r| == |n|
  {
    (m + n)[lsb..lsb + |n|]
  }

  // The result register; 32-bit operations clear the upper half.
  function Result(i: Ins, r: seq<Word>): (x: Word)
    requires Legal(i) && IsRegs(r)
    ensures |x| == i.w
  {
    match i
    case Ubfm(w, _, rn, immr, imms) => Bitfield(r[rn][..w], immr, imms, false)
    case Sbfm(w, _, rn, immr, imms) => Bitfield(r[rn][..w], immr, imms, true)
    case Extr(w, _, rn, rm, imms) => Extract(r[rn][..w], r[rm][..w], imms)
  }

  function Exec(i: Ins, r: seq<Word>): (r': seq<Word>)
    requires Legal(i) && IsRegs(r)
    ensures IsRegs(r')
  {
    r[i.rd := Result(i, r) + Zero(64 - i.w)]
  }

  // -- The operations of the intermediate code, with shift counts taken modulo the width ----

  datatype Shift = BSHL | BSHR | BSAR | BROR

  function Shifted(x: Word, sh: Shift, k: int): (r: Word)
    requires |x| > 0
    ensures |r| == |x|
  {
    ShiftBy(x, sh, k % |x|)
  }

  function ShiftBy(x: Word, sh: Shift, s: nat): (r: Word)
    requires |x| > 0
    ensures |r| == |x|
  {
    match sh
    case BSHL => Lsl(x, s)
    case BSHR => Lsr(x, s)
    case BSAR => Asr(x, s)
    case BROR => Ror(x, s)
  }

  lemma NegMod(w: nat, a: nat, b: nat)
    requires a < w && b < w
    ensures (a - b) % w == if a < b then a - b + w else a - b
    ensures (w - b) % w == if b == 0 then 0 else w - b
  {
    ModUnique(a - b, w, if a < b then -1 else 0, if a < b then a - b + w else a - b);
    ModUnique(w - b, w, if b == 0 then 1 else 0, if b == 0 then 0 else w - b);
  }

  // A masked shift is a field: left shifts keep the part of the mask above the shift.
  lemma MaskedShift(x: Word, sh: Shift, s: nat, mask: Word, t: nat)
    requires s < |x| <= 64 && sh in {BSHL, BSHR} && |mask| == 64
    requires forall j :: |x| <= j < 64 ==> !mask[j]
    requires LowRun(if sh == BSHL then Lsr(mask, s) else mask, t)
    ensures t < |x| && (sh == BSHL ==> t < |x| - s)
    ensures Bitfield(x, if sh == BSHL && s > 0 then |x| - s else s,
                     if sh == BSHL then t else if s + t >= |x| then |x| - 1 else s + t, false)
      == And(ShiftBy(x, sh, s), mask[..|x|])
  {
    hide Bitfield, And, Lsl, Lsr, LowRun;
    if sh == BSHL { MaskedLeft(x, s, mask, t); } else { MaskedRight(x, s, mask, t); }
  }

  lemma MaskedLeft(x: Word, s: nat, mask: Word, t: nat)
    requires s < |x| <= 64 && |mask| == 64 && (forall j :: |x| <= j < 64 ==> !mask[j]) && LowRun(Lsr(mask, s), t)
    ensures t < |x| - s
    ensures Bitfield(x, if s > 0 then |x| - s else s, t, false) == And(Lsl(x, s), mask[..|x|])
  {
    assert Lsr(mask, s)[t];
    forall i | s <= i < |x| ensures mask[i] <==> i - s <= t { assert mask[i] == Lsr(mask, s)[i - s]; }
  }

  lemma MaskedRight(x: Word, s: nat, mask: Word, t: nat)
    requires s < |x| <= 64 && |mask| == 64 && (forall j :: |x| <= j < 64 ==> !mask[j]) && LowRun(mask, t)
    ensures t < |x|
    ensures Bitfield(x, s, if s + t >= |x| then |x| - 1 else s + t, false) == And(Lsr(x, s), mask[..|x|])
  {
    assert mask[t];
  }

  // Two shifts are one field.
  lemma ShiftPair(x: Word, sh: Shift, s: nat, s2: nat)
    requires s < |x| && s2 < |x| && sh in {BSHR, BSAR}
    ensures Bitfield(x, if s < s2 then s - s2 + |x| else s - s2, |x| - 1 - s2, sh == BSAR)
      == ShiftBy(ShiftBy(x, BSHL, s2), sh, s)
  {
    var y, immr := Lsl(x, s2), if s < s2 then s - s2 + |x| else s - s2;
    forall i | 0 <= i < |x| ensures Bitfield(x, immr, |x| - 1 - s2, sh == BSAR)[i] == ShiftBy(y, sh, s)[i] {
      if i + s < |x| { assert y[i + s] == (i + s >= s2 && x[i + s - s2]); }
      assert y[|x| - 1] == x[|x| - 1 - s2];
    }
  }

  lemma OneShift(x: Word, sh: Shift, s: nat)
    requires s < |x|
    ensures
      match sh
      case BSHL => Bitfield(x, if s == 0 then 0 else |x| - s, |x| - 1 - s, false) == ShiftBy(x, sh, s)
      case BSHR => Bitfield(x, s, |x| - 1, false) == ShiftBy(x, sh, s)
      case BSAR => Bitfield(x, s, |x| - 1, true) == ShiftBy(x, sh, s)
      case BROR => Extract(x, x, s) == ShiftBy(x, sh, s)
  {
    if sh == BROR { RotateIsExtract(x, s); }
  }

  lemma RotateIsExtract(x: Word, s: nat)
    requires s < |x|
    ensures Extract(x, x, s) == Ror(x, s)
  {
    var y := (x + x)[s..s + |x|];
    forall i | 0 <= i < |x| ensures y[i] == x[(i + s) % |x|] {
      ModUnique(i + s, |x|, if i + s < |x| then 0 else 1, if i + s < |x| then i + s else i + s - |x|);
    }
  }

  // Complementary shifts of two words meet without overlap.
  lemma OrShift(a: Word, b: Word, l: nat, r: nat)
    requires |a| == |b| && l + r == |a| && 1 <= r < |a|
    ensures Extract(a, b, r) == Or(Lsl(a, l), Lsr(b, r))
  {
  }

  // A shift by a constant, as an operand.
  datatype Node = Node(sh: Shift, x: Reg, k: int)

  // The mask bits that meet a shifted-in bit of the operand.
  function MaskOf(w: nat, irl: Node, k: Word): Word
    requires w > 0
  {
    if irl.sh == BSHL then Lsr(k, irl.k % w) else k
  }

  lemma FieldOfMask(w: nat, irl: Node, k: Word, t: nat, i: Ins)
    requires w in {32, 64} && |k| == 64 && (forall j :: w <= j < 64 ==> !k[j])
    requires irl.sh in {BSHL, BSHR} && LowRun(MaskOf(w, irl, k), t)
    requires i.Ubfm? && i.w == w && i.rn == irl.x
    requires var (s, low) := (irl.k % w, if irl.sh == BSHL then 0 else irl.k % w);
      i.immr == (if irl.sh == BSHL then (w - s) % w else s) && i.imms == if low + t >= w then w - 1 else low + t
    ensures Legal(i)
    ensures forall r: seq<Word> :: IsRegs(r) ==> Result(i, r) == And(Shifted(r[irl.x][..w], irl.sh, irl.k), k[..w])
  {
    hide Bitfield, ShiftBy, LowRun, And, Lsr;
    NegMod(w, 0, irl.k % w);
    MaskedShift(Zero(w), irl.sh, irl.k % w, k, t);
    forall r: seq<Word> | IsRegs(r)
      ensures Result(i, r) == And(Shifted(r[irl.x][..w], irl.sh, irl.k), k[..w])
    {
      MaskedShift(r[irl.x][..w], irl.sh, irl.k % w, k, t);
    }
  }

  // The left operand: its register, and its defining shift when that may be fused.
  datatype Operand = Plain(home: Reg) | Fusible(home: Reg, node: Node)

  predicate Fuses(sh: Shift, op: Operand) { sh in {BSHR, BSAR} && op.Fusible? && op.node.sh == BSHL }

  // A fused operand is never computed into its own register.
  function OperandValue(w: nat, sh: Shift, op: Operand, r: seq<Word>): (x: Word)
    requires w in {32, 64} && IsRegs(r)
    ensures |x| == w
  {
    if Fuses(sh, op) then Shifted(r[op.node.x][..w], BSHL, op.node.k) else r[op.home][..w]
  }

  function OrValue(w: nat, p: Node, q: Node, r: seq<Word>): (x: Word)
    requires w in {32, 64} && IsRegs(r)
    ensures |x| == w
  {
    Or(Shifted(r[p.x][..w], p.sh, p.k), Shifted(r[q.x][..w], q.sh, q.k))
  }

  // The opposite constant shifts that asm_fuseorshift pairs up.
  predicate Pairs(w: nat, p: Node, q: Node) {
    && ((p.sh == BSHL && q.sh == BSHR) || (p.sh == BSHR && q.sh == BSHL))
    && (p.k % TWO32 + q.k % TWO32) % TWO32 == w
  }

  // What it emits for them: the right shift gives the low part.
  function Fused(w: nat, p: Node, q: Node, dest: Reg): Ins {
    if p.sh == BSHL then Extr(w, dest, p.x, q.x, q.k % TWO32) else Extr(w, dest, q.x, p.x, p.k % TWO32)
  }

  ghost predicate Computes(i: Ins, w: nat, p: Node, q: Node)
    requires w in {32, 64} && i.w == w
  {
    Legal(i) && forall r: seq<Word> :: IsRegs(r) ==> Result(i, r) == OrValue(w, p, q, r)
  }

  lemma OrCommutes(a: Word, b: Word)
    requires |a| == |b|
    ensures Or(a, b) == Or(b, a)
  {
  }

  // The EXTR computes the OR exactly for right shifts of 1..w-1, and for a shift of 0 when both
  // operands are the same register.
  lemma ExtrExact(w: nat, p: Node, q: Node, dest: Reg)
    requires w in {32, 64} && Pairs(w, p, q)
    ensures var i := Fused(w, p, q, dest);
      Computes(i, w, p, q) <==> i.imms < w && (i.imms > 0 || p.x == q.x)
  {
    var i := Fused(w, p, q, dest);
    hide Result, OrValue;
    if i.imms < w && (i.imms > 0 || p.x == q.x) {
      forall r: seq<Word> | IsRegs(r) { ExtrRight(w, p, q, dest, r); }
    }
    if i.imms == 0 && p.x != q.x {
      var r := ExtrWrong(w, p, q, dest);
      assert Result(i, r) != OrValue(w, p, q, r);
    }
  }

  lemma ExtrRight(w: nat, p: Node, q: Node, dest: Reg, r: seq<Word>)
    requires w in {32, 64} && Pairs(w, p, q) && IsRegs(r)
    requires var i := Fused(w, p, q, dest); i.imms < w && (i.imms > 0 || p.x == q.x)
    ensures Result(Fused(w, p, q, dest), r) == OrValue(w, p, q, r)
  {
    hide Extract, Shifted, Or;
    var l, m := if p.sh == BSHL then p else q, if p.sh == BSHL then q else p;
    var a, b := r[l.x][..w], r[m.x][..w];
    OrCommutes(Shifted(a, BSHL, l.k), Shifted(b, BSHR, m.k));
    ExtrCases(a, b, l.k, m.k);
    if p.x == q.x { NoShift(a, b); }
  }

  // The EXTR with the low bits of the right count, and the OR of the shifts.
  lemma ExtrCases(a: Word, b: Word, l: int, r: int)
    requires |a| == |b| && |a| in {32, 64} && (l % TWO32 + r % TWO32) % TWO32 == |a| && r % TWO32 < |a|
    ensures r % TWO32 > 0 ==> Extract(a, b, r % TWO32) == Or(Shifted(a, BSHL, l), Shifted(b, BSHR, r))
    ensures r % TWO32 == 0 ==> Shifted(a, BSHL, l) == a && Shifted(b, BSHR, r) == b && Extract(a, b, 0) == b
  {
    Amounts(|a|, l, r);
    hide Extract, Lsl, Lsr, Or;
    NoShift(a, b);
    if r % TWO32 > 0 { OrShift(a, b, |a| - r % TWO32, r % TWO32); }
  }

  // A register file where the lowest bits of two registers differ.
  lemma UnequalRegs(x: Reg, y: Reg) returns (r: seq<Word>)
    requires x != y
    ensures IsRegs(r) && r[x][0] && !r[y][0]
  {
    var ones, zeros := Not(Zero(64)), Zero(64);
    r := seq(32, j requires 0 <= j < 32 => if j == x then ones else zeros);
  }

  lemma ExtrWrong(w: nat, p: Node, q: Node, dest: Reg) returns (r: seq<Word>)
    requires w in {32, 64} && Pairs(w, p, q) && Fused(w, p, q, dest).imms == 0 && p.x != q.x
    ensures IsRegs(r) && Result(Fused(w, p, q, dest), r) != OrValue(w, p, q, r)
  {
    hide Extract, Shifted, Or;
    var l, m := if p.sh == BSHL then p else q, if p.sh == BSHL then q else p;
    r := UnequalRegs(l.x, m.x);
    var a, b := r[l.x][..w], r[m.x][..w];
    OrCommutes(Shifted(a, BSHL, l.k), Shifted(b, BSHR, m.k));
    ExtrCases(a, b, l.k, m.k);
    OrOnes(a, b);
  }

  lemma Amounts(w: nat, l: int, r: int)
    requires w in {32, 64} && (l % TWO32 + r % TWO32) % TWO32 == w
    ensures r % TWO32 == 0 ==> l % w == 0 && r % w == 0
    ensures 0 < r % TWO32 < w ==> l % w == w - r % TWO32 && r % w == r % TWO32
  {
    ModMod32(l);
    ModMod32(r);
    ModMod64(l);
    ModMod64(r);
  }

  lemma ModMod32(x: int)
    ensures x % TWO32 % 32 == x % 32
  {
  }

  lemma ModMod64(x: int)
    ensures x % TWO32 % 64 == x % 64
  {
  }

  lemma NoShift(a: Word, b: Word)
    requires |a| == |b| > 0
    ensures Lsl(a, 0) == a && Lsr(b, 0) == b && Extract(a, b, 0) == b && Or(b, b) == b
  {
  }

  lemma OrOnes(a: Word, b: Word)
    requires |a| == |b| > 0 && a[0] && !b[0]
    ensures Or(a, b) != b
  {
  }

  // The instruction leaves the shifted operand in dest and changes nothing else.
  ghost predicate Shifts(i: Ins, w: nat, sh: Shift, k: int, op1: Operand, dest: Reg)
    requires w in {32, 64}
  {
    Legal(i) && forall r: seq<Word> :: IsRegs(r) ==>
      Exec(i, r) == r[dest := Shifted(OperandValue(w, sh, op1, r), sh, k) + Zero(64 - w)]
  }

  // A single shift of the operand in its own register.
  lemma OneIns(w: nat, sh: Shift, k: int, op1: Operand, i: Ins, dest: Reg)
    requires w in {32, 64} && !Fuses(sh, op1)
    requires i == match sh
      case BSHL => Ubfm(w, dest, op1.home, (w - 1 - k % w + 1) % w, w - 1 - k % w)
      case BSHR => Ubfm(w, dest, op1.home, k % w, w - 1)
      case BSAR => Sbfm(w, dest, op1.home, k % w, w - 1)
      case BROR => Extr(w, dest, op1.home, op1.home, k % w)
    ensures Shifts(i, w, sh, k, op1, dest)
  {
    hide Bitfield, Extract, ShiftBy;
    NegMod(w, 0, k % w);
    forall r: seq<Word> | IsRegs(r) ensures Result(i, r) == Shifted(OperandValue(w, sh, op1, r), sh, k) {
      OneShift(r[op1.home][..w], sh, k % w);
    }
  }

  // A right shift of a fused left shift.
  lemma PairIns(w: nat, sh: Shift, k: int, op1: Operand, i: Ins, dest: Reg)
    requires w in {32, 64} && Fuses(sh, op1)
    requires var s2 := op1.node.k % w;
      i == if sh == BSHR then Ubfm(w, dest, op1.node.x, (k % w - s2) % w, w - 1 - s2)
           else Sbfm(w, dest, op1.node.x, (k % w - s2) % w, w - 1 - s2)
    ensures Shifts(i, w, sh, k, op1, dest)
  {
    hide Bitfield, Extract, ShiftBy;
    NegMod(w, k % w, op1.node.k % w);
    forall r: seq<Word> | IsRegs(r) ensures Result(i, r) == Shifted(OperandValue(w, sh, op1, r), sh, k) {
      ShiftPair(r[op1.node.x][..w], sh, k % w, op1.node.k % w);
    }
  }

  class Asm {
    var code: seq<Ins>

    // A mask over a constant shift becomes one bitfield instruction.
    method FuseAndShift(w: nat, irl: Node, k: Word, dest: Reg) returns (ok: bool)
      requires w in {32, 64} && |k| == 64 && forall j :: w <= j < 64 ==> !k[j]
      modifies this
      ensures ok <==> irl.sh in {BSHL, BSHR} && exists t: nat :: LowRun(MaskOf(w, irl, k), t)
      ensures ok ==> |code| == |old(code)| + 1 && code[1..] == old(code) && Legal(code[0])
      ensures ok ==> forall r: seq<Word> :: IsRegs(r) ==>
        Exec(code[0], r) == r[dest := And(Shifted(r[irl.x][..w], irl.sh, irl.k), k[..w]) + Zero(64 - w)]
      ensures !ok ==> code == old(code)
    {
      hide IsRun, Result, Shifted, LowRun, And, Lsr, Legal, Clz;
      if irl.sh == BSHR || irl.sh == BSHL {
        var mask, shift := k, irl.k % w;
        var imms := shift;
        if irl.sh == BSHL {
          mask := Lsr(mask, shift);
          shift := (w - shift) % w;
          imms := 0;
        }
        assert mask == MaskOf(w, irl, k);
        RunExact(mask);
        if IsRun(mask) {
          assert LowRun(MaskOf(w, irl, k), 63 - Clz(mask));
          imms := imms + 63 - Clz(mask);
          if imms > w - 1 { imms := w - 1; }
          var i := Ubfm(w, dest, irl.x, shift, imms);
          FieldOfMask(w, irl, k, 63 - Clz(mask), i);
          code := [i] + code;
          return true;
        }
      }
      return false;
    }

    // The OR of two opposite shifts becomes an extraction, or a rotate if the operands agree.
    method FuseOrShift(w: nat, irl: Node, irr: Node, dest: Reg) returns (ok: bool)
      requires w in {32, 64}
      modifies this
      ensures ok <==> Pairs(w, irl, irr)
      ensures ok ==> code == [Fused(w, irl, irr, dest)] + old(code)
      ensures !ok ==> code == old(code)
    {
      if (irl.sh == BSHR && irr.sh == BSHL) || (irl.sh == BSHL && irr.sh == BSHR) {
        var lref, rref := irl.x, irr.x;
        var lshift, rshift := irl.k % TWO32, irr.k % TWO32;
        if irl.sh == BSHR {
          lref, rref := rref, lref;
          lshift, rshift := rshift, lshift;
        }
        if (rshift + lshift) % TWO32 == w {
          code := [Extr(w, dest, lref, rref, rshift)] + code;
          return true;
        }
      }
      return false;
    }

    // Constant shifts, with BSHL + BSHR/BSAR fused into one instruction.
    method BitShift(w: nat, sh: Shift, k: int, op1: Operand, dest: Reg)
      requires w in {32, 64}
      modifies this
      ensures |code| == |old(code)| + 1 && code[1..] == old(code) && Shifts(code[0], w, sh, k, op1, dest)
    {
      hide Shifts;
      var shift, shmask := k % w, w - 1;
      var left := op1.home;
      if (sh == BSHR || sh == BSAR) && op1.Fusible? && op1.node.sh == BSHL {
        var shift2 := op1.node.k % w;
        shift := (shift - shift2) % w;
        shmask := shmask - shift2;
        left := op1.node.x;
      }
      var i := match sh
        case BSHL => Ubfm(w, dest, left, (shmask - shift + 1) % w, shmask - shift)
        case BSHR => Ubfm(w, dest, left, shift, shmask)
        case BSAR => Sbfm(w, dest, left, shift, shmask)
        case BROR => Extr(w, dest, left, left, shift);
      if Fuses(sh, op1) { PairIns(w, sh, k, op1, i, dest); } else { OneIns(w, sh, k, op1, i, dest); }
      code := [i] + code;
    }
  }
}
