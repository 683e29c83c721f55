// ARM32 data-processing immediates (K12): an 8-bit value rotated by an even amount, and the
// substitution of the inverse opcode (emit_isk12).
module ArmImm {
  import opened Words

  function Rol2(m: u32): u32 { m % 0x4000_0000 * 4 + m / 0x4000_0000 }
  function Ror2(m: u32): u32 { m / 4 + m % 4 * 0x4000_0000 }

  lemma RolRor(m: u32)
    ensures Ror2(Rol2(m)) == m && Rol2(Ror2(m)) == m
  {
    RorOf(m % 0x4000_0000, m / 0x4000_0000);
    RolOf(m / 4, m % 4);
  }

  lemma RorOf(l: nat, h: nat)
    requires l < 0x4000_0000 && h < 4
    ensures Ror2(4 * l + h) == l + h * 0x4000_0000
  {
  }

  lemma RolOf(h: nat, l: nat)
    requires h < 0x4000_0000 && l < 4
    ensures Rol2(h + l * 0x4000_0000) == 4 * h + l
  {
  }

  // ARMExpandImm (section A5.2.4): imm8 rotated right by twice the rotation field.
  function ExpandImm(rot: nat, imm8: u32): u32 {
    if rot == 0 then imm8 else Ror2(ExpandImm(rot - 1, imm8))
  }

  // n rotated left by 2*k bits.
  function RolN(n: u32, k: nat): u32 { if k == 0 then n else Rol2(RolN(n, k - 1)) }

  lemma {:induction false} RolExpand(rot: nat, imm8: u32)
    ensures RolN(ExpandImm(rot, imm8), rot) == imm8
    decreases rot
  {
    if rot > 0 {
      RolShift(ExpandImm(rot, imm8), rot);
      RolRor(ExpandImm(rot - 1, imm8));
      RolExpand(rot - 1, imm8);
    }
  }

  lemma {:induction false} RolShift(n: u32, k: nat)
    requires k > 0
    ensures RolN(n, k) == RolN(Rol2(n), k - 1)
    decreases k
  {
    if k > 1 { RolShift(n, k - 1); }
  }

  lemma {:induction false} ExpandRol(n: u32, k: nat)
    ensures ExpandImm(k, RolN(n, k)) == n
    decreases k
  {
    if k > 0 {
      RolShift(n, k);
      ExpandRol(Rol2(n), k - 1);
      RolRor(n);
    }
  }

  datatype K12 = NoK12 | K12(rot: nat, imm8: int)

  predicate ValidK12(k: K12) { k.K12? && k.rot < 16 && 0 <= k.imm8 < 256 }

  function Expand(k: K12): u32
    requires ValidK12(k)
  {
    ExpandImm(k.rot, k.imm8)
  }

  // The search loop: the first rotation that leaves an 8-bit value.
  method FindK12(n: u32) returns (k: K12)
    ensures k == Search(n, 0)
  {
    var m := n;
    for i := 0 to 16
      invariant m == RolN(n, i) && Search(n, 0) == Search(n, i)
    {
      if m <= 255 { return K12(i, m); }
      m := Rol2(m);
    }
    return NoK12;
  }

  function Search(n: u32, from: nat): (k: K12)
    requires from <= 16
    ensures k.K12? ==> ValidK12(k) && from <= k.rot && RolN(n, k.rot) == k.imm8
    ensures k.NoK12? ==> forall j :: from <= j < 16 ==> RolN(n, j) > 255
    decreases 16 - from
  {
    if from == 16 then NoK12
    else if RolN(n, from) <= 255 then K12(from, RolN(n, from))
    else Search(n, from + 1)
  }

  function Direct(n: u32): (k: K12)
    ensures k.K12? ==> ValidK12(k)
  {
    Search(n, 0)
  }

  // Sound and complete for even-rotated 8-bit immediates.
  lemma DirectExact(n: u32)
    ensures Direct(n).K12? ==> ValidK12(Direct(n)) && Expand(Direct(n)) == n
    ensures Direct(n).K12? <==> exists k :: ValidK12(k) && Expand(k) == n
  {
    var k := Direct(n);
    if k.K12? { ExpandRol(n, k.rot); }
    if k' :| ValidK12(k') && Expand(k') == n { RolExpand(k'.rot, k'.imm8); }
  }

  // -- Inverse opcodes ----------------------------------------------------------------

  datatype Op = AND | EOR | SUB | RSB | ADD | ADC | SBC | RSC | TST | TEQ | CMP | CMN | ORR | MOV | BIC | MVN

  predicate HasInverse(op: Op) { op in {AND, BIC, SUB, ADD, ADC, SBC, CMP, CMN, MOV, MVN} }

  // emit_invai
  function Inverse(op: Op): Op
    requires HasInverse(op)
  {
    match op
    case AND => BIC case BIC => AND
    case SUB => ADD case ADD => SUB
    case ADC => SBC case SBC => ADC
    case CMP => CMN case CMN => CMP
    case MOV => MVN case MVN => MOV
  }

  predicate Negates(op: Op) { op in {SUB, ADD, CMP, CMN} }

  function Neg32(n: u32): u32 { (Not32(n) + 1) % TWO32 }

  // The constant that the inverse opcode would take.
  function Substitute(op: Op, n: u32): u32 { if Negates(op) then Neg32(n) else Not32(n) }

  datatype Enc = NoEnc | Enc(k: K12, op: Op)

  // Encode n for op, or for the inverse opcode with the negated or complemented constant.
  function EmitIsk12(op: Op, n: u32): (e: Enc)
    ensures e.Enc? ==> ValidK12(e.k)
  {
    if Direct(n).K12? then Enc(Direct(n), op)
    else if !HasInverse(op) then NoEnc
    else
      var m := Substitute(op, n);
      if Direct(m).K12? then Enc(Direct(m), Inverse(op)) else NoEnc
  }

  // -- Meaning of the opcodes ----------------------------------------------------------

  datatype Flags = Flags(n: bool, z: bool, c: bool, v: bool)

  function AddWithCarry(x: u32, y: u32, cin: bool): (u32, Flags) {
    var ci := if cin then 1 else 0;
    var u, s := x + y + ci, Signed(x) + Signed(y) + ci;
    var r: u32 := u % TWO32;
    (r, Flags(r >= 0x8000_0000, r == 0, r != u, Signed(r) != s))
  }

  // Bitwise AND of two w-bit values.
  function And(x: nat, y: nat, w: nat): (r: nat)
    ensures r <= x
  {
    if w == 0 then 0 else (if x % 2 == 1 && y % 2 == 1 then 1 else 0) + 2 * And(x / 2, y / 2, w - 1)
  }

  // Bitwise OR and exclusive OR.
  function Or(x: nat, y: nat, w: nat): (r: nat)
    ensures r < Pow2(w)
  {
    if w == 0 then 0 else (if x % 2 == 1 || y % 2 == 1 then 1 else 0) + 2 * Or(x / 2, y / 2, w - 1)
  }

  function Eor(x: nat, y: nat, w: nat): (r: nat)
    ensures r < Pow2(w)
  {
    if w == 0 then 0 else (if x % 2 != y % 2 then 1 else 0) + 2 * Eor(x / 2, y / 2, w - 1)
  }

  // Bit i of a value.
  predicate Bit(x: nat, i: nat) { if i == 0 then x % 2 == 1 else Bit(x / 2, i - 1) }

  // The operations act on each of the w bits.
  lemma {:induction false} Bitwise(x: nat, y: nat, w: nat, i: nat)
    requires i < w
    ensures Bit(And(x, y, w), i) <==> Bit(x, i) && Bit(y, i)
    ensures Bit(Or(x, y, w), i) <==> Bit(x, i) || Bit(y, i)
    ensures Bit(Eor(x, y, w), i) <==> Bit(x, i) != Bit(y, i)
  {
    if i > 0 { Bitwise(x / 2, y / 2, w - 1, i - 1); }
    Halves(x, y, w);
  }

  lemma Halves(x: nat, y: nat, w: nat)
    requires w > 0
    ensures And(x, y, w) / 2 == And(x / 2, y / 2, w - 1) && (And(x, y, w) % 2 == 1 <==> Bit(x, 0) && Bit(y, 0))
    ensures Or(x, y, w) / 2 == Or(x / 2, y / 2, w - 1) && (Or(x, y, w) % 2 == 1 <==> Bit(x, 0) || Bit(y, 0))
    ensures Eor(x, y, w) / 2 == Eor(x / 2, y / 2, w - 1) && (Eor(x, y, w) % 2 == 1 <==> Bit(x, 0) != Bit(y, 0))
  {
  }

  function Or32(x: u32, y: u32): u32 { Pow2Values(); Or(x, y, 32) }
  function Eor32(x: u32, y: u32): u32 { Pow2Values(); Eor(x, y, 32) }

  predicate Arithmetic(op: Op) { op in {SUB, RSB, ADD, ADC, SBC, RSC, CMP, CMN} }

  // Result and flags; logical operations take C from the shifter (cs) and keep V.
  function Alu(op: Op, rn: u32, y: u32, f: Flags, cs: bool): (u32, Flags)
  {
    match op
    case ADD => AddWithCarry(rn, y, false)
    case CMN => AddWithCarry(rn, y, false)
    case SUB => AddWithCarry(rn, Not32(y), true)
    case CMP => AddWithCarry(rn, Not32(y), true)
    case ADC => AddWithCarry(rn, y, f.c)
    case SBC => AddWithCarry(rn, Not32(y), f.c)
    case RSB => AddWithCarry(Not32(rn), y, true)
    case RSC => AddWithCarry(Not32(rn), y, f.c)
    case AND => Logical(And(rn, y, 32), f, cs)
    case TST => Logical(And(rn, y, 32), f, cs)
    case BIC => Logical(And(rn, Not32(y), 32), f, cs)
    case EOR => Logical(Eor32(rn, y), f, cs)
    case TEQ => Logical(Eor32(rn, y), f, cs)
    case ORR => Logical(Or32(rn, y), f, cs)
    case MOV => Logical(y, f, cs)
    case MVN => Logical(Not32(y), f, cs)
  }

  function Logical(r: u32, f: Flags, cs: bool): (u32, Flags) {
    (r, Flags(r >= 0x8000_0000, r == 0, cs, f.v))
  }

  // ADD of -n is SUB of n, flags included, except for the two constants that are never substituted.
  lemma NegatedAdd(x: u32, n: u32)
    ensures AddWithCarry(x, Neg32(n), false).0 == AddWithCarry(x, Not32(n), true).0
    ensures AddWithCarry(x, Neg32(n), false).1 == AddWithCarry(x, Not32(n), true).1 <==> n != 0 && n != 0x8000_0000
  {
    NegParts(n);
    hide Neg32;
    if n == 0 {} else if n == 0x8000_0000 {} else {
      assert x + Neg32(n) == x + Not32(n) + 1;
      hide Signed;
    }
  }

  lemma NegParts(n: u32)
    ensures Neg32(n) == (if n == 0 then 0 else TWO32 - n)
    ensures Signed(Not32(n)) == -1 - Signed(n)
    ensures Signed(Neg32(n)) == if n == 0x8000_0000 then -TWO31 else -Signed(n)
  {
  }

  lemma NegNeg(n: u32)
    ensures Not32(Not32(n)) == n && Neg32(Neg32(n)) == n && (n in {0, 0x8000_0000} <==> Neg32(n) in {0, 0x8000_0000})
  {
  }

  // 0 and INT_MIN are rotated 8-bit values.
  lemma ZeroAndMinDirect()
    ensures Direct(0).K12? && Direct(0x8000_0000).K12?
  {
  }

  // The encoded instruction computes what the requested one would have, for every operand. For
  // arithmetic all four flags agree; logical operations agree on N, Z and V.
  lemma Isk12Meaning(op: Op, n: u32, rn: u32, f: Flags, cs: bool, cs': bool)
    requires EmitIsk12(op, n).Enc?
    ensures var e := EmitIsk12(op, n);
      var (r, g) := Alu(e.op, rn, Expand(e.k), f, cs');
      var (r0, g0) := Alu(op, rn, n, f, cs);
      r == r0 && g.n == g0.n && g.z == g0.z && g.v == g0.v && (Arithmetic(op) ==> g == g0)
  {
    hide Direct, Expand, Alu, Substitute, Inverse;
    DirectExact(n);
    ZeroAndMinDirect();
    if Direct(n).K12? {
      SameOp(op, rn, n, f, cs, cs');
    } else {
      DirectExact(Substitute(op, n));
      InverseOp(op, n, rn, f, cs, cs');
    }
  }

  // Results and flags agree, the carry only for arithmetic.
  predicate Agree(op: Op, a: (u32, Flags), b: (u32, Flags)) {
    a.0 == b.0 && a.1.n == b.1.n && a.1.z == b.1.z && a.1.v == b.1.v && (Arithmetic(op) ==> a.1 == b.1)
  }

  // The carry of the shifter only shows in logical operations.
  lemma SameOp(op: Op, rn: u32, y: u32, f: Flags, cs: bool, cs': bool)
    ensures Agree(op, Alu(op, rn, y, f, cs'), Alu(op, rn, y, f, cs))
  {
    hide And, Or32, Eor32, AddWithCarry, Not32;
    if Arithmetic(op) { assert Alu(op, rn, y, f, cs') == Alu(op, rn, y, f, cs); }
  }

  lemma InverseOp(op: Op, n: u32, rn: u32, f: Flags, cs: bool, cs': bool)
    requires HasInverse(op) && n != 0 && n != 0x8000_0000
    ensures Agree(op, Alu(Inverse(op), rn, Substitute(op, n), f, cs'), Alu(op, rn, n, f, cs))
  {
    hide And, Or32, Eor32, AddWithCarry, Not32, Neg32;
    NegatedAdd(rn, n);
    NegatedAdd(rn, Neg32(n));
    NegNeg(n);
  }

  // The encoder gives up exactly when neither the opcode nor its inverse, if it has one, can express
  // the operation.
  lemma Isk12Complete(op: Op, n: u32)
    ensures EmitIsk12(op, n).NoEnc? <==>
      forall k :: ValidK12(k) ==> Expand(k) != n && (HasInverse(op) ==> Expand(k) != Substitute(op, n))
  {
    DirectExact(n);
    DirectExact(Substitute(op, n));
    hide Direct, Expand;
  }

  // -- Which opcodes have an inverse --------------------------------------------------------

  predicate Writes(op: Op) { op !in {TST, TEQ, CMP, CMN} }

  // op2 with the complemented or negated constant does what op does with the constant itself, except
  // for the two constants that are never substituted.
  ghost predicate Replaces(op2: Op, op: Op, negated: bool) {
    && Writes(op2) == Writes(op)
    && forall n: u32, rn: u32, f: Flags :: n != 0 && n != 0x8000_0000 ==> SameAt(op2, op, negated, n, rn, f)
  }

  predicate SameAt(op2: Op, op: Op, negated: bool, n: u32, rn: u32, f: Flags) {
    var (a, b) := (Alu(op2, rn, if negated then Neg32(n) else Not32(n), f, f.c), Alu(op, rn, n, f, f.c));
    a.0 == b.0 && a.1.n == b.1.n && a.1.z == b.1.z && a.1.v == b.1.v
  }

  // The table names an inverse for exactly those opcodes for which there is one.
  lemma InverseExact(op: Op)
    ensures HasInverse(op) <==> exists op2: Op, negated: bool :: Replaces(op2, op, negated)
  {
    if HasInverse(op) {
      forall n: u32, rn: u32, f: Flags | n != 0 && n != 0x8000_0000
        ensures SameAt(Inverse(op), op, Negates(op), n, rn, f)
      {
        InverseOp(op, n, rn, f, f.c, f.c);
      }
      assert Replaces(Inverse(op), op, Negates(op));
    } else {
      forall op2: Op, negated: bool ensures !Replaces(op2, op, negated) { NoInverse(op, op2, negated); }
    }
  }

  lemma NoInverse(op: Op, op2: Op, negated: bool)
    requires !HasInverse(op)
    ensures !Replaces(op2, op, negated)
  {
    hide SameAt;
    var f := Flags(false, false, false, false);
    if Writes(op2) == Writes(op) {
      Points(op, op2, negated);
    }
  }

  // Operands that tell each opcode without an inverse from every other one: the constant 1 and registers
  // that hold 0 and 3.
  lemma Points(op: Op, op2: Op, negated: bool)
    requires !HasInverse(op) && Writes(op2) == Writes(op)
    ensures var f := Flags(false, false, false, false);
      !SameAt(op2, op, negated, 1, 0, f) || !SameAt(op2, op, negated, 1, 3, f)
  {
    hide SameAt, Writes, HasInverse;
    if op in {RSB, RSC} { PointsReverse(op, op2, negated); } else { PointsLogical(op, op2, negated); }
  }

  lemma PointsReverse(op: Op, op2: Op, negated: bool)
    requires op in {RSB, RSC} && Writes(op2) == Writes(op)
    ensures var f := Flags(false, false, false, false);
      !SameAt(op2, op, negated, 1, 0, f) || !SameAt(op2, op, negated, 1, 3, f)
  {
    Masks();
    hide And, Or, Eor, Or32, Eor32;
  }

  lemma PointsLogical(op: Op, op2: Op, negated: bool)
    requires !HasInverse(op) && op !in {RSB, RSC} && Writes(op2) == Writes(op)
    ensures var f := Flags(false, false, false, false);
      !SameAt(op2, op, negated, 1, 0, f) || !SameAt(op2, op, negated, 1, 3, f)
  {
    Masks();
    hide And, Or, Eor, Or32, Eor32;
  }

  // The operands that are needed.
  lemma Masks()
    ensures Not32(1) == 0xffff_fffe && Neg32(1) == 0xffff_ffff && Not32(0xffff_fffe) == 1 && Not32(0xffff_ffff) == 0
    ensures forall y: u32 :: y in {0, 1, 0xffff_fffe, 0xffff_ffff} ==>
      && And(0, y, 32) == 0 && Or32(0, y) == y && Eor32(0, y) == y
      && And(3, y, 32) == y % 4 && Or32(3, y) == y - y % 4 + 3 && Eor32(3, y) == y - y % 4 + (3 - y % 4)
  {
    forall y: u32 ensures
      && And(0, y, 32) == 0 && Or32(0, y) == y && Eor32(0, y) == y
      && And(3, y, 32) == y % 4 && Or32(3, y) == y - y % 4 + 3 && Eor32(3, y) == y - y % 4 + (3 - y % 4)
    {
      Operand(y);
    }
    hide And, Or, Eor, Or32, Eor32;
  }

  lemma Operand(y: u32)
    ensures And(0, y, 32) == 0 && Or32(0, y) == y && Eor32(0, y) == y
    ensures And(3, y, 32) == y % 4 && Or32(3, y) == y - y % 4 + 3 && Eor32(3, y) == y - y % 4 + (3 - y % 4)
  {
    Pow2Values();
    ZeroBits(y, 32);
    ZeroBits(y / 2 / 2, 30);
    hide Pow2;
    assert 3 / 2 == 1 && 1 / 2 == 0 && y / 2 / 2 == y / 4;
    assert And(1, y / 2, 31) == y / 2 % 2 + 2 * And(0, y / 2 / 2, 30);
    assert Or(1, y / 2, 31) == 1 + 2 * Or(0, y / 2 / 2, 30);
    assert Eor(1, y / 2, 31) == 1 - y / 2 % 2 + 2 * Eor(0, y / 2 / 2, 30);
  }

  lemma {:induction false} ZeroBits(y: nat, w: nat)
    ensures And(0, y, w) == 0 && (y < Pow2(w) ==> Or(0, y, w) == y && Eor(0, y, w) == y)
    decreases w
  {
    if w > 0 { ZeroBits(y / 2, w - 1); }
  }
}
