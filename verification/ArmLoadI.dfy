// ARM32 constant loads (emit_loadi, emit_kdelta1, emit_kdelta2).
module ArmLoadI {
  import opened Words
  import opened ArmImm

  // The program counter is not among the registers.
  type Reg = r: nat | r < 15

  datatype Ins =
    | DpImm(op: Op, rd: Reg, rn: Reg, k: K12)
    | MovReg(rd: Reg, rm: Reg)
    | MovW(rd: Reg, imm: int)
    | MovT(rd: Reg, imm: int)

  predicate ValidIns(i: Ins) {
    match i
    case DpImm(op, _, _, k) => op in {MOV, MVN, ADD, SUB, ORR} && ValidK12(k)
    case MovReg(_, _) => true
    case MovW(_, imm) => 0 <= imm < 0x1_0000
    case MovT(_, imm) => 0 <= imm < 0x1_0000
  }

  // Bitwise OR.
  function Or(a: nat, b: nat): nat
    decreases a + b
  {
    if a == 0 && b == 0 then 0 else (if a % 2 == 1 || b % 2 == 1 then 1 else 0) + 2 * Or(a / 2, b / 2)
  }

  lemma {:induction false} OrBound(a: nat, b: nat, w: nat)
    requires a < Pow4(w) && b < Pow4(w)
    ensures Or(a, b) < Pow4(w)
    decreases w
  {
    if w > 0 {
      OrBound(a / 4, b / 4, w - 1);
      OrTwice(a, b);
    }
  }

  lemma OrTwice(a: nat, b: nat)
    ensures Or(a, b) / 4 == Or(a / 4, b / 4)
    ensures a % 4 == 0 && b % 4 == 0 ==> Or(a, b) == 4 * Or(a / 4, b / 4)
  {
    if a != 0 || b != 0 {
      assert a / 2 / 2 == a / 4 && b / 2 / 2 == b / 4;
      if a / 2 == 0 && b / 2 == 0 { assert Or(a / 4, b / 4) == 0; }
    }
  }

  function Pow4(k: nat): nat { if k == 0 then 1 else 4 * Pow4(k - 1) }

  lemma Pow4Values()
    ensures Pow4(4) == 256 && Pow4(12) == 0x100_0000 && Pow4(16) == 0x1_0000_0000
  {
  }

  function OrU32(a: u32, b: u32): u32 {
    Pow4Values();
    OrBound(a, b, 16);
    Or(a, b)
  }

  predicate IsRegs(r: seq<u32>) { |r| == 15 }

  function Value(i: Ins, r: seq<u32>): u32
    requires ValidIns(i) && IsRegs(r)
  {
    match i
    case DpImm(op, _, rn, k) =>
      (match op
       case MOV => Expand(k)
       case MVN => Not32(Expand(k))
       case ADD => (r[rn] + Expand(k)) % TWO32
       case SUB => (r[rn] - Expand(k)) % TWO32
       case ORR => OrU32(r[rn], Expand(k)))
    case MovReg(_, rm) => r[rm]
    case MovW(_, imm) => imm
    case MovT(rd, imm) => imm * 0x1_0000 + r[rd] % 0x1_0000
  }

  ghost predicate ValidCode(code: seq<Ins>) { forall i :: 0 <= i < |code| ==> ValidIns(code[i]) }

  function Run(code: seq<Ins>, r: seq<u32>): (r': seq<u32>)
    requires ValidCode(code) && IsRegs(r)
    ensures IsRegs(r')
  {
    if code == [] then r else Run(code[1..], r[code[0].rd := Value(code[0], r)])
  }

  lemma RunOne(i: Ins, r: seq<u32>)
    requires ValidIns(i) && IsRegs(r)
    ensures Run([i], r) == r[i.rd := Value(i, r)]
  {
  }

  lemma RunTwo(i: Ins, j: Ins, r: seq<u32>)
    requires ValidIns(i) && ValidIns(j) && IsRegs(r)
    ensures Run([i, j], r) == Run([j], r[i.rd := Value(i, r)])
  {
  }

  datatype Known = Unknown | Const(u: u32)

  ghost predicate Consistent(r: seq<u32>, known: seq<Known>) {
    IsRegs(r) && |known| == 15 && forall q :: 0 <= q < 15 && known[q].Const? ==> r[q] == known[q].u
  }

  ghost predicate Loads(ins: seq<Ins>, rd: Reg, u: u32, known: seq<Known>) {
    ValidCode(ins) && forall r: seq<u32> :: Consistent(r, known) ==> Run(ins, r) == r[rd := u]
  }

  lemma LoadsOne(i: Ins, u: u32, known: seq<Known>)
    requires ValidIns(i) && forall r: seq<u32> :: Consistent(r, known) ==> Value(i, r) == u
    ensures Loads([i], i.rd, u, known)
  {
  }

  // -- Eight-bit windows at even positions ------------------------------------------------

  // i & (255 << (lj_ffs(i) & ~1))
  function Low(i: nat): (m: nat)
    requires i > 0
    ensures 0 < m <= i
  {
    if i % 4 != 0 then i % 256 else 4 * Low(i / 4)
  }

  // i & ~(255 << (lj_ffs(i) & ~1))
  function Rest(i: nat): nat
    requires i > 0
  {
    i - Low(i)
  }

  // x * 4^k
  function Scale(x: nat, k: nat): nat { if k == 0 then x else 4 * Scale(x, k - 1) }

  lemma {:induction false} ScaleTwice(x: nat, j: nat, k: nat)
    ensures Scale(Scale(x, j), k) == Scale(x, j + k)
    decreases k
  {
    if k > 0 { ScaleTwice(x, j, k - 1); }
  }

  lemma ScaleValues(x: nat)
    ensures Scale(x, 4) == 256 * x && Scale(x, 12) == 0x100_0000 * x && Scale(x, 15) == 0x4000_0000 * x
  {
    ScaleFour(x);
    ScaleTwice(x, 4, 4);
    ScaleFour(256 * x);
    ScaleTwice(x, 8, 4);
    ScaleFour(0x1_0000 * x);
    ScaleTwice(x, 12, 3);
    ScaleThree(0x100_0000 * x);
  }

  lemma ScaleThree(x: nat)
    ensures Scale(x, 3) == 64 * x
  {
    assert Scale(x, 1) == 4 * Scale(x, 0);
    assert Scale(x, 2) == 4 * Scale(x, 1);
  }

  lemma ScaleFour(x: nat)
    ensures Scale(x, 4) == 256 * x
  {
    ScaleThree(x);
  }

  // The first four rotations carry the byte over the top of the word.
  lemma FirstFour(imm8: u32)
    requires imm8 < 256
    ensures ExpandImm(1, imm8) == imm8 / 4 + imm8 % 4 * 0x4000_0000
    ensures ExpandImm(2, imm8) == imm8 / 16 + imm8 % 16 * 0x1000_0000
    ensures ExpandImm(3, imm8) == imm8 / 64 + imm8 % 64 * 0x400_0000
    ensures ExpandImm(4, imm8) == imm8 * 0x100_0000
  {
    assert ExpandImm(0, imm8) == imm8;
    SplitByte(imm8);
    assert ExpandImm(1, imm8) == Ror2(imm8);
    assert ExpandImm(2, imm8) == Ror2(ExpandImm(1, imm8));
    assert ExpandImm(3, imm8) == Ror2(ExpandImm(2, imm8));
  }

  lemma SplitByte(x: u32)
    requires x < 256
    ensures Ror2(x) == x / 4 + x % 4 * 0x4000_0000
    ensures Ror2(x / 4 + x % 4 * 0x4000_0000) == x / 16 + x % 16 * 0x1000_0000
    ensures Ror2(x / 16 + x % 16 * 0x1000_0000) == x / 64 + x % 64 * 0x400_0000
    ensures Ror2(x / 64 + x % 64 * 0x400_0000) == x * 0x100_0000
  {
    Digits(x);
    SecondStep(x / 4, x % 4);
    ThirdStep(x / 16, x % 16);
    FourthStep(x / 64, x % 64);
    hide Ror2;
  }

  lemma Digits(x: nat)
    ensures x / 4 / 4 == x / 16 && x / 16 / 4 == x / 64 && x / 64 * 64 + x % 64 == x
    ensures x % 4 + 4 * (x / 4 % 4) == x % 16 && x % 16 + 16 * (x / 16 % 4) == x % 64
  {
  }

  lemma SecondStep(h: nat, l: nat)
    requires h < 64 && l < 4
    ensures Ror2(h + l * 0x4000_0000) == h / 4 + (l + 4 * (h % 4)) * 0x1000_0000
  {
  }

  lemma ThirdStep(h: nat, l: nat)
    requires h < 16 && l < 16
    ensures Ror2(h + l * 0x1000_0000) == h / 4 + (l + 16 * (h % 4)) * 0x400_0000
  {
  }

  lemma FourthStep(h: nat, l: nat)
    requires h < 4 && l < 64
    ensures Ror2(h + l * 0x400_0000) == (l + 64 * h) * 0x100_0000
  {
  }

  lemma RorScaled(y: nat)
    requires 4 * y < TWO32
    ensures Ror2(4 * y) == y
  {
  }

  lemma {:induction false} Shifted(imm8: u32, rot: nat)
    requires imm8 < 256 && 4 <= rot <= 16
    ensures ExpandImm(rot, imm8) == Scale(imm8, 16 - rot)
    decreases rot
  {
    if rot == 4 {
      FirstFour(imm8);
      ScaleValues(imm8);
    } else {
      Shifted(imm8, rot - 1);
      assert Scale(imm8, 17 - rot) == 4 * Scale(imm8, 16 - rot);
      RorScaled(Scale(imm8, 16 - rot));
      assert ExpandImm(rot, imm8) == Ror2(ExpandImm(rot - 1, imm8));
      hide ExpandImm, Scale, Ror2;
    }
  }

  lemma {:induction false} LowForm(i: u32) returns (j: nat, imm8: u32)
    requires i > 0
    ensures j <= 12 && imm8 < 256 && Low(i) == Scale(imm8, j)
    decreases i
  {
    if i % 4 != 0 {
      return 0, i % 256;
    } else {
      j, imm8 := LowForm(i / 4);
      if j < 12 {
        j := j + 1;
      } else {
        ScaleValues(imm8);
        ScaleValues(4 * imm8);
        imm8 := 4 * imm8;
      }
    }
  }

  // A window is always directly encodable, so the inverse opcode is never tried on it.
  lemma LowEncodable(i: u32)
    requires i > 0
    ensures Direct(Low(i)).K12? && Expand(Direct(Low(i))) == Low(i)
  {
    hide Direct, Low, ExpandImm, Scale;
    var j, imm8 := LowForm(i);
    DirectExact(Low(i));
    if j == 0 {
      assert Scale(imm8, 0) == imm8 && ExpandImm(0, imm8) == imm8 by { Trivial(imm8); }
      assert Expand(K12(0, imm8)) == Low(i);
    } else {
      Shifted(imm8, 16 - j);
      assert Expand(K12(16 - j, imm8)) == Low(i);
    }
  }

  lemma Trivial(x: u32)
    ensures Scale(x, 0) == x && ExpandImm(0, x) == x
  {
  }

  // i is a multiple of 4^k.
  predicate Div4(i: nat, k: nat) { k == 0 || (i % 4 == 0 && Div4(i / 4, k - 1)) }

  lemma {:induction false} Div4Less(i: nat, k: nat)
    requires Div4(i, k) && k > 0
    ensures Div4(i, k - 1)
    decreases k
  {
    if k > 1 { Div4Less(i / 4, k - 1); }
  }

  lemma RestStep(i: nat)
    requires i > 0
    ensures i % 4 == 0 ==> Low(i) == 4 * Low(i / 4) && Rest(i) == 4 * Rest(i / 4)
    ensures i % 4 != 0 ==> Low(i) == i % 256 && Rest(i) == 256 * (i / 256)
  {
  }

  // Removing a window clears at least eight more low bits.
  lemma {:induction false} RestDivides(i: nat, k: nat)
    requires i > 0 && Div4(i, k)
    ensures Div4(Rest(i), k + 4)
    decreases i
  {
    assert k > 0 ==> i % 4 == 0 && Div4(i / 4, k - 1);
    assert Div4(i / 4, 0);
    hide Low, Rest, Div4;
    RestStep(i);
    if i % 4 != 0 {
      Div4Bytes(i / 256);
    } else if k > 0 {
      RestDivides(i / 4, k - 1);
      Div4Times(Rest(i / 4), k + 3);
    } else {
      RestDivides(i / 4, 0);
      Div4Times(Rest(i / 4), 4);
      Div4Less(Rest(i), 5);
    }
  }

  lemma Div4Bytes(q: nat)
    ensures Div4(256 * q, 4)
  {
    Div4Times(q, 0);
    Div4Times(4 * q, 1);
    Div4Times(16 * q, 2);
    Div4Times(64 * q, 3);
  }

  lemma Div4Times(q: nat, k: nat)
    requires Div4(q, k)
    ensures Div4(4 * q, k + 1)
  {
    assert 4 * q / 4 == q;
  }

  lemma {:induction false} Div4Zero(i: nat, k: nat)
    requires Div4(i, k) && i < Pow4(k)
    ensures i == 0
    decreases k
  {
    if k > 0 { Div4Zero(i / 4, k - 1); }
  }

  lemma {:induction false} OrAligned(q: nat, l: nat, w: nat)
    requires l < Pow4(w)
    ensures Or(Scale(q, w), l) == Scale(q, w) + l
    decreases w
  {
    if w == 0 {
      OrZero(q);
    } else {
      OrAligned(q, l / 4, w - 1);
      OrStep(Scale(q, w - 1), l);
      hide Or;
    }
  }

  lemma OrStep(a: nat, l: nat)
    requires Or(a, l / 4) == a + l / 4
    ensures Or(4 * a, l) == 4 * a + l
  {
    OrMix(4 * a, l);
    hide Or;
    assert 4 * a / 4 == a;
  }

  lemma {:induction false} OrZero(q: nat)
    ensures Or(q, 0) == q
    decreases q
  {
    if q > 0 { OrZero(q / 2); }
  }

  // The two low bits come from the second operand alone.
  lemma OrMix(a: nat, b: nat)
    requires a % 4 == 0
    ensures Or(a, b) == 4 * Or(a / 4, b / 4) + b % 4
  {
    if a != 0 || b != 0 {
      assert a / 2 / 2 == a / 4 && b / 2 / 2 == b / 4 && a / 2 % 2 == 0;
      if a / 2 == 0 && b / 2 == 0 { assert Or(a / 4, b / 4) == 0; }
    }
  }

  lemma OrTimes(a: nat, b: nat)
    ensures Or(4 * a, 4 * b) == 4 * Or(a, b)
  {
    OrTwice(4 * a, 4 * b);
  }

  // The window and the rest OR back to the whole.
  lemma {:induction false} OrRestores(i: nat)
    requires i > 0
    ensures Or(Rest(i), Low(i)) == i
    decreases i
  {
    hide Low, Rest, Or, Scale, Pow4;
    RestStep(i);
    if i % 4 != 0 {
      Pow4Values();
      ScaleFour(i / 256);
      OrAligned(i / 256, i % 256, 4);
    } else {
      OrRestores(i / 4);
      OrTimes(Rest(i / 4), Low(i / 4));
    }
  }

  // -- No inverse opcode for the rest of a positive delta -----------------------------------

  lemma RotatedByte(imm8: u32, rot: nat)
    requires imm8 < 256 && rot < 16
    ensures ExpandImm(rot, imm8) % 256 != 255 || ExpandImm(rot, imm8) < 0x8000_0000
  {
    hide ExpandImm, Scale;
    if rot >= 4 {
      Shifted(imm8, rot);
      ScaleEven(imm8, 16 - rot);
    } else if rot == 0 {
      Trivial(imm8);
    } else {
      FirstFour(imm8);
      if rot == 1 {
        LowByte(imm8 / 4, imm8 % 4 * 0x40_0000);
      } else if rot == 2 {
        LowByte(imm8 / 16, imm8 % 16 * 0x10_0000);
      } else {
        LowByte(imm8 / 64, imm8 % 64 * 0x4_0000);
      }
    }
  }

  lemma LowByte(h: nat, m: nat)
    requires h < 64
    ensures (h + 256 * m) % 256 == h
  {
  }

  lemma ScaleEven(x: nat, k: nat)
    requires k > 0
    ensures Scale(x, k) % 256 != 255
  {
  }

  // The complement of the rest has its eight low bits and bit 31 set: too far apart for K12.
  lemma NeverInverse(d: u32)
    requires 0 < d <= 0x8000_0000
    ensures EmitIsk12(AND, Rest(d)).Enc? ==> EmitIsk12(AND, Rest(d)).op == AND
  {
    if d == 0x8000_0000 {
      ZeroAndMinDirect();
      LowOfMin();
    } else {
      RestByte(d);
      NotEncodable(Rest(d));
    }
    hide Direct, Rest;
  }

  lemma NotEncodable(x: u32)
    requires x < 0x8000_0000 && x % 256 == 0
    ensures Direct(Not32(x)).NoK12?
  {
    DirectExact(Not32(x));
    NotByte(x);
    var k := Direct(Not32(x));
    if k.K12? { RotatedByte(k.imm8, k.rot); }
    hide Direct, ExpandImm, Not32;
  }

  lemma NotByte(x: u32)
    requires x < 0x8000_0000 && x % 256 == 0
    ensures Not32(x) >= 0x8000_0000 && Not32(x) % 256 == 255
  {
  }

  lemma RestByte(d: u32)
    requires d > 0
    ensures Rest(d) % 256 == 0
  {
    RestDivides(d, 0);
    hide Rest;
    ByteClear(Rest(d));
  }

  lemma ByteClear(x: nat)
    requires Div4(x, 4)
    ensures x % 256 == 0
  {
    assert Div4(x / 4, 3) && Div4(x / 4 / 4, 2) && Div4(x / 4 / 4 / 4, 1);
    var y := x / 4 / 4 / 4;
    hide Div4;
    assert x / 4 / 4 == 4 * y && x / 4 == 16 * y && x == 64 * y && y == 4 * (y / 4);
    assert x == 256 * (y / 4);
  }

  lemma LowOfMin()
    ensures Rest(0x8000_0000) == 0
  {
    LowScaled(2, 15);
    ScaleValues(2);
  }

  lemma {:induction false} LowScaled(i: nat, k: nat)
    requires i > 0 && i % 4 != 0 && i < 256
    ensures Scale(i, k) > 0 && Low(Scale(i, k)) == Scale(i, k)
    decreases k
  {
    if k > 0 {
      LowScaled(i, k - 1);
      LowTimes(Scale(i, k - 1));
      hide Low;
    } else {
      assert i % 256 == i;
    }
  }

  lemma LowTimes(x: nat)
    requires x > 0
    ensures Low(4 * x) == 4 * Low(x)
  {
    assert 4 * x / 4 == x && 4 * x % 4 == 0;
  }

  // -- Deltas to known constants ------------------------------------------------------------

  // A single ADD/SUB (or a move, for a zero delta) from register q, which holds u.
  function Delta1(rd: Reg, q: Reg, u: u32, i: u32): (d: Option<Ins>)
    ensures d.Some? ==> ValidIns(d.value)
  {
    var e := EmitIsk12(ADD, (i - u) % TWO32);
    if e.NoEnc? then None
    else if e.k == K12(0, 0) && e.op == ADD then Some(MovReg(rd, q))
    else Some(DpImm(e.op, rd, q, e.k))
  }

  // Some recorded constant is one instruction away from i.
  ghost predicate Reach1(known: seq<Known>, rd: Reg, q: nat, i: u32)
    requires |known| == 15
  {
    q < 15 && known[q].Const? && Delta1(rd, q, known[q].u, i).Some?
  }

  lemma Delta1Loads(rd: Reg, q: Reg, i: u32, known: seq<Known>)
    requires |known| == 15 && Reach1(known, rd, q, i)
    ensures Loads([Delta1(rd, q, known[q].u, i).value], rd, i, known)
  {
    var u, d := known[q].u, Delta1(rd, q, known[q].u, i).value;
    Delta1Exact(rd, q, u, i);
    hide Delta1, Expand, Loads;
    DeltaRd(d, rd, q, u, i);
    forall r: seq<u32> | Consistent(r, known) ensures Value(d, r) == i {
      hide DeltaOk, Value;
      DeltaValue(d, rd, q, u, i, r);
    }
    LoadsOne(d, i, known);
  }

  // The instruction computes i from u in register q.
  predicate DeltaOk(d: Ins, rd: Reg, q: Reg, u: u32, i: u32)
    requires ValidIns(d)
  {
    match d
    case MovReg(d, m) => d == rd && m == q && u == i
    case DpImm(op, d, n, k) =>
      d == rd && n == q && op in {ADD, SUB} && (if op == ADD then u + Expand(k) else u - Expand(k)) % TWO32 == i
    case _ => false
  }

  lemma DeltaRd(d: Ins, rd: Reg, q: Reg, u: u32, i: u32)
    requires ValidIns(d) && DeltaOk(d, rd, q, u, i)
    ensures d.rd == rd
  {
  }

  lemma DeltaValue(d: Ins, rd: Reg, q: Reg, u: u32, i: u32, r: seq<u32>)
    requires ValidIns(d) && DeltaOk(d, rd, q, u, i) && IsRegs(r) && r[q] == u
    ensures Value(d, r) == i
  {
    hide Expand;
  }

  lemma Delta1Exact(rd: Reg, q: Reg, u: u32, i: u32)
    requires Delta1(rd, q, u, i).Some?
    ensures DeltaOk(Delta1(rd, q, u, i).value, rd, q, u, i)
  {
    hide EmitIsk12, Expand, DeltaOk;
    var e := EmitIsk12(ADD, (i - u) % TWO32);
    assert e.Enc?;
    EncodedDelta(rd, q, u, i, e);
  }

  lemma EncodedDelta(rd: Reg, q: Reg, u: u32, i: u32, e: Enc)
    requires e == EmitIsk12(ADD, (i - u) % TWO32) && e.Enc?
    ensures e.op in {ADD, SUB} && DeltaOk(DpImm(e.op, rd, q, e.k), rd, q, u, i)
    ensures e.k == K12(0, 0) && e.op == ADD ==> DeltaOk(MovReg(rd, q), rd, q, u, i)
  {
    hide EmitIsk12, Expand;
    var n: u32 := (i - u) % TWO32;
    DeltaEncoded(n);
    DeltaAdds(u, i, n);
    hide Neg32;
  }

  lemma DeltaEncoded(n: u32)
    requires EmitIsk12(ADD, n).Enc?
    ensures var e := EmitIsk12(ADD, n); e.op in {ADD, SUB} && Expand(e.k) == if e.op == ADD then n else Neg32(n)
    ensures EmitIsk12(ADD, n) == Enc(K12(0, 0), ADD) ==> n == 0
  {
    DirectExact(n);
    DirectExact(Neg32(n));
    assert ExpandImm(0, 0) == 0;
    hide Direct, ExpandImm, Neg32;
  }

  lemma DeltaAdds(u: u32, i: u32, n: u32)
    requires n == (i - u) % TWO32
    ensures (u + n) % TWO32 == i && (u - Neg32(n)) % TWO32 == i && (n == 0 ==> u == i)
  {
  }

  // The magnitude of the delta from u to i and its two halves.
  function Magnitude(n: u32): u32 { if n >= 0x8000_0000 then Neg32(n) else n }

  lemma TwoSteps(u: u32, i: u32, rest: u32, low: u32)
    requires rest + low == Magnitude((i - u) % TWO32)
    ensures var neg := (i - u) % TWO32 >= 0x8000_0000;
      if neg then ((u - rest) % TWO32 - low) % TWO32 == i else ((u + rest) % TWO32 + low) % TWO32 == i
  {
    var d := Magnitude((i - u) % TWO32);
    MagnitudeAdds(u, i);
    hide Magnitude;
    var r: int, l: int := rest, low;
    WrapTwice(u, r, l);
    WrapTwice(u, -r, -l);
    assert u + -r + -l == u - d;
  }

  lemma MagnitudeAdds(u: u32, i: u32)
    ensures var n := (i - u) % TWO32;
      (if n >= 0x8000_0000 then u - Magnitude(n) else u + Magnitude(n)) % TWO32 == i
  {
  }

  lemma WrapTwice(u: int, x: int, y: int)
    ensures ((u + x) % TWO32 + y) % TWO32 == (u + x + y) % TWO32
  {
  }

  // A failed one-step delta is neither zero nor encodable with either sign.
  lemma FailedStep(rd: Reg, q: Reg, u: u32, i: u32)
    requires Delta1(rd, q, u, i).None?
    ensures 0 < Magnitude((i - u) % TWO32) <= 0x8000_0000
  {
    ZeroAndMinDirect();
    hide Direct;
  }

  lemma DeltaRuns(rd: Reg, q: Reg, i: u32, known: seq<Known>, kr: K12, kl: K12)
    requires |known| == 15 && known[q].Const? && ValidK12(kr) && ValidK12(kl)
    requires Expand(kr) + Expand(kl) == Magnitude((i - known[q].u) % TWO32)
    ensures var op := if (i - known[q].u) % TWO32 >= 0x8000_0000 then SUB else ADD;
      Loads([DpImm(op, rd, q, kr), DpImm(op, rd, rd, kl)], rd, i, known)
  {
    var op := if (i - known[q].u) % TWO32 >= 0x8000_0000 then SUB else ADD;
    var x, y := DpImm(op, rd, q, kr), DpImm(op, rd, rd, kl);
    forall r: seq<u32> | Consistent(r, known) ensures Run([x, y], r) == r[rd := i] {
      DeltaTwo(rd, q, known[q].u, i, kr, kl, r);
    }
  }

  lemma DeltaTwo(rd: Reg, q: Reg, u: u32, i: u32, kr: K12, kl: K12, r: seq<u32>)
    requires IsRegs(r) && r[q] == u && ValidK12(kr) && ValidK12(kl)
    requires Expand(kr) + Expand(kl) == Magnitude((i - u) % TWO32)
    ensures var op := if (i - u) % TWO32 >= 0x8000_0000 then SUB else ADD;
      Run([DpImm(op, rd, q, kr), DpImm(op, rd, rd, kl)], r) == r[rd := i]
  {
    var op := if (i - u) % TWO32 >= 0x8000_0000 then SUB else ADD;
    var x, y := DpImm(op, rd, q, kr), DpImm(op, rd, rd, kl);
    SecondValue(op, rd, q, u, i, kr, kl, r);
    hide Expand, Magnitude, Run, Value;
    RunTwo(x, y, r);
    RunOne(y, r[rd := Value(x, r)]);
  }

  lemma SecondValue(op: Op, rd: Reg, q: Reg, u: u32, i: u32, kr: K12, kl: K12, r: seq<u32>)
    requires IsRegs(r) && r[q] == u && ValidK12(kr) && ValidK12(kl)
    requires Expand(kr) + Expand(kl) == Magnitude((i - u) % TWO32)
    requires op == if (i - u) % TWO32 >= 0x8000_0000 then SUB else ADD
    ensures Value(DpImm(op, rd, rd, kl), r[rd := Value(DpImm(op, rd, q, kr), r)]) == i
  {
    hide Expand, Magnitude;
    TwoSteps(u, i, Expand(kr), Expand(kl));
  }

  // Both windows of a magnitude encode without an inverse opcode and add up to it.
  lemma Windows(d: u32)
    requires 0 < d <= 0x8000_0000
    ensures Rest(d) + Low(d) == d
    ensures var e := EmitIsk12(AND, Low(d)); e.Enc? && Expand(e.k) == Low(d)
    ensures var e := EmitIsk12(AND, Rest(d)); e.Enc? ==> Expand(e.k) == Rest(d)
  {
    NeverInverse(d);
    LowEncodable(d);
    DirectExact(Rest(d));
    if EmitIsk12(AND, Rest(d)).Enc? { NotBoth(Rest(d)); }
    hide Direct, Low, Expand;
  }

  // The distance of i from a recorded constant other than zero is its lowest window plus an immediate.
  ghost predicate Reach2(known: seq<Known>, q: nat, i: u32)
    requires |known| == 15
  {
    && q < 15 && known[q].Const? && known[q].u != 0
    && TwoWindows(Magnitude((i - known[q].u) % TWO32))
  }

  ghost predicate TwoWindows(d: u32) { d > 0 && exists k :: ValidK12(k) && Expand(k) + Low(d) == d }

  lemma WindowsExact(d: u32)
    requires 0 < d <= 0x8000_0000
    ensures EmitIsk12(AND, Rest(d)).Enc? <==> TwoWindows(d)
  {
    DirectExact(Rest(d));
    NeverInverse(d);
    hide Direct, Low, Expand;
  }

  lemma NotBoth(n: u32)
    requires EmitIsk12(AND, n).Enc? && EmitIsk12(AND, n).op == AND
    ensures EmitIsk12(AND, n).k == Direct(n)
  {
  }

  // -- The fallback: MOV and ORR of the windows -----------------------------------------------

  // From cur in rd, the sequence completes u.
  ghost predicate Finishes(ins: seq<Ins>, rd: Reg, cur: u32, u: u32) {
    ValidCode(ins) && forall r: seq<u32> :: IsRegs(r) && r[rd] == cur ==> Run(ins, r) == r[rd := u]
  }

  lemma FinishesNil(rd: Reg, u: u32)
    ensures Finishes([], rd, u, u)
  {
  }

  lemma FinishesOrr(ins: seq<Ins>, rd: Reg, cur: u32, u: u32)
    requires cur > 0 && Finishes(ins, rd, cur, u) && Direct(Low(cur)).K12?
    ensures Finishes([DpImm(ORR, rd, rd, Direct(Low(cur)))] + ins, rd, Rest(cur), u)
  {
    var i := DpImm(ORR, rd, rd, Direct(Low(cur)));
    LowEncodable(cur);
    OrRestores(cur);
    hide Direct, Low, Rest, Or, Expand;
    assert ([i] + ins)[1..] == ins;
    forall r: seq<u32> | IsRegs(r) && r[rd] == Rest(cur) ensures Run([i] + ins, r) == r[rd := u] {
      assert Value(i, r) == cur;
      assert Run([i] + ins, r) == Run(ins, r[rd := cur]);
    }
  }

  lemma FinishesMov(ins: seq<Ins>, rd: Reg, cur: u32, u: u32, known: seq<Known>)
    requires cur > 0 && Finishes(ins, rd, cur, u) && Direct(cur).K12?
    ensures Loads([DpImm(MOV, rd, 0, Direct(cur))] + ins, rd, u, known)
  {
    var i := DpImm(MOV, rd, 0, Direct(cur));
    DirectExact(cur);
    hide Direct, Expand;
    assert ([i] + ins)[1..] == ins;
    forall r: seq<u32> | Consistent(r, known) ensures Run([i] + ins, r) == r[rd := u] {
      assert Run([i] + ins, r) == Run(ins, r[rd := cur]);
    }
  }

  // Four windows cover a word.
  lemma FewWindows(cur: u32, n: nat)
    requires cur > 0 && Div4(cur, 4 * n)
    ensures n < 4
  {
    if n >= 4 {
      Div4Down(cur, 16, 4 * n);
      Pow4Values();
      Div4Zero(cur, 16);
    }
  }

  lemma {:induction false} Div4Down(i: nat, k: nat, k': nat)
    requires Div4(i, k') && k <= k'
    ensures Div4(i, k)
    decreases k' - k
  {
    if k < k' {
      Div4Less(i, k');
      Div4Down(i, k, k' - 1);
    }
  }

  lemma MovLoads(rd: Reg, i: u32, known: seq<Known>)
    requires EmitIsk12(MOV, i).Enc?
    ensures var e := EmitIsk12(MOV, i); e.op in {MOV, MVN} && Loads([DpImm(e.op, rd, 0, e.k)], rd, i, known)
  {
    var e := EmitIsk12(MOV, i);
    DirectExact(i);
    DirectExact(Not32(i));
    hide Direct, Expand;
    LoadsOne(DpImm(e.op, rd, 0, e.k), i, known);
  }

  lemma HalvesLoad(rd: Reg, i: u32, known: seq<Known>)
    ensures Loads([MovW(rd, i % 0x1_0000), MovT(rd, i / 0x1_0000)], rd, i, known)
  {
    var x, y := MovW(rd, i % 0x1_0000), MovT(rd, i / 0x1_0000);
    forall r: seq<u32> | Consistent(r, known) ensures Run([x, y], r) == r[rd := i] {
      RunTwo(x, y, r);
      RunOne(y, r[rd := Value(x, r)]);
    }
  }

  // The assembler state; the instruction emitted last runs first.
  class Asm {
    var code: seq<Ins>
    var known: seq<Known>
    const v6t2: bool

    ghost predicate Valid()
      reads this
    {
      ValidCode(code) && |known| == 15
    }

    method Emit(i: Ins)
      requires Valid() && ValidIns(i)
      modifies this`code
      ensures Valid() && code == [i] + old(code)
    {
      code := [i] + code;
    }

    // One instruction from a recorded constant; the highest register is tried first.
    method EmitKdelta1(rd: Reg, i: u32) returns (ok: bool, ghost ins: seq<Ins>)
      requires Valid()
      modifies this`code
      ensures Valid() && (ok ==> code == ins + old(code) && |ins| == 1 && Loads(ins, rd, i, known))
      ensures !ok ==> code == old(code)
      ensures ok <==> exists q :: 0 <= q < 15 && Reach1(known, rd, q, i)
    {
      hide Loads, Delta1;
      for q := 15 downto 0
        invariant Valid() && code == old(code)
        invariant forall j :: q <= j < 15 ==> !Reach1(known, rd, j, i)
      {
        if known[q].Const? {
          var d := Delta1(rd, q, known[q].u, i);
          if d.Some? {
            Delta1Loads(rd, q, i, known);
            Emit(d.value);
            assert Reach1(known, rd, q, i);
            return true, [d.value];
          }
        }
      }
      return false, [];
    }

    // Two instructions from a recorded constant, once one has proved not to be enough.
    method EmitKdelta2(rd: Reg, i: u32) returns (ok: bool, ghost ins: seq<Ins>)
      requires Valid() && forall q :: 0 <= q < 15 ==> !Reach1(known, rd, q, i)
      modifies this`code
      ensures Valid() && (ok ==> code == ins + old(code) && |ins| == 2 && Loads(ins, rd, i, known))
      ensures !ok ==> code == old(code)
      ensures ok <==> exists q :: 0 <= q < 15 && Reach2(known, q, i)
    {
      hide Loads, Delta1, Direct, Low, Expand, Magnitude, TwoWindows, EmitIsk12;
      for q := 15 downto 0
        invariant Valid() && code == old(code)
        invariant forall j :: q <= j < 15 ==> !Reach2(known, j, i)
      {
        if known[q].Const? && known[q].u != 0 {
          var n: u32 := (i - known[q].u) % TWO32;
          assert !Reach1(known, rd, q, i);
          FailedStep(rd, q, known[q].u, i);
          var delta, op := Magnitude(n), if n >= 0x8000_0000 then SUB else ADD;
          var k2, k := EmitIsk12(AND, Low(delta)), EmitIsk12(AND, Rest(delta));
          WindowsExact(delta);
          if k.Enc? {
            Windows(delta);
            assert Reach2(known, q, i);
            DeltaRuns(rd, q, i, known, k.k, k2.k);
            Emit(DpImm(op, rd, rd, k2.k));
            Emit(DpImm(op, rd, q, k.k));
            return true, [DpImm(op, rd, q, k.k), DpImm(op, rd, rd, k2.k)];
          }
        }
      }
      return false, [];
    }

    // Construct the constant from its windows.
    method EmitWindows(rd: Reg, i: u32) returns (ghost ins: seq<Ins>)
      requires Valid() && i > 0
      modifies this`code
      ensures Valid() && code == ins + old(code) && Loads(ins, rd, i, known) && 1 <= |ins| <= 4
    {
      hide Loads, Finishes, Direct, Low;
      var cur := i;
      ins := [];
      FinishesNil(rd, i);
      while true
        invariant Valid() && code == ins + old(code)
        invariant cur > 0 && Div4(cur, 4 * |ins|) && Finishes(ins, rd, cur, i)
        decreases cur
      {
        FewWindows(cur, |ins|);
        LowEncodable(cur);
        RestDivides(cur, 4 * |ins|);
        var m, rest := Low(cur), Rest(cur);
        if rest == 0 {
          FinishesMov(ins, rd, cur, i, known);
          Emit(DpImm(MOV, rd, 0, Direct(m)));
          ins := [DpImm(MOV, rd, 0, Direct(m))] + ins;
          return;
        }
        FinishesOrr(ins, rd, cur, i);
        Emit(DpImm(ORR, rd, rd, Direct(m)));
        ins := [DpImm(ORR, rd, rd, Direct(m))] + ins;
        cur := rest;
      }
    }

    // The shortest known form of a constant load.
    method EmitLoadi(rd: Reg, i: u32) returns (ghost ins: seq<Ins>)
      requires Valid()
      modifies this`code
      ensures Valid() && code == ins + old(code) && Loads(ins, rd, i, known)
      ensures 1 <= |ins| <= if v6t2 then 2 else 4
      ensures EmitIsk12(MOV, i).Enc? || (exists q :: 0 <= q < 15 && Reach1(known, rd, q, i)) ==> |ins| == 1
    {
      hide Loads, Delta1, Direct, Low;
      var k := EmitIsk12(MOV, i);
      if k.Enc? {
        MovLoads(rd, i, known);
        Emit(DpImm(k.op, rd, 0, k.k));
        return [DpImm(k.op, rd, 0, k.k)];
      }
      if v6t2 && i < 0x1_0000 {
        LoadsOne(MovW(rd, i), i, known);
        Emit(MovW(rd, i));
        return [MovW(rd, i)];
      }
      var ok;
      ok, ins := EmitKdelta1(rd, i);
      if ok { return; }
      if v6t2 {
        HalvesLoad(rd, i, known);
        Emit(MovT(rd, i / 0x1_0000));
        Emit(MovW(rd, i % 0x1_0000));
        return [MovW(rd, i % 0x1_0000), MovT(rd, i / 0x1_0000)];
      }
      ok, ins := EmitKdelta2(rd, i);
      if ok { return; }
      ZeroAndMinDirect();
      ins := EmitWindows(rd, i);
    }
  }
}
