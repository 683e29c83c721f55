// ARM64 constant materialisation (emit_loadk, emit_kdelta, emit_kadrp).
module A64LoadK {
  import opened Words
  import opened Bits
  import opened ModArith
  import opened A64Imm

  // -- 16-bit fragments -------------------------------------------------------

  predicate IsFrags(f: seq<int>) { |f| == 4 && forall i :: 0 <= i < 4 ==> 0 <= f[i] < TWO16 }

  function Join(f: seq<int>): u64
    requires IsFrags(f)
  {
    f[0] + TWO16 * (f[1] + TWO16 * (f[2] + TWO16 * f[3]))
  }

  function Frags(u: u64): (f: seq<int>)
    ensures IsFrags(f) && Join(f) == u
  {
    var a, b, c := u / TWO16, u / TWO16 / TWO16, u / TWO16 / TWO16 / TWO16;
    [u % TWO16, a % TWO16, b % TWO16, c]
  }

  lemma JoinInjective(f: seq<int>, g: seq<int>)
    requires IsFrags(f) && IsFrags(g) && Join(f) == Join(g)
    ensures f == g
  {
    assert f[0] == g[0] && f[1] + TWO16 * (f[2] + TWO16 * f[3]) == g[1] + TWO16 * (g[2] + TWO16 * g[3]);
    assert f[1] == g[1] && f[2] + TWO16 * f[3] == g[2] + TWO16 * g[3];
  }

  // -- Instructions (sf selects the 64-bit form; 32-bit results are zero-extended) --------

  // General-purpose registers; number 31 is not one of them.
  type Reg = r: nat | r < 31

  datatype Ins =
    | MovZ(sf: bool, rd: Reg, imm: int, hw: nat)
    | MovN(sf: bool, rd: Reg, imm: int, hw: nat)
    | MovK(sf: bool, rd: Reg, imm: int, hw: nat)
    | OrrImm(sf: bool, rd: Reg, k: K13)  // rn is the zero register
    | MovReg(sf: bool, rd: Reg, rm: Reg)
    | AddImm(sf: bool, rd: Reg, rn: Reg, imm12: nat, sh12: bool)
    | SubImm(sf: bool, rd: Reg, rn: Reg, imm12: nat, sh12: bool)
    | Adr(rd: Reg, imm: int)
    | Adrp(rd: Reg, imm: int)

  predicate ValidIns(i: Ins) {
    match i
    case MovZ(sf, _, imm, hw) => 0 <= imm < TWO16 && hw < (if sf then 4 else 2)
    case MovN(sf, _, imm, hw) => 0 <= imm < TWO16 && hw < (if sf then 4 else 2)
    case MovK(sf, _, imm, hw) => 0 <= imm < TWO16 && hw < (if sf then 4 else 2)
    case OrrImm(sf, _, k) => Legal(k) && (!sf ==> k.n == 0)
    case AddImm(_, _, _, imm, _) => imm < 4096
    case SubImm(_, _, _, imm, _) => imm < 4096
    case Adr(_, imm) => -0x10_0000 <= imm < 0x10_0000
    case Adrp(_, imm) => -0x10_0000 <= imm < 0x10_0000
    case _ => true
  }

  function Result(sf: bool, x: int): u64 { if sf then x % TWO64 else x % TWO32 }

  function MovBase(sf: bool, ones: bool, imm: int, hw: nat): (f: seq<int>)
    requires 0 <= imm < TWO16 && hw < (if sf then 4 else 2)
    ensures IsFrags(f)
  {
    seq(4, j requires 0 <= j < 4 =>
      if j == hw then (if ones then 0xffff - imm else imm) else if ones && (sf || j < 2) then 0xffff else 0)
  }

  function ToNat(w: Word): nat {
    if w == [] then 0 else (if w[0] then 1 else 0) + 2 * ToNat(w[1..])
  }

  predicate IsRegs(r: seq<u64>) { |r| == 31 }

  function AdrValue(imm: int, pc: int): u64 { Result(true, pc + imm) }
  function AdrpValue(imm: int, pc: int): u64 { Result(true, pc - pc % 4096 + imm * 4096) }

  function Value(i: Ins, r: seq<u64>, pc: int): u64
    requires ValidIns(i) && IsRegs(r)
  {
    match i
    case MovZ(sf, _, imm, hw) => Join(MovBase(sf, false, imm, hw))
    case MovN(sf, _, imm, hw) => Join(MovBase(sf, true, imm, hw))
    case MovK(sf, rd, imm, hw) => Join(Frags(Result(sf, r[rd]))[hw := imm])
    case OrrImm(sf, _, k) => Result(sf, ToNat(DecodeBitMasks(k)))
    case MovReg(sf, _, rm) => Result(sf, r[rm])
    case AddImm(sf, _, rn, imm, sh) => Result(sf, r[rn] + (if sh then imm * 4096 else imm))
    case SubImm(sf, _, rn, imm, sh) => Result(sf, r[rn] - (if sh then imm * 4096 else imm))
    case Adr(_, imm) => AdrValue(imm, pc)
    case Adrp(_, imm) => AdrpValue(imm, pc)
  }

  function Exec(i: Ins, r: seq<u64>, pc: int): (r': seq<u64>)
    requires ValidIns(i) && IsRegs(r)
    ensures IsRegs(r')
  {
    r[i.rd := Value(i, r, pc)]
  }

  ghost predicate ValidCode(code: seq<Ins>) { forall i :: 0 <= i < |code| ==> ValidIns(code[i]) }

  // Straight-line execution of code placed at pc.
  function Run(code: seq<Ins>, r: seq<u64>, pc: int): (r': seq<u64>)
    requires ValidCode(code) && IsRegs(r)
    ensures IsRegs(r')
  {
    if code == [] then r else Run(code[1..], Exec(code[0], r, pc), pc + 4)
  }

  // -- K12: 12-bit add/sub immediates ------------------------------------------

  datatype K12 = NoK12 | K12(imm12: nat, sh12: bool, swap: bool)

  function K12Value(k: K12): int
    requires k.K12?
  {
    var v := if k.sh12 then k.imm12 * 4096 else k.imm12;
    if k.swap then -v else v
  }

  // swap asks for the opposite of ADD/SUB (bit 30 of the opcode is flipped)
  function EmitIsk12(n: int): (r: K12)
    requires -0x8000_0000_0000_0000 <= n < 0x8000_0000_0000_0000
    ensures r.K12? ==> r.imm12 < 4096 && n == K12Value(r)
    ensures r.NoK12? <==> (n <= -4096 || n >= 4096) && (n % 4096 != 0 || n <= -0x100_0000 || n >= 0x100_0000)
  {
    var k := if n < 0 then -n else n;
    if k < 0x1000 then K12(k, false, n < 0)
    else if k < 0x100_0000 && k % 4096 == 0 then K12(k / 4096, true, n < 0)
    else NoK12
  }

  // Register constants the allocator has on record; they are assumed to be what the registers hold.
  datatype Known = Unknown | Const(u: u64)

  ghost predicate Consistent(r: seq<u64>, known: seq<Known>) {
    IsRegs(r) && |known| == 31 && forall q :: 0 <= q < 31 && known[q].Const? ==> r[q] == known[q].u
  }

  // Running ins puts u into rd and changes nothing else.
  ghost predicate Loads(ins: seq<Ins>, rd: Reg, u: u64, known: seq<Known>, pc: int) {
    ValidCode(ins) && forall r: seq<u64> :: Consistent(r, known) ==> Run(ins, r, pc) == r[rd := u]
  }

  lemma RunOne(i: Ins, r: seq<u64>, pc: int)
    requires ValidIns(i) && IsRegs(r)
    ensures Run([i], r, pc) == r[i.rd := Value(i, r, pc)]
  {
  }

  // One instruction whose value is u in every consistent state.
  lemma LoadsOne(i: Ins, u: u64, known: seq<Known>, pc: int)
    requires ValidIns(i)
    requires forall r: seq<u64> :: Consistent(r, known) ==> Value(i, r, pc) == u
    ensures Loads([i], i.rd, u, known, pc)
  {
  }

  // -- K13 path -----------------------------------------------------------------

  function FromNat(u: nat, w: nat): (r: Word)
    ensures |r| == w
  {
    if w == 0 then [] else [u % 2 == 1] + FromNat(u / 2, w - 1)
  }

  lemma {:induction false} NatRoundTrip(u: nat, w: nat)
    requires u < Pow2(w)
    ensures ToNat(FromNat(u, w)) == u
    decreases w
  {
    if w > 0 { NatRoundTrip(u / 2, w - 1); }
  }

  lemma {:induction false} FromNatPrefix(u: nat, w: nat, v: nat)
    requires v <= w
    ensures FromNat(u, w)[..v] == FromNat(u, v)
    decreases v
  {
    if v > 0 { FromNatPrefix(u / 2, w - 1, v - 1); }
  }

  lemma {:induction false} ToNatAppend(a: Word, b: Word)
    ensures ToNat(a + b) == ToNat(a) + Pow2(|a|) * ToNat(b)
  {
    if a == [] {
      assert a + b == b;
    } else {
      assert (a + b)[1..] == a[1..] + b;
      ToNatAppend(a[1..], b);
      var p, t := Pow2(|a| - 1), ToNat(b);
      assert Pow2(|a|) * t == p * t + p * t by { Double(p, t); }
    }
  }

  lemma Double(p: nat, t: nat)
    ensures (2 * p) * t == p * t + p * t
  {
  }

  lemma WidenedValue(u: u64, sf: bool)
    requires !sf ==> u < TWO32
    ensures Result(sf, ToNat(Widen(FromNat(u, 64), sf))) == u
  {
    hide FromNat, ToNat, Pow2;
    var n := FromNat(u, 64);
    Pow2Values();
    NatRoundTrip(u, 64);
    if !sf {
      FromNatPrefix(u, 64, 32);
      NatRoundTrip(u, 32);
      ToNatAppend(n[..32], n[..32]);
    }
  }

  lemma K13Loads(u: u64, sf: bool, rd: Reg, r: seq<u64>, pc: int)
    requires IsRegs(r) && (!sf ==> u < TWO32) && EmitIsk13(FromNat(u, 64), sf).K13?
    ensures var i := OrrImm(sf, rd, EmitIsk13(FromNat(u, 64), sf)); ValidIns(i) && Value(i, r, pc) == u
  {
    hide EmitIsk13, DecodeBitMasks, FromNat, ToNat, Result, Legal, Widen;
    Isk13Sound(FromNat(u, 64), sf);
    if !sf { Isk13Narrow(FromNat(u, 64)); }
    WidenedValue(u, sf);
  }

  // -- MOVZ/MOVN + MOVK path ----------------------------------------------------

  // Fragments in the first n positions that differ from x.
  function CountNot(f: seq<int>, n: nat, x: int): (c: nat)
    requires n <= |f|
    ensures c <= n
  {
    if n == 0 then 0 else CountNot(f, n - 1, x) + (if f[n - 1] != x then 1 else 0)
  }

  // Instructions a MOVZ/MOVN sequence needs: the better of the two, at least one.
  function MovCount(u: u64): nat {
    var n := if u < TWO32 then 2 else 4;
    var zeros, ones := CountNot(Frags(u), n, 0), CountNot(Frags(u), n, 0xffff);
    var k := if ones < zeros then ones else zeros;
    if k == 0 then 1 else k
  }

  // What the MOVKs still to be run have to find in the register: fragments up to s and the
  // skipped ones are right.
  ghost predicate Pending(w: seq<int>, t: seq<int>, v: seq<int>, s: int)
    requires IsFrags(t) && IsFrags(v)
  {
    IsFrags(w) && forall j :: 0 <= j < 4 && (j <= s || v[j] == 0) ==> w[j] == t[j]
  }

  ghost predicate Completes(ins: seq<Ins>, rd: Reg, t: seq<int>, v: seq<int>, s: int)
    requires IsFrags(t) && IsFrags(v)
  {
    && ValidCode(ins)
    && (forall r: seq<u64>, pc: int ::
          IsRegs(r) && Pending(Frags(r[rd]), t, v, s) ==> Run(ins, r, pc) == r[rd := Join(t)])
  }

  lemma CompletesNil(rd: Reg, t: seq<int>, v: seq<int>, s: int)
    requires IsFrags(t) && IsFrags(v) && 0 <= s && forall j :: s < j < 4 ==> v[j] == 0
    ensures Completes([], rd, t, v, s)
  {
  }

  lemma SkipZero(ins: seq<Ins>, rd: Reg, t: seq<int>, v: seq<int>, s: nat)
    requires IsFrags(t) && IsFrags(v) && s < 4 && v[s] == 0 && Completes(ins, rd, t, v, s)
    ensures Completes(ins, rd, t, v, s - 1)
  {
  }

  lemma AddMovK(ins: seq<Ins>, sf: bool, rd: Reg, t: seq<int>, v: seq<int>, s: nat)
    requires IsFrags(t) && IsFrags(v) && s < 4 && Completes(ins, rd, t, v, s)
    requires !sf ==> s < 2 && t[2] == t[3] == v[2] == v[3] == 0
    ensures Completes([MovK(sf, rd, t[s], s)] + ins, rd, t, v, s - 1)
  {
    hide Frags, Join, Result;
    var k := MovK(sf, rd, t[s], s);
    var code := [k] + ins;
    assert code[1..] == ins;
    forall r: seq<u64>, pc: int | IsRegs(r) && Pending(Frags(r[rd]), t, v, s - 1)
      ensures Run(code, r, pc) == r[rd := Join(t)]
    {
      if !sf { NarrowFrags(r[rd]); }
      WideFrags(r[rd]);
      var g := Frags(r[rd])[s := t[s]];
      FragsJoin(g);
      assert Exec(k, r, pc) == r[rd := Join(g)];
      assert Pending(g, t, v, s);
    }
  }

  // One round of the loop over the fragments: a zero one is skipped.
  lemma MovKStep(ins: seq<Ins>, sf: bool, rd: Reg, t: seq<int>, v: seq<int>, s: nat)
    requires IsFrags(t) && IsFrags(v) && s < 4 && Completes(ins, rd, t, v, s)
    requires !sf ==> s < 2 && t[2] == t[3] == v[2] == v[3] == 0
    ensures Completes(if v[s] == 0 then ins else [MovK(sf, rd, t[s], s)] + ins, rd, t, v, s - 1)
    ensures CountNot(v, s + 1, 0) == CountNot(v, s, 0) + (if v[s] != 0 then 1 else 0)
  {
    hide Completes;
    CountStep(v, s, 0);
    if v[s] == 0 { SkipZero(ins, rd, t, v, s); } else { AddMovK(ins, sf, rd, t, v, s); }
  }

  lemma FragsJoin(f: seq<int>)
    requires IsFrags(f)
    ensures Frags(Join(f)) == f
  {
    JoinInjective(Frags(Join(f)), f);
  }

  lemma NarrowFrags(u: u64)
    requires Frags(u)[2] == Frags(u)[3] == 0
    ensures Result(false, u) == u
  {
  }

  lemma WideFrags(u: u64)
    ensures Result(true, u) == u
  {
  }

  // The first instruction of the sequence fills all fragments that the MOVKs do not touch.
  lemma FirstMov(ins: seq<Ins>, sf: bool, neg: bool, rd: Reg, t: seq<int>, v: seq<int>, s: nat,
                 known: seq<Known>, pc: int)
    requires IsFrags(t) && IsFrags(v) && s < (if sf then 4 else 2) && Completes(ins, rd, t, v, s)
    requires Inverted(t, v, neg, sf) && forall j :: 0 <= j < s ==> v[j] == 0
    ensures Loads([if neg then MovN(sf, rd, v[s], s) else MovZ(sf, rd, v[s], s)] + ins, rd, Join(t), known, pc)
  {
    hide Frags, Join;
    var i := if neg then MovN(sf, rd, v[s], s) else MovZ(sf, rd, v[s], s);
    var code := [i] + ins;
    assert code[1..] == ins;
    forall r: seq<u64> | Consistent(r, known) ensures Run(code, r, pc) == r[rd := Join(t)] {
      FragsJoin(MovBase(sf, neg, v[s], s));
      assert Pending(MovBase(sf, neg, v[s], s), t, v, s);
    }
  }

  // v is t, or its complement inside the register width.
  predicate Inverted(t: seq<int>, v: seq<int>, neg: bool, sf: bool)
    requires IsFrags(t) && IsFrags(v)
  {
    && (!sf ==> t[2] == t[3] == v[2] == v[3] == 0)
    && forall j :: 0 <= j < (if sf then 4 else 2) ==> v[j] == if neg then 0xffff - t[j] else t[j]
  }

  // The assembler state: code grows downwards from top, so the instruction emitted last runs first.
  class Asm {
    var code: seq<Ins>
    const top: nat
    var known: seq<Known>

    ghost predicate Valid()
      reads this
    {
      ValidCode(code) && |known| == 31 && top % 4 == 0 && 4 * |code| <= top < 0x7fff_ffff_0000_0000
    }

    function Mcp(): int
      reads this
    {
      top - 4 * |code|
    }

    method Emit(i: Ins)
      requires Valid() && ValidIns(i) && Mcp() >= 4
      modifies this`code
      ensures Valid() && code == [i] + old(code)
    {
      code := [i] + code;
    }

    // The MOVKs for the fragments above lo, the last fragment first.
    method EmitMovKs(rd: Reg, sf: bool, neg: bool, ghost t: seq<int>, v: seq<int>, top: nat, lo: nat)
        returns (ghost ins: seq<Ins>)
      requires Valid() && Mcp() >= 16 && IsFrags(t) && IsFrags(v) && lo <= top < (if sf then 4 else 2)
      requires !sf ==> t[2] == t[3] == v[2] == v[3] == 0
      requires forall j :: 0 <= j <= top ==> t[j] == if neg then 0xffff - v[j] else v[j]
      requires forall j :: top < j < 4 ==> v[j] == 0
      modifies this`code
      ensures Valid() && code == ins + old(code) && |ins| <= 3
      ensures Completes(ins, rd, t, v, lo)
      ensures |ins| == CountNot(v, top + 1, 0) - CountNot(v, lo + 1, 0)
    {
      hide Completes, CountNot;
      ins := [];
      CompletesNil(rd, t, v, top);
      var s := top;
      while s > lo
        invariant lo <= s <= top && Completes(ins, rd, t, v, s)
        invariant Valid() && code == ins + old(code)
        invariant |ins| == CountNot(v, top + 1, 0) - CountNot(v, s + 1, 0) && |ins| + s <= top
      {
        MovKStep(ins, sf, rd, t, v, s);
        if v[s] != 0 {
          Emit(MovK(sf, rd, if neg then 0xffff - v[s] else v[s], s));
          ins := [MovK(sf, rd, t[s], s)] + ins;
        }
        s := s - 1;
      }
    }

    // Movz/movn and movk.
    method EmitMovs(rd: Reg, u: u64, neg: bool) returns (ghost ins: seq<Ins>)
      requires Valid() && Mcp() >= 16
      modifies this`code
      ensures Valid() && code == ins + old(code)
      ensures Loads(ins, rd, u, known, Mcp())
      ensures |ins| == AtLeast1(CountNot(Frags(u), if u < TWO32 then 2 else 4, if neg then 0xffff else 0))
    {
      hide Completes, Loads, Frags, Join, CountNot, MovBase;
      var sf, t := u >= TWO32, Frags(u);
      var n := if sf then 4 else 2;
      var v := Invert(t, neg, n);
      InvertFacts(u, neg);
      var top := TopFrag(v, n);
      var lo := BotFrag(v, top);
      ins := EmitMovKs(rd, sf, neg, t, v, top, lo);
      CountHead(v, lo);
      Emit(if neg then MovN(sf, rd, v[lo], lo) else MovZ(sf, rd, v[lo], lo));
      FirstMov(ins, sf, neg, rd, t, v, lo, known, Mcp());
      ins := [if neg then MovN(sf, rd, v[lo], lo) else MovZ(sf, rd, v[lo], lo)] + ins;
    }

    // One instruction from a recorded constant; the highest register is tried first.
    method EmitKdelta(rd: Reg, k: u64, sf: bool) returns (ok: bool, ghost ins: seq<Ins>)
      requires Valid() && Mcp() >= 16 && (!sf ==> k < TWO32)
      modifies this`code
      ensures Valid() && (ok ==> code == ins + old(code) && |ins| == 1 && Loads(ins, rd, k, known, Mcp()))
      ensures !ok ==> code == old(code)
      ensures ok <==> exists q :: 0 <= q < 31 && Reach(known, rd, q, k, sf)
    {
      hide Loads, DeltaIns, ValidIns;
      ins := [];
      for q := 31 downto 0
        invariant Valid() && code == old(code)
        invariant forall j :: q <= j < 31 ==> !Reach(known, rd, j, k, sf)
      {
        if known[q].Const? {
          var d := DeltaIns(rd, q, known[q].u, k, sf);
          if d.Some? {
            Emit(d.value);
            DeltaLoads(rd, q, k, known, Mcp(), sf);
            assert Reach(known, rd, q, k, sf);
            return true, [d.value];
          }
        }
      }
      return false, [];
    }

    // The constant as an address near the code: ADR, or ADRP with an optional ADD.
    method EmitKadrp(rd: Reg, k: u64) returns (ok: bool, ghost ins: seq<Ins>)
      requires Valid() && Mcp() >= 16 && |known| == 31
      modifies this`code
      ensures Valid() && (ok ==> code == ins + old(code) && 1 <= |ins| <= 2 && Loads(ins, rd, k, known, Mcp()))
      ensures !ok ==> code == old(code)
      ensures ok <==> AdrReaches(k, old(Mcp()) - 4) || AdrpReaches(k, old(Mcp()) - 4 - (if k % 4096 != 0 then 4 else 0))
    {
      hide Loads, Signed64, Result, Value, AdrReaches, AdrpReaches;
      AdrExact(k, Mcp() - 4);
      var ofs := Signed64(k - (Mcp() - 4));
      if -0x10_0000 <= ofs < 0x10_0000 {
        Emit(Adr(rd, ofs));
        AdrLoads(rd, k, known, Mcp());
        return true, [Adr(rd, ofs)];
      }
      var kpage := k - k % 4096;
      var adrp := Mcp() - 4 - (if k != kpage then 4 else 0);
      var pages := Signed64(kpage - (adrp - adrp % 4096)) / 4096;
      AdrpExact(k, adrp);
      if !(-0x10_0000 <= pages < 0x10_0000) { return false, []; }
      PageDelta(kpage, adrp);
      if k != kpage { Emit(AddImm(true, rd, rd, k - kpage, false)); }
      Emit(Adrp(rd, pages));
      AdrpLoads(rd, k, pages, known, Mcp());
      return true, if k != kpage then [Adrp(rd, pages), AddImm(true, rd, rd, k - kpage, false)] else [Adrp(rd, pages)];
    }

    // Load a constant into a register with as few instructions as the known forms allow.
    method EmitLoadk(rd: Reg, u: u64) returns (ghost ins: seq<Ins>)
      requires Valid() && Mcp() >= 16
      modifies this`code
      ensures Valid() && code == ins + old(code)
      ensures Loads(ins, rd, u, known, Mcp())
      ensures 1 <= |ins| <= MovCount(u)
      ensures |ins| > 2 ==> |ins| == MovCount(u)
    {
      hide Loads, Frags, EmitIsk13, MovCount, Result;
      var sf, t := u >= TWO32, Frags(u);
      var n := if sf then 4 else 2;
      var zeros, ones := 0, 0;
      for i := n downto 0
        invariant code == old(code)
        invariant zeros == CountNot(t, n, 0) - CountNot(t, i, 0)
        invariant ones == CountNot(t, n, 0xffff) - CountNot(t, i, 0xffff)
      {
        CountStep(t, i, 0);
        CountStep(t, i, 0xffff);
        zeros, ones := zeros + (if t[i] != 0 then 1 else 0), ones + (if t[i] != 0xffff then 1 else 0);
      }
      var neg := ones < zeros;
      MovCountIs(u, zeros, ones);
      if (if neg then ones else zeros) > 1 {
        var k13 := EmitIsk13(FromNat(u, 64), sf);
        if k13.K13? {
          K13LoadsAll(u, sf, rd, known, Mcp() - 4);
          Emit(OrrImm(sf, rd, k13));
          return [OrrImm(sf, rd, k13)];
        }
        var ok;
        ok, ins := EmitKdelta(rd, u, sf);
        if ok { return; }
        ok, ins := EmitKadrp(rd, u);
        if ok { return; }
      }
      ins := EmitMovs(rd, u, neg);
    }
  }

  lemma MovCountIs(u: u64, zeros: nat, ones: nat)
    requires var n := if u < TWO32 then 2 else 4;
      zeros == CountNot(Frags(u), n, 0) && ones == CountNot(Frags(u), n, 0xffff)
    ensures MovCount(u) == AtLeast1(if ones < zeros then ones else zeros)
  {
  }

  lemma K13LoadsAll(u: u64, sf: bool, rd: Reg, known: seq<Known>, pc: int)
    requires (!sf ==> u < TWO32) && EmitIsk13(FromNat(u, 64), sf).K13?
    ensures var i := OrrImm(sf, rd, EmitIsk13(FromNat(u, 64), sf)); ValidIns(i) && Loads([i], rd, u, known, pc)
  {
    hide EmitIsk13, Value, FromNat;
    var i := OrrImm(sf, rd, EmitIsk13(FromNat(u, 64), sf));
    var r0: seq<u64> := seq(31, _ => 0);
    K13Loads(u, sf, rd, r0, pc);
    forall r: seq<u64> | Consistent(r, known) ensures Value(i, r, pc) == u { K13Loads(u, sf, rd, r, pc); }
    LoadsOne(i, u, known, pc);
  }

  // Distance from a recorded constant, sign-extended from the operation width.
  function Delta(k: u64, kx: u64, sf: bool): int {
    if sf then Signed64(k - kx) else Signed32(Signed64(k - kx))
  }

  // One instruction that gets from a recorded constant to k.
  function DeltaIns(rd: Reg, q: Reg, kx: u64, k: u64, sf: bool): (r: Option<Ins>)
    ensures r.Some? ==> ValidIns(r.value) && r.value.rd == rd
  {
    var delta := Delta(k, kx, sf);
    if delta == 0 then Some(MovReg(sf, rd, q))
    else
      var k12 := EmitIsk12(if delta < 0 then Signed64(-delta) else delta);
      if k12.NoK12? then None
      else if (delta < 0) != k12.swap then Some(SubImm(sf, rd, q, k12.imm12, k12.sh12))
      else Some(AddImm(sf, rd, q, k12.imm12, k12.sh12))
  }

  predicate Reach(known: seq<Known>, rd: Reg, q: nat, k: u64, sf: bool)
    requires q < |known| <= 31
  {
    known[q].Const? && DeltaIns(rd, q, known[q].u, k, sf).Some?
  }

  lemma DeltaWraps(k: u64, kx: u64, sf: bool)
    requires !sf ==> k < TWO32
    ensures Result(sf, kx + Delta(k, kx, sf)) == k
  {
    var d := Signed64(k - kx);
    assert d == k - kx || d == k - kx + TWO64 || d == k - kx - TWO64;
    if !sf {
      var e, q := Signed32(d), d / TWO32;
      assert e == d - TWO32 * q || e == d - TWO32 * (q + 1);
      assert TWO64 == TWO32 * TWO32;
    }
  }

  lemma DeltaLoads(rd: Reg, q: Reg, k: u64, known: seq<Known>, pc: int, sf: bool)
    requires |known| == 31 && known[q].Const? && (!sf ==> k < TWO32)
    requires DeltaIns(rd, q, known[q].u, k, sf).Some?
    ensures Loads([DeltaIns(rd, q, known[q].u, k, sf).value], rd, k, known, pc)
  {
    hide Result, Loads;
    DeltaWraps(k, known[q].u, sf);
    var i := DeltaIns(rd, q, known[q].u, k, sf).value;
    forall r: seq<u64> | Consistent(r, known) ensures Value(i, r, pc) == k {
      hide DeltaIns, Delta;
      DeltaValue(i, rd, q, k, known[q].u, sf, r, pc);
    }
    LoadsOne(i, k, known, pc);
  }

  lemma DeltaValue(i: Ins, rd: Reg, q: Reg, k: u64, kx: u64, sf: bool, r: seq<u64>, pc: int)
    requires IsRegs(r) && r[q] == kx && DeltaIns(rd, q, kx, k, sf) == Some(i)
    ensures Value(i, r, pc) == Result(sf, kx + Delta(k, kx, sf))
  {
    hide Result, Delta, EmitIsk12, Signed64;
    var d := Delta(k, kx, sf);
    DeltaBound(k, kx, sf);
    if d < 0 { NegWraps(d); }
  }

  lemma DeltaBound(k: u64, kx: u64, sf: bool)
    ensures -TWO63 <= Delta(k, kx, sf) < TWO63
  {
  }

  lemma NegWraps(d: int)
    requires -TWO63 <= d < 0
    ensures Signed64(-d) == if d == -TWO63 then d else -d
  {
  }

  // Some ADR, or some ADRP before an ADD of the low twelve bits, at pc forms k.
  ghost predicate AdrReaches(k: u64, pc: int) {
    exists imm :: -0x10_0000 <= imm < 0x10_0000 && AdrValue(imm, pc) == k
  }

  ghost predicate AdrpReaches(k: u64, pc: int) {
    exists imm :: -0x10_0000 <= imm < 0x10_0000 && AdrpValue(imm, pc) == k - k % 4096
  }

  lemma AdrExact(k: u64, pc: int)
    ensures AdrReaches(k, pc) <==> -0x10_0000 <= Signed64(k - pc) < 0x10_0000
  {
    var d := Signed64(k - pc);
    assert AdrValue(d, pc) == k;
    forall imm | -0x10_0000 <= imm < 0x10_0000 && AdrValue(imm, pc) == k ensures imm == d { Unwrap(k, pc, imm); }
  }

  lemma AdrpExact(k: u64, pc: int)
    ensures AdrpReaches(k, pc) <==> -0x10_0000 <= Signed64(k - k % 4096 - (pc - pc % 4096)) / 4096 < 0x10_0000
  {
    var kpage, page := k - k % 4096, pc - pc % 4096;
    var d := Signed64(kpage - page);
    PageDelta(kpage, pc);
    assert Result(true, page + d) == kpage;
    assert AdrpValue(d / 4096, pc) == kpage;
    forall imm | -0x10_0000 <= imm < 0x10_0000 && AdrpValue(imm, pc) == kpage ensures imm == d / 4096 {
      Unwrap(kpage, page, imm * 4096);
    }
  }

  // A displacement of less than 2^63 is the signed distance.
  lemma Unwrap(k: u64, pc: int, d: int)
    requires -TWO63 <= d < TWO63 && Result(true, pc + d) == k
    ensures Signed64(k - pc) == d
  {
    var q := (pc + d) / TWO64;
    assert pc + d == q * TWO64 + k;
    assert k - pc == d - q * TWO64;
    WrapSigned(d, q);
  }

  lemma WrapSigned(d: int, q: int)
    requires -TWO63 <= d < TWO63
    ensures Signed64(d - q * TWO64) == d
  {
    if d >= 0 {
      ModUnique(d - q * TWO64, TWO64, -q, d);
    } else {
      ModUnique(d - q * TWO64, TWO64, -q - 1, d + TWO64);
    }
  }

  lemma AdrLoads(rd: Reg, k: u64, known: seq<Known>, pc: int)
    requires -0x10_0000 <= Signed64(k - pc) < 0x10_0000
    ensures Loads([Adr(rd, Signed64(k - pc))], rd, k, known, pc)
  {
    assert Result(true, pc + Signed64(k - pc)) == k;
    LoadsOne(Adr(rd, Signed64(k - pc)), k, known, pc);
  }

  lemma PageDelta(kpage: int, adrp: int)
    requires kpage % 4096 == 0
    ensures var d := Signed64(kpage - (adrp - adrp % 4096)); d / 4096 * 4096 == d
  {
    var x := kpage - (adrp - adrp % 4096);
    assert TWO64 % 4096 == 0 && x % 4096 == 0;
    assert x % TWO64 == x - x / TWO64 * TWO64;
  }

  lemma AdrpLoads(rd: Reg, k: u64, pages: int, known: seq<Known>, pc: int)
    requires |known| == 31 && pc >= 0 && -0x10_0000 <= pages < 0x10_0000
    requires var kpage := k - k % 4096; pages * 4096 == Signed64(kpage - (pc - pc % 4096))
    ensures var kpage := k - k % 4096;
      Loads(if k != kpage then [Adrp(rd, pages), AddImm(true, rd, rd, k - kpage, false)] else [Adrp(rd, pages)],
            rd, k, known, pc)
  {
    var kpage := k - k % 4096;
    assert Result(true, pc - pc % 4096 + pages * 4096) == kpage;
    hide Result;
    if k == kpage {
      LoadsOne(Adrp(rd, pages), k, known, pc);
    } else {
      var i, j := Adrp(rd, pages), AddImm(true, rd, rd, k - kpage, false);
      assert Result(true, kpage + (k - kpage)) == k by { WideFrags(k); }
      forall r: seq<u64> | Consistent(r, known) ensures Run([i, j], r, pc) == r[rd := k] {
        assert [i, j][1..] == [j];
        RunOne(j, Exec(i, r, pc), pc + 4);
      }
    }
  }

  function AtLeast1(k: nat): nat { if k == 0 then 1 else k }

  // ~u64, cut to the register width.
  function Invert(t: seq<int>, neg: bool, n: nat): (v: seq<int>)
    requires |t| == 4
    ensures |v| == 4
  {
    seq(4, j requires 0 <= j < 4 => if neg && j < n then 0xffff - t[j] else t[j])
  }

  // Last and first fragment to be filled: (63-clz) & ~15 and ctz & ~15, in units of 16 bits.
  function TopFrag(v: seq<int>, n: nat): (s: nat)
    requires 0 < n <= |v|
    ensures s < n && (forall j :: s < j < n ==> v[j] == 0) && (s > 0 ==> v[s] != 0)
  {
    if n == 1 || v[n - 1] != 0 then n - 1 else TopFrag(v, n - 1)
  }

  function BotFrag(v: seq<int>, s: nat, from: nat := 0): (lo: nat)
    requires from <= s < |v| && forall j :: 0 <= j < from ==> v[j] == 0
    ensures lo <= s && (forall j :: 0 <= j < lo ==> v[j] == 0) && (lo == s || v[lo] != 0)
    decreases s - from
  {
    if from == s || v[from] != 0 then from else BotFrag(v, s, from + 1)
  }

  lemma InvertFacts(u: u64, neg: bool)
    ensures var sf, t, n := u >= TWO32, Frags(u), if u >= TWO32 then 4 else 2; var v := Invert(t, neg, n);
      && IsFrags(v) && Inverted(t, v, neg, sf)
      && CountNot(t, n, if neg then 0xffff else 0) == CountNot(v, n, 0)
      && (forall j :: n <= j < 4 ==> v[j] == 0)
      && CountNot(v, n, 0) == CountNot(v, TopFrag(v, n) + 1, 0)
      && forall j :: 0 <= j < n ==> t[j] == if neg then 0xffff - v[j] else v[j]
  {
    var sf, t, n := u >= TWO32, Frags(u), if u >= TWO32 then 4 else 2;
    var v := Invert(t, neg, n);
    if !sf { LowFrags(u); }
    hide Frags;
    CountSame(t, v, n, neg);
    CountTail(v, n, TopFrag(v, n));
  }

  lemma LowFrags(u: u64)
    requires u < TWO32
    ensures Frags(u)[2] == Frags(u)[3] == 0
  {
  }

  lemma CountStep(v: seq<int>, s: nat, x: int)
    requires s < |v|
    ensures CountNot(v, s + 1, x) == CountNot(v, s, x) + (if v[s] != x then 1 else 0)
  {
  }

  lemma CountSame(t: seq<int>, v: seq<int>, n: nat, neg: bool)
    requires n <= |t| && n <= |v|
    requires forall j :: 0 <= j < n ==> v[j] == if neg then 0xffff - t[j] else t[j]
    ensures CountNot(t, n, if neg then 0xffff else 0) == CountNot(v, n, 0)
  {
  }

  lemma CountTail(v: seq<int>, n: nat, s: nat)
    requires s < n <= |v| && forall j :: s < j < n ==> v[j] == 0
    ensures CountNot(v, n, 0) == CountNot(v, s + 1, 0)
    decreases n
  {
    if n > s + 1 { CountTail(v, n - 1, s); }
  }

  lemma CountHead(v: seq<int>, lo: nat)
    requires lo < |v| && forall j :: 0 <= j < lo ==> v[j] == 0
    ensures CountNot(v, lo + 1, 0) == if v[lo] != 0 then 1 else 0
  {
  }

}
