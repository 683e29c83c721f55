// Reference decoder for one x64 instruction with a ModRM byte (Intel SDM Vol. 2, sections 2.1.3,
// 2.1.5, 2.2.1 and 2.3.5), and the proof that it reads back what the printer wrote.
module X64Decode {
  import opened Words
  import opened X64Ops
  import opened X64Emit

  // Bytes past the end of the buffer read as zero.
  function At(s: seq<byte>, i: nat): byte { if i < |s| then s[i] else 0 }

  ghost predicate HasAt(s: seq<byte>, p: nat, e: seq<byte>) {
    p + |e| <= |s| && forall i :: p <= i < p + |e| ==> s[i] == e[i - p]
  }

  function Int32At(s: seq<byte>, p: nat): i32 {
    var u := At(s, p) + 0x100 * At(s, p + 1) + 0x1_0000 * At(s, p + 2) + 0x100_0000 * At(s, p + 3);
    if u < 0x8000_0000 then u else u - 0x1_0000_0000
  }

  function Int8At(s: seq<byte>, p: nat): int {
    if At(s, p) < 128 then At(s, p) else At(s, p) - 256
  }

  // Displacement by mod field; mod 3 does not occur here.
  function DecodeDisp(s: seq<byte>, p: nat, mod: nat): (i32, nat) {
    if mod == 0 then (0, 0) else if mod == 1 then (Int8At(s, p), 1) else (Int32At(s, p), 4)
  }

  // SIB byte and displacement.
  function DecodeSib(s: seq<byte>, p: nat, mod: nat, x: nat, b: nat): (Mrm, nat) {
    var sib := At(s, p);
    var idx := if sib / 8 % 8 == 4 && x == 0 then RID_NONE else sib / 8 % 8 + 8 * x;
    var scale: byte := sib / 64 * 64;
    if sib % 8 == 5 && mod == 0 then (Mrm(RID_NONE, idx, scale, Int32At(s, p + 1)), 5)
    else
      var (ofs, n) := DecodeDisp(s, p + 1, mod);
      (Mrm(sib % 8 + 8 * b, idx, scale, ofs), 1 + n)
  }

  // The reg field, the rm operand and the length of ModRM, SIB and displacement at p.
  function DecodeRm(s: seq<byte>, p: nat, r: nat, x: nat, b: nat): (Reg, Rm, nat) {
    var modrm := At(s, p);
    var mod, reg, rm := modrm / 64, modrm / 8 % 8 + 8 * r, modrm % 8;
    if mod == 3 then (reg, Direct(rm + 8 * b), 1)
    else if rm == 4 then
      var (m, n) := DecodeSib(s, p + 1, mod, x, b);
      (reg, Mem(m), 1 + n)
    else if rm == 5 && mod == 0 then
      (reg, Mem(Mrm(RID_RIP, RID_NONE, XM_SCALE1, Int32At(s, p + 1))), 5)
    else
      var (ofs, n) := DecodeDisp(s, p + 1, mod);
      (reg, Mem(Mrm(rm + 8 * b, RID_NONE, XM_SCALE1, ofs)), 1 + n)
  }

  // Opcode map: plain, two-byte 0F, or a VEX map number.
  datatype OpMap = One | Two | Vex(mmmmm: nat, pp: nat, vvvv: nat)

  // What a register number names: a register of the operand size, its low byte, or for the numbers
  // 4..7 without a REX prefix the second byte of registers 0..3 (AH, CH, DH, BH).
  datatype Bank = Whole | LowByte | HighByte

  function BankOf(isByte: bool, hasRex: bool, id: nat): Bank {
    if !isByte then Whole else if !hasRex && 4 <= id < 8 then HighByte else LowByte
  }

  // Opcodes whose reg or rm operand is a byte (the Eb and Gb operands of the opcode maps).
  predicate ByteReg(two: bool, o: byte) {
    if two then o in {0xb0, 0xc0} else (o < 0x40 && o % 8 in {0, 2}) || o in {0x84, 0x86, 0x88, 0x8a}
  }

  predicate ByteRm(two: bool, o: byte) {
    if two then 0x90 <= o < 0xa0 || o in {0xb0, 0xb6, 0xbe, 0xc0}
    else ByteReg(two, o) || o in {0x80, 0xc0, 0xc6, 0xd0, 0xd2, 0xf6, 0xfe}
  }

  datatype Insn = Insn(prefix: byte, w: bool, opmap: OpMap, opcode: byte, reg: Reg, regBank: Bank,
                       rm: Rm, rmBank: Bank, len: nat)

  function DecodeOpcode(s: seq<byte>, p: nat, start: nat, prefix: byte, rex: byte): Insn
    requires start <= p
  {
    var w, r, x, b := rex / 8 % 2 == 1, rex / 4 % 2, rex / 2 % 2, rex % 2;
    var two := At(s, p) == 0x0f;
    var q := if two then p + 1 else p;
    var (reg, rm, n) := DecodeRm(s, q + 1, r, x, b);
    var regBank := BankOf(ByteReg(two, At(s, q)), rex != 0, reg);
    var rmBank := if rm.Direct? then BankOf(ByteRm(two, At(s, q)), rex != 0, rm.r) else Whole;
    Insn(prefix, w, if two then Two else One, At(s, q), reg, regBank, rm, rmBank, q + 1 + n - start)
  }

  function DecodeVex(s: seq<byte>, p: nat): Insn {
    var v1, v2 := At(s, p + 1), At(s, p + 2);
    var (reg, rm, n) := DecodeRm(s, p + 4, 1 - v1 / 128, 1 - v1 / 64 % 2, 1 - v1 / 32 % 2);
    Insn(0, v2 / 128 == 1, Vex(v1 % 32, v2 % 4, 15 - v2 / 8 % 16), At(s, p + 3), reg, Whole, rm, Whole, 4 + n)
  }

  function Decode(s: seq<byte>, p: nat): Insn {
    if At(s, p) == 0xc4 then DecodeVex(s, p)
    else
      var prefix := if At(s, p) in {0x66, 0xf2, 0xf3} then At(s, p) else 0;
      var q := if prefix != 0 then p + 1 else p;
      if 0x40 <= At(s, q) < 0x50 then DecodeOpcode(s, q + 1, p, prefix, At(s, q))
      else DecodeOpcode(s, q, p, prefix, 0)
  }

  function MandatoryPrefix(xo: X86Op): byte {
    if xo.lsb == 0xfc then xo.b1 else if xo == XO_66(xo.b3) then 0x66 else 0
  }

  // What the decoder must see, stated from the arguments of the printer. FP register ids are 16
  // above their encoding.
  function Meaning(xo: X86Op, rr: RegArg, rm: Rm): Insn
    requires Printable(xo) && ValidRm(rm)
  {
    var opmap := if IsVex(xo) then Vex(xo.b1 % 32, xo.b2 % 4, 15 - xo.b2 / 8 % 16)
                 else if xo.b2 == 0x0f then Two else One;
    var w := if IsVex(xo) then xo.b2 / 128 == 1 else rr.rex == Rex64;
    var operand := if rm.Direct? then Direct(rm.r % 16) else rm;
    var two := xo.b2 == 0x0f;
    var regBank := BankOf(!IsVex(xo) && ByteReg(two, xo.b3), HasRex(rr, rm), rr.id % 16);
    var rmBank := if rm.Direct? then BankOf(!IsVex(xo) && ByteRm(two, xo.b3), HasRex(rr, rm), rm.r % 16) else Whole;
    Insn(MandatoryPrefix(xo), w, opmap, xo.b3, rr.id % 16, regBank, operand, rmBank, |Encode(xo, rr, rm)|)
  }

  // Whether the printer writes a REX prefix for these operands.
  predicate HasRex(rr: RegArg, rm: Rm) {
    match rm
    case Direct(r) => NeedsRex(rr, r, 0)
    case Mem(m) => NeedsRex(rr, BaseField(m), IdxField(m))
  }

  lemma LE32RoundTrip(s: seq<byte>, p: nat, i: i32)
    requires HasAt(s, p, LE32(i))
    ensures Int32At(s, p) == i
  {
  }

  lemma HasParts(s: seq<byte>, p: nat, a: seq<byte>, b: seq<byte>)
    requires HasAt(s, p, a + b)
    ensures HasAt(s, p, a) && HasAt(s, p + |a|, b)
  {
  }

  lemma FirstByte(s: seq<byte>, p: nat, b: byte, e: seq<byte>)
    requires HasAt(s, p, [b] + e)
    ensures p < |s| && s[p] == b && HasAt(s, p + 1, e)
  {
    HasParts(s, p, [b], e);
    assert s[p] == [b][0];
  }

  lemma DispRoundTrip(s: seq<byte>, p: nat, m: Mrm)
    requires IsGpr(m.base) && HasAt(s, p, Disp(m))
    ensures DecodeDisp(s, p, DispMode(m) / 64) == (m.ofs, |Disp(m)|)
  {
    if m.ofs == 0 && m.base % 8 != RID_EBP {
    } else if CheckI8(m.ofs) {
      assert s[p] == Disp(m)[0];
    } else {
      LE32RoundTrip(s, p, m.ofs);
    }
  }

  lemma ModRMFields(mode: byte, r1: Reg, r2: Reg)
    requires IsScale(mode)
    ensures var v := ModRM(mode, r1, r2);
      v / 64 * 64 == mode && v / 64 == mode / 64 && v / 8 % 8 == r1 % 8 && v % 8 == r2 % 8
  {
    var m := mode / 64;
    assert mode == 64 * m;
    OctalFields(m, r1 % 8, r2 % 8);
  }

  lemma OctalFields(m: nat, hi: nat, lo: nat)
    requires m < 4 && hi < 8 && lo < 8
    ensures var v := 64 * m + 8 * hi + lo; v / 64 == m && v / 8 % 8 == hi && v % 8 == lo
  {
    assert (64 * m + 8 * hi + lo) / 8 == 8 * m + hi;
  }

  lemma RegFields(r: Reg)
    ensures r % 8 + 8 * Bit3(r) == r % 16
  {
  }

  // The operand survives: register, base, index, scale and the signed offset, for every form.
  lemma RmRoundTrip(s: seq<byte>, p: nat, digit: Reg, rm: Rm)
    requires ValidRm(rm) && HasAt(s, p, RmBytes(digit, rm))
    ensures
      var (b, x) := match rm case Direct(r) => (r, 0) case Mem(m) => (BaseField(m), IdxField(m));
      DecodeRm(s, p, Bit3(digit), Bit3(x), Bit3(b))
        == (digit % 16, if rm.Direct? then Direct(rm.r % 16) else rm, |RmBytes(digit, rm)|)
  {
    RegFields(digit);
    match rm
    case Direct(r) =>
      ModRMFields(XM_REG, digit, r);
      RegFields(r);
      assert s[p] == RmBytes(digit, rm)[0];
    case Mem(m) => MemRoundTrip(s, p, digit, m);
  }

  // A base of EBP or R13 always has a displacement; without a base the mode is that of EBP without one.
  lemma ModeFacts(m: Mrm)
    requires ValidMrm(m)
    ensures IsGpr(m.base) && m.base % 8 == RID_EBP ==> DispMode(m) / 64 != 0
    ensures m.base == RID_NONE ==> DispMode(m) / 64 == 0 && Disp(m) == LE32(m.ofs)
    ensures m.base == RID_NONE && m.idx != RID_NONE ==> BaseField(m) == RID_EBP
    ensures IsGpr(m.base) ==> BaseField(m) == m.base
  {
  }

  lemma SibRoundTrip(s: seq<byte>, p: nat, m: Mrm)
    requires ValidMrm(m) && m.idx != RID_NONE
    requires HasAt(s, p, [ModRM(m.scale, m.idx, BaseField(m))] + Disp(m))
    ensures DecodeSib(s, p, DispMode(m) / 64, Bit3(m.idx), Bit3(BaseField(m))) == (m, 1 + |Disp(m)|)
  {
    ModeFacts(m);
    RegFields(m.idx);
    hide ModRM, LE32, Int32At, Int8At, DecodeDisp, DispMode, Disp, Bit3, BaseField, HasAt;
    FirstByte(s, p, ModRM(m.scale, m.idx, BaseField(m)), Disp(m));
    ModRMFields(m.scale, m.idx, BaseField(m));
    RegFields(BaseField(m));
    if IsGpr(m.base) { DispRoundTrip(s, p + 1, m); } else { LE32RoundTrip(s, p + 1, m.ofs); }
  }

  lemma PlainSibRoundTrip(s: seq<byte>, p: nat, m: Mrm)
    requires ValidMrm(m) && m.idx == RID_NONE
    requires m.base == RID_NONE || (IsGpr(m.base) && m.base % 8 == RID_ESP)
    requires HasAt(s, p, [ModRM(XM_SCALE1, RID_ESP, if m.base == RID_NONE then RID_EBP else RID_ESP)] + Disp(m))
    ensures DecodeSib(s, p, DispMode(m) / 64, 0, Bit3(BaseField(m))) == (m, 1 + |Disp(m)|)
  {
    var base := if m.base == RID_NONE then RID_EBP else RID_ESP;
    ModeFacts(m);
    hide ModRM, LE32, Int32At, Int8At, DecodeDisp, DispMode, Disp, Bit3, BaseField, HasAt;
    FirstByte(s, p, ModRM(XM_SCALE1, RID_ESP, base), Disp(m));
    ModRMFields(XM_SCALE1, RID_ESP, base);
    RegFields(BaseField(m));
    if IsGpr(m.base) { DispRoundTrip(s, p + 1, m); } else { LE32RoundTrip(s, p + 1, m.ofs); }
  }

  lemma MemRoundTrip(s: seq<byte>, p: nat, digit: Reg, m: Mrm)
    requires ValidMrm(m) && HasAt(s, p, MemBytes(digit, m))
    ensures DecodeRm(s, p, Bit3(digit), Bit3(IdxField(m)), Bit3(BaseField(m)))
         == (digit % 16, Mem(m), |MemBytes(digit, m)|)
  {
    hide ModRM, LE32, Int32At, Int8At, DecodeDisp;
    RegFields(digit);
    var e := MemBytes(digit, m);
    assert e == [e[0]] + e[1..];
    HasParts(s, p, [e[0]], e[1..]);
    if m.idx != RID_NONE {
      ModRMFields(DispMode(m), digit, RID_ESP);
      assert e[1..] == [ModRM(m.scale, m.idx, BaseField(m))] + Disp(m);
      SibRoundTrip(s, p + 1, m);
    } else if m.base == RID_NONE || (IsGpr(m.base) && m.base % 8 == RID_ESP) {
      ModRMFields(DispMode(m), digit, if m.base == RID_NONE then RID_ESP else m.base);
      assert e[1..] == [ModRM(XM_SCALE1, RID_ESP, if m.base == RID_NONE then RID_EBP else RID_ESP)] + Disp(m);
      PlainSibRoundTrip(s, p + 1, m);
    } else {
      ModRMFields(DispMode(m), digit, m.base);
      assert e[1..] == Disp(m);
      if IsGpr(m.base) { DispRoundTrip(s, p + 1, m); } else { LE32RoundTrip(s, p + 1, m.ofs); }
    }
  }

  // Prefixes and opcode decode to what was asked for: REX ends up behind a mandatory prefix and in
  // front of the opcode.
  ghost predicate OpDecodes(s: seq<byte>, p: nat, xo: X86Op, rr: RegArg, rb: Reg, rx: Reg)
    requires Printable(xo)
  {
    var q, n := p + |OpBytes(xo, rr, rb, rx)|, if xo.b2 == 0x0f then 2 else 1;
    && q - n >= p
    && Decode(s, p) == DecodeOpcode(s, q - n, p, MandatoryPrefix(xo), Rex(rr, rb, rx))
    && At(s, q - 1) == xo.b3 && (At(s, q - n) == 0x0f <==> n == 2)
  }

  lemma OpRoundTrip(s: seq<byte>, p: nat, xo: X86Op, rr: RegArg, rb: Reg, rx: Reg)
    requires KnownOp(xo) && !IsVex(xo) && HasAt(s, p, OpBytes(xo, rr, rb, rx))
    ensures Printable(xo) && OpDecodes(s, p, xo, rr, rb, rx)
  {
    hide OpDecodes, HasAt, OpBytes;
    if xo.lsb == 0xfe {
      ShortOpRoundTrip(s, p, xo, rr, rb, rx);
    } else if xo.lsb == 0xfd {
      MediumOpRoundTrip(s, p, xo, rr, rb, rx);
    } else {
      LongOpRoundTrip(s, p, xo, rr, rb, rx);
    }
  }

  lemma ShortOpRoundTrip(s: seq<byte>, p: nat, xo: X86Op, rr: RegArg, rb: Reg, rx: Reg)
    requires KnownOp(xo) && xo.lsb == 0xfe && HasAt(s, p, OpBytes(xo, rr, rb, rx))
    ensures Printable(xo) && OpDecodes(s, p, xo, rr, rb, rx)
  {
    hide DecodeOpcode, DecodeVex;
    var e := OpBytes(xo, rr, rb, rx);
    assert s[p] == e[0] && (|e| > 1 ==> s[p + 1] == e[1]);
  }

  lemma MediumOpRoundTrip(s: seq<byte>, p: nat, xo: X86Op, rr: RegArg, rb: Reg, rx: Reg)
    requires KnownOp(xo) && xo.lsb == 0xfd && HasAt(s, p, OpBytes(xo, rr, rb, rx))
    ensures Printable(xo) && OpDecodes(s, p, xo, rr, rb, rx)
  {
    hide DecodeOpcode, DecodeVex;
    var e := OpBytes(xo, rr, rb, rx);
    assert s[p] == e[0] && s[p + 1] == e[1] && (|e| > 2 ==> s[p + 2] == e[2]);
  }

  lemma LongOpRoundTrip(s: seq<byte>, p: nat, xo: X86Op, rr: RegArg, rb: Reg, rx: Reg)
    requires KnownOp(xo) && xo.lsb == 0xfc && HasAt(s, p, OpBytes(xo, rr, rb, rx))
    ensures Printable(xo) && OpDecodes(s, p, xo, rr, rb, rx)
  {
    hide DecodeOpcode, DecodeVex;
    var e := OpBytes(xo, rr, rb, rx);
    assert s[p] == e[0] && s[p + 1] == e[1] && s[p + 2] == e[2] && (|e| > 3 ==> s[p + 3] == e[3]);
  }

  // The REX byte as the decoder uses it: zero when there is none.
  function Rex(rr: RegArg, rb: Reg, rx: Reg): byte {
    if NeedsRex(rr, rb, rx) then RexByte(rr, rb, rx) else 0
  }

  lemma RexFields(rr: RegArg, rb: Reg, rx: Reg)
    ensures var rex := Rex(rr, rb, rx);
      && (rex / 8 % 2 == 1 <==> rr.rex == Rex64)
      && rex / 4 % 2 == Bit3(rr.id) && rex / 2 % 2 == Bit3(rx) && rex % 2 == Bit3(rb)
      && (rex != 0 <==> NeedsRex(rr, rb, rx))
  {
  }

  // Every instruction form decodes to exactly what was asked for.
  lemma EncodeRoundTrip(s: seq<byte>, p: nat, xo: X86Op, rr: RegArg, rm: Rm)
    requires KnownOp(xo) && ValidRm(rm) && HasAt(s, p, Encode(xo, rr, rm))
    ensures Decode(s, p) == Meaning(xo, rr, rm)
  {
    if IsVex(xo) { VexRoundTrip(s, p, xo, rr, rm); } else { LegacyRoundTrip(s, p, xo, rr, rm); }
  }

  lemma LegacyRoundTrip(s: seq<byte>, p: nat, xo: X86Op, rr: RegArg, rm: Rm)
    requires KnownOp(xo) && !IsVex(xo) && ValidRm(rm) && HasAt(s, p, Encode(xo, rr, rm))
    ensures Decode(s, p) == Meaning(xo, rr, rm)
  {
    hide RmBytes, OpBytes, DecodeRm, Rex, KnownOp, Decode;
    assert Printable(xo) by { KnownPrintable(xo); }
    var (b, x) := match rm case Direct(r) => (r, 0) case Mem(m) => (BaseField(m), IdxField(m));
    var op := OpBytes(xo, rr, b, x);
    HasParts(s, p, op, RmBytes(rr.id, rm));
    RmRoundTrip(s, p + |op|, rr.id, rm);
    OpRoundTrip(s, p, xo, rr, b, x);
    RexFields(rr, b, x);
  }

  lemma KnownPrintable(xo: X86Op)
    requires KnownOp(xo)
    ensures Printable(xo)
  {
  }

  lemma VexRoundTrip(s: seq<byte>, p: nat, xo: X86Op, rr: RegArg, rm: Rm)
    requires KnownOp(xo) && IsVex(xo) && ValidRm(rm) && HasAt(s, p, Encode(xo, rr, rm))
    ensures Decode(s, p) == Meaning(xo, rr, rm)
  {
    hide RmBytes, DecodeRm, VexByte, OpBytes, HasAt;
    var (b, x) := match rm case Direct(r) => (r, 0) case Mem(m) => (BaseField(m), IdxField(m));
    HasParts(s, p, OpBytes(xo, rr, b, x), RmBytes(rr.id, rm));
    VexOpAt(s, p, xo, rr, b, x);
    VexFields(xo.b1, rr.id, b, x);
    RmRoundTrip(s, p + 4, rr.id, rm);
  }

  lemma VexOpAt(s: seq<byte>, p: nat, xo: X86Op, rr: RegArg, rb: Reg, rx: Reg)
    requires Printable(xo) && IsVex(xo) && HasAt(s, p, OpBytes(xo, rr, rb, rx))
    ensures |OpBytes(xo, rr, rb, rx)| == 4
    ensures At(s, p) == 0xc4 && At(s, p + 1) == VexByte(xo.b1, rr.id, rb, rx)
    ensures At(s, p + 2) == xo.b2 && At(s, p + 3) == xo.b3
  {
    hide VexByte;
    var op := OpBytes(xo, rr, rb, rx);
    assert s[p] == op[0] && s[p + 1] == op[1] && s[p + 2] == op[2] && s[p + 3] == op[3];
  }

  lemma VexFields(b1: byte, rr: Reg, rb: Reg, rx: Reg)
    requires b1 == 0xe2 || b1 == 0xe3
    ensures var v := VexByte(b1, rr, rb, rx);
      1 - v / 128 == Bit3(rr) && 1 - v / 64 % 2 == Bit3(rx) && 1 - v / 32 % 2 == Bit3(rb) && v % 32 == b1 % 32
  {
    var r, x, b := Bit3(rr), Bit3(rx), Bit3(rb);
    assert r < 2 && x < 2 && b < 2;
    hide Bit3;
    VexBits(b1, r, x, b);
  }

  lemma VexBits(b1: byte, r: nat, x: nat, b: nat)
    requires (b1 == 0xe2 || b1 == 0xe3) && r < 2 && x < 2 && b < 2
    ensures var v := b1 - 32 * (4 * r + 2 * x + b);
      1 - v / 128 == r && 1 - v / 64 % 2 == x && 1 - v / 32 % 2 == b && v % 32 == b1 % 32
  {
    if r == 0 { if x == 0 {} else {} } else { if x == 0 {} else {} }
  }

  // A byte operand names the low byte of the requested register if and only if there is a REX prefix
  // or the register is none of 4..7; FORCE_REX makes sure of it.
  lemma ByteOperands(s: seq<byte>, p: nat, xo: X86Op, rr: RegArg, rm: Rm)
    requires KnownOp(xo) && !IsVex(xo) && ValidRm(rm) && HasAt(s, p, Encode(xo, rr, rm))
    ensures var (i, two) := (Decode(s, p), xo.b2 == 0x0f);
      && (ByteReg(two, xo.b3) ==> (i.regBank == LowByte <==> HasRex(rr, rm) || !(4 <= rr.id % 16 < 8)))
      && (ByteRm(two, xo.b3) && rm.Direct? ==> (i.rmBank == LowByte <==> HasRex(rr, rm) || !(4 <= rm.r % 16 < 8)))
      && (rr.rex == ForceRex ==> i.regBank != HighByte && i.rmBank != HighByte)
  {
    EncodeRoundTrip(s, p, xo, rr, rm);
    hide Decode, Encode;
  }

  // The arithmetic group with an immediate, by the rules of the opcode map: 83 /g takes a sign-extended
  // byte, 81 /g four bytes. The short form is used exactly for -128..127, and the immediate is i.
  lemma GroupDecodes(s: seq<byte>, p: nat, g: nat, rex: RexFlag, rm: Rm, i: i32)
    requires g < 8 && ValidRm(rm) && HasAt(s, p, GroupBytes(g, rex, rm, i))
    ensures var (d, n) := (Decode(s, p), |GroupBytes(g, rex, rm, i)|);
      && d.prefix == 0 && d.opmap == One && d.w == (rex == Rex64) && d.reg == g
      && d.rm == (if rm.Direct? then Direct(rm.r % 16) else rm)
      && if -128 <= i < 128 then d.opcode == 0x83 && n == d.len + 1 && Int8At(s, p + d.len) == i
         else d.opcode == 0x81 && n == d.len + 4 && Int32At(s, p + d.len) == i
  {
    hide Decode, Encode, LE32, Int32At;
    var (xo, imm) := ShortImm(i);
    var e := Encode(xo, RegArg(g, rex), rm);
    HasParts(s, p, e, imm);
    EncodeRoundTrip(s, p, xo, RegArg(g, rex), rm);
    if CheckI8(i) {
      assert s[p + |e|] == imm[0];
      ByteRoundTrip(s, p + |e|, i);
    } else {
      LE32RoundTrip(s, p + |e|, i);
    }
  }

  lemma ByteRoundTrip(s: seq<byte>, p: nat, i: int)
    requires -128 <= i < 128 && p < |s| && s[p] == Byte(i)
    ensures Int8At(s, p) == i
  {
  }

  // -- No shorter form -----------------------------------------------------------------------

  // Whatever bytes decode to this memory operand, they are not fewer: the printer leaves out SIB byte and
  // displacement wherever the addressing modes allow it.
  lemma MemShortest(s: seq<byte>, p: nat, r: nat, x: nat, b: nat, digit: Reg, m: Mrm)
    requires ValidMrm(m) && DecodeRm(s, p, r, x, b).1 == Mem(m) && x < 2 && b < 2
    ensures |MemBytes(digit, m)| <= DecodeRm(s, p, r, x, b).2
  {
    hide ModRM, LE32, Int32At;
  }

  // A REX prefix is written if and only if a flag asks for it or some register number needs its fourth bit.
  lemma RexExact(s: seq<byte>, p: nat, xo: X86Op, rr: RegArg, rm: Rm)
    requires KnownOp(xo) && !IsVex(xo) && ValidRm(rm) && HasAt(s, p, Encode(xo, rr, rm))
    ensures var q := if At(s, p) in {0x66, 0xf2, 0xf3} then p + 1 else p;
      0x40 <= At(s, q) < 0x50 <==>
        || rr.rex != NoRex || rr.id % 16 >= 8 || (rm.Direct? && rm.r % 16 >= 8)
        || (rm.Mem? && (8 <= rm.m.base < 16 || 8 <= rm.m.idx < 16))
  {
    hide KnownOp, RmBytes, OpBytes, Encode, NeedsRex, HasAt;
    assert Printable(xo) by { KnownPrintable(xo); }
    RexNeeded(rr, rm);
    var (b, x) := match rm case Direct(r) => (r, 0) case Mem(m) => (BaseField(m), IdxField(m));
    OpcodeFirst(s, p, xo, rr, rm);
    RexWritten(s, p, xo, rr, b, x);
  }

  lemma OpcodeFirst(s: seq<byte>, p: nat, xo: X86Op, rr: RegArg, rm: Rm)
    requires Printable(xo) && ValidRm(rm) && HasAt(s, p, Encode(xo, rr, rm))
    ensures var (b, x) := match rm case Direct(r) => (r, 0) case Mem(m) => (BaseField(m), IdxField(m));
      HasAt(s, p, OpBytes(xo, rr, b, x))
  {
    hide RmBytes, OpBytes, HasAt;
    var (b, x) := match rm case Direct(r) => (r, 0) case Mem(m) => (BaseField(m), IdxField(m));
    HasParts(s, p, OpBytes(xo, rr, b, x), RmBytes(rr.id, rm));
  }

  lemma RexNeeded(rr: RegArg, rm: Rm)
    requires ValidRm(rm)
    ensures HasRex(rr, rm) <==>
      || rr.rex != NoRex || rr.id % 16 >= 8 || (rm.Direct? && rm.r % 16 >= 8)
      || (rm.Mem? && (8 <= rm.m.base < 16 || 8 <= rm.m.idx < 16))
  {
    Bit3Is(rr.id);
    match rm
    case Direct(r) => Bit3Is(r);
    case Mem(m) =>
      Bit3Is(BaseField(m));
      Bit3Is(IdxField(m));
      assert RID_RIP % 16 == 5;
  }

  lemma Bit3Is(r: Reg)
    ensures Bit3(r) == 1 <==> r % 16 >= 8
  {
  }

  lemma RexWritten(s: seq<byte>, p: nat, xo: X86Op, rr: RegArg, rb: Reg, rx: Reg)
    requires KnownOp(xo) && !IsVex(xo) && Printable(xo) && HasAt(s, p, OpBytes(xo, rr, rb, rx))
    ensures var q := if At(s, p) in {0x66, 0xf2, 0xf3} then p + 1 else p;
      0x40 <= At(s, q) < 0x50 <==> NeedsRex(rr, rb, rx)
  {
    hide NeedsRex, RexByte, HasAt;
    RexBank(rr, rb, rx);
    OpForms(xo, rr, rb, rx);
    var op := OpBytes(xo, rr, rb, rx);
    assert s[p] == op[0] && (|op| > 1 ==> s[p + 1] == op[1]) by { OpBytesAt(s, p, op); }
    hide OpBytes;
  }

  lemma RexBank(rr: RegArg, rb: Reg, rx: Reg)
    ensures 0x40 <= RexByte(rr, rb, rx) < 0x50
  {
  }

  lemma OpBytesAt(s: seq<byte>, p: nat, e: seq<byte>)
    requires HasAt(s, p, e) && |e| > 0
    ensures p < |s| && s[p] == e[0] && (|e| > 1 ==> p + 1 < |s| && s[p + 1] == e[1])
  {
    if |e| > 1 { assert s[p + 1] == e[p + 1 - p]; }
  }
}
