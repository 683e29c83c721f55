// The instruction length decoder of the trace patcher, against the printer.
module X64InsLen {
  import opened Words
  import opened X64Ops
  import opened X64Emit
  import opened X64Decode

  // map_op1: the high digit picks a case of the decoder, the low digit is a length.
  function MapOp1(b: byte): byte {
    if b < 0x40 then
      if b == 0x0f then 0x20
      else if b in {0x26, 0x2e, 0x36, 0x3e} then 0x10
      else if b % 8 < 4 then 0x92
      else if b % 8 == 4 then 0x52
      else if b % 8 == 5 then 0x45
      else 0x51
    else if b < 0x48 then 0x10
    else if b < 0x50 then 0x14
    else if b < 0x60 then 0x51
    else if b < 0x70 then
      if b in {0x62, 0x63} then 0x92 else if b in {0x64, 0x65} then 0x10
      else if b == 0x66 then 0x12 else if b == 0x67 then 0x11 else if b == 0x68 then 0x45
      else if b == 0x69 then 0x86 else if b == 0x6a then 0x52 else if b == 0x6b then 0x93
      else 0x51
    else if b < 0x80 then 0x52
    else if b < 0x90 then
      if b in {0x80, 0x82, 0x83} then 0x93 else if b == 0x81 then 0x86 else 0x92
    else if b < 0xa0 then if b == 0x9a then 0x47 else 0x51
    else if b < 0xb0 then
      if b < 0xa4 then 0x59 else if b == 0xa8 then 0x52 else if b == 0xa9 then 0x45 else 0x51
    else if b < 0xb8 then 0x52
    else if b < 0xc0 then 0x05
    else if b < 0xd0 then
      if b in {0xc0, 0xc1, 0xc6} then 0x93 else if b == 0xc7 then 0x86
      else if b in {0xc2, 0xca} then 0x53 else if b == 0xcd then 0x52
      else if b == 0xc4 then 0x70 else if b == 0xc5 then 0x71 else if b == 0xc8 then 0x54
      else 0x51
    else if b < 0xe0 then
      if b in {0xd4, 0xd5} then 0x52 else if b in {0xd6, 0xd7} then 0x51 else 0x92
    else if b < 0xf0 then
      if b < 0xe8 || b == 0xeb then 0x52 else if b < 0xea then 0x45 else if b == 0xea then 0x47
      else 0x51
    else
      if b in {0xf0, 0xf2, 0xf3} then 0x10 else if b == 0xf6 then 0x63 else if b == 0xf7 then 0x66
      else if b >= 0xfe then 0x92 else 0x51
  }

  // map_op2, for opcodes behind 0F.
  function MapOp2(b: byte): byte {
    if b < 0x10 then
      if b < 4 || b == 0x0d then 0x93 else if b in {0x0a, 0x0c} then 0x51
      else if b == 0x0f then 0x94 else 0x52
    else if b < 0x20 then 0x93
    else if b < 0x30 then if b < 0x28 then 0x53 else 0x93
    else if b < 0x40 then
      if b < 0x38 then 0x52 else if b == 0x38 then 0x34 else if b == 0x3a then 0x35 else 0x51
    else if b < 0x50 then 0x93
    else if b < 0x60 then if b == 0x50 then 0x53 else 0x93
    else if b < 0x70 then 0x93
    else if b < 0x80 then
      if b == 0x70 then 0x94 else if b < 0x74 then 0x54 else if b == 0x77 then 0x52 else 0x93
    else if b < 0x90 then 0x46
    else if b < 0xa0 then 0x93
    else if b < 0xb0 then
      if b in {0xa0, 0xa1, 0xa2, 0xa8, 0xa9, 0xaa} then 0x52 else if b in {0xa4, 0xac} then 0x94
      else if b in {0xa6, 0xa7} then 0x51 else 0x93
    else if b < 0xc0 then if b == 0xba then 0x94 else 0x93
    else if b < 0xd0 then
      if b >= 0xc8 then 0x52 else if b in {0xc2, 0xc4, 0xc5, 0xc6} then 0x94 else 0x93
    else if b == 0xff then 0x52
    else 0x93
  }

  // Length from the ModRM byte at q on, with n bytes counted up to and including ModRM.
  function MrmLen(s: seq<byte>, q: nat, n: int): int {
    var x := At(s, q);
    if x / 64 == 0 && x % 8 == 5 then n + 4
    else if x / 64 == 3 then n
    else
      var disp := if x / 64 == 1 then 1 else if x / 64 == 2 then 4 else 0;
      if x % 8 == 4 then n + disp + 1 + (if x < 0x40 && At(s, q + 1) % 8 == 5 then 4 else 0)
      else n + disp
  }

  // One round of the decoder loop at p. o16 and rexw are the bits 2 and 4 of the prefix set;
  // second says that map_op2 applies.
  function InsLenFrom(s: seq<byte>, p: nat, second: bool, result: int, o16: bool, rexw: bool): int
    decreases if p < |s| then |s| - p else 0
  {
    var x := if second then MapOp2(At(s, p)) else MapOp1(At(s, p));
    var c, n, o := x / 16, x % 16, if o16 then 2 else 0;
    if c == 0 then result + x + (if rexw then 4 else 0)
    else if c == 1 then InsLenFrom(s, p + 1, false, result + 1, o16 || x == 0x12, rexw || x == 0x14)
    else if c == 2 then InsLenFrom(s, p + 1, true, result, o16, rexw)
    else if c == 3 then MrmLen(s, p + 2, result + n)
    else if c == 4 then result - o + n
    else if c == 5 then result + n
    else if c == 6 then
      var len := if At(s, p + 1) / 8 % 8 != 0 then 2 else if o16 && x == 0x66 then 4 else n;
      MrmLen(s, p + 1, result + len)
    else if c == 7 then
      var v := At(s, p + 1) % 32;
      if x == 0x70 && v >= 2 then MrmLen(s, p + 4, result + 3 + v % 16)
      else
        var k := if x == 0x70 then 2 else 1;
        InsLenFrom(s, p + k + 1, true, result + k, o16, rexw)
    else if c == 8 then MrmLen(s, p + 1, result - o + n)
    else MrmLen(s, p + 1, result + n)
  }

  function InsLen(s: seq<byte>, p: nat): int { InsLenFrom(s, p, false, 0, false, false) }

  lemma ZeroByte()
    ensures MapOp1(0) == 0x92 && MapOp2(0) == 0x93
  {
  }

  // The decoder itself, over a code buffer.
  method AsmX86InsLen(code: array<byte>, start: nat) returns (result: int)
    ensures result == InsLen(code[..], start)
  {
    hide MapOp1, MapOp2, MrmLen;
    ZeroByte();
    ghost var s := code[..];
    var p, second, o16, rexw := start, false, false, false;
    result := 0;
    while true
      invariant s == code[..]
      invariant InsLen(s, start) == InsLenFrom(s, p, second, result, o16, rexw)
      decreases if p < |s| then |s| - p else 0
    {
      var b := if p < code.Length then code[p] else 0;
      var b1 := if p + 1 < code.Length then code[p + 1] else 0;
      var x := if second then MapOp2(b) else MapOp1(b);
      assert b == At(s, p) && b1 == At(s, p + 1);
      var n := x % 16;
      match x / 16 {
        case 0 => return result + x + (if rexw then 4 else 0);
        case 1 =>
          o16, rexw := o16 || x == 0x12, rexw || x == 0x14;
          p, second, result := p + 1, false, result + 1;
          continue;
        case 2 => p, second := p + 1, true; continue;
        case 3 => p := p + 1; result := result + n;
        case 4 => return result - (if o16 then 2 else 0) + n;
        case 5 => return result + n;
        case 6 => result := result + (if b1 / 8 % 8 != 0 then 2 else if o16 && x == 0x66 then 4 else n);
        case 7 =>
          var v := b1 % 32;
          if x == 0x70 && v >= 2 {
            p, result := p + 3, result + 3 + v % 16;
          } else {
            var k := if x == 0x70 then 2 else 1;
            p, second, result := p + k + 1, true, result + k;
            continue;
          }
        case 8 => result := result - (if o16 then 2 else 0) + n;
        case _ => result := result + n;
      }
      result := MrmTail(code, p + 1, result);
      return;
    }
  }

  // The shared tail of the decoder: ModR/M and possibly SIB.
  method MrmTail(code: array<byte>, q: nat, n: int) returns (result: int)
    ensures result == MrmLen(code[..], q, n)
  {
    result := n;
    var x := if q < code.Length then code[q] else 0;
    var x1 := if q + 1 < code.Length then code[q + 1] else 0;
    match x / 64 {
      case 0 => if x % 8 == 5 { return result + 4; }
      case 1 => result := result + 1;
      case 2 => result := result + 4;
      case _ => return;
    }
    if x % 8 == 4 {
      result := result + 1;
      if x < 0x40 && x1 % 8 == 5 { result := result + 4; }
    }
  }

  // The operand part: what follows the ModRM byte is counted exactly.
  lemma MrmLenExact(s: seq<byte>, q: nat, digit: Reg, rm: Rm, n: int)
    requires ValidRm(rm) && HasAt(s, q, RmBytes(digit, rm))
    ensures MrmLen(s, q, n) == n + |RmBytes(digit, rm)| - 1
  {
    hide ModRM, LE32;
    var e := RmBytes(digit, rm);
    assert s[q] == e[0];
    match rm
    case Direct(r) => ModRMFields(XM_REG, digit, r);
    case Mem(m) =>
      var needsSib := m.idx != RID_NONE || m.base == RID_NONE || m.base % 8 == RID_ESP;
      ModRMFields(DispMode(m), digit, if needsSib then RID_ESP else m.base);
      if m.base % 8 == RID_ESP { ModRMFields(DispMode(m), digit, m.base); }
      if needsSib {
        assert s[q + 1] == e[1];
        ModRMFields(m.scale, m.idx, BaseField(m));
        ModRMFields(XM_SCALE1, RID_ESP, if m.base == RID_NONE then RID_EBP else RID_ESP);
      }
  }

  // The immediate is counted with the opcode.
  lemma Opcode1(s: seq<byte>, p: nat, o: byte, digit: Reg, n: int)
    requires IsOp1(o) && At(s, p) == o && At(s, p + 1) / 8 % 8 == digit % 8
    ensures InsLenFrom(s, p, false, n, false, false) == InsLenFrom(s, p, false, n, false, true)
         == MrmLen(s, p + 1, n + 2 + ImmLen(XO_(o), digit))
  {
    hide MrmLen;
  }

  lemma Opcode66(s: seq<byte>, p: nat, o: byte, rexw: bool, n: int)
    requires IsOp66(o) && At(s, p) == o
    ensures InsLenFrom(s, p, false, n, true, rexw) == MrmLen(s, p + 1, n + 2 + ImmLen(XO_66(o), 0))
  {
  }

  lemma Opcode2(s: seq<byte>, p: nat, o: byte, o16: bool, rexw: bool, n: int)
    requires IsOp0f(o) || IsSse(o)
    requires At(s, p) == 0x0f && At(s, p + 1) == o
    ensures InsLenFrom(s, p, false, n, o16, rexw) == MrmLen(s, p + 2, n + 3)
  {
    hide MrmLen;
    assert InsLenFrom(s, p, false, n, o16, rexw) == InsLenFrom(s, p + 1, true, n, o16, rexw);
  }

  // Legacy and REX prefixes count one byte each.
  lemma PrefixStep(s: seq<byte>, p: nat, o16: bool, rexw: bool, n: int)
    requires var b := At(s, p); 0x40 <= b < 0x50 || b in {0x66, 0xf2, 0xf3}
    ensures InsLenFrom(s, p, false, n, o16, rexw)
         == InsLenFrom(s, p + 1, false, n + 1, o16 || At(s, p) == 0x66, rexw || 0x48 <= At(s, p) < 0x50)
  {
  }

  lemma RexRange(rr: RegArg, rb: Reg, rx: Reg)
    ensures 0x40 <= RexByte(rr, rb, rx) < 0x50
  {
  }

  // From the first prefix byte to the ModRM byte at q.
  lemma OpLen(s: seq<byte>, p: nat, xo: X86Op, rr: RegArg, rb: Reg, rx: Reg)
    requires KnownOp(xo) && !IsVex(xo) && HasAt(s, p, OpBytes(xo, rr, rb, rx))
    requires At(s, p + |OpBytes(xo, rr, rb, rx)|) / 8 % 8 == rr.id % 8
    ensures Printable(xo)
    ensures var n := |OpBytes(xo, rr, rb, rx)|;
      InsLen(s, p) == MrmLen(s, p + n, n + 1 + ImmLen(xo, rr.id))
  {
    hide MrmLen, InsLenFrom, RexByte, NeedsRex;
    RexRange(rr, rb, rx);
    var e := OpBytes(xo, rr, rb, rx);
    var rex := NeedsRex(rr, rb, rx);
    assert s[p] == e[0];
    if |e| > 1 { assert s[p + 1] == e[1]; }
    if |e| > 2 { assert s[p + 2] == e[2]; }
    if |e| > 3 { assert s[p + 3] == e[3]; }
    var pfx := xo.lsb == 0xfc || xo == XO_66(xo.b3);
    var q := if pfx then p + 1 else p;
    if pfx { PrefixStep(s, p, false, false, 0); }
    var o16 := pfx && s[p] == 0x66;
    if rex { PrefixStep(s, q, o16, false, q - p); }
    var rexw := rex && 0x48 <= s[q] < 0x50;
    var t := if rex then q + 1 else q;
    if xo == XO_(xo.b3) {
      Opcode1(s, t, xo.b3, rr.id, t - p);
    } else if xo == XO_66(xo.b3) {
      Opcode66(s, t, xo.b3, rexw, t - p);
    } else {
      Opcode2(s, t, xo.b3, o16, rexw, t - p);
    }
  }

  lemma ModRMAt(s: seq<byte>, q: nat, digit: Reg, rm: Rm)
    requires ValidRm(rm) && HasAt(s, q, RmBytes(digit, rm))
    ensures At(s, q) / 8 % 8 == digit % 8
  {
    hide ModRM, LE32;
    assert s[q] == RmBytes(digit, rm)[0];
    match rm
    case Direct(r) => ModRMFields(XM_REG, digit, r);
    case Mem(m) =>
      ModRMFields(DispMode(m), digit, RID_ESP);
      ModRMFields(DispMode(m), digit, m.base);
  }

  lemma VexLen(s: seq<byte>, p: nat, xo: X86Op, rr: RegArg, rb: Reg, rx: Reg)
    requires KnownOp(xo) && IsVex(xo) && HasAt(s, p, OpBytes(xo, rr, rb, rx))
    ensures InsLen(s, p) == MrmLen(s, p + 4, 5 + ImmLen(xo, rr.id))
  {
    hide MrmLen, VexByte;
    var e := OpBytes(xo, rr, rb, rx);
    assert s[p] == e[0] && s[p + 1] == e[1];
    VexFields(xo.b1, rr.id, rb, rx);
  }

  // The length decoder returns exactly what the printer wrote, immediate included, for every
  // opcode, register, operand form and REX choice.
  lemma EncodedLen(s: seq<byte>, p: nat, xo: X86Op, rr: RegArg, rm: Rm)
    requires KnownOp(xo) && ValidRm(rm) && HasAt(s, p, Encode(xo, rr, rm))
    ensures InsLen(s, p) == |Encode(xo, rr, rm)| + ImmLen(xo, rr.id)
  {
    hide MrmLen, InsLen, OpBytes, RmBytes, KnownOp, ImmLen;
    KnownPrintable(xo);
    var (b, x) := match rm case Direct(r) => (r, 0) case Mem(m) => (BaseField(m), IdxField(m));
    var op := OpBytes(xo, rr, b, x);
    var q := p + |op|;
    HasParts(s, p, op, RmBytes(rr.id, rm));
    ModRMAt(s, q, rr.id, rm);
    if IsVex(xo) { VexLen(s, p, xo, rr, b, x); VexOpBytes(xo, rr, b, x); } else { OpLen(s, p, xo, rr, b, x); }
    MrmLenExact(s, q, rr.id, rm, |op| + 1 + ImmLen(xo, rr.id));
  }

  lemma VexOpBytes(xo: X86Op, rr: RegArg, rb: Reg, rx: Reg)
    requires Printable(xo) && IsVex(xo)
    ensures |OpBytes(xo, rr, rb, rx)| == 4
  {
  }
}
