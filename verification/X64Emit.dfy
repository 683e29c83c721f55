// The variable-length x64 instruction printer. It emits backwards: as->mcp moves down.
module X64Emit {
  import opened Words
  import opened X64Ops

  function ModRM(mode: byte, r1: Reg, r2: Reg): byte
    requires IsScale(mode)
  {
    mode + (r1 % 8) * 8 + r2 % 8
  }

  // Little-endian bytes of a 32-bit value.
  function Unsigned32(i: i32): nat { if i < 0 then i + 0x1_0000_0000 else i }

  function LE32(i: i32): (s: seq<byte>)
    ensures |s| == 4
  {
    var u := Unsigned32(i);
    var (u1, u2, u3) := (u / 256, u / 256 / 256, u / 256 / 256 / 256);
    [u % 256, u1 % 256, u2 % 256, u3]
  }

  function Byte(i: int): byte { i % 256 }

  function Bit3(r: Reg): nat { r / 8 % 2 }

  function RexByte(rr: RegArg, rb: Reg, rx: Reg): byte {
    0x40 + (if rr.rex == Rex64 then 8 else 0) + 4 * Bit3(rr.id) + 2 * Bit3(rx) + Bit3(rb)
  }

  predicate NeedsRex(rr: RegArg, rb: Reg, rx: Reg) {
    rr.rex != NoRex || Bit3(rr.id) == 1 || Bit3(rx) == 1 || Bit3(rb) == 1
  }

  // The VEX prefix stores R, X and B inverted in the top bits of its second byte.
  function VexByte(b1: byte, rr: Reg, rb: Reg, rx: Reg): byte
    requires b1 >= 0xe0
  {
    b1 - 32 * (4 * Bit3(rr) + 2 * Bit3(rx) + Bit3(rb))
  }

  predicate Printable(xo: X86Op) { xo.lsb in {0xfe, 0xfd, 0xfc, 0xc4} && (IsVex(xo) ==> xo.b1 >= 0xe0) }

  // Prefixes, REX or VEX, and opcode.
  function OpBytes(xo: X86Op, rr: RegArg, rb: Reg, rx: Reg): (s: seq<byte>)
    requires Printable(xo)
  {
    if IsVex(xo) then [0xc4, VexByte(xo.b1, rr.id, rb, rx), xo.b2, xo.b3]
    else
      var rex := if NeedsRex(rr, rb, rx) then [RexByte(rr, rb, rx)] else [];
      if xo.lsb == 0xfe then rex + [xo.b3]
      else if xo.lsb == 0xfc then [xo.b1] + rex + [xo.b2, xo.b3]
      else if xo.b1 == 0 && xo.b2 == 0x66 then [xo.b2] + rex + [xo.b3]
      else rex + [xo.b2, xo.b3]
  }

  // The opcode bytes one by one: REX goes behind a mandatory prefix.
  lemma OpForms(xo: X86Op, rr: RegArg, rb: Reg, rx: Reg)
    requires Printable(xo)
    ensures var (w, b, rex) := (OpBytes(xo, rr, rb, rx), RexByte(rr, rb, rx), NeedsRex(rr, rb, rx));
      if IsVex(xo) then w == [0xc4, VexByte(xo.b1, rr.id, rb, rx), xo.b2, xo.b3]
      else if xo.lsb == 0xfe then w == if rex then [b, xo.b3] else [xo.b3]
      else if xo.lsb == 0xfc then w == if rex then [xo.b1, b, xo.b2, xo.b3] else [xo.b1, xo.b2, xo.b3]
      else if xo.b1 == 0 && xo.b2 == 0x66 then w == if rex then [0x66, b, xo.b3] else [0x66, xo.b3]
      else w == if rex then [b, xo.b2, xo.b3] else [xo.b2, xo.b3]
  {
    hide RexByte, VexByte, NeedsRex;
  }

  function Disp(m: Mrm): seq<byte> {
    if m.base == RID_RIP || m.base == RID_NONE then LE32(m.ofs)
    else if m.ofs == 0 && m.base % 8 != RID_EBP then []
    else if CheckI8(m.ofs) then [Byte(m.ofs)]
    else LE32(m.ofs)
  }

  function DispMode(m: Mrm): (mode: byte)
    ensures IsScale(mode)
  {
    if m.base == RID_RIP || m.base == RID_NONE || (m.ofs == 0 && m.base % 8 != RID_EBP) then XM_OFS0
    else if CheckI8(m.ofs) then XM_OFS8
    else XM_OFS32
  }

  // What goes into the base field, and so into REX.B.
  function BaseField(m: Mrm): Reg {
    if m.base != RID_NONE then m.base else if m.idx != RID_NONE then RID_EBP else RID_ESP
  }

  function IdxField(m: Mrm): Reg { if m.idx == RID_NONE then 0 else m.idx }

  // ModRM, SIB and displacement for a memory operand.
  function MemBytes(digit: Reg, m: Mrm): seq<byte>
    requires ValidMrm(m)
  {
    var mode := DispMode(m);
    if m.idx != RID_NONE then
      [ModRM(mode, digit, RID_ESP), ModRM(m.scale, m.idx, BaseField(m))] + Disp(m)
    else if m.base == RID_NONE then
      [ModRM(mode, digit, RID_ESP), ModRM(XM_SCALE1, RID_ESP, RID_EBP)] + Disp(m)
    else if m.base % 8 == RID_ESP then
      [ModRM(mode, digit, m.base), ModRM(XM_SCALE1, RID_ESP, RID_ESP)] + Disp(m)
    else
      [ModRM(mode, digit, m.base)] + Disp(m)
  }

  function RmBytes(digit: Reg, rm: Rm): seq<byte>
    requires ValidRm(rm)
  {
    match rm
    case Direct(r) => [ModRM(XM_REG, digit, r)]
    case Mem(m) => MemBytes(digit, m)
  }

  function Encode(xo: X86Op, rr: RegArg, rm: Rm): seq<byte>
    requires Printable(xo) && ValidRm(rm)
  {
    match rm
    case Direct(r) => OpBytes(xo, rr, r, 0) + RmBytes(rr.id, rm)
    case Mem(m) => OpBytes(xo, rr, BaseField(m), IdxField(m)) + RmBytes(rr.id, rm)
  }

  lemma SliceIs(s: seq<byte>, q: nat, want: seq<byte>)
    requires q + |want| <= |s| && 0 < |want| <= 4 && s[q] == want[0]
    requires |want| > 1 ==> s[q + 1] == want[1]
    requires |want| > 2 ==> s[q + 2] == want[2]
    requires |want| > 3 ==> s[q + 3] == want[3]
    ensures s[q..q + |want|] == want
  {
  }

  // Space that must be left below mcp: the printer scribbles over bytes below the instruction.
  const REDZONE: nat := 16

  // The machine code area of an ASMState: code is emitted downwards from the end of buf.
  class MCode {
    const buf: array<byte>
    var mcp: nat
    var mrm: Mrm  // pending ModRM operand of a fused load

    ghost predicate Valid()
      reads this
    {
      mcp <= buf.Length
    }

    // The finished code, in execution order.
    ghost function Code(): seq<byte>
      requires Valid()
      reads this, buf
    {
      buf[mcp..]
    }

    constructor (size: nat)
      ensures Valid() && fresh(buf) && buf.Length == size && Code() == []
    {
      buf := new byte[size](_ => 0);
      mcp := size;
      mrm := Mrm(0, RID_NONE, XM_SCALE1, 0);
    }

    method EmitI8(i: int)
      requires Valid() && mcp >= REDZONE
      modifies this`mcp, buf
      ensures Valid() && mcp == old(mcp) - 1
      ensures Code() == [Byte(i)] + old(Code())
    {
      mcp := mcp - 1;
      buf[mcp] := Byte(i);
    }

    // Store four bytes at index p.
    method Store32(p: nat, b0: byte, b1: byte, b2: byte, b3: byte)
      requires p + 4 <= buf.Length
      modifies buf
      ensures buf[p] == b0 && buf[p + 1] == b1 && buf[p + 2] == b2 && buf[p + 3] == b3
      ensures forall k :: 0 <= k < buf.Length && !(p <= k < p + 4) ==> buf[k] == old(buf[k])
    {
      buf[p], buf[p + 1], buf[p + 2], buf[p + 3] := b0, b1, b2, b3;
    }

    method StoreI32(p: nat, i: i32)
      requires p + 4 <= buf.Length
      modifies buf
      ensures buf[p..p + 4] == LE32(i)
      ensures forall k :: 0 <= k < buf.Length && !(p <= k < p + 4) ==> buf[k] == old(buf[k])
    {
      var b := LE32(i);
      Store32(p, b[0], b[1], b[2], b[3]);
    }

    method EmitI32(i: i32)
      requires Valid() && mcp >= REDZONE
      modifies this`mcp, buf
      ensures Valid() && mcp == old(mcp) - 4
      ensures Code() == LE32(i) + old(Code())
    {
      StoreI32(mcp - 4, i);
      mcp := mcp - 4;
      assert buf[mcp..] == buf[mcp..mcp + 4] + buf[mcp + 4..];
      assert buf[mcp + 4..] == old(buf[mcp..]);
    }

    // Write prefixes and opcode so that they end just below index e. The whole x86Op word is
    // stored first and REX then overwrites one of its bytes, as the original does.
    method EmitOp(xo: X86Op, rr: RegArg, rb: Reg, rx: Reg, e: nat) returns (q: nat)
      requires Printable(xo) && 6 <= e <= buf.Length
      modifies buf
      ensures q == e - |OpBytes(xo, rr, rb, rx)|
      ensures buf[q..e] == OpBytes(xo, rr, rb, rx)
      ensures forall k :: 0 <= k < buf.Length && !(e - 4 <= k < e) ==> buf[k] == old(buf[k])
    {
      hide RexByte, VexByte, NeedsRex, OpBytes;
      OpForms(xo, rr, rb, rx);
      var n := xo.lsb - 256;
      if n == -60 {
        Store32(e - 4, xo.lsb, VexByte(xo.b1, rr.id, rb, rx), xo.b2, xo.b3);
        SliceIs(buf[..], e - 4, OpBytes(xo, rr, rb, rx));
        assert buf[e - 4..e] == buf[..][e - 4..e];
        return e - 4;
      }
      Store32(e - 4, xo.lsb, xo.b1, xo.b2, xo.b3);
      q := e + n + 1;
      if NeedsRex(rr, rb, rx) {
        var rex := RexByte(rr, rb, rx);
        if n == -4 {
          buf[q] := rex;
          rex := xo.b1;
        } else if xo.lsb == 0xfd && xo.b1 == 0 && xo.b2 == 0x66 {
          buf[q] := rex;
          rex := 0x66;
        }
        q := q - 1;
        buf[q] := rex;
      }
      ghost var want := OpBytes(xo, rr, rb, rx);
      SliceIs(buf[..], q, want);
      assert buf[q..e] == buf[..][q..e];
    }

    // Opcode in front of a ModRM (and SIB) that ends at or above the old mcp.
    method FinishOp(xo: X86Op, rr: RegArg, rb: Reg, rx: Reg, e: nat, ghost tail: seq<byte>)
      requires Printable(xo) && Valid() && 6 <= e <= buf.Length
      requires buf[e..] == tail
      modifies this`mcp, buf
      ensures Valid() && mcp == e - |OpBytes(xo, rr, rb, rx)|
      ensures Code() == OpBytes(xo, rr, rb, rx) + tail
    {
      mcp := EmitOp(xo, rr, rb, rx, e);
      assert buf[mcp..] == buf[mcp..e] + buf[e..];
    }

    method EmitRr(xo: X86Op, r1: RegArg, r2: Reg)
      requires Valid() && mcp >= REDZONE && Printable(xo) && r2 < RID_MAX
      modifies this`mcp, buf
      ensures Valid() && mcp < old(mcp)
      ensures Code() == Encode(xo, r1, Direct(r2)) + old(Code())
    {
      ghost var was := buf[mcp..];
      buf[mcp - 1] := ModRM(XM_REG, r1.id, r2);
      FinishOp(xo, r1, r2, 0, mcp - 1, [ModRM(XM_REG, r1.id, r2)] + was);
    }

    // Displacement in the shortest form; returns the mode and the new end of the operand.
    method EmitDisp(rb: Reg, ofs: i32, p: nat) returns (mode: byte, q: nat)
      requires IsGpr(rb) && 4 <= p <= buf.Length
      modifies buf
      ensures IsScale(mode)
      ensures forall m: Mrm :: m.base == rb && m.ofs == ofs ==>
        mode == DispMode(m) && q == p - |Disp(m)| && buf[q..p] == Disp(m)
      ensures forall k :: p <= k < buf.Length ==> buf[k] == old(buf[k])
    {
      if ofs == 0 && rb % 8 != RID_EBP {
        return XM_OFS0, p;
      } else if CheckI8(ofs) {
        buf[p - 1] := Byte(ofs);
        return XM_OFS8, p - 1;
      } else {
        StoreI32(p - 4, ofs);
        return XM_OFS32, p - 4;
      }
    }

    // Shared tail of the unindexed forms: ModRM, a SIB byte for ESP/R12, and the opcode.
    method FinishBase(xo: X86Op, mode: byte, rr: RegArg, rb: Reg, p: nat, ghost m: Mrm, ghost was: seq<byte>)
      requires Valid() && p <= mcp && Printable(xo) && p >= REDZONE - 4
      requires ValidMrm(m) && m.idx == RID_NONE && m.base == rb != RID_NONE && mode == DispMode(m)
      requires buf[p..mcp] == Disp(m) && buf[mcp..] == was
      modifies this`mcp, buf
      ensures Valid() && mcp < p
      ensures Code() == Encode(xo, rr, Mem(m)) + was
    {
      var q := p;
      if rb % 8 == RID_ESP {
        q := q - 1;
        buf[q] := ModRM(XM_SCALE1, RID_ESP, RID_ESP);
      }
      buf[q - 1] := ModRM(mode, rr.id, rb);
      assert buf[q - 1..mcp] == MemBytes(rr.id, m);
      FinishMem(xo, rr, rb, 0, q - 1, m, was);
    }

    // No base and no index: an absolute address needs a SIB byte in 64-bit mode.
    method FinishAbs(xo: X86Op, rr: RegArg, p: nat, ghost m: Mrm, ghost was: seq<byte>)
      requires Valid() && p <= mcp && Printable(xo) && p >= REDZONE - 4
      requires ValidMrm(m) && m.idx == RID_NONE && m.base == RID_NONE
      requires buf[p..mcp] == LE32(m.ofs) && buf[mcp..] == was
      modifies this`mcp, buf
      ensures Valid() && mcp < p
      ensures Code() == Encode(xo, rr, Mem(m)) + was
    {
      buf[p - 1] := ModRM(XM_SCALE1, RID_ESP, RID_EBP);
      buf[p - 2] := ModRM(XM_OFS0, rr.id, RID_ESP);
      assert buf[p - 2..mcp] == MemBytes(rr.id, m);
      FinishMem(xo, rr, RID_ESP, 0, p - 2, m, was);
    }

    method FinishMem(xo: X86Op, rr: RegArg, rb: Reg, rx: Reg, p: nat, ghost m: Mrm, ghost was: seq<byte>)
      requires Valid() && 6 <= p <= mcp && Printable(xo) && ValidMrm(m)
      requires rb == BaseField(m) && rx == IdxField(m)
      requires buf[p..mcp] == MemBytes(rr.id, m) && buf[mcp..] == was
      modifies this`mcp, buf
      ensures Valid() && mcp < p
      ensures Code() == Encode(xo, rr, Mem(m)) + was
    {
      assert buf[p..] == buf[p..mcp] + buf[mcp..];
      FinishOp(xo, rr, rb, rx, p, MemBytes(rr.id, m) + was);
      assert OpBytes(xo, rr, rb, rx) + (MemBytes(rr.id, m) + was)
        == OpBytes(xo, rr, rb, rx) + MemBytes(rr.id, m) + was;
    }

    // op r, [base+ofs], also for RIP-relative and absolute operands
    method EmitRmro(xo: X86Op, rr: RegArg, rb: Reg, ofs: i32)
      requires Valid() && mcp >= REDZONE && Printable(xo)
      requires IsGpr(rb) || rb == RID_RIP || rb == RID_NONE
      modifies this`mcp, buf
      ensures Valid() && mcp < old(mcp)
      ensures Code() == Encode(xo, rr, Mem(Mrm(rb, RID_NONE, XM_SCALE1, ofs))) + old(Code())
    {
      ghost var was := buf[mcp..];
      ghost var m := Mrm(rb, RID_NONE, XM_SCALE1, ofs);
      if rb == RID_NONE {
        StoreI32(mcp - 4, ofs);
        FinishAbs(xo, rr, mcp - 4, m, was);
      } else if rb == RID_RIP {
        StoreI32(mcp - 4, ofs);
        FinishBase(xo, XM_OFS0, rr, rb, mcp - 4, m, was);
      } else {
        var mode, p := EmitDisp(rb, ofs, mcp);
        FinishBase(xo, mode, rr, rb, p, m, was);
      }
    }

    // A register and a memory operand with a scaled index.
    method EmitRmrxo(xo: X86Op, rr: RegArg, rb: Reg, rx: Reg, scale: byte, ofs: i32)
      requires Valid() && mcp >= REDZONE && Printable(xo)
      requires IsGpr(rb) && IsGpr(rx) && rx != RID_ESP && IsScale(scale)
      modifies this`mcp, buf
      ensures Valid() && mcp < old(mcp)
      ensures Code() == Encode(xo, rr, Mem(Mrm(rb, rx, scale, ofs))) + old(Code())
    {
      ghost var was := buf[mcp..];
      ghost var m := Mrm(rb, rx, scale, ofs);
      var mode, p := EmitDisp(rb, ofs, mcp);
      EmitOpmx(xo, mode, scale, rr, rb, rx, p, m, was);
    }

    // op + modrm + sib; the displacement already sits in buf[p..mcp]
    method EmitOpmx(xo: X86Op, mode: byte, scale: byte, rr: RegArg, rb: Reg, rx: Reg, p: nat,
                    ghost m: Mrm, ghost was: seq<byte>)
      requires Valid() && p <= mcp && Printable(xo) && p >= REDZONE - 4
      requires ValidMrm(m) && m.idx == rx != RID_NONE && m.scale == scale
      requires rb == BaseField(m) && mode == DispMode(m)
      requires buf[p..mcp] == Disp(m) && buf[mcp..] == was
      modifies this`mcp, buf
      ensures Valid() && mcp < p
      ensures Code() == Encode(xo, rr, Mem(m)) + was
    {
      buf[p - 1] := ModRM(scale, rx, rb);
      buf[p - 2] := ModRM(mode, rr.id, RID_ESP);
      assert buf[p - 2..mcp] == MemBytes(rr.id, m);
      FinishMem(xo, rr, rb, rx, p - 2, m, was);
    }

    // op r, rm: a register, or (RID_MRM) the pending operand in mrm
    method EmitMrm(xo: X86Op, rr: RegArg, rm: Reg)
      requires Valid() && mcp >= REDZONE && Printable(xo)
      requires if rm == RID_MRM then ValidMrm(mrm) else rm < RID_MAX
      modifies this`mcp, buf
      ensures Valid() && mcp < old(mcp)
      ensures Code() == Encode(xo, rr, RmOf(rm, mrm)) + old(Code())
    {
      if rm != RID_MRM {
        EmitRr(xo, rr, rm);
        return;
      }
      ghost var was := buf[mcp..];
      var rb := mrm.base;
      if rb == RID_NONE {
        StoreI32(mcp - 4, mrm.ofs);
        if mrm.idx != RID_NONE {
          EmitOpmx(xo, XM_OFS0, mrm.scale, rr, RID_EBP, mrm.idx, mcp - 4, mrm, was);
        } else {
          FinishAbs(xo, rr, mcp - 4, mrm, was);
        }
      } else if rb == RID_RIP {
        StoreI32(mcp - 4, mrm.ofs);
        FinishBase(xo, XM_OFS0, rr, rb, mcp - 4, mrm, was);
      } else {
        var mode, p := EmitDisp(rb, mrm.ofs, mcp);
        if mrm.idx != RID_NONE {
          EmitOpmx(xo, mode, mrm.scale, rr, rb, mrm.idx, p, mrm, was);
        } else {
          FinishBase(xo, mode, rr, rb, p, mrm, was);
        }
      }
    }

    // op rm, i with the shortest immediate
    method EmitGmrmi(g: nat, rex: RexFlag, rm: Reg, i: i32)
      requires Valid() && mcp >= REDZONE + 4 && g < 8
      requires if rm == RID_MRM then ValidMrm(mrm) else rm < RID_MAX
      modifies this`mcp, buf
      ensures Valid() && mcp < old(mcp)
      ensures Code() == GroupBytes(g, rex, RmOf(rm, mrm), i) + old(Code())
    {
      hide Encode, LE32;
      ghost var was := Code();
      if CheckI8(i) {
        EmitI8(i);
        EmitMrm(XO_(0x83), RegArg(g, rex), rm);
      } else {
        EmitI32(i);
        EmitMrm(XO_(0x81), RegArg(g, rex), rm);
      }
      ghost var (xo, imm) := ShortImm(i);
      assert Encode(xo, RegArg(g, rex), RmOf(rm, mrm)) + (imm + was)
        == Encode(xo, RegArg(g, rex), RmOf(rm, mrm)) + imm + was;
    }
  }

  const RID_MRM: Reg := 32

  function RmOf(rm: Reg, mrm: Mrm): Rm { if rm == RID_MRM then Mem(mrm) else Direct(rm) }

  // XG_TOXOi8 / XG_TOXOi of the arithmetic group, with the immediate each one takes.
  function ShortImm(i: i32): (r: (X86Op, seq<byte>)) {
    if CheckI8(i) then (XO_(0x83), [Byte(i)]) else (XO_(0x81), LE32(i))
  }

  function GroupBytes(g: nat, rex: RexFlag, rm: Rm, i: i32): seq<byte>
    requires ValidRm(rm)
  {
    var (xo, imm) := ShortImm(i);
    Encode(xo, RegArg(g, rex), rm) + imm
  }
}
