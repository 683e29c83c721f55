// Constant loads, jumps and calls of the x64 emitter.
module X64Load {
  import opened Words
  import opened X64Ops
  import opened X64Emit
  import opened X64Decode
  import opened X64Trace

  const XO_XOR: X86Op := XO_(0x33)
  const XO_MOVMI: X86Op := XO_(0xc7)
  const XO_LEA: X86Op := XO_(0x8d)
  const XO_GROUP5: X86Op := XO_(0xff)
  const XOG_CALL: Reg := 2
  const RID_RET: Reg := 0

  // The constant that an instruction leaves in 64-bit register r, if it is a constant load: `next` is
  // the address of the following instruction.
  function Loaded(i: Ins, r: Reg, next: int, dispatch: u64): Option<u64>
    requires ValidIns(i)
  {
    match i
    case MovRi(q, v) => if q == r then Some(v % TWO32) else None
    case MovRi64(q, lo, hi) => if q == r then Some((hi % TWO32) * TWO32 + lo % TWO32) else None
    case Op(xo, rr, Direct(q), imm) =>
      if xo == XO_XOR && rr == RegArg(r, NoRex) && q == r then Some(0)
      else if xo == XO_MOVMI && rr == RegArg(0, Rex64) && q == r then Some(Int32At(imm, 0) % TWO64)
      else None
    case Op(xo, rr, Mem(m), imm) =>
      if xo == XO_LEA && rr == RegArg(r, Rex64) && m.idx == RID_NONE && m.base == RID_DISPATCH then
        Some((dispatch + m.ofs) % TWO64)
      else if xo == XO_LEA && rr == RegArg(r, Rex64) && m.base == RID_RIP then Some((next + m.ofs) % TWO64)
      else None
    case _ => None
  }

  // Of the constant loads only the exclusive or changes the flags.
  predicate ClobbersFlags(i: Ins) { i.Op? && i.xo == XO_XOR }

  // The code starts with a conditional jump.
  predicate JccFirst(code: seq<byte>) {
    |code| >= 2 && ((code[0] == 0x0f && code[1] / 16 == 8) || code[0] / 16 == 7)
  }

  // mov r, i
  method EmitMovRi(mc: MCode, r: Reg, i: i32)
    requires mc.Valid() && mc.mcp >= 2 * REDZONE && IsGpr(r)
    modifies mc`mcp, mc.buf
    ensures mc.Valid() && mc.mcp < old(mc.mcp) && mc.Code() == Bytes(MovRi(r, i)) + old(mc.Code())
  {
    hide LE32, Bytes;
    ghost var was := mc.Code();
    mc.EmitI32(i);
    mc.EmitI8(XI_MOVri + r % 8);
    if r / 8 % 2 == 1 { mc.EmitI8(0x41); }
    MovRiBytes(r, i, was);
  }

  lemma MovRiBytes(r: Reg, i: i32, was: seq<byte>)
    requires IsGpr(r)
    ensures var code := [XI_MOVri + r % 8] + (LE32(i) + was);
      Bytes(MovRi(r, i)) + was == if r / 8 % 2 == 1 then [0x41] + code else code
  {
  }

  // A 64-bit immediate.
  method EmitI64(mc: MCode, lo: i32, hi: i32)
    requires mc.Valid() && mc.mcp >= 2 * REDZONE
    modifies mc`mcp, mc.buf
    ensures mc.Valid() && mc.mcp == old(mc.mcp) - 8 && mc.Code() == LE32(lo) + LE32(hi) + old(mc.Code())
  {
    hide LE32;
    ghost var was := mc.Code();
    mc.EmitI32(hi);
    mc.EmitI32(lo);
    assert LE32(lo) + (LE32(hi) + was) == LE32(lo) + LE32(hi) + was;
  }

  // mov r64, imm64
  method EmitMovRi64(mc: MCode, r: Reg, lo: i32, hi: i32)
    requires mc.Valid() && mc.mcp >= 2 * REDZONE && IsGpr(r)
    modifies mc`mcp, mc.buf
    ensures mc.Valid() && mc.mcp < old(mc.mcp) && mc.Code() == Bytes(MovRi64(r, lo, hi)) + old(mc.Code())
  {
    hide LE32, Bytes;
    ghost var was := mc.Code();
    EmitI64(mc, lo, hi);
    mc.EmitI8(XI_MOVri + r % 8);
    mc.EmitI8(0x48 + r / 8 % 2);
    MovRi64Bytes(r, lo, hi, was);
  }

  lemma MovRi64Bytes(r: Reg, lo: i32, hi: i32, was: seq<byte>)
    requires IsGpr(r)
    ensures Bytes(MovRi64(r, lo, hi)) + was == [0x48 + r / 8 % 2] + ([XI_MOVri + r % 8] + (LE32(lo) + LE32(hi) + was))
  {
    hide LE32;
    Regroup(0x48 + Bit3(r), XI_MOVri + r % 8, LE32(lo), LE32(hi), was);
  }

  lemma Regroup(a: byte, b: byte, s: seq<byte>, t: seq<byte>, u: seq<byte>)
    ensures [a] + ([b] + (s + t + u)) == [a, b] + s + t + u
  {
  }

  function XorRr(r: Reg): Ins { Op(XO_XOR, RegArg(r, NoRex), Direct(r), []) }
  function MovMi(r: Reg, i: i32): Ins { Op(XO_MOVMI, RegArg(0, Rex64), Direct(r), LE32(i)) }
  function Lea(r: Reg, base: Reg, ofs: i32): Ins {
    Op(XO_LEA, RegArg(r, Rex64), Mem(Mrm(base, RID_NONE, XM_SCALE1, ofs)), [])
  }

  lemma LoadForms(r: Reg, i: i32, ofs: i32)
    requires IsGpr(r)
    ensures ValidIns(XorRr(r)) && forall n: int, d: u64 :: Loaded(XorRr(r), r, n, d) == Some(0)
    ensures ValidIns(MovMi(r, i)) && forall n: int, d: u64 :: Loaded(MovMi(r, i), r, n, d) == Some(i % TWO64)
    ensures ValidIns(Lea(r, RID_DISPATCH, ofs)) && ValidIns(Lea(r, RID_RIP, ofs))
    ensures forall n: int, d: u64 :: Loaded(Lea(r, RID_DISPATCH, ofs), r, n, d) == Some((d + ofs) % TWO64)
    ensures forall n: int, d: u64 :: Loaded(Lea(r, RID_RIP, ofs), r, n, d) == Some((n + ofs) % TWO64)
  {
    LE32RoundTrip(LE32(i), 0, i);
    hide Int32At, LE32;
  }

  // mov r, i / xor r, r; the exclusive or is avoided in front of a conditional jump.
  method EmitLoadi(mc: MCode, r: Reg, i: i32) returns (ghost ins: Ins)
    requires mc.Valid() && mc.mcp >= 2 * REDZONE && mc.mcp + 2 <= mc.buf.Length && IsGpr(r)
    modifies mc`mcp, mc.buf
    ensures mc.Valid() && mc.mcp < old(mc.mcp) && ValidIns(ins) && mc.Code() == Bytes(ins) + old(mc.Code())
    ensures !ins.MovRi64? && forall next: int, d: u64 :: Loaded(ins, r, next, d) == Some(i % TWO32)
    ensures ClobbersFlags(ins) ==> !JccFirst(old(mc.Code()))
  {
    hide Encode, LE32;
    LoadForms(r, i, 0);
    var p := mc.mcp;
    if i == 0 && !((mc.buf[p] == 0x0f && mc.buf[p + 1] / 16 == 8) || mc.buf[p] / 16 == 7) {
      mc.EmitRr(XO_XOR, RegArg(r, NoRex), r);
      ins := XorRr(r);
      assert Bytes(ins) == Encode(XO_XOR, RegArg(r, NoRex), Direct(r));
    } else {
      EmitMovRi(mc, r, i);
      ins := MovRi(r, i);
    }
  }

  method EmitMovMi(mc: MCode, r: Reg, i: i32)
    requires mc.Valid() && mc.mcp >= 2 * REDZONE && IsGpr(r)
    modifies mc`mcp, mc.buf
    ensures mc.Valid() && mc.mcp < old(mc.mcp) && ValidIns(MovMi(r, i))
    ensures mc.Code() == Bytes(MovMi(r, i)) + old(mc.Code())
  {
    hide LE32, Encode;
    ghost var was := mc.Code();
    mc.EmitI32(i);
    mc.EmitRr(XO_MOVMI, RegArg(0, Rex64), r);
    assert Bytes(MovMi(r, i)) + was == Encode(XO_MOVMI, RegArg(0, Rex64), Direct(r)) + (LE32(i) + was);
  }

  method EmitLea(mc: MCode, r: Reg, base: Reg, ofs: i32)
    requires mc.Valid() && mc.mcp >= 2 * REDZONE && IsGpr(r) && base in {RID_DISPATCH, RID_RIP}
    modifies mc`mcp, mc.buf
    ensures mc.Valid() && mc.mcp < old(mc.mcp) && ValidIns(Lea(r, base, ofs))
    ensures mc.Code() == Bytes(Lea(r, base, ofs)) + old(mc.Code())
  {
    hide Encode;
    mc.EmitRmro(XO_LEA, RegArg(r, Rex64), base, ofs);
    assert Bytes(Lea(r, base, ofs)) == Encode(XO_LEA, RegArg(r, Rex64), Mem(Mrm(base, RID_NONE, XM_SCALE1, ofs)));
  }

  lemma DeltaWraps(u: u64, from: int)
    ensures (from + Signed64((u - from) % TWO64)) % TWO64 == u
  {
  }

  lemma Halves(u: u64)
    ensures Signed32(u) % TWO32 == u % TWO32 && Signed32(u / TWO32) % TWO32 == u / TWO32
    ensures InI32(Signed64(u)) ==> Signed32(u) == Signed64(u) && Signed32(u) % TWO64 == u
  {
  }

  // mov r, imm64 or a shorter form, for code that ends up at address base + mcp: the register is left
  // with u, and the full-size form is only used when no other one reaches.
  method EmitLoadu64(mc: MCode, base: int, mctop: int, dispatch: u64, r: Reg, u: u64) returns (ghost ins: Ins)
    requires mc.Valid() && mc.mcp >= 2 * REDZONE && mc.mcp + 2 <= mc.buf.Length && IsGpr(r)
    modifies mc`mcp, mc.buf
    ensures mc.Valid() && mc.mcp < old(mc.mcp) && ValidIns(ins) && mc.Code() == Bytes(ins) + old(mc.Code())
    ensures Loaded(ins, r, base + old(mc.mcp), dispatch) == Some(u)
    ensures ClobbersFlags(ins) ==> !JccFirst(old(mc.Code()))
    ensures ins.MovRi64? ==> u >= TWO32 && !InI32(Signed64(u)) && !InI32(Signed64((u - dispatch) % TWO64))
  {
    hide LE32, Bytes, Signed32, Encode, KnownOp;
    var next := base + mc.mcp;
    Halves(u);
    if u < TWO32 {
      ins := EmitLoadi(mc, r, Signed32(u));
    } else if InI32(Signed64(u)) {
      EmitMovMi(mc, r, Signed32(u));
      LoadForms(r, Signed32(u), 0);
      ins := MovMi(r, Signed32(u));
    } else if InI32(Signed64((u - dispatch) % TWO64)) {
      var ofs := Signed64((u - dispatch) % TWO64);
      EmitLea(mc, r, RID_DISPATCH, ofs);
      LoadForms(r, 0, ofs);
      DeltaWraps(u, dispatch);
      ins := Lea(r, RID_DISPATCH, ofs);
    } else if InI32(Signed64((u - next) % TWO64)) && InI32(Signed64((u - mctop) % TWO64)) {
      var ofs := Signed64((u - next) % TWO64);
      EmitLea(mc, r, RID_RIP, ofs);
      LoadForms(r, 0, ofs);
      DeltaWraps(u, next);
      ins := Lea(r, RID_RIP, ofs);
    } else {
      EmitMovRi64(mc, r, Signed32(u), Signed32(u / TWO32));
      ins := MovRi64(r, Signed32(u), Signed32(u / TWO32));
    }
  }

  // -- Jumps and calls ---------------------------------------------------------------------

  // Where a jump or call that ends at address next goes to.
  function TargetOf(i: Ins, next: int): Option<int> {
    match i
    case Jcc(_, rel) => Some(next + rel)
    case Jmp(rel) => Some(next + rel)
    case Call(rel) => Some(next + rel)
    case _ => None
  }

  // A conditional jump to a known address.
  method EmitJcc(mc: MCode, base: int, cc: nat, target: int) returns (ghost ins: Ins)
    requires mc.Valid() && mc.mcp >= 2 * REDZONE && InI32(target - (base + mc.mcp))
    modifies mc`mcp, mc.buf
    ensures mc.Valid() && mc.mcp == old(mc.mcp) - 6 && ValidIns(ins) && mc.Code() == Bytes(ins) + old(mc.Code())
    ensures ins.Jcc? && ins.cc == cc % 16 && TargetOf(ins, base + old(mc.mcp)) == Some(target)
  {
    hide LE32;
    ghost var was := mc.Code();
    var rel := target - (base + mc.mcp);
    mc.EmitI32(rel);
    mc.EmitI8(XI_JCCn + cc % 16);
    mc.EmitI8(0x0f);
    ins := Jcc(cc % 16, rel);
    assert Bytes(ins) + was == [0x0f] + ([XI_JCCn + cc % 16] + (LE32(rel) + was));
  }

  // jmp target
  method EmitJmp(mc: MCode, base: int, target: int) returns (ghost ins: Ins)
    requires mc.Valid() && mc.mcp >= 2 * REDZONE && InI32(target - (base + mc.mcp))
    modifies mc`mcp, mc.buf
    ensures mc.Valid() && mc.mcp == old(mc.mcp) - 5 && ValidIns(ins) && mc.Code() == Bytes(ins) + old(mc.Code())
    ensures ins.Jmp? && TargetOf(ins, base + old(mc.mcp)) == Some(target)
  {
    hide LE32;
    ghost var was := mc.Code();
    var rel := target - (base + mc.mcp);
    mc.EmitI32(rel);
    mc.EmitI8(XI_JMP);
    ins := Jmp(rel);
    assert Bytes(ins) + was == [XI_JMP] + (LE32(rel) + was);
  }

  // call rel32
  method EmitCallNear(mc: MCode, rel: i32)
    requires mc.Valid() && mc.mcp >= 2 * REDZONE
    modifies mc`mcp, mc.buf
    ensures mc.Valid() && mc.Code() == Bytes(Call(rel)) + old(mc.Code())
  {
    hide LE32;
    ghost var was := mc.Code();
    mc.EmitI32(rel);
    mc.EmitI8(XI_CALL);
    assert Bytes(Call(rel)) + was == [XI_CALL] + (LE32(rel) + was);
  }

  // call through the return register
  method EmitCallReg(mc: MCode)
    requires mc.Valid() && mc.mcp >= 2 * REDZONE
    modifies mc`mcp, mc.buf
    ensures mc.Valid() && mc.Code() == Bytes(CallReg()) + old(mc.Code()) && mc.mcp == old(mc.mcp) - 2
  {
    ghost var was := mc.Code();
    mc.EmitRr(XO_GROUP5, RegArg(XOG_CALL, NoRex), RID_RET);
    assert Bytes(CallReg()) == Encode(XO_GROUP5, RegArg(XOG_CALL, NoRex), Direct(RID_RET));
    CallRegBytes();
    assert |mc.Code()| == |was| + 2;
  }

  // call target: through the return register when the target is out of reach.
  method EmitCall(mc: MCode, base: int, mctop: int, dispatch: u64, target: u64) returns (ghost ins: seq<Ins>)
    requires mc.Valid() && mc.mcp >= 4 * REDZONE
    modifies mc`mcp, mc.buf
    ensures mc.Valid() && ValidTrace(ins) && mc.Code() == Flatten(ins) + old(mc.Code())
    ensures if InI32(target - (base + old(mc.mcp)))
      then |ins| == 1 && ins[0].Call? && TargetOf(ins[0], base + old(mc.mcp)) == Some(target)
      else |ins| == 2 && ins[1] == CallReg()
           && Loaded(ins[0], RID_RET, base + old(mc.mcp) - |Bytes(CallReg())|, dispatch) == Some(target)
  {
    hide Bytes, Flatten, Loaded, KnownOp;
    ghost var was := mc.Code();
    var rel := target - (base + mc.mcp);
    if InI32(rel) {
      EmitCallNear(mc, rel);
      ins := [Call(rel)];
      FlattenOne(Call(rel));
    } else {
      EmitCallReg(mc);
      CallRegBytes();
      ghost var load := EmitLoadu64(mc, base, mctop, dispatch, RID_RET, target);
      ins := [load, CallReg()];
      FlattenTwo(load, CallReg());
      assert Bytes(load) + (Bytes(CallReg()) + was) == Bytes(load) + Bytes(CallReg()) + was;
    }
  }

  lemma FlattenOne(i: Ins)
    requires ValidIns(i)
    ensures Flatten([i]) == Bytes(i)
  {
  }

  lemma FlattenTwo(i: Ins, j: Ins)
    requires ValidIns(i) && ValidIns(j)
    ensures Flatten([i, j]) == Bytes(i) + Bytes(j)
  {
    assert [i, j][1..] == [j];
    FlattenOne(j);
  }

  // ff /2 of rax
  lemma CallRegBytes()
    ensures Bytes(CallReg()) == [0xff, 0xd0]
  {
  }

  function CallReg(): (i: Ins)
    ensures ValidIns(i)
  {
    Op(XO_GROUP5, RegArg(XOG_CALL, NoRex), Direct(RID_RET), [])
  }

  // -- The same loads by the rules of the opcode map -----------------------------------------

  // What the instruction at p leaves in r: b8+r with four bytes, or eight with REX.W; 33 /r of a register
  // with itself; c7 /0 with a sign-extended immediate; 8d /r, relative to r14 or to the next instruction.
  function LoadValue(s: seq<byte>, p: nat, r: Reg, next: int, dispatch: u64): Option<u64> {
    var rex := if 0x40 <= At(s, p) < 0x50 then At(s, p) else 0;
    var q := if rex != 0 then p + 1 else p;
    if 0xb8 <= At(s, q) < 0xc0 then
      if At(s, q) - 0xb8 + rex % 2 * 8 != r then None
      else if rex / 8 % 2 == 1 then Some(Int32At(s, q + 5) % TWO32 * TWO32 + Int32At(s, q + 1) % TWO32)
      else Some(Int32At(s, q + 1) % TWO32)
    else
      var d := Decode(s, p);
      if d.opmap != One || d.prefix != 0 then None
      else if d.opcode == 0x33 && d.reg == r && d.rm == Direct(r) && !d.w then Some(0)
      else if d.opcode == 0xc7 && d.reg == 0 && d.rm == Direct(r) && d.w then Some(Int32At(s, p + d.len) % TWO64)
      else if d.opcode == 0x8d && d.reg == r && d.w && d.rm.Mem? && d.rm.m.idx == RID_NONE then
        if d.rm.m.base == 14 then Some((dispatch + d.rm.m.ofs) % TWO64)
        else if d.rm.m.base == RID_RIP then Some((next + d.rm.m.ofs) % TWO64)
        else None
      else None
  }

  lemma LoadDecodes(s: seq<byte>, p: nat, i: Ins, r: Reg, next: int, dispatch: u64)
    requires ValidIns(i) && IsGpr(r) && HasAt(s, p, Bytes(i)) && Loaded(i, r, next, dispatch).Some?
    ensures LoadValue(s, p, r, next, dispatch) == Loaded(i, r, next, dispatch)
  {
    match i
    case Op(_, _, _, _) => OpLoadDecodes(s, p, i, r, next, dispatch);
    case _ => MovRiDecodes(s, p, i, r, next, dispatch);
  }

  lemma MovRiDecodes(s: seq<byte>, p: nat, i: Ins, r: Reg, next: int, dispatch: u64)
    requires (i.MovRi? || i.MovRi64?) && ValidIns(i) && i.r == r && HasAt(s, p, Bytes(i))
    ensures LoadValue(s, p, r, next, dispatch) == Loaded(i, r, next, dispatch)
  {
    hide LE32, Int32At, Decode;
    var e := Bytes(i);
    assert s[p] == e[0] && s[p + 1] == e[1];
    if i.MovRi64? {
      HasParts(s, p, [0x48 + Bit3(r), XI_MOVri + r % 8] + LE32(i.lo), LE32(i.hi));
      HasParts(s, p, [0x48 + Bit3(r), XI_MOVri + r % 8], LE32(i.lo));
      LE32RoundTrip(s, p + 2, i.lo);
      LE32RoundTrip(s, p + 6, i.hi);
    } else {
      var pre := RexRB(r) + [XI_MOVri + r % 8];
      HasParts(s, p, pre, LE32(i.v));
      LE32RoundTrip(s, p + |pre|, i.v);
    }
  }

  lemma OpLoadDecodes(s: seq<byte>, p: nat, i: Ins, r: Reg, next: int, dispatch: u64)
    requires i.Op? && ValidIns(i) && IsGpr(r) && HasAt(s, p, Bytes(i)) && Loaded(i, r, next, dispatch).Some?
    ensures LoadValue(s, p, r, next, dispatch) == Loaded(i, r, next, dispatch)
  {
    hide Encode, Decode, Int32At, KnownOp, HasAt, RmBytes;
    assert i.xo in {XO_(0x33), XO_(0xc7), XO_(0x8d)};
    KnownPrintable(i.xo);
    HasParts(s, p, Encode(i.xo, i.rr, i.rm), i.imm);
    EncodeRoundTrip(s, p, i.xo, i.rr, i.rm);
    NoShortMov(s, p, i.xo, i.rr, i.rm);
    if i.xo == XO_(0xc7) { SameInt32(s, p + |Encode(i.xo, i.rr, i.rm)|, i.imm); }
  }

  // The opcode, behind a REX prefix if there is one, is not that of a short MOV.
  lemma NoShortMov(s: seq<byte>, p: nat, xo: X86Op, rr: RegArg, rm: Rm)
    requires xo in {XO_(0x33), XO_(0xc7), XO_(0x8d)} && ValidRm(rm) && HasAt(s, p, Encode(xo, rr, rm))
    ensures var q := if 0x40 <= At(s, p) < 0x50 then p + 1 else p; !(0xb8 <= At(s, q) < 0xc0)
  {
    hide RmBytes, RexByte, NeedsRex;
    var (b, x) := match rm case Direct(r) => (r, 0) case Mem(m) => (BaseField(m), IdxField(m));
    var op := OpBytes(xo, rr, b, x);
    HasParts(s, p, op, RmBytes(rr.id, rm));
    RexIsRex(rr, b, x);
    assert s[p] == op[0] && (|op| > 1 ==> s[p + 1] == op[1]);
  }

  lemma RexIsRex(rr: RegArg, rb: Reg, rx: Reg)
    ensures 0x40 <= RexByte(rr, rb, rx) < 0x50
  {
  }

  lemma SameInt32(s: seq<byte>, p: nat, imm: seq<byte>)
    requires |imm| == 4 && HasAt(s, p, imm)
    ensures Int32At(s, p) == Int32At(imm, 0)
  {
  }

}
