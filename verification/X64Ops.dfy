// x64 registers, opcodes and operands, as the emitters see them (LJ_64, LJ_GC64).
module X64Ops {
  import opened Words

  // Register ids: GPRs 0..15, XMM registers 16..31, the RIP pseudo-id and "no register".
  type Reg = nat
  const RID_ESP: Reg := 4
  const RID_EBP: Reg := 5
  const RID_DISPATCH: Reg := 14
  const RID_MAX: Reg := 32
  const RID_RIP: Reg := 37
  const RID_NONE: Reg := 0x80

  predicate IsGpr(r: Reg) { r < 16 }

  // The REX bits that callers or into a register operand: FORCE_REX and REX_64.
  datatype RexFlag = NoRex | ForceRex | Rex64
  datatype RegArg = RegArg(id: Reg, rex: RexFlag)

  // The memory operand of the x86ModRM structure. A base or index may be RID_NONE.
  datatype Mrm = Mrm(base: Reg, idx: Reg, scale: byte, ofs: i32)

  const XM_OFS0: byte := 0x00
  const XM_OFS8: byte := 0x40
  const XM_OFS32: byte := 0x80
  const XM_REG: byte := 0xc0
  const XM_SCALE1: byte := 0x00

  predicate IsScale(s: byte) { s == 0x00 || s == 0x40 || s == 0x80 || s == 0xc0 }

  // Operands the addressing modes can express: no index with RIP, ESP is never an index.
  predicate ValidMrm(m: Mrm) {
    && (IsGpr(m.base) || m.base == RID_RIP || m.base == RID_NONE)
    && ((IsGpr(m.idx) && m.idx != RID_ESP) || m.idx == RID_NONE)
    && (m.base == RID_RIP ==> m.idx == RID_NONE)
    && IsScale(m.scale)
    && (m.idx == RID_NONE ==> m.scale == XM_SCALE1)
  }

  // Either a register or a memory operand (the rm field of ModRM).
  datatype Rm = Direct(r: Reg) | Mem(m: Mrm)

  predicate ValidRm(rm: Rm) {
    match rm
    case Direct(r) => r < RID_MAX
    case Mem(m) => ValidMrm(m)
  }

  predicate CheckI8(i: int) { -128 <= i < 128 }

  // The four little-endian bytes of an x86Op constant; its LSB is -(opcode length + 1).
  datatype X86Op = X86Op(lsb: byte, b1: byte, b2: byte, b3: byte)

  function XO_(o: byte): X86Op { X86Op(0xfe, 0, 0, o) }
  function XO_0f(o: byte): X86Op { X86Op(0xfd, 0, 0x0f, o) }
  function XO_66(o: byte): X86Op { X86Op(0xfd, 0, 0x66, o) }
  // VEX opcodes; v is the third byte of the prefix after vvvv and W have been merged in.
  function XV_0f38(v: byte): X86Op { X86Op(0xc4, 0xe2, v, 0xf7) }
  function XV_0f3a(v: byte): X86Op { X86Op(0xc4, 0xe3, v, 0xf0) }

  const XI_O16: byte := 0x66
  const XI_CALL: byte := 0xe8
  const XI_JMP: byte := 0xe9
  const XI_JMPs: byte := 0xeb
  const XI_JCCs: byte := 0x70
  const XI_JCCn: byte := 0x80
  const XI_MOVri: byte := 0xb8
  const XI_MOVrib: byte := 0xb0
  const XI_MOVmi: byte := 0xc7
  const XI_PUSHi8: byte := 0x6a
  const XI_NOP: byte := 0x90

  // Opcodes of each class that the back end emits with a ModRM byte.
  predicate IsOp1(o: byte) {
    || (o % 8 == 3 && o < 0x40)  // XO_ARITH(a), XO_OR, XO_CMP
    || o in {0x8b, 0x89, 0x88, 0xc7, 0xc6, 0x8d, 0x80, 0x81, 0x83, 0xc1, 0xd1, 0xd3, 0x69, 0x6b,
             0x84, 0x85, 0xf6, 0xf7, 0xfe, 0xff, 0x63, 0xd9, 0xdd, 0xdb, 0xdf, 0xdc}
  }

  predicate IsOp0f(o: byte) {
    || o in {0xaf, 0xb6, 0xb7, 0xbe, 0xbf, 0x28, 0x57, 0x54}
    || 0x40 <= o < 0x50  // XO_CMOV + condition
  }

  // XO_MOVtow, XO_ARITHiw8, XO_ARITHw(a)
  predicate IsOp66(o: byte) { o == 0x89 || o == 0x83 || (o % 8 == 3 && o < 0x40) }

  predicate IsSse(o: byte) {
    o in {0x10, 0x11, 0x12, 0x58, 0x5c, 0x59, 0x5e, 0x51, 0x5d, 0x5f, 0x2e, 0x2a, 0x2c, 0x5a, 0x6e, 0x7e}
  }

  predicate IsVex(xo: X86Op) { xo.lsb == 0xc4 }

  predicate KnownOp(xo: X86Op) {
    || (xo == XO_(xo.b3) && IsOp1(xo.b3))
    || (xo == XO_0f(xo.b3) && IsOp0f(xo.b3))
    || (xo == XO_66(xo.b3) && IsOp66(xo.b3))
    || (xo.b1 in {0x66, 0xf2, 0xf3} && xo == X86Op(0xfc, xo.b1, 0x0f, xo.b3) && IsSse(xo.b3))
    || xo == XV_0f38(xo.b2)
    || xo == XV_0f3a(xo.b2)
  }

  // Immediate bytes that follow the operand, from the opcode map of the Intel SDM. The digit is
  // the reg field of ModRM: group 3 only has an immediate for TEST (/0).
  function ImmLen(xo: X86Op, digit: Reg): nat {
    if xo.lsb == 0xfe then
      if xo.b3 in {0xc7, 0x81, 0x69} then 4
      else if xo.b3 in {0xc6, 0x80, 0x83, 0xc1, 0x6b} then 1
      else if xo.b3 == 0xf7 && digit % 8 == 0 then 4
      else if xo.b3 == 0xf6 && digit % 8 == 0 then 1
      else 0
    else if xo == XO_66(0x83) then 1
    else if IsVex(xo) && xo.b1 == 0xe3 then 1
    else 0
  }
}
