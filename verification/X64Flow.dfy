// Control flow of a trace by the rules of the opcode map (Intel SDM Vol. 2, appendix A): which of its
// instructions are branches, and where they go.
module X64Flow {
  import opened Words
  import opened X64Ops
  import opened X64Emit
  import opened X64Decode
  import opened X64InsLen
  import opened X64Trace
  import X64Load
  import opened X64Patch
  import X86DropTest

  datatype Flow = Straight | Branch(cc: nat, target: int) | Goto(target: int) | Gosub(target: int)

  // 0f 80+cc cd and 70+cc cb are conditional, e9 cd and eb cb unconditional jumps, e8 cd is a call; the
  // distance counts from the end of the instruction.
  function FlowAt(s: seq<byte>, p: nat): Flow {
    if At(s, p) == 0x0f && 0x80 <= At(s, p + 1) < 0x90 then Branch(At(s, p + 1) - 0x80, p + 6 + Int32At(s, p + 2))
    else if 0x70 <= At(s, p) < 0x80 then Branch(At(s, p) - 0x70, p + 2 + Int8At(s, p + 1))
    else if At(s, p) == 0xe9 then Goto(p + 5 + Int32At(s, p + 1))
    else if At(s, p) == 0xeb then Goto(p + 2 + Int8At(s, p + 1))
    else if At(s, p) == 0xe8 then Gosub(p + 5 + Int32At(s, p + 1))
    else Straight
  }

  // The same from the fields of the instruction at p.
  function FlowOf(i: Ins, p: nat): Flow {
    match i
    case Jcc(cc, rel) => Branch(cc, p + 6 + rel)
    case JccShort(cc, b) => Branch(cc, p + 2 + (if b < 128 then b else b - 256))
    case Jmp(rel) => Goto(p + 5 + rel)
    case JmpShort(b) => Goto(p + 2 + (if b < 128 then b else b - 256))
    case Call(rel) => Gosub(p + 5 + rel)
    case _ => Straight
  }

  // The first byte behind the prefixes of an ordinary instruction is no jump.
  predicate NoJump(e: seq<byte>) {
    && |e| > 0 && !(0x70 <= e[0] < 0x80) && e[0] !in {0xe8, 0xe9, 0xeb}
    && (e[0] == 0x0f ==> |e| > 1 && !(0x80 <= e[1] < 0x90))
  }

  lemma OpNoJump(xo: X86Op, rr: RegArg, rb: Reg, rx: Reg)
    requires KnownOp(xo)
    ensures Printable(xo) && NoJump(OpBytes(xo, rr, rb, rx))
  {
    hide RexByte, NeedsRex;
    RexRange(rr, rb, rx);
  }

  lemma NoJumpPrefix(a: seq<byte>, b: seq<byte>)
    requires NoJump(a)
    ensures NoJump(a + b)
  {
  }

  lemma OrdinaryNoJump(i: Ins)
    requires ValidIns(i) && !(i.Jcc? || i.JccShort? || i.Jmp? || i.JmpShort? || i.Call?)
    ensures NoJump(Bytes(i))
  {
    hide LE32, OpBytes, RmBytes, KnownOp;
    match i
    case Op(xo, rr, rm, imm) =>
      var (b, x) := match rm case Direct(r) => (r, 0) case Mem(m) => (BaseField(m), IdxField(m));
      OpNoJump(xo, rr, b, x);
      NoJumpPrefix(OpBytes(xo, rr, b, x), RmBytes(rr.id, rm));
      NoJumpPrefix(Encode(xo, rr, rm), imm);
    case Bswap(rr, r) => BswapNoJump(rr, r);
    case _ =>
  }

  lemma BswapNoJump(rr: RegArg, r: Reg)
    requires IsGpr(r)
    ensures NoJump(Bytes(Bswap(rr, r)))
  {
    hide RexByte, NeedsRex;
    RexRange(rr, r, 0);
  }

  // In the bytes of a trace exactly the jumps and calls of its instruction list are jumps and calls, with
  // the same condition and target.
  lemma FlowExact(s: seq<byte>, p: nat, i: Ins)
    requires ValidIns(i) && HasAt(s, p, Bytes(i))
    ensures FlowAt(s, p) == FlowOf(i, p)
  {
    var e := Bytes(i);
    if i.Jcc? || i.Jmp? || i.Call? {
      JumpFlow(s, p, i);
    } else if i.JccShort? || i.JmpShort? {
      assert s[p] == e[0] && s[p + 1] == e[1];
    } else {
      OrdinaryNoJump(i);
      hide Bytes, Int32At;
      assert s[p] == e[0] && (|e| > 1 ==> s[p + 1] == e[1]);
    }
  }

  lemma JumpFlow(s: seq<byte>, p: nat, i: Ins)
    requires ValidIns(i) && HasAt(s, p, Bytes(i)) && (i.Jcc? || i.Jmp? || i.Call?)
    ensures FlowAt(s, p) == FlowOf(i, p)
  {
    hide LE32, Int32At;
    var op := if i.Jcc? then [0x0f, XI_JCCn + i.cc] else if i.Call? then [XI_CALL] else [XI_JMP];
    assert Bytes(i) == op + LE32(i.rel);
    HasParts(s, p, op, LE32(i.rel));
    LE32RoundTrip(s, p + |op|, i.rel);
    assert s[p] == op[0] && (i.Jcc? ==> s[p + 1] == op[1]);
  }

  // The test that keeps the flags in front of a conditional jump finds exactly the conditional jumps.
  lemma JccFirstExact(i: Ins, rest: seq<byte>)
    requires ValidIns(i) && |Bytes(i) + rest| >= 2
    ensures X64Load.JccFirst(Bytes(i) + rest) <==> FlowAt(Bytes(i) + rest, 0).Branch?
    ensures X64Load.JccFirst(Bytes(i) + rest) <==> i.Jcc? || i.JccShort?
  {
    var s := Bytes(i) + rest;
    FlowExact(s, 0, i);
    hide Bytes, Int32At;
  }

  // -- Patched traces ------------------------------------------------------------------------

  lemma InsAt(ins: seq<Ins>, k: nat)
    requires ValidTrace(ins) && k < |ins|
    ensures HasAt(Flatten(ins), Starts(ins, 0)[k], Bytes(ins[k]))
    ensures k == |ins| - 1 ==> Starts(ins, 0)[k] + |Bytes(ins[k])| == |Flatten(ins)|
  {
    hide Bytes, HasAt, Flatten, Starts;
    StartIsPrefix(ins, 0, k);
    assert ins == ins[..k] + ins[k..];
    FlattenAppend(ins[..k], ins[k..]);
    HeadAt(Flatten(ins[..k]), ins[k..]);
    FlattenStep(ins, k);
    if k == |ins| - 1 { assert ins[..k + 1] == ins; }
  }

  // A call of the GC step, not before instruction j, whose exit check is instruction k.
  ghost predicate GcCheck(s: seq<byte>, at: seq<nat>, j: nat, k: nat, c: Patch)
    requires k < |at|
  {
    exists g :: j <= g < k && FlowAt(s, at[g]) == Gosub(c.gcstep - c.base) && at[k] == at[g] + 7
  }

  lemma GcCheckIs(ins: seq<Ins>, j: nat, k: nat, c: Patch)
    requires ValidTrace(ins) && k < |ins|
    ensures GcCheck(Flatten(ins), Starts(ins, 0), j, k, c) <==> GcExit(ins, j, k, c)
  {
    hide Flatten, Starts, FlowAt, HasAt, Bytes;
    var s, at := Flatten(ins), Starts(ins, 0);
    forall g | 0 <= g < k ensures FlowAt(s, at[g]) == Gosub(c.gcstep - c.base) <==> IsGcCall(ins[g], at[g], c) {
      InsAt(ins, g);
      FlowExact(s, at[g], ins[g]);
    }
  }

  // What patching does to the control flow, by the bytes alone: behind the vmstate store at instruction j
  // every near conditional jump to the stub goes to the target under its own condition, except for the
  // exit check of the GC step, and so does a near jump to the stub at the end. Every other instruction
  // branches or falls through as before.
  lemma PatchedFlow(ins: seq<Ins>, j: nat, c: Patch, k: nat)
    requires ValidTrace(ins) && Reachable(c) && |Flatten(ins)| == c.len && k < |ins|
    requires FirstStore(ins, j, c) && Recognised(ins, j, c)
    ensures |Flatten(PatchTail(ins, c))| == c.len
    ensures var (s, at) := (Flatten(ins), Starts(ins, 0));
      var (was, now) := (FlowAt(s, at[k]), FlowAt(Flatten(PatchAll(PatchTail(ins, c), 0, Search, c)), at[k]));
      now == if k == |ins| - 1 && c.len > 5 && was == Goto(c.stub - c.base) && At(s, at[k]) == 0xe9 then
               Goto(c.target - c.base)
             else if j < k && was.Branch? && was.target == c.stub - c.base && At(s, at[k]) == 0x0f
               && at[k] + 6 < c.len && !GcCheck(s, at, j, k, c) then
               Branch(was.cc, c.target - c.base)
             else was
  {
    hide Flatten, Starts, PatchAll, PatchTail, FlowAt, HasAt, Recognised, FirstStore, GcCheck, GcExit;
    var s, at := Flatten(ins), Starts(ins, 0);
    ExitPatchBehindStore(ins, j, c, k);
    ExitPatchBoundaries(ins, c);
    var out := PatchAll(PatchTail(ins, c), 0, Search, c);
    InsAt(ins, k);
    InsAt(out, k);
    FlowExact(s, at[k], ins[k]);
    FlowExact(Flatten(out), at[k], out[k]);
    GcCheckIs(ins, j, k, c);
    FirstByteIs(s, at[k], ins[k]);
    hide Bytes;
  }

  lemma FirstByteIs(s: seq<byte>, p: nat, i: Ins)
    requires ValidIns(i) && HasAt(s, p, Bytes(i))
    ensures i.Jmp? ==> At(s, p) == 0xe9 && |Bytes(i)| == 5
    ensures i.Jcc? ==> At(s, p) == 0x0f
    ensures i.JmpShort? ==> At(s, p) != 0xe9
    ensures i.JccShort? ==> At(s, p) != 0x0f
  {
    if i.Jmp? || i.Jcc? || i.JmpShort? || i.JccShort? { assert s[p] == Bytes(i)[0]; }
    hide LE32;
  }

  // -- The other forms by the opcode map -----------------------------------------------------

  // The vmstate store is c7 /0 id of a doubleword relative to r14.
  lemma StoreDecodes(s: seq<byte>, p: nat, ofs: i32, imm: seq<byte>)
    requires |imm| == 4 && HasAt(s, p, Bytes(VmStateStore(ofs, imm)))
    ensures var d := Decode(s, p);
      && d.prefix == 0 && d.opmap == One && d.opcode == 0xc7 && !d.w && d.reg == 0
      && d.rm == Mem(Mrm(14, RID_NONE, 0, ofs)) && HasAt(s, p + d.len, imm)
  {
    hide Encode, Decode, KnownOp;
    var i := VmStateStore(ofs, imm);
    HasParts(s, p, Encode(i.xo, i.rr, i.rm), imm);
    EncodeRoundTrip(s, p, i.xo, i.rr, i.rm);
  }

  // A 16-bit compare with a signed byte is 66 83 /7 ib, whatever the register.
  lemma Cmp16Decodes(s: seq<byte>, p: nat, rr: RegArg, r: Reg, b: byte)
    requires r < RID_MAX && HasAt(s, p, Bytes(Cmp16(rr, r, b)))
    ensures var d := Decode(s, p);
      && d.prefix == 0x66 && d.opmap == One && d.opcode == 0x83 && d.reg == rr.id % 16 && d.rm == Direct(r % 16)
      && At(s, p + d.len) == b
  {
    assert KnownOp(XO_66(0x83));
    hide RexByte, NeedsRex, RmBytes, Decode, HasAt, KnownOp;
    var e := Encode(XO_66(0x83), rr, Direct(r));
    assert Bytes(Cmp16(rr, r, b)) == e + [b];
    HasParts(s, p, e, [b]);
    EncodeRoundTrip(s, p, XO_66(0x83), rr, Direct(r));
    FirstByte(s, p + |e|, b, []) by { assert [b] + [] == [b]; }
  }

  // bswap is 0f c8+r, with the fourth bit of the register in REX.
  lemma BswapDecodes(s: seq<byte>, p: nat, rr: RegArg, r: Reg)
    requires IsGpr(r) && HasAt(s, p, Bytes(Bswap(rr, r)))
    ensures var rex := if 0x40 <= At(s, p) < 0x50 then At(s, p) else 0;
      var q := if rex != 0 then p + 1 else p;
      At(s, q) == 0x0f && 0xc8 <= At(s, q + 1) < 0xd0 && At(s, q + 1) - 0xc8 + 8 * (rex % 2) == r
  {
    hide RexByte, NeedsRex;
    RexRange(rr, r, 0);
    RexFields(rr, r, 0);
    var e := Bytes(Bswap(rr, r));
    assert s[p] == e[0] && s[p + 1] == e[1] && (|e| > 2 ==> s[p + 2] == e[2]);
    RegFields(r);
  }

  // roundsd is 66 0f 3a 0b /r ib with REX behind the 66.
  lemma RoundsdDecodes(s: seq<byte>, p: nat, rr: RegArg, rm: Rm, b: byte)
    requires ValidRm(rm) && HasAt(s, p, Bytes(Roundsd(rr, rm, b)))
    ensures var rex := if 0x40 <= At(s, p + 1) < 0x50 then At(s, p + 1) else 0;
      var q := if rex != 0 then p + 2 else p + 1;
      var (reg, operand, n) := DecodeRm(s, q + 3, rex / 4 % 2, rex / 2 % 2, rex % 2);
      && At(s, p) == 0x66 && At(s, q) == 0x0f && At(s, q + 1) == 0x3a && At(s, q + 2) == 0x0b
      && reg == rr.id % 16 && operand == (if rm.Direct? then Direct(rm.r % 16) else rm) && At(s, q + 3 + n) == b
  {
    hide RmBytes, DecodeRm, RoundsdOp;
    var (rb, rx) := match rm case Direct(r) => (r, 0) case Mem(m) => (BaseField(m), IdxField(m));
    var op := RoundsdOp(rr, rb, rx);
    HasParts(s, p, op + RmBytes(rr.id, rm), [b]);
    HasParts(s, p, op, RmBytes(rr.id, rm));
    RoundsdOpAt(s, p, rr, rb, rx);
    RmRoundTrip(s, p + |op|, rr.id, rm);
    FirstByte(s, p + |op + RmBytes(rr.id, rm)|, b, []) by { assert [b] + [] == [b]; }
  }

  lemma RoundsdOpAt(s: seq<byte>, p: nat, rr: RegArg, rb: Reg, rx: Reg)
    requires HasAt(s, p, RoundsdOp(rr, rb, rx))
    ensures var rex := if 0x40 <= At(s, p + 1) < 0x50 then At(s, p + 1) else 0;
      var q := if rex != 0 then p + 2 else p + 1;
      && At(s, p) == 0x66 && At(s, q) == 0x0f && At(s, q + 1) == 0x3a && At(s, q + 2) == 0x0b
      && q + 3 == p + |RoundsdOp(rr, rb, rx)|
      && rex / 4 % 2 == Bit3(rr.id) && rex / 2 % 2 == Bit3(rx) && rex % 2 == Bit3(rb)
  {
    hide RexByte, NeedsRex, Bit3;
    RexRange(rr, rb, rx);
    RexFields(rr, rb, rx);
    var op := RoundsdOp(rr, rb, rx);
    assert s[p] == op[0] && s[p + 1] == op[1] && s[p + 2] == op[2] && s[p + 3] == op[3];
    if |op| > 4 { assert s[p + 4] == op[4]; }
  }

  // The test in front of a conditional jump is 84 /r or 85 /r of a register operand.
  lemma TestLenExact(s: seq<byte>, p: nat)
    ensures var d := Decode(s, p);
      X86DropTest.TestLen(s, p) ==
        if d.prefix == 0 && d.opmap == One && d.opcode in {0x84, 0x85} && d.rm.Direct? && p + d.len <= |s|
        then d.len else 0
  {
    hide Int32At, Int8At, DecodeSib, DecodeDisp, BankOf;
  }

  // The jump behind it is recognised in both of its forms.
  lemma JccAtExact(s: seq<byte>, p: nat)
    ensures X86DropTest.JccAt(s, p) == if FlowAt(s, p).Branch? then Some(FlowAt(s, p).cc) else None
  {
    hide Int32At, Int8At;
  }
}
