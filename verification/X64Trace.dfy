// Whole instructions as they appear in a trace, and the walk over a trace by instruction length.
module X64Trace {
  import opened Words
  import opened X64Ops
  import opened X64Emit
  import opened X64Decode
  import opened X64InsLen

  datatype Ins =
    | Op(xo: X86Op, rr: RegArg, rm: Rm, imm: seq<byte>)
    | Cmp16(rr: RegArg, r: Reg, i: byte)  // XI_O16 in front of XO_ARITHi8
    | Roundsd(rr: RegArg, rm: Rm, i: byte)
    | Bswap(rr: RegArg, r: Reg)
    | MovRi(r: Reg, v: i32)
    | MovRi64(r: Reg, lo: i32, hi: i32)
    | MovRib(i: byte)  // number of FPRs of a vararg call
    | X87(b0: byte, b1: byte)
    | Nop
    | Jcc(cc: nat, rel: i32)
    | JccShort(cc: nat, rel8: byte)
    | Jmp(rel: i32)
    | JmpShort(rel8: byte)
    | Call(rel: i32)

  predicate ValidIns(i: Ins) {
    match i
    case Op(xo, rr, rm, imm) => KnownOp(xo) && ValidRm(rm) && |imm| == ImmLen(xo, rr.id)
    case Cmp16(rr, r, _) => r < RID_MAX
    case Roundsd(rr, rm, _) => ValidRm(rm)
    case Bswap(rr, r) => IsGpr(r)
    case MovRi(r, _) => IsGpr(r)
    case MovRi64(r, _, _) => IsGpr(r)
    case X87(b0, b1) => b0 in {0xd9, 0xdd} && b1 >= 0xc0
    case Jcc(cc, _) => cc < 16
    case JccShort(cc, _) => cc < 16
    case _ => true
  }

  function RexRB(rb: Reg): seq<byte> { if Bit3(rb) == 1 then [0x41] else [] }

  // REX in front of 0F 3A 0B, behind the mandatory 66.
  function RoundsdOp(rr: RegArg, rb: Reg, rx: Reg): seq<byte> {
    [0x66] + (if NeedsRex(rr, rb, rx) then [RexByte(rr, rb, rx)] else []) + [0x0f, 0x3a, 0x0b]
  }

  function Bytes(i: Ins): (s: seq<byte>)
    requires ValidIns(i)
    ensures |s| > 0
  {
    match i
    case Op(xo, rr, rm, imm) => KnownPrintable(xo); Encode(xo, rr, rm) + imm
    case Cmp16(rr, r, b) => [XI_O16] + Encode(XO_(0x83), rr, Direct(r)) + [b]
    case Roundsd(rr, rm, b) =>
      var (rb, rx) := match rm case Direct(r) => (r, 0) case Mem(m) => (BaseField(m), IdxField(m));
      RoundsdOp(rr, rb, rx) + RmBytes(rr.id, rm) + [b]
    case Bswap(rr, r) => OpBytes(XO_0f(0xc8 + r % 8), rr, r, 0)
    case MovRi(r, v) => RexRB(r) + [XI_MOVri + r % 8] + LE32(v)
    case MovRi64(r, lo, hi) => [0x48 + Bit3(r), XI_MOVri + r % 8] + LE32(lo) + LE32(hi)
    case MovRib(b) => [XI_MOVrib, b]
    case X87(b0, b1) => [b0, b1]
    case Nop => [XI_NOP]
    case Jcc(cc, rel) => [0x0f, XI_JCCn + cc] + LE32(rel)
    case JccShort(cc, b) => [XI_JCCs + cc, b]
    case Jmp(rel) => [XI_JMP] + LE32(rel)
    case JmpShort(b) => [XI_JMPs, b]
    case Call(rel) => [XI_CALL] + LE32(rel)
  }

  lemma RoundsdLen(s: seq<byte>, p: nat, rr: RegArg, rm: Rm, b: byte)
    requires ValidRm(rm) && HasAt(s, p, Bytes(Roundsd(rr, rm, b)))
    ensures InsLen(s, p) == |Bytes(Roundsd(rr, rm, b))|
  {
    hide MrmLen, RmBytes, InsLen, RoundsdOp;
    var (rb, rx) := match rm case Direct(r) => (r, 0) case Mem(m) => (BaseField(m), IdxField(m));
    var op := RoundsdOp(rr, rb, rx);
    HasParts(s, p, op + RmBytes(rr.id, rm), [b]);
    HasParts(s, p, op, RmBytes(rr.id, rm));
    RoundsdPrefix(s, p, rr, rb, rx);
    MrmLenExact(s, p + |op|, rr.id, rm, |op| + 2);
  }

  lemma RoundsdPrefix(s: seq<byte>, p: nat, rr: RegArg, rb: Reg, rx: Reg)
    requires HasAt(s, p, RoundsdOp(rr, rb, rx))
    ensures var n := |RoundsdOp(rr, rb, rx)|; InsLen(s, p) == MrmLen(s, p + n, n + 2)
  {
    hide MrmLen, RexByte, NeedsRex, InsLenFrom;
    RexRange(rr, rb, rx);
    var op := RoundsdOp(rr, rb, rx);
    assert s[p] == op[0] && s[p + 1] == op[1] && s[p + 2] == op[2] && s[p + 3] == op[3];
    PrefixStep(s, p, false, false, 0);
    if NeedsRex(rr, rb, rx) {
      assert s[p + 4] == op[4];
      PrefixStep(s, p + 1, true, false, 1);
      RoundsdOpcode(s, p + 2, s[p + 1] >= 0x48, 2);
    } else {
      RoundsdOpcode(s, p + 1, false, 1);
    }
  }

  lemma RoundsdOpcode(s: seq<byte>, q: nat, rexw: bool, n: int)
    requires At(s, q) == 0x0f && At(s, q + 1) == 0x3a
    ensures InsLenFrom(s, q, false, n, true, rexw) == MrmLen(s, q + 3, n + 5)
  {
  }

  lemma Cmp16Len(s: seq<byte>, p: nat, rr: RegArg, r: Reg, b: byte)
    requires r < RID_MAX && HasAt(s, p, Bytes(Cmp16(rr, r, b)))
    ensures InsLen(s, p) == |Bytes(Cmp16(rr, r, b))|
  {
    hide MrmLen, RmBytes, InsLen, OpBytes, Encode, HasAt;
    var op := OpBytes(XO_(0x83), rr, r, 0);
    HasParts(s, p, [XI_O16] + Encode(XO_(0x83), rr, Direct(r)), [b]);
    FirstByte(s, p, XI_O16, Encode(XO_(0x83), rr, Direct(r)));
    DirectParts(s, p + 1, XO_(0x83), rr, r);
    Cmp16Prefix(s, p, rr, r);
    MrmLenExact(s, p + 1 + |op|, rr.id, Direct(r), |op| + 3);
  }

  lemma DirectParts(s: seq<byte>, p: nat, xo: X86Op, rr: RegArg, r: Reg)
    requires Printable(xo) && r < RID_MAX && HasAt(s, p, Encode(xo, rr, Direct(r)))
    ensures var (op, rm) := (OpBytes(xo, rr, r, 0), RmBytes(rr.id, Direct(r)));
      HasAt(s, p, op) && HasAt(s, p + |op|, rm) && |Encode(xo, rr, Direct(r))| == |op| + |rm|
  {
    HasParts(s, p, OpBytes(xo, rr, r, 0), RmBytes(rr.id, Direct(r)));
    hide OpBytes, RmBytes;
  }

  lemma Cmp16Prefix(s: seq<byte>, p: nat, rr: RegArg, r: Reg)
    requires p < |s| && s[p] == XI_O16 && HasAt(s, p + 1, OpBytes(XO_(0x83), rr, r, 0))
    ensures var n := |OpBytes(XO_(0x83), rr, r, 0)|; InsLen(s, p) == MrmLen(s, p + 1 + n, n + 3)
  {
    hide MrmLen, RexByte, NeedsRex, InsLenFrom;
    RexRange(rr, r, 0);
    var op := OpBytes(XO_(0x83), rr, r, 0);
    assert s[p + 1] == op[0];
    PrefixStep(s, p, false, false, 0);
    if NeedsRex(rr, r, 0) {
      assert s[p + 2] == op[1];
      PrefixStep(s, p + 1, true, false, 1);
      Opcode66(s, p + 2, 0x83, s[p + 1] >= 0x48, 2);
    } else {
      Opcode66(s, p + 1, 0x83, false, 1);
    }
  }

  lemma BswapLen(s: seq<byte>, p: nat, rr: RegArg, r: Reg)
    requires IsGpr(r) && HasAt(s, p, Bytes(Bswap(rr, r)))
    ensures InsLen(s, p) == |Bytes(Bswap(rr, r))|
  {
    hide RexByte, NeedsRex, InsLenFrom;
    RexRange(rr, r, 0);
    var e := Bytes(Bswap(rr, r));
    assert s[p] == e[0] && s[p + 1] == e[1];
    if NeedsRex(rr, r, 0) {
      assert s[p + 2] == e[2];
      PrefixStep(s, p, false, false, 0);
      BswapOpcode(s, p + 1, 0x48 <= s[p] < 0x50, 1);
    } else {
      BswapOpcode(s, p, false, 0);
    }
  }

  lemma BswapOpcode(s: seq<byte>, q: nat, rexw: bool, n: int)
    requires At(s, q) == 0x0f && 0xc8 <= At(s, q + 1) < 0xd0
    ensures InsLenFrom(s, q, false, n, false, rexw) == n + 2
  {
  }

  lemma ShortFormsLen(s: seq<byte>, p: nat, i: Ins)
    requires i.MovRi? || i.MovRi64? || i.MovRib? || i.X87? || i.Nop?
    requires ValidIns(i) && HasAt(s, p, Bytes(i))
    ensures InsLen(s, p) == |Bytes(i)|
  {
    hide MrmLen, LE32;
    var e := Bytes(i);
    assert s[p] == e[0];
    if |e| > 1 { assert s[p + 1] == e[1]; }
    if i.X87? { XregLen(s, p + 1, 2); }
    if 0x40 <= s[p] < 0x50 {
      PrefixStep(s, p, false, false, 0);
      MovRiOpcode(s, p + 1, 0x48 <= s[p], 1);
    }
  }

  lemma MovRiOpcode(s: seq<byte>, q: nat, rexw: bool, n: int)
    requires 0xb8 <= At(s, q) < 0xc0
    ensures InsLenFrom(s, q, false, n, false, rexw) == n + 5 + (if rexw then 4 else 0)
  {
  }

  lemma XregLen(s: seq<byte>, q: nat, n: int)
    requires At(s, q) >= 0xc0
    ensures MrmLen(s, q, n) == n
  {
  }

  lemma JumpsLen(s: seq<byte>, p: nat, i: Ins)
    requires i.Jcc? || i.JccShort? || i.Jmp? || i.JmpShort? || i.Call?
    requires ValidIns(i) && HasAt(s, p, Bytes(i))
    ensures InsLen(s, p) == |Bytes(i)|
  {
    hide MrmLen, LE32;
    var e := Bytes(i);
    assert s[p] == e[0] && s[p + 1] == e[1];
    if i.Jcc? { assert InsLen(s, p) == InsLenFrom(s, p + 1, true, 0, false, false); }
  }

  // The decoder agrees with the printer on every instruction of a trace, whatever follows.
  lemma InsLenExact(s: seq<byte>, p: nat, i: Ins)
    requires ValidIns(i) && HasAt(s, p, Bytes(i))
    ensures InsLen(s, p) == |Bytes(i)|
  {
    match i
    case Op(xo, rr, rm, imm) =>
      KnownPrintable(xo);
      HasParts(s, p, Encode(xo, rr, rm), imm);
      EncodedLen(s, p, xo, rr, rm);
    case Cmp16(rr, r, b) => Cmp16Len(s, p, rr, r, b);
    case Roundsd(rr, rm, b) => RoundsdLen(s, p, rr, rm, b);
    case Bswap(rr, r) => BswapLen(s, p, rr, r);
    case MovRi(_, _) => ShortFormsLen(s, p, i);
    case MovRi64(_, _, _) => ShortFormsLen(s, p, i);
    case MovRib(_) => ShortFormsLen(s, p, i);
    case X87(_, _) => ShortFormsLen(s, p, i);
    case Nop => ShortFormsLen(s, p, i);
    case _ => JumpsLen(s, p, i);
  }

  ghost predicate ValidTrace(ins: seq<Ins>) { forall k :: 0 <= k < |ins| ==> ValidIns(ins[k]) }

  // The machine code of a trace.
  function Flatten(ins: seq<Ins>): seq<byte>
    requires ValidTrace(ins)
  {
    if ins == [] then [] else Bytes(ins[0]) + Flatten(ins[1..])
  }

  // Offsets at which the instructions of a trace start, the first one being p.
  function Starts(ins: seq<Ins>, p: nat): (r: seq<nat>)
    requires ValidTrace(ins)
    ensures |r| == |ins|
  {
    if ins == [] then [] else [p] + Starts(ins[1..], p + |Bytes(ins[0])|)
  }

  // Offsets visited by stepping over the code with the length decoder.
  function Walk(s: seq<byte>, p: nat): seq<nat>
    decreases if p < |s| then |s| - p else 0
  {
    if p >= |s| then [] else if InsLen(s, p) <= 0 then [p] else [p] + Walk(s, p + InsLen(s, p))
  }

  lemma FlattenAppend(a: seq<Ins>, b: seq<Ins>)
    requires ValidTrace(a) && ValidTrace(b)
    ensures Flatten(a + b) == Flatten(a) + Flatten(b)
  {
    hide Bytes;
    if a == [] {
      assert a + b == b;
    } else {
      assert (a + b)[1..] == a[1..] + b;
      FlattenAppend(a[1..], b);
    }
  }

  lemma FlattenSnoc(a: seq<Ins>, i: Ins)
    requires ValidTrace(a) && ValidIns(i)
    ensures Flatten(a + [i]) == Flatten(a) + Bytes(i)
  {
    FlattenAppend(a, [i]);
    assert Flatten([i]) == Bytes(i) + Flatten([]);
  }

  lemma HeadAt(pre: seq<byte>, ins: seq<Ins>)
    requires ValidTrace(ins) && ins != []
    ensures HasAt(pre + Flatten(ins), |pre|, Bytes(ins[0]))
  {
  }

  lemma WalkStep(s: seq<byte>, p: nat, n: nat)
    requires p < |s| && n > 0 && InsLen(s, p) == n
    ensures Walk(s, p) == [p] + Walk(s, p + n)
  {
    hide InsLen;
  }

  lemma {:induction false} WalkFrom(s: seq<byte>, p: nat, ins: seq<Ins>)
    requires ValidTrace(ins) && p <= |s| && s[p..] == Flatten(ins)
    ensures Walk(s, p) == Starts(ins, p)
    decreases |ins|
  {
    hide Bytes, InsLen, HasAt;
    if ins != [] {
      var b := Bytes(ins[0]);
      assert s[p..] == b + Flatten(ins[1..]);
      assert s == s[..p] + Flatten(ins);
      HeadAt(s[..p], ins);
      InsLenExact(s, p, ins[0]);
      assert s[p + |b|..] == s[p..][|b|..];
      WalkFrom(s, p + |b|, ins[1..]);
      WalkStep(s, p, |b|);
    }
  }

  // Walking any concatenation of emitted instructions visits exactly the instruction boundaries.
  lemma WalkExact(pre: seq<byte>, ins: seq<Ins>)
    requires ValidTrace(ins)
    ensures Walk(pre + Flatten(ins), |pre|) == Starts(ins, |pre|)
  {
    hide Walk, Starts, Flatten;
    var s := pre + Flatten(ins);
    assert s[|pre|..] == Flatten(ins);
    WalkFrom(s, |pre|, ins);
  }
}
