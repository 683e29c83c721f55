// The length decoder of the trace patcher against the opcode maps of the Intel SDM (Vol. 2, appendix A) in
// 64-bit mode, for arbitrary code and not only for what the back end emits.
module X64OpMap {
  import opened Words
  import opened X64Decode
  import opened X64InsLen

  // Immediates: bytes, words, z (a word or doubleword, never more), v (up to eight bytes), near branch
  // distances, the two operands of ENTER, absolute addresses, and those of group 3, which only /0 and /1 have.
  datatype Imm = NoImm | Ib | Iw | Iz | Iv | Jz | Iwb | Moffs | Grp3b | Grp3z

  // RegOnly: a ModRM byte that always names two registers.
  datatype Operand = NoModRM | ModRM | RegOnly

  datatype Form = Undefined | Form(rm: Operand, imm: Imm)

  // One-byte opcodes other than prefixes, 0f and VEX.
  function OneByte(b: byte): Form {
    if b < 0x40 then
      match b % 8
      case 4 => Form(NoModRM, Ib)
      case 5 => Form(NoModRM, Iz)
      case 6 => Undefined
      case 7 => Undefined
      case _ => Form(ModRM, NoImm)
    else match b / 16
      case 4 => Undefined
      case 5 => Form(NoModRM, NoImm)
      case 6 => (match b % 16 case 3 => Form(ModRM, NoImm) case 8 => Form(NoModRM, Iz) case 9 => Form(ModRM, Iz)
                 case 10 => Form(NoModRM, Ib) case 11 => Form(ModRM, Ib)
                 case _ => if b >= 0x6c then Form(NoModRM, NoImm) else Undefined)
      case 7 => Form(NoModRM, Ib)
      case 8 => (match b % 16 case 0 => Form(ModRM, Ib) case 1 => Form(ModRM, Iz) case 2 => Undefined
                 case 3 => Form(ModRM, Ib) case _ => Form(ModRM, NoImm))
      case 9 => if b == 0x9a then Undefined else Form(NoModRM, NoImm)
      case 10 => (match b % 16 case 8 => Form(NoModRM, Ib) case 9 => Form(NoModRM, Iz)
                  case _ => Form(NoModRM, if b < 0xa4 then Moffs else NoImm))
      case 11 => Form(NoModRM, if b < 0xb8 then Ib else Iv)
      case 12 => (match b % 16 case 0 => Form(ModRM, Ib) case 1 => Form(ModRM, Ib) case 2 => Form(NoModRM, Iw)
                  case 4 => Undefined case 5 => Undefined case 6 => Form(ModRM, Ib) case 7 => Form(ModRM, Iz)
                  case 8 => Form(NoModRM, Iwb) case 10 => Form(NoModRM, Iw) case 13 => Form(NoModRM, Ib)
                  case 14 => Undefined case _ => Form(NoModRM, NoImm))
      case 13 => (match b % 16 case 4 => Undefined case 5 => Undefined case 6 => Undefined
                  case 7 => Form(NoModRM, NoImm) case _ => Form(ModRM, NoImm))
      case 14 => (match b % 16 case 8 => Form(NoModRM, Jz) case 9 => Form(NoModRM, Jz) case 10 => Undefined
                  case 11 => Form(NoModRM, Ib) case _ => Form(NoModRM, if b < 0xe8 then Ib else NoImm))
      case _ => (match b % 16 case 0 => Undefined case 2 => Undefined case 3 => Undefined
                 case 6 => Form(ModRM, Grp3b) case 7 => Form(ModRM, Grp3z)
                 case 14 => Form(ModRM, NoImm) case 15 => Form(ModRM, NoImm) case _ => Form(NoModRM, NoImm))
  }

  // Opcodes behind 0f; 38 and 3a start maps of their own.
  function TwoByte(b: byte): Form {
    match b / 16
    case 0 => if b < 4 || b == 0x0d then Form(ModRM, NoImm) else if b == 0x0f then Form(ModRM, Ib)
              else if b in {0x05, 0x06, 0x07, 0x08, 0x09, 0x0e} then Form(NoModRM, NoImm) else Undefined
    case 2 => if b < 0x24 then Form(RegOnly, NoImm) else if b < 0x28 then Undefined else Form(ModRM, NoImm)
    case 3 => if b < 0x36 || b == 0x37 then Form(NoModRM, NoImm) else Undefined
    case 5 => Form(if b == 0x50 then RegOnly else ModRM, NoImm)
    case 7 => (match b % 16 case 0 => Form(ModRM, Ib) case 1 => Form(RegOnly, Ib) case 2 => Form(RegOnly, Ib)
               case 3 => Form(RegOnly, Ib) case 7 => Form(NoModRM, NoImm) case _ => Form(ModRM, NoImm))
    case 8 => Form(NoModRM, Jz)
    case 10 => (match b % 8 case 3 => Form(ModRM, NoImm) case 4 => Form(ModRM, Ib) case 5 => Form(ModRM, NoImm)
                case _ => if b >= 0xae then Form(ModRM, NoImm) else if b in {0xa6, 0xa7} then Undefined
                          else Form(NoModRM, NoImm))
    case 11 => Form(ModRM, if b == 0xba then Ib else NoImm)
    case 12 => if b >= 0xc8 then Form(NoModRM, NoImm)
               else Form(ModRM, if b in {0xc2, 0xc4, 0xc5, 0xc6} then Ib else NoImm)
    case 15 => if b == 0xff then Undefined else Form(ModRM, NoImm)
    case _ => Form(ModRM, NoImm)
  }

  // -- The length of an instruction ----------------------------------------------------------

  // Operand and address size overrides, the W bit of REX, and no prefix that VEX forbids.
  datatype Pre = Pre(o16: bool, a32: bool, rexw: bool, vexOk: bool)

  // Legacy prefixes in any order and then REX: what they say, and where the opcode is.
  function Prefixes(s: seq<byte>, p: nat, pre: Pre): (r: (Pre, nat))
    ensures r.1 >= p
    decreases if p < |s| then |s| - p else 0
  {
    if At(s, p) == 0x66 then Prefixes(s, p + 1, pre.(o16 := true, vexOk := false))
    else if At(s, p) == 0x67 then Prefixes(s, p + 1, pre.(a32 := true))
    else if At(s, p) in {0xf0, 0xf2, 0xf3} then Prefixes(s, p + 1, pre.(vexOk := false))
    else if At(s, p) in {0x26, 0x2e, 0x36, 0x3e, 0x64, 0x65} then Prefixes(s, p + 1, pre)
    else if 0x40 <= At(s, p) < 0x50 then (pre.(rexw := At(s, p) >= 0x48, vexOk := false), p + 1)
    else (pre, p)
  }

  // Bytes of ModRM, SIB and displacement, and the reg field.
  function RmLen(s: seq<byte>, q: nat): nat { DecodeRm(s, q, 0, 0, 0).2 }
  function RegField(s: seq<byte>, q: nat): nat { At(s, q) / 8 % 8 }

  // Bytes of the immediate. The W bit takes precedence over an operand size override, and neither changes
  // the size of a branch distance.
  function ImmSize(i: Imm, pre: Pre, reg: nat): nat {
    match i
    case NoImm => 0
    case Ib => 1
    case Iw => 2
    case Iz => if pre.o16 && !pre.rexw then 2 else 4
    case Iv => if pre.rexw then 8 else if pre.o16 then 2 else 4
    case Jz => 4
    case Iwb => 3
    case Moffs => if pre.a32 then 4 else 8
    case Grp3b => if reg < 2 then 1 else 0
    case Grp3z => if reg >= 2 then 0 else if pre.o16 && !pre.rexw then 2 else 4
  }

  // An opcode at q: the rest of the instruction behind it.
  function FormLen(s: seq<byte>, q: nat, f: Form, pre: Pre): Option<nat> {
    if f.Undefined? then None
    else Some(1 + (match f.rm case NoModRM => 0 case ModRM => RmLen(s, q + 1) case RegOnly => 1)
              + ImmSize(f.imm, pre, RegField(s, q + 1)))
  }

  function Add(n: nat, l: Option<nat>): Option<nat> { if l.None? then None else Some(n + l.value) }

  // The instruction whose opcode, 0f or VEX prefix is at q.
  function OpcodeLen(s: seq<byte>, q: nat, pre: Pre): Option<nat> {
    if At(s, q) == 0x0f then
      if At(s, q + 1) == 0x38 then Some(3 + RmLen(s, q + 3))
      else if At(s, q + 1) == 0x3a then Some(3 + RmLen(s, q + 3) + 1)
      else Add(1, FormLen(s, q + 1, TwoByte(At(s, q + 1)), pre))
    else if At(s, q) == 0xc5 then
      if pre.vexOk then Add(2, FormLen(s, q + 2, TwoByte(At(s, q + 2)), pre)) else None
    else if At(s, q) == 0xc4 then
      if !pre.vexOk then None
      else match At(s, q + 1) % 32
        case 1 => Add(3, FormLen(s, q + 3, TwoByte(At(s, q + 3)), pre))
        case 2 => Some(4 + RmLen(s, q + 4))
        case 3 => Some(4 + RmLen(s, q + 4) + 1)
        case _ => None
    else FormLen(s, q, OneByte(At(s, q)), pre)
  }

  // The forms that the decoder gets wrong: a word or doubleword with both overrides, a near branch or a short
  // constant load with an operand size override, an absolute address with an address size override, and
  // the second encoding of TEST in group 3.
  predicate MissedImm(i: Imm, reg: nat, pre: Pre) {
    match i
    case Iz => pre.o16 && pre.rexw
    case Jz => pre.o16
    case Iv => pre.o16 && !pre.rexw
    case Moffs => pre.a32
    case Grp3b => reg == 1
    case Grp3z => reg == 1 || (reg == 0 && pre.o16 && pre.rexw)
    case _ => false
  }

  predicate Missed(s: seq<byte>, q: nat, pre: Pre) {
    if At(s, q) == 0x0f then
      var f := TwoByte(At(s, q + 1));
      f.Form? && MissedImm(f.imm, 0, pre)
    else
      var f := OneByte(At(s, q));
      f.Form? && MissedImm(f.imm, RegField(s, q + 1), pre)
  }

  // -- The tables ----------------------------------------------------------------------------

  // The entries that stand for a form; the two tables count one byte and two bytes of opcode.
  function Entry(f: Form, n: nat): int
    requires f.Form?
  {
    match f.imm
    case Grp3b => 0x63
    case Grp3z => 0x66
    case Iv => 5
    case Iz => if f.rm == NoModRM then 0x45 else 0x86
    case Jz => 0x44 + n
    case _ =>
      (match f.rm case NoModRM => 0x50 case RegOnly => 0x51 case ModRM => 0x91) + n
      + (match f.imm case Ib => 1 case Iw => 2 case Iwb => 3 case Moffs => 8 case _ => 0)
  }

  // The forms of the map with m opcode bytes.
  predicate Proper(f: Form, m: nat) {
    && f.Form? && m in {1, 2} && (f.imm in {Iz, Iv, Grp3b, Grp3z, Moffs} ==> m == 1)
    && (f.imm in {Jz, Iv} ==> f.rm == NoModRM) && (f.imm == Iz ==> f.rm != RegOnly)
    && (f.imm in {Grp3b, Grp3z} ==> f.rm == ModRM)
  }

  lemma OneByteTable(b: byte)
    requires OneByte(b).Form?
    ensures MapOp1(b) == Entry(OneByte(b), 1) && Proper(OneByte(b), 1)
    ensures b !in {0x0f, 0xc4, 0xc5}
  {
    if b < 0x90 { LowTable(b); } else { HighTable(b); }
    hide OneByte, MapOp1, Entry;
  }

  lemma LowTable(b: byte)
    requires b < 0x90 && OneByte(b).Form?
    ensures MapOp1(b) == Entry(OneByte(b), 1) && Proper(OneByte(b), 1) && b != 0x0f
  {
  }

  lemma HighTable(b: byte)
    requires b >= 0x90 && OneByte(b).Form?
    ensures MapOp1(b) == Entry(OneByte(b), 1) && Proper(OneByte(b), 1) && b !in {0xc4, 0xc5}
  {
  }

  lemma TwoByteTable(b: byte)
    requires TwoByte(b).Form?
    ensures MapOp2(b) == Entry(TwoByte(b), 2) && Proper(TwoByte(b), 2)
  {
  }

  // -- The decoder ---------------------------------------------------------------------------

  lemma MrmIs(s: seq<byte>, q: nat)
    ensures forall n: int :: MrmLen(s, q, n) == n - 1 + RmLen(s, q)
  {
    forall n: int ensures MrmLen(s, q, n) == n - 1 + RmLen(s, q) { MrmOne(s, q, n); }
    hide RmLen, MrmLen;
  }

  lemma MrmOne(s: seq<byte>, q: nat, n: int)
    ensures MrmLen(s, q, n) == n - 1 + RmLen(s, q)
  {
    hide Int32At, Int8At;
  }

  // One prefix byte.
  lemma PrefixRead(s: seq<byte>, p: nat, o16: bool, n: int)
    requires var b := At(s, p);
      0x40 <= b < 0x50 || b in {0x26, 0x2e, 0x36, 0x3e, 0x64, 0x65, 0x66, 0x67, 0xf0, 0xf2, 0xf3}
    ensures InsLenFrom(s, p, false, n, o16, false)
         == InsLenFrom(s, p + 1, false, n + 1, o16 || At(s, p) == 0x66, 0x48 <= At(s, p) < 0x50)
  {
    hide MrmLen, MapOp2;
  }

  // From the prefixes to the opcode the decoder counts bytes and remembers 66 and REX.W.
  lemma {:induction false} PrefixesRead(s: seq<byte>, p: nat, pre: Pre, n: int)
    requires !pre.rexw
    ensures var (e, q) := Prefixes(s, p, pre);
      InsLenFrom(s, p, false, n, pre.o16, false) == InsLenFrom(s, q, false, n + q - p, e.o16, e.rexw)
    decreases if p < |s| then |s| - p else 0
  {
    hide InsLenFrom;
    var b := At(s, p);
    if b in {0x66, 0x67, 0xf0, 0xf2, 0xf3, 0x26, 0x2e, 0x36, 0x3e, 0x64, 0x65} {
      PrefixRead(s, p, pre.o16, n);
      var next := if b == 0x66 then pre.(o16 := true, vexOk := false)
                  else if b == 0x67 then pre.(a32 := true)
                  else if b in {0xf0, 0xf2, 0xf3} then pre.(vexOk := false) else pre;
      assert Prefixes(s, p, pre) == Prefixes(s, p + 1, next);
      PrefixesRead(s, p + 1, next, n + 1);
    } else if 0x40 <= b < 0x50 {
      PrefixRead(s, p, pre.o16, n);
    }
  }

  // One round of the decoder for a table entry that stands for the form f; m opcode bytes are counted by
  // the entry, n bytes are in front of them.
  function EntryLen(s: seq<byte>, q: nat, x: int, n: int, o16: bool, rexw: bool): int {
    if x / 16 == 0 then n + x + (if rexw then 4 else 0)
    else if x / 16 == 4 then n - (if o16 then 2 else 0) + x % 16
    else if x / 16 == 5 then n + x % 16
    else if x / 16 == 6 then
      n + RmLen(s, q + 1) - 1
      + (if At(s, q + 1) / 8 % 8 != 0 then 2 else if o16 && x == 0x66 then 4 else x % 16)
    else if x / 16 == 8 then n + RmLen(s, q + 1) - 1 - (if o16 then 2 else 0) + x % 16
    else n + RmLen(s, q + 1) - 1 + x % 16
  }

  lemma EntryRead(s: seq<byte>, q: nat, second: bool, n: int, o16: bool, rexw: bool)
    requires var x := if second then MapOp2(At(s, q)) else MapOp1(At(s, q)); x / 16 in {0, 4, 5, 6, 8, 9}
    ensures var x := if second then MapOp2(At(s, q)) else MapOp1(At(s, q));
      InsLenFrom(s, q, second, n, o16, rexw) == EntryLen(s, q, x, n, o16, rexw)
  {
    hide MapOp1, MapOp2, RmLen, MrmLen;
    MrmIs(s, q + 1);
  }

  // What an entry counts for a form: all of it, but for the forms the decoder gets wrong.
  lemma EntryIs(s: seq<byte>, q: nat, f: Form, pre: Pre, n: int, m: nat)
    requires Proper(f, m)
    ensures var l := FormLen(s, q, f, pre).value;
      EntryLen(s, q, Entry(f, m), n, pre.o16, pre.rexw) == n + m - 1 + l <==> !MissedImm(f.imm, RegField(s, q + 1), pre)
    ensures Entry(f, m) / 16 in {0, 4, 5, 6, 8, 9}
  {
    hide RmLen;
  }

  lemma OneByteRead(s: seq<byte>, q: nat, pre: Pre, n: int)
    requires OneByte(At(s, q)).Form?
    ensures var l := FormLen(s, q, OneByte(At(s, q)), pre);
      InsLenFrom(s, q, false, n, pre.o16, pre.rexw) == n + l.value <==> !Missed(s, q, pre)
  {
    hide MapOp1, MapOp2, OneByte, TwoByte, Entry, EntryLen, FormLen, InsLenFrom, MissedImm, Proper;
    OneByteTable(At(s, q));
    EntryIs(s, q, OneByte(At(s, q)), pre, n, 1);
    EntryRead(s, q, false, n, pre.o16, pre.rexw);
  }

  // Behind 0f, and behind VEX with the 0f map, where no prefix may change the size.
  lemma TwoByteRead(s: seq<byte>, q: nat, pre: Pre, n: int)
    requires TwoByte(At(s, q)).Form?
    ensures var (f, l) := (TwoByte(At(s, q)), FormLen(s, q, TwoByte(At(s, q)), pre));
      l.Some? && (InsLenFrom(s, q, true, n, pre.o16, pre.rexw) == n + 1 + l.value <==> !(f.imm == Jz && pre.o16))
  {
    TwoByteTable(At(s, q));
    assert FormLen(s, q, TwoByte(At(s, q)), pre).Some?;
    hide MapOp1, MapOp2, OneByte, TwoByte, Entry, EntryLen, FormLen, InsLenFrom;
    EntryIs(s, q, TwoByte(At(s, q)), pre, n, 2);
    EntryRead(s, q, true, n, pre.o16, pre.rexw);
  }

  // The escapes: 0f, and the VEX prefixes.
  lemma EscapeRead(s: seq<byte>, q: nat, pre: Pre, n: int)
    requires At(s, q) in {0x0f, 0xc4, 0xc5}
    ensures InsLenFrom(s, q, false, n, pre.o16, pre.rexw) ==
      if At(s, q) == 0x0f then InsLenFrom(s, q + 1, true, n, pre.o16, pre.rexw)
      else if At(s, q) == 0xc5 then InsLenFrom(s, q + 2, true, n + 1, pre.o16, pre.rexw)
      else if At(s, q + 1) % 32 >= 2 then MrmLen(s, q + 4, n + 3 + At(s, q + 1) % 16)
      else InsLenFrom(s, q + 3, true, n + 2, pre.o16, pre.rexw)
  {
    hide MapOp2, MrmLen;
  }

  lemma MapStarts(s: seq<byte>, q: nat, n: int, o16: bool, rexw: bool)
    requires At(s, q) in {0x38, 0x3a}
    ensures InsLenFrom(s, q, true, n, o16, rexw) == MrmLen(s, q + 2, n + if At(s, q) == 0x38 then 4 else 5)
    ensures TwoByte(At(s, q)).Undefined?
  {
    hide MapOp1, MrmLen;
  }

  lemma EscapeCase(s: seq<byte>, q: nat, pre: Pre, n: int)
    requires At(s, q) == 0x0f && OpcodeLen(s, q, pre).Some?
    ensures InsLenFrom(s, q, false, n, pre.o16, pre.rexw) == n + OpcodeLen(s, q, pre).value <==> !Missed(s, q, pre)
  {
    hide MapOp1, MapOp2, OneByte, TwoByte, InsLenFrom, MrmLen, RmLen;
    EscapeRead(s, q, pre, n);
    if At(s, q + 1) in {0x38, 0x3a} {
      MapStarts(s, q + 1, n, pre.o16, pre.rexw);
      MrmIs(s, q + 3);
    } else {
      TwoByteTable(At(s, q + 1));
      TwoByteRead(s, q + 1, pre, n);
    }
  }

  lemma VexCase(s: seq<byte>, q: nat, pre: Pre, n: int)
    requires At(s, q) in {0xc4, 0xc5} && OpcodeLen(s, q, pre).Some? && !pre.o16 && !pre.rexw
    ensures InsLenFrom(s, q, false, n, false, false) == n + OpcodeLen(s, q, pre).value
  {
    hide MapOp1, MapOp2, OneByte, TwoByte, InsLenFrom, MrmLen, RmLen;
    EscapeRead(s, q, pre, n);
    if At(s, q) == 0xc5 {
      TwoByteRead(s, q + 2, pre, n + 1);
    } else if At(s, q + 1) % 32 == 1 {
      TwoByteRead(s, q + 3, pre, n + 2);
    } else {
      MrmIs(s, q + 4);
    }
  }

  lemma OpcodeRead(s: seq<byte>, q: nat, pre: Pre, n: int)
    requires OpcodeLen(s, q, pre).Some? && (pre.vexOk ==> !pre.o16 && !pre.rexw)
    ensures InsLenFrom(s, q, false, n, pre.o16, pre.rexw) == n + OpcodeLen(s, q, pre).value <==> !Missed(s, q, pre)
  {
    hide MapOp1, MapOp2, TwoByte, InsLenFrom, MrmLen, RmLen, MissedImm, ImmSize;
    if At(s, q) == 0x0f {
      EscapeCase(s, q, pre, n);
    } else if At(s, q) in {0xc4, 0xc5} {
      VexCase(s, q, pre, n);
    } else {
      OneByteRead(s, q, pre, n);
    }
  }

  lemma {:induction false} VexPlain(s: seq<byte>, p: nat, pre: Pre)
    requires pre.vexOk ==> !pre.o16 && !pre.rexw
    ensures var e := Prefixes(s, p, pre).0; e.vexOk ==> !e.o16 && !e.rexw
    decreases if p < |s| then |s| - p else 0
  {
    var b := At(s, p);
    if b in {0x66, 0x67, 0xf0, 0xf2, 0xf3, 0x26, 0x2e, 0x36, 0x3e, 0x64, 0x65} {
      VexPlain(s, p + 1, if b == 0x66 then pre.(o16 := true, vexOk := false)
                         else if b == 0x67 then pre.(a32 := true)
                         else if b in {0xf0, 0xf2, 0xf3} then pre.(vexOk := false) else pre);
    }
  }

  // For every instruction of the one-byte, 0f, 0f 38 and 0f 3a maps and their VEX forms, behind any
  // prefixes: the decoder returns its length if and only if it is none of the forms above.
  lemma AnyInsLen(s: seq<byte>, p: nat)
    ensures var (pre, q) := Prefixes(s, p, Pre(false, false, false, true));
      var l := OpcodeLen(s, q, pre);
      l.Some? ==> (InsLen(s, p) == q - p + l.value <==> !Missed(s, q, pre))
  {
    hide OpcodeLen, Missed, InsLenFrom, Prefixes;
    var plain := Pre(false, false, false, true);
    var (pre, q) := Prefixes(s, p, plain);
    VexPlain(s, p, plain);
    PrefixesRead(s, p, plain, 0);
    if OpcodeLen(s, q, pre).Some? { OpcodeRead(s, q, pre, q - p); }
  }
}
