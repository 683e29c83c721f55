// ARM64 branches with an immediate offset, decoded from the fields of the Arm ARM (section C4.1), and
// what exit patching does to them.
module A64Branch {
  import opened Words
  import opened A64Patch

  // The fields of each encoding together are all 32 bits of the word. Offsets count words.
  datatype Insn =
    | BCond(o0: nat, cond: nat, offset: int)                           // 01010100 imm19 o0 cond
    | BImm(offset: int)                                                // 000101 imm26
    | CbzCbnz(sf: nat, op: nat, rt: nat, offset: int)                  // sf 011010 op imm19 Rt
    | TbzTbnz(b5: nat, op: nat, b40: nat, rt: nat, offset: int)        // b5 011011 op b40 imm14 Rt
    | OtherInsn

  function SignExtend(x: nat, half: nat): int { if x < half then x else x - 2 * half }

  function DecodeInsn(w: u32): Insn {
    var top := w / 0x100_0000;
    if top == 0x54 then BCond(w / 16 % 2, w % 16, SignExtend(w / 32 % 0x8_0000, 0x4_0000))
    else if top in {0x14, 0x15, 0x16, 0x17} then BImm(SignExtend(w % 0x400_0000, 0x200_0000))
    else if top in {0x34, 0x35, 0xb4, 0xb5} then
      CbzCbnz(w / 0x8000_0000, w / 0x100_0000 % 2, w % 32, SignExtend(w / 32 % 0x8_0000, 0x4_0000))
    else if top in {0x36, 0x37, 0xb6, 0xb7} then
      TbzTbnz(w / 0x8000_0000, w / 0x100_0000 % 2, w / 0x8_0000 % 32, w % 32, SignExtend(w / 32 % 0x4000, 0x2000))
    else OtherInsn
  }

  // The kinds of the patcher are those of the decoder, by the top byte of the word.
  lemma KindIs(w: u32)
    ensures (BranchOf(w) == Bcc <==> w / 0x100_0000 == 0x54)
    ensures (BranchOf(w) == B <==> w / 0x100_0000 in {0x14, 0x15, 0x16, 0x17})
    ensures (BranchOf(w) == Cb <==> w / 0x100_0000 in {0x34, 0x35, 0xb4, 0xb5})
    ensures (BranchOf(w) == Tb <==> w / 0x100_0000 in {0x36, 0x37, 0xb6, 0xb7})
  {
    TopByte(w, w / 0x100_0000);
  }

  lemma TopByte(w: u32, top: nat)
    requires top == w / 0x100_0000
    ensures w / 0x400_0000 == top / 4 && w / 0x200_0000 == top / 2 && top < 256
  {
  }

  lemma TargetIs(w: u32, p: int)
    requires BranchOf(w) != NotBranch
    ensures !DecodeInsn(w).OtherInsn? && TargetOf(w, p) == p + DecodeInsn(w).offset
  {
    KindIs(w);
    hide BranchOf;
  }

  // Words of one kind that agree outside the offset field decode to the same fields.
  lemma SameFields(w: u32, v: u32, p: int)
    requires BranchOf(w) == BranchOf(v) != NotBranch && Rest(v, BranchOf(w)) == Rest(w, BranchOf(w))
    ensures !DecodeInsn(w).OtherInsn? && DecodeInsn(v) == DecodeInsn(w).(offset := TargetOf(v, p) - p)
  {
    KindIs(w);
    KindIs(v);
    TargetIs(v, p);
    if BranchOf(w) != B { SameRest(w, v, BranchOf(w) == Tb); }
    hide BranchOf, TargetOf, Field;
  }

  lemma SameRest(w: u32, v: u32, short: bool)
    requires w % 32 == v % 32
    requires if short then w / 32 / 0x4000 == v / 32 / 0x4000 else w / 32 / 0x8_0000 == v / 32 / 0x8_0000
    ensures w / 0x100_0000 == v / 0x100_0000 && w / 0x8000_0000 == v / 0x8000_0000
    ensures w / 16 % 2 == v / 16 % 2 && w % 16 == v % 16
    ensures short ==> w / 0x8_0000 % 32 == v / 0x8_0000 % 32
  {
    RestDigits(w);
    RestDigits(v);
  }

  lemma RestDigits(w: u32)
    ensures w / 32 / 0x4000 == w / 0x8_0000 && w / 32 / 0x8_0000 == w / 0x100_0000 == w / 0x8_0000 / 32
    ensures w / 0x8000_0000 == w / 0x100_0000 / 128 && w / 16 % 2 == w % 32 / 16 && w % 16 == w % 32 % 16
  {
    LowDigits(w / 32, w % 32);
    HighDigits(w);
  }

  lemma LowDigits(h: nat, l: nat)
    requires l < 32
    ensures var w := 32 * h + l; w / 16 % 2 == l / 16 && w % 16 == l % 16
  {
    var w := 32 * h + l;
    assert w / 16 == 2 * h + l / 16;
  }

  lemma HighDigits(w: u32)
    ensures w / 32 / 0x4000 == w / 0x8_0000 && w / 32 / 0x8_0000 == w / 0x100_0000 == w / 0x8_0000 / 32
    ensures w / 0x8000_0000 == w / 0x100_0000 / 128
  {
  }

  // Whether an instruction at p can be given an offset d.
  predicate Encodable(i: Insn, d: int)
    requires !i.OtherInsn?
  {
    match i
    case BCond(_, _, _) => -0x4_0000 <= d < 0x4_0000
    case BImm(_) => -0x200_0000 <= d < 0x200_0000
    case CbzCbnz(_, _, _, _) => -0x4_0000 <= d < 0x4_0000
    case TbzTbnz(_, _, _, _, _) => -0x2000 <= d < 0x2000
  }

  // The number of values of the offset.
  function Offsets(i: Insn): nat
    requires !i.OtherInsn?
  {
    match i
    case BImm(_) => 0x400_0000
    case TbzTbnz(_, _, _, _, _) => 0x4000
    case _ => 0x8_0000
  }

  // The instruction at p goes to the stub at px, or to an address that has the same offset field.
  predicate Passes(i: Insn, p: int, px: int) { !i.OtherInsn? && (p + i.offset - px) % Offsets(i) == 0 }

  lemma PassesIs(w: u32, p: int, px: int)
    ensures Matches(w, px - p) <==> Passes(DecodeInsn(w), p, px)
  {
    KindIs(w);
    if BranchOf(w) != NotBranch {
      TargetIs(w, p);
      MatchExact(w, p, px);
    }
    hide BranchOf, TargetOf, Field;
  }

  // With the stub less than 2^14 words ahead, the other address can only be that of a tbz or tbnz, 2^14
  // words in front of the stub.
  lemma PassesInArea(w: u32, p: int, px: int)
    requires 0 <= px - p < 0x4000
    ensures var i := DecodeInsn(w);
      Passes(i, p, px) <==> !i.OtherInsn? && (p + i.offset == px || (i.TbzTbnz? && p + i.offset == px - 0x4000))
  {
    PassesIs(w, p, px);
    MatchInArea(w, p, px);
    KindIs(w);
    if BranchOf(w) != NotBranch { TargetIs(w, p); }
    hide BranchOf, TargetOf, Matches, Passes;
  }

  // Every instruction of the trace after patching: an exit that is no cbz or cbnz behind the marker gets
  // the offset to the target, if it can have it, and keeps all other fields; nothing else changes.
  lemma PatchedInsn(was: seq<u32>, now: seq<u32>, start: nat, end: nat, px: nat, target: int, p: nat)
    requires PatchedFrom(was, now, start, end, px, target) && start <= p < end
    ensures var i := DecodeInsn(was[p]);
      if Passes(i, p, px) && !(i.CbzCbnz? && was[p - 1] == 0xaa1f_03ff) && Encodable(i, target - p)
      then DecodeInsn(now[p]) == i.(offset := target - p)
      else now[p] == was[p]
  {
    hide Rest, TargetOf, NoMarked, Retarget, BranchOf, Matches, DecodeInsn;
    var w := was[p];
    assert now[p] == PatchWord(w, was[p - 1], p, px, target);
    KindIs(w);
    KindDecodes(w);
    PassesIs(w, p, px);
    if BranchOf(w) != NotBranch {
      RangeIs(w, target - p);
      if InRange(BranchOf(w), target - p) {
        RetargetMeaning(w, p, target);
        SameFields(w, Retarget(w, target - p), p);
      }
    }
  }

  lemma KindDecodes(w: u32)
    ensures BranchOf(w) == Cb <==> DecodeInsn(w).CbzCbnz?
    ensures BranchOf(w) == B <==> DecodeInsn(w).BImm?
    ensures BranchOf(w) == NotBranch <==> DecodeInsn(w).OtherInsn?
  {
    KindIs(w);
    hide BranchOf;
  }

  lemma RangeIs(w: u32, d: int)
    requires BranchOf(w) != NotBranch
    ensures !DecodeInsn(w).OtherInsn? && (InRange(BranchOf(w), d) <==> Encodable(DecodeInsn(w), d))
  {
    KindIs(w);
    hide BranchOf;
  }

  // Some cbz or cbnz behind the marker exits through the stub: the exit of a GC check.
  ghost predicate HasGcExit(s: seq<u32>, start: nat, end: nat, px: int)
    requires 0 < start <= end <= |s|
  {
    exists p :: start <= p < end && IsGcExit(s, p, px)
  }

  predicate IsGcExit(s: seq<u32>, p: nat, px: int)
    requires 0 < p < |s|
  {
    DecodeInsn(s[p]).CbzCbnz? && Passes(DecodeInsn(s[p]), p, px) && s[p - 1] == 0xaa1f_03ff
  }

  // The stub is kept if there is such an exit, and is a branch to the target otherwise.
  lemma PatchedStub(was: seq<u32>, now: seq<u32>, start: nat, end: nat, px: nat, target: int)
    requires PatchedFrom(was, now, start, end, px, target)
    ensures if HasGcExit(was, start, end, px) then now[px] == was[px] else DecodeInsn(now[px]) == BImm(target - px)
  {
    hide PatchWord, Matches, Marked, DecodeInsn, BranchOf, IsGcExit;
    forall p | start <= p < end
      ensures Matches(was[p], px - p) && Marked(was[p], was[p - 1]) <==> IsGcExit(was, p, px)
    {
      GcExitIs(was, p, px);
    }
    if HasGcExit(was, start, end, px) {
      var p :| start <= p < end && IsGcExit(was, p, px);
      GcExitIs(was, p, px);
    } else {
      assert NoMarked(was, start, end, px);
      StubBranch(px, target);
      TargetIs(now[px], px);
      KindDecodes(now[px]);
    }
  }

  lemma GcExitIs(s: seq<u32>, p: nat, px: nat)
    requires 0 < p < |s|
    ensures Matches(s[p], px - p) && Marked(s[p], s[p - 1]) <==> IsGcExit(s, p, px)
  {
    PassesIs(s[p], p, px);
    KindDecodes(s[p]);
    hide BranchOf, DecodeInsn, Matches, Passes;
  }
}
