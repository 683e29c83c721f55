// MIPS32 branches, decoded from the opcode fields of the architecture manual (volume II-A), and what exit
// patching finds and does.
module MipsBranch {
  import opened Words
  import opened MipsJumps
  import opened MipsPatch

  // The fields of each encoding together are all 32 bits of the word. Offsets count words.
  datatype Insn =
    | Beq(rs: nat, rt: nat, offset: int) | Bne(rs: nat, rt: nat, offset: int)
    | Blez(rs: nat, rt: nat, offset: int) | Bgtz(rs: nat, rt: nat, offset: int)
    | Bltz(rs: nat, offset: int) | Bgez(rs: nat, offset: int)
    | Bc1(cc: nat, likely: bool, onTrue: bool, offset: int)   // bc1f, bc1t, bc1fl, bc1tl
    | OtherInsn

  function DecodeInsn(w: u32): Insn {
    var op, rs, rt, imm := w / 0x400_0000, w / 0x20_0000 % 32, w / 0x1_0000 % 32, w % 0x1_0000;
    var offset := if imm < 0x8000 then imm else imm - 0x1_0000;
    if op == 4 then Beq(rs, rt, offset)
    else if op == 5 then Bne(rs, rt, offset)
    else if op == 6 then Blez(rs, rt, offset)
    else if op == 7 then Bgtz(rs, rt, offset)
    else if op == 1 && rt == 0 then Bltz(rs, offset)
    else if op == 1 && rt == 1 then Bgez(rs, offset)
    else if op == 17 && rs == 8 then Bc1(rt / 4, rt / 2 % 2 == 1, rt % 2 == 1, offset)
    else OtherInsn
  }

  // The upper half of a branch.
  lemma UpperHalf(w: u32)
    ensures var h := w / 0x1_0000;
      && w / 0x400_0000 == h / 0x400 && w / 0x20_0000 == h / 32 && w / 0x1000_0000 == h / 0x1000
      && w / 0x2_0000 == h / 2 && h < 0x1_0000
  {
  }

  // The test of the patcher finds exactly these branches.
  lemma BranchIs(w: u32)
    ensures IsBranch(w) <==> !DecodeInsn(w).OtherInsn?
  {
    UpperHalf(w);
    HalfIs(w / 0x1_0000);
  }

  lemma HalfIs(h: nat)
    requires h < 0x1_0000
    ensures h / 0x1000 == 1 <==> 4 <= h / 0x400 < 8
    ensures h / 0x400 == 1 ==> (h / 2 % 16 == 0 <==> h % 32 < 2)
    ensures h / 32 == 0x228 <==> h / 0x400 == 17 && h / 32 % 32 == 8
  {
    HalfDigits(h / 32, h % 32);
  }

  lemma HalfDigits(u: nat, l: nat)
    requires u < 0x800 && l < 32
    ensures var h := 32 * u + l;
      h / 0x400 == u / 32 && h / 0x1000 == u / 128 && h / 32 == u && h % 32 == l && h / 2 % 16 == l / 2
  {
    var h := 32 * u + l;
    assert h / 2 == 16 * u + l / 2;
  }

  lemma TargetIs(w: u32, a: int)
    requires IsBranch(w)
    ensures !DecodeInsn(w).OtherInsn? && TargetOf(w, a) == a + 1 + DecodeInsn(w).offset
  {
    BranchIs(w);
    hide IsBranch;
  }

  // Branches with the same upper half differ in the offset alone.
  lemma SameFields(w: u32, v: u32, a: int)
    requires IsBranch(w) && IsBranch(v) && v / 0x1_0000 == w / 0x1_0000
    ensures !DecodeInsn(w).OtherInsn? && DecodeInsn(v) == DecodeInsn(w).(offset := TargetOf(v, a) - a - 1)
  {
    BranchIs(w);
    TargetIs(v, a);
    UpperHalf(w);
    UpperHalf(v);
    hide IsBranch, TargetOf;
  }

  // The exit branch in front of p goes to the stub with the number of the exit loaded in its delay slot
  // (addiu r31, zero, exitno), and is not the marked one of a GC check.
  predicate ExitsAt(s: seq<u32>, p: nat, px: nat, exitno: nat)
    requires 1 < p < |s|
  {
    var i := DecodeInsn(s[p - 1]);
    !i.OtherInsn? && p + i.offset == px && s[p] == 0x241f_0000 + exitno && s[p - 2] != 0x25
  }

  lemma HitIs(s: seq<u32>, p: nat, c: Patch)
    requires Fits(c, |s|) && c.start < p < c.end
    ensures Hit(s, p, c) <==> ExitsAt(s, p, c.px, c.exitno)
  {
    HitIsTarget(s, p, c);
    BranchIs(s[p - 1]);
    if IsBranch(s[p - 1]) { TargetIs(s[p - 1], p - 1); }
    hide IsBranch, TargetOf, DecodeInsn, Hit;
  }

  // A branch in front of p can be given the offset to t.
  predicate Encodable(p: int, t: int) { -0x8000 <= t - p < 0x8000 }

  // The k-th of the four slots from the top of an area of n words.
  function SlotAt(n: int, k: int): int { n - 2 - 2 * k }

  // Where an exit branch is sent: to the target if it is in reach, else to a slot in reach.
  lemma DestIs(p: nat, c: Patch, n: nat, slot: Option<nat>)
    requires 8 <= n && (slot.Some? ==> slot.value < 4)
    ensures Dest(p, c, n, slot).Some? <==> Encodable(p, c.target) || (slot.Some? && Encodable(p, SlotAt(n, slot.value)))
    ensures Dest(p, c, n, slot).Some? ==>
      Dest(p, c, n, slot).value == if Encodable(p, c.target) then c.target else SlotAt(n, slot.value)
  {
  }

  // Every exit branch of the trace after patching keeps its fields and gets the offset to the target or to
  // the slot, and its load becomes a NOP; without either it is left alone.
  lemma PatchedInsn(s: seq<u32>, now: seq<u32>, c: Patch, slot: Option<nat>, p: nat)
    requires Fits(c, |s|) && (slot.Some? ==> slot.value < 4) && Done(s, now, c, slot) && c.start < p < c.end
    requires ExitsAt(s, p, c.px, c.exitno)
    ensures var t := if Encodable(p, c.target) || slot.None? then c.target else SlotAt(|s|, slot.value);
      if Encodable(p, t) then DecodeInsn(now[p - 1]) == DecodeInsn(s[p - 1]).(offset := t - p) && now[p] == 0
      else now[p - 1] == s[p - 1] && now[p] == s[p]
  {
    HitIs(s, p, c);
    HitGoes(s, now, c, slot, p);
    DestIs(p, c, |s|, slot);
    BranchIs(s[p - 1]);
    hide IsBranch, TargetOf, DecodeInsn, Hit, Dest, Done;
    if Dest(p, c, |s|, slot).Some? { SameFields(s[p - 1], now[p - 1], p - 1); }
  }

  // A word of the trace changes only if it belongs to such an exit or to the inverted loop branch.
  lemma OtherWords(s: seq<u32>, now: seq<u32>, c: Patch, slot: Option<nat>, q: nat)
    requires Fits(c, |s|) && (slot.Some? ==> slot.value < 4) && Done(s, now, c, slot) && q < |s| - 8
    requires now[q] != s[q]
    ensures || (c.start <= q < c.end - 1 && ExitsAt(s, q + 1, c.px, c.exitno))
            || (c.start < q < c.end && ExitsAt(s, q, c.px, c.exitno))
            || (c.start < c.end - 1 <= q <= c.end && s[c.end - 1] == 0x241f_0000 + c.exitno
                && now[c.end - 1] == 0 && now[c.end] == 0x800_0000 + c.target % 0x400_0000)
  {
    if c.start < q < c.end { HitIs(s, q, c); }
    if c.start <= q < c.end - 1 { HitIs(s, q + 1, c); }
    hide Hit, IsBranch, ExitsAt, Dest, Retarget;
    assert c.start <= q <= c.end;
    assert now[q] == FinalWord(s, q, c, slot);
  }

  // j: opcode 2, the index of the target in the region of the delay slot.
  lemma JumpIs(w: u32, a: nat)
    ensures IsJump(w) <==> w / 0x400_0000 == 2
    ensures JumpTarget(w, a) == (a + 1) / 0x400_0000 * 0x400_0000 + w % 0x400_0000
  {
  }

  // A slot that is used holds the jump to the target, with a NOP in its delay slot.
  lemma SlotWords(s: seq<u32>, now: seq<u32>, c: Patch, issued: seq<u32>, after: seq<u32>, p: nat)
    requires Fits(c, |s|) && |now| == |s| && |issued| <= 4 && SlotsDone(s, now, c.end, c, issued, after)
    requires c.start < p < c.end && ExitsAt(s, p, c.px, c.exitno) && !Encodable(p, c.target)
    requires UseSlot(issued, Jump(c.target)).0.Some?
    ensures var k := UseSlot(issued, Jump(c.target)).0.value;
      k < 4 && now[SlotAt(|s|, k)] == 0x800_0000 + c.target % 0x400_0000 && now[SlotAt(|s|, k) + 1] == 0
  {
    HitIs(s, p, c);
    UsedSlot(issued, Jump(c.target));
    hide Hit, ExitsAt, Holds, UseSlot, Jump;
    assert Far(s, p, c);
    HeldSlot(now, after, UseSlot(issued, Jump(c.target)).0.value);
    JumpWord(c.target);
  }

  lemma JumpWord(target: nat)
    ensures Jump(target) == 0x800_0000 + target % 0x400_0000
  {
  }

  lemma UsedSlot(issued: seq<u32>, t: u32)
    requires |issued| <= 4 && UseSlot(issued, t).0.Some?
    ensures var (slot, after) := UseSlot(issued, t); slot.value < |after| <= 4 && after[slot.value] == t
  {
  }

  lemma HeldSlot(now: seq<u32>, after: seq<u32>, k: nat)
    requires Holds(now, after) && k < |after|
    ensures 8 <= |now| && now[SlotAt(|now|, k)] == after[k] && now[SlotAt(|now|, k) + 1] == 0
  {
    assert SlotPos(|now|, k) == SlotAt(|now|, k);
  }
}
