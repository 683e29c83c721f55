// MIPS: exit patching, with spare jump slots for branches that do not reach (lj_asm_patchexit).
module MipsPatch {
  import opened Words
  import opened MipsJumps

  // The marker is no branch and not a NOP.
  const NOPATCH_GC_CHECK: u32 := 0x25

  // li TMP, exitno
  function ExitLoad(exitno: nat): u32
    requires exitno < 0x1_0000
  {
    0x241f_0000 + exitno
  }

  // Conditional branches: BEQ .. BGTZ, BLTZ/BGEZ and BC1F/BC1T.
  predicate IsBranch(w: u32) {
    w / 0x1000_0000 == 1 || (w / 0x400_0000 == 1 && w / 0x2_0000 % 16 == 0) || w / 0x20_0000 == 0x228
  }

  // The word address that a branch at address a goes to, behind its delay slot.
  function Sext16(x: nat): int
    requires x < 0x1_0000
  {
    if x < 0x8000 then x else x - 0x1_0000
  }

  function TargetOf(w: u32, a: int): int { a + 1 + Sext16(w % 0x1_0000) }

  predicate Near(delta: int) { -0x8000 <= delta < 0x8000 }

  // (w & 0xffff0000) | (delta & 0xffff)
  function Retarget(w: u32, delta: int): u32 { w - w % 0x1_0000 + delta % 0x1_0000 }

  // j target: the upper bits of the address stay.
  const REGION: int := 0x400_0000
  function Jump(target: nat): u32 { 0x800_0000 + target % REGION }
  function JumpTarget(w: u32, a: nat): int { (a + 1) / REGION * REGION + w % REGION }
  predicate IsJump(w: u32) { w / REGION == 2 }

  lemma RetargetMeaning(w: u32, a: int, delta: int)
    requires IsBranch(w) && Near(delta)
    ensures var v := Retarget(w, delta);
      IsBranch(v) && TargetOf(v, a) == a + 1 + delta && v / 0x1_0000 == w / 0x1_0000
  {
    var v, h := Retarget(w, delta), w / 0x1_0000;
    assert v == 0x1_0000 * h + delta % 0x1_0000;
    assert v / 0x1_0000 == h && v % 0x1_0000 == delta % 0x1_0000;
    UpperBits(w);
    UpperBits(v);
  }

  // The kind of a branch is in its upper half.
  lemma UpperBits(w: u32)
    ensures var h := w / 0x1_0000;
      w / 0x1000_0000 == h / 0x1000 && w / 0x400_0000 == h / 0x400 && w / 0x2_0000 == h / 2 && w / 0x20_0000 == h / 32
  {
  }

  lemma LoadsAndNops(exitno: nat)
    requires exitno < 0x1_0000
    ensures !IsBranch(ExitLoad(exitno)) && !IsBranch(NOP) && !IsBranch(NOPATCH_GC_CHECK)
    ensures ExitLoad(exitno) != NOP && ExitLoad(exitno) != NOPATCH_GC_CHECK
  {
  }

  lemma JumpLands(target: nat, a: nat)
    requires (a + 1) / REGION == target / REGION
    ensures IsJump(Jump(target)) && JumpTarget(Jump(target), a) == target && Jump(target) != NOP
  {
  }

  // Word addresses: the area is mem, the trace is [start, end), its exit stub is at px behind it.
  datatype Patch = Patch(start: nat, end: nat, px: nat, target: nat, exitno: nat)

  predicate Fits(c: Patch, n: nat) {
    && 0 < c.start < c.end <= c.px && c.end < n - 2 * SPAREJUMP && c.exitno < 0x1_0000
    && c.px - c.start < 0x8000
  }

  // A branch in front of p with the offset field of one to px.
  predicate ToStub(w: u32, p: nat, px: nat) { w % 0x1_0000 == (px - p) % 0x1_0000 && IsBranch(w) }

  // The test of the patcher for the word in front of p, which is an unmarked exit branch.
  predicate Hit(s: seq<u32>, p: nat, c: Patch)
    requires Fits(c, |s|) && c.start < p < c.end
  {
    s[p] == ExitLoad(c.exitno) && ToStub(s[p - 1], p, c.px) && s[p - 2] != NOPATCH_GC_CHECK
  }

  // Where a branch in front of p is sent: to the target, or to a jump slot.
  function Dest(p: nat, c: Patch, n: nat, slot: Option<nat>): Option<nat>
    requires 2 * SPAREJUMP <= n && (slot.Some? ==> slot.value < SPAREJUMP)
  {
    if Near(c.target - p) then Some(c.target)
    else if slot.Some? && Near(SlotPos(n, slot.value) - p) then Some(SlotPos(n, slot.value))
    else None
  }

  predicate Patched(s: seq<u32>, p: nat, c: Patch, slot: Option<nat>)
    requires Fits(c, |s|) && (slot.Some? ==> slot.value < SPAREJUMP)
  {
    c.start < p < c.end && Hit(s, p, c) && Dest(p, c, |s|, slot).Some?
  }

  // The load of the exit number at the very end, without an exit branch: the inverted loop branch.
  predicate TailHit(s: seq<u32>, c: Patch)
    requires Fits(c, |s|)
  {
    c.start < c.end - 1 && s[c.end - 1] == ExitLoad(c.exitno) && !Hit(s, c.end - 1, c)
  }

  // The patched word at q.
  function FinalWord(s: seq<u32>, q: nat, c: Patch, slot: Option<nat>): u32
    requires Fits(c, |s|) && q < |s| && (slot.Some? ==> slot.value < SPAREJUMP)
  {
    if Patched(s, q + 1, c, slot) then Retarget(s[q], Dest(q + 1, c, |s|, slot).value - (q + 1))
    else if Patched(s, q, c, slot) || (TailHit(s, c) && q == c.end - 1) then NOP
    else if TailHit(s, c) && q == c.end then Jump(c.target)
    else s[q]
  }

  // Patching cannot make or remove a match further on.
  lemma HitStable(s: seq<u32>, now: seq<u32>, p: nat, c: Patch, slot: Option<nat>)
    requires Fits(c, |s|) && |now| == |s| && c.start < p < c.end && (slot.Some? ==> slot.value < SPAREJUMP)
    requires now[p] == s[p] && now[p - 1] == (if Patched(s, p - 1, c, slot) then NOP else s[p - 1])
    requires now[p - 2] == (if p - 2 < c.start then s[p - 2] else FinalWord(s, p - 2, c, slot))
    requires c.end - 1 >= p
    ensures Hit(now, p, c) == Hit(s, p, c)
  {
  }

  // A far exit branch needs a slot.
  predicate Far(s: seq<u32>, p: nat, c: Patch)
    requires Fits(c, |s|)
  {
    c.start < p < c.end && Hit(s, p, c) && !Near(c.target - p)
  }

  // The memory after the words in front of p have been handled.
  ghost predicate Progress(s: seq<u32>, now: seq<u32>, p: nat, c: Patch, slot: Option<nat>)
    requires Fits(c, |s|) && (slot.Some? ==> slot.value < SPAREJUMP)
  {
    && |now| == |s| && c.start < p <= c.end
    && (forall q :: c.start <= q < p - 1 ==> now[q] == FinalWord(s, q, c, slot))
    && now[p - 1] == (if Patched(s, p - 1, c, slot) || (p == c.end && TailHit(s, c)) then NOP else s[p - 1])
    && now[p] == (if p == c.end && TailHit(s, c) then Jump(c.target) else s[p])
    && (forall q :: 0 <= q < c.start || p < q < |s| - 2 * SPAREJUMP ==> now[q] == s[q])
  }

  ghost predicate Done(s: seq<u32>, now: seq<u32>, c: Patch, slot: Option<nat>)
    requires Fits(c, |s|) && (slot.Some? ==> slot.value < SPAREJUMP)
  {
    && |now| == |s|
    && (forall q :: c.start <= q <= c.end ==> now[q] == FinalWord(s, q, c, slot))
    && (forall q :: 0 <= q < c.start || c.end < q < |s| - 2 * SPAREJUMP ==> now[q] == s[q])
  }

  // The slots afterwards: one request is made for all far exit branches together.
  predicate SlotsDone(s: seq<u32>, now: seq<u32>, p: nat, c: Patch, issued: seq<u32>, after: seq<u32>)
    requires Fits(c, |s|)
  {
    && Holds(now, after)
    && after == if exists q :: c.start < q < p && Far(s, q, c) then UseSlot(issued, Jump(c.target)).1 else issued
  }

  lemma UseTwice(issued: seq<u32>, t: u32)
    ensures UseSlot(UseSlot(issued, t).1, t) == UseSlot(issued, t) || UseSlot(issued, t).1 == issued + [t]
    ensures UseSlot(UseSlot(issued, t).1, t).1 == UseSlot(issued, t).1
    ensures UseSlot(UseSlot(issued, t).1, t).0 == UseSlot(issued, t).0
  {
  }

  // One iteration: what happens to the word at q when p is handled.
  function StepWord(s: seq<u32>, q: nat, p: nat, c: Patch, slot: Option<nat>): u32
    requires Fits(c, |s|) && q < |s| && c.start < p < c.end && (slot.Some? ==> slot.value < SPAREJUMP)
  {
    if Patched(s, p, c, slot) then
      (if q == p - 1 then Retarget(s[q], Dest(p, c, |s|, slot).value - p) else if q == p then NOP else s[q])
    else if p == c.end - 1 && TailHit(s, c) then
      (if q == p then NOP else if q == c.end then Jump(c.target) else s[q])
    else s[q]
  }

  ghost predicate Stepped(s: seq<u32>, now: seq<u32>, p: nat, c: Patch, slot: Option<nat>)
    requires Fits(c, |s|) && c.start < p < c.end && (slot.Some? ==> slot.value < SPAREJUMP)
  {
    |now| == |s| && forall q :: 0 <= q < |s| - 2 * SPAREJUMP ==> now[q] == StepWord(s, q, p, c, slot)
  }

  // The words below the slots do not matter to them.
  lemma HoldsFrame(s: seq<u32>, t: seq<u32>, issued: seq<u32>)
    requires Holds(s, issued) && |t| == |s| && s[|s| - 2 * SPAREJUMP..] == t[|s| - 2 * SPAREJUMP..]
    ensures Holds(t, issued)
  {
  }

  // The words below the slots are the same.
  ghost predicate SameBelow(s: seq<u32>, t: seq<u32>) {
    |t| == |s| && forall q :: 0 <= q < |s| - 2 * SPAREJUMP ==> t[q] == s[q]
  }

  // The destination of a branch: the target, or a slot if that is near.
  method DestOf(mem: array<u32>, p: nat, c: Patch, ghost issued: seq<u32>)
    returns (dest: Option<nat>, ghost after: seq<u32>)
    requires Fits(c, mem.Length) && p < c.end && Holds(mem[..], issued)
    modifies mem
    ensures var slot := UseSlot(issued, Jump(c.target)).0;
      (slot.Some? ==> slot.value < SPAREJUMP) && dest == Dest(p, c, mem.Length, slot)
    ensures Holds(mem[..], after)
    ensures after == if Near(c.target - p) then issued else UseSlot(issued, Jump(c.target)).1
    ensures SameBelow(old(mem[..]), mem[..])
  {
    if Near(c.target - p) { return Some(c.target), issued; }
    dest := SparejumpUse(mem, Jump(c.target), issued);
    after := UseSlot(issued, Jump(c.target)).1;
    if dest.Some? && !Near(dest.value - p) { dest := None; }
  }

  // One iteration: the words below the slots, and the slots.
  ghost predicate Iterated(s: seq<u32>, now: seq<u32>, p: nat, c: Patch, issued: seq<u32>, after: seq<u32>)
    requires Fits(c, |s|) && c.start < p < c.end
  {
    && SlotBound(issued, c) && Stepped(s, now, p, c, UseSlot(issued, Jump(c.target)).0) && Holds(now, after)
    && after == if Far(s, p, c) then UseSlot(issued, Jump(c.target)).1 else issued
  }

  predicate SlotBound(issued: seq<u32>, c: Patch) {
    var slot := UseSlot(issued, Jump(c.target)).0;
    slot.Some? ==> slot.value < SPAREJUMP
  }

  // Two words below the slots.
  method StoreTwo(mem: array<u32>, q: nat, x: u32, y: u32, ghost issued: seq<u32>)
    requires Holds(mem[..], issued) && q + 1 < mem.Length - 2 * SPAREJUMP
    modifies mem
    ensures mem[..] == Put(old(mem[..]), q, x, y) && Holds(mem[..], issued)
  {
    ghost var s := mem[..];
    hide Holds;
    mem[q], mem[q + 1] := x, y;
    assert mem[..] == Put(s, q, x, y);
    HoldsFrame(s, mem[..], issued);
  }

  function Put(s: seq<u32>, q: nat, x: u32, y: u32): (r: seq<u32>)
    requires q + 1 < |s|
    ensures |r| == |s|
  {
    s[q := x][q + 1 := y]
  }

  // An exit branch that is found: retarget it, if it has a destination.
  method PatchBranch(mem: array<u32>, p: nat, c: Patch, ghost issued: seq<u32>) returns (ghost after: seq<u32>)
    requires Fits(c, mem.Length) && c.start < p < c.end && Holds(mem[..], issued) && Hit(mem[..], p, c)
    modifies mem
    ensures Iterated(old(mem[..]), mem[..], p, c, issued, after)
  {
    assert |issued| <= SPAREJUMP;
    hide Hit, Retarget, Holds, UseSlot, Dest, Near, Jump, Put, SameBelow, Iterated;
    ghost var s := mem[..];
    SlotSmall(issued, Jump(c.target));
    var dest;
    dest, after := DestOf(mem, p, c, issued);
    ghost var t := mem[..];
    if dest.Some? { StoreTwo(mem, p - 1, Retarget(mem[p - 1], dest.value - p), NOP, after); }
    StepBranch(s, t, mem[..], p, c, issued, after, dest);
  }

  method PatchAt(mem: array<u32>, p: nat, c: Patch, ghost issued: seq<u32>) returns (ghost after: seq<u32>)
    requires Fits(c, mem.Length) && c.start < p < c.end && Holds(mem[..], issued)
    modifies mem
    ensures Iterated(old(mem[..]), mem[..], p, c, issued, after)
  {
    assert |issued| <= SPAREJUMP;
    hide ToStub, Holds, UseSlot, Near, Jump, ExitLoad, Stepped, Far, Put, Iterated;
    ghost var s, slot := mem[..], UseSlot(issued, Jump(c.target)).0;
    SlotSmall(issued, Jump(c.target));
    if mem[p] == ExitLoad(c.exitno) {
      if ToStub(mem[p - 1], p, c.px) && mem[p - 2] != NOPATCH_GC_CHECK {
        after := PatchBranch(mem, p, c, issued);
        return;
      } else if p + 1 == c.end {
        StoreTwo(mem, p, NOP, Jump(c.target), issued);
      }
    }
    after := issued;
    StepOther(s, mem[..], p, c, issued, slot);
  }

  // What the iteration has done to the words below the slots, for a branch that is found and otherwise.
  lemma StepBranch(s: seq<u32>, t: seq<u32>, now: seq<u32>, p: nat, c: Patch, issued: seq<u32>, after: seq<u32>,
                   dest: Option<nat>)
    requires Fits(c, |s|) && SameBelow(s, t) && c.start < p < c.end && Hit(s, p, c) && Holds(now, after)
    requires SlotBound(issued, c) && dest == Dest(p, c, |s|, UseSlot(issued, Jump(c.target)).0)
    requires now == if dest.Some? then Put(t, p - 1, Retarget(t[p - 1], dest.value - p), NOP) else t
    requires after == if Near(c.target - p) then issued else UseSlot(issued, Jump(c.target)).1
    ensures Iterated(s, now, p, c, issued, after)
  {
    hide Dest, Hit, Retarget, Jump, UseSlot, Holds, Near, Far, Stepped, SameBelow, Put;
    FarNear(s, p, c);
    StepWords(s, t, now, p, c, UseSlot(issued, Jump(c.target)).0);
  }

  lemma StepWords(s: seq<u32>, t: seq<u32>, now: seq<u32>, p: nat, c: Patch, slot: Option<nat>)
    requires Fits(c, |s|) && SameBelow(s, t) && c.start < p < c.end && (slot.Some? ==> slot.value < SPAREJUMP)
    requires Hit(s, p, c)
    requires var dest := Dest(p, c, |s|, slot);
      now == if dest.Some? then Put(t, p - 1, Retarget(t[p - 1], dest.value - p), NOP) else t
    ensures Stepped(s, now, p, c, slot)
  {
    hide Dest, Hit, Retarget, Jump;
    assert Patched(s, p, c, slot) <==> Dest(p, c, |s|, slot).Some?;
    assert p == c.end - 1 ==> !TailHit(s, c);
    hide Patched, TailHit;
    forall q | 0 <= q < |s| - 2 * SPAREJUMP ensures now[q] == StepWord(s, q, p, c, slot) { assert t[q] == s[q]; }
  }

  lemma StepOther(s: seq<u32>, now: seq<u32>, p: nat, c: Patch, issued: seq<u32>, slot: Option<nat>)
    requires slot == UseSlot(issued, Jump(c.target)).0 && Holds(now, issued)
    requires Fits(c, |s|) && c.start < p < c.end && (slot.Some? ==> slot.value < SPAREJUMP)
    requires !Hit(s, p, c)
    requires now == if s[p] == ExitLoad(c.exitno) && p + 1 == c.end then Put(s, p, NOP, Jump(c.target)) else s
    ensures Iterated(s, now, p, c, issued, issued)
  {
    hide Dest, Retarget, IsBranch, ExitLoad, Jump, UseSlot, Holds;
    FarNear(s, p, c);
  }

  lemma FarNear(s: seq<u32>, p: nat, c: Patch)
    requires Fits(c, |s|) && c.start < p < c.end
    ensures Far(s, p, c) <==> Hit(s, p, c) && !Near(c.target - p)
  {
    hide Hit, Near;
  }

  lemma SlotSmall(issued: seq<u32>, t: u32)
    requires |issued| <= SPAREJUMP
    ensures var slot := UseSlot(issued, t).0; slot.Some? ==> slot.value < SPAREJUMP
  {
  }

  lemma Advance(s: seq<u32>, now: seq<u32>, next: seq<u32>, p: nat, c: Patch, slot: Option<nat>)
    requires Fits(c, |s|) && (slot.Some? ==> slot.value < SPAREJUMP) && p < c.end && Progress(s, now, p, c, slot)
    requires Stepped(now, next, p, c, slot)
    ensures Progress(s, next, p + 1, c, slot) && Far(now, p, c) == Far(s, p, c)
  {
    HitStable(s, now, p, c, slot);
    if Patched(s, p, c, slot) { PatchedApart(s, p, c, slot); }
    hide IsBranch, Retarget, Hit, Dest, Jump, SlotPos, Near;
    assert Patched(now, p, c, slot) == Patched(s, p, c, slot);
    assert p == c.end - 1 ==> TailHit(now, c) == TailHit(s, c);
    assert Patched(s, p, c, slot) && p == c.end - 1 ==> !TailHit(s, c);
    hide Patched, TailHit;
    AdvanceDone(s, now, next, p, c, slot);
  }

  // The words that are finished, and those that are still to come.
  lemma AdvanceDone(s: seq<u32>, now: seq<u32>, next: seq<u32>, p: nat, c: Patch, slot: Option<nat>)
    requires Fits(c, |s|) && (slot.Some? ==> slot.value < SPAREJUMP) && p < c.end && Progress(s, now, p, c, slot)
    requires Stepped(now, next, p, c, slot)
    requires Patched(now, p, c, slot) == Patched(s, p, c, slot)
    requires p == c.end - 1 ==> TailHit(now, c) == TailHit(s, c)
    requires Patched(s, p, c, slot) ==> !Patched(s, p - 1, c, slot) && !Patched(s, p + 1, c, slot)
    requires Patched(s, p, c, slot) && p == c.end - 1 ==> !TailHit(s, c)
    ensures Progress(s, next, p + 1, c, slot)
  {
    hide Patched, TailHit, Retarget, Dest, Jump, SlotPos, Near;
    forall q | c.start <= q < p ensures next[q] == FinalWord(s, q, c, slot) {
      if q == p - 1 { LastWord(s, now, next, p, c, slot); }
    }
  }

  lemma LastWord(s: seq<u32>, now: seq<u32>, next: seq<u32>, p: nat, c: Patch, slot: Option<nat>)
    requires Fits(c, |s|) && (slot.Some? ==> slot.value < SPAREJUMP) && p < c.end && Progress(s, now, p, c, slot)
    requires Stepped(now, next, p, c, slot)
    requires Patched(now, p, c, slot) == Patched(s, p, c, slot)
    requires p == c.end - 1 ==> TailHit(now, c) == TailHit(s, c)
    requires Patched(s, p, c, slot) ==> !Patched(s, p - 1, c, slot) && !Patched(s, p + 1, c, slot)
    requires Patched(s, p, c, slot) && p == c.end - 1 ==> !TailHit(s, c)
    ensures next[p - 1] == FinalWord(s, p - 1, c, slot)
  {
    hide Patched, TailHit, Retarget, Dest, Jump, SlotPos, Near;
    assert next[p - 1] == StepWord(now, p - 1, p, c, slot);
  }

  // A patched load is no branch, so the words of two patches do not overlap.
  lemma PatchedApart(s: seq<u32>, p: nat, c: Patch, slot: Option<nat>)
    requires Fits(c, |s|) && (slot.Some? ==> slot.value < SPAREJUMP) && Patched(s, p, c, slot)
    ensures !Patched(s, p - 1, c, slot) && !Patched(s, p + 1, c, slot)
  {
  }

  lemma Begin(s: seq<u32>, c: Patch, issued: seq<u32>, slot: Option<nat>)
    requires Fits(c, |s|) && (slot.Some? ==> slot.value < SPAREJUMP) && Holds(s, issued)
    ensures Progress(s, s, c.start + 1, c, slot) && SlotsDone(s, s, c.start + 1, c, issued, issued)
  {
  }

  lemma AdvanceSlots(s: seq<u32>, now: seq<u32>, next: seq<u32>, p: nat, c: Patch, issued: seq<u32>,
                     after: seq<u32>, after': seq<u32>)
    requires Fits(c, |s|) && c.start < p < c.end && SlotsDone(s, now, p, c, issued, after) && Holds(next, after')
    requires after' == if Far(s, p, c) then UseSlot(after, Jump(c.target)).1 else after
    ensures SlotsDone(s, next, p + 1, c, issued, after')
  {
    hide Hit, Holds;
    UseTwice(issued, Jump(c.target));
  }

  // The slot that is found does not depend on how many branches have asked for it.
  lemma SameSlot(s: seq<u32>, now: seq<u32>, p: nat, c: Patch, issued: seq<u32>, after: seq<u32>)
    requires Fits(c, |s|) && SlotsDone(s, now, p, c, issued, after)
    ensures UseSlot(after, Jump(c.target)).0 == UseSlot(issued, Jump(c.target)).0
  {
  }

  // The loop invariant.
  ghost predicate InLoop(s: seq<u32>, now: seq<u32>, p: nat, c: Patch, issued: seq<u32>, after: seq<u32>)
    requires Fits(c, |s|)
  {
    && SlotBound(issued, c) && Progress(s, now, p, c, UseSlot(issued, Jump(c.target)).0)
    && SlotsDone(s, now, p, c, issued, after)
  }

  lemma Enter(s: seq<u32>, c: Patch, issued: seq<u32>)
    requires Fits(c, |s|) && Holds(s, issued)
    ensures InLoop(s, s, c.start + 1, c, issued, issued)
  {
    SlotSmall(issued, Jump(c.target));
    Begin(s, c, issued, UseSlot(issued, Jump(c.target)).0);
    hide Hit, Holds, UseSlot, Progress, SlotsDone, Jump;
  }

  lemma Leave(s: seq<u32>, now: seq<u32>, c: Patch, issued: seq<u32>, after: seq<u32>)
    requires Fits(c, |s|) && InLoop(s, now, c.end, c, issued, after)
    ensures SlotBound(issued, c) && Done(s, now, c, UseSlot(issued, Jump(c.target)).0)
    ensures SlotsDone(s, now, c.end, c, issued, after)
  {
    Finish(s, now, c, UseSlot(issued, Jump(c.target)).0);
    hide Hit, Holds, UseSlot, Progress, SlotsDone, Jump;
  }

  lemma Iteration(s: seq<u32>, now: seq<u32>, next: seq<u32>, p: nat, c: Patch, issued: seq<u32>,
                  after: seq<u32>, after': seq<u32>)
    requires Fits(c, |s|) && c.start < p < c.end && |now| == |s|
    requires InLoop(s, now, p, c, issued, after) && Iterated(now, next, p, c, after, after')
    ensures InLoop(s, next, p + 1, c, issued, after')
  {
    hide Hit, Holds, UseSlot, Progress, SlotsDone, Stepped, Far, Jump;
    SameSlot(s, now, p, c, issued, after);
    Advance(s, now, next, p, c, UseSlot(issued, Jump(c.target)).0);
    AdvanceSlots(s, now, next, p, c, issued, after, after');
  }

  lemma Finish(s: seq<u32>, now: seq<u32>, c: Patch, slot: Option<nat>)
    requires Fits(c, |s|) && (slot.Some? ==> slot.value < SPAREJUMP)
    requires c.start + 1 <= c.end && Progress(s, now, c.end, c, slot)
    ensures Done(s, now, c, slot)
  {
  }

  method LjAsmPatchExit(mem: array<u32>, c: Patch, ghost issued: seq<u32>) returns (ghost after: seq<u32>)
    requires Fits(c, mem.Length) && Holds(mem[..], issued)
    modifies mem
    ensures Done(old(mem[..]), mem[..], c, UseSlot(issued, Jump(c.target)).0)
    ensures SlotsDone(old(mem[..]), mem[..], c.end, c, issued, after)
  {
    ghost var was := mem[..];
    Enter(was, c, issued);
    SlotSmall(issued, Jump(c.target));
    hide Hit, Holds, UseSlot, Progress, SlotsDone, InLoop, Iterated, Done, Jump;
    after := issued;
    var p := c.start + 1;
    while p < c.end
      invariant c.start < p <= c.end && mem.Length == |was|
      invariant InLoop(was, mem[..], p, c, issued, after) && Holds(mem[..], after)
    {
      ghost var now, before := mem[..], after;
      after := PatchAt(mem, p, c, before);
      Iteration(was, now, mem[..], p, c, issued, before, after);
      IteratedHolds(now, mem[..], p, c, before, after);
      p := p + 1;
    }
    Leave(was, mem[..], c, issued, after);
  }

  lemma IteratedHolds(s: seq<u32>, now: seq<u32>, p: nat, c: Patch, issued: seq<u32>, after: seq<u32>)
    requires Fits(c, |s|) && c.start < p < c.end && Iterated(s, now, p, c, issued, after)
    ensures Holds(now, after)
  {
    hide Holds;
  }

  // The test finds exactly the branches to the stub.
  lemma HitIsTarget(s: seq<u32>, p: nat, c: Patch)
    requires Fits(c, |s|) && c.start < p < c.end
    ensures Hit(s, p, c) <==> (s[p] == ExitLoad(c.exitno) && IsBranch(s[p - 1])
      && TargetOf(s[p - 1], p - 1) == c.px && s[p - 2] != NOPATCH_GC_CHECK)
  {
  }

  // In memory s, the branch at address a ends up at the target, directly or through a jump slot.
  predicate Reaches(s: seq<u32>, a: nat, target: nat)
    requires a < |s|
  {
    var t := TargetOf(s[a], a);
    t == target || (0 <= t < |s| - 1 && IsJump(s[t]) && JumpTarget(s[t], t) == target && s[t + 1] == NOP)
  }

  // Slots and target are in one region of the J instruction.
  predicate SameRegion(c: Patch, n: nat) {
    2 * SPAREJUMP <= n && (n - 2 * SPAREJUMP) / REGION == c.target / REGION == (n - 1) / REGION
  }

  // A branch that is found goes to its destination, with its condition unchanged and the load removed,
  // or is left alone if it has none.
  lemma HitGoes(s: seq<u32>, now: seq<u32>, c: Patch, slot: Option<nat>, p: nat)
    requires Fits(c, |s|) && (slot.Some? ==> slot.value < SPAREJUMP) && Done(s, now, c, slot)
    requires c.start < p < c.end && Hit(s, p, c)
    ensures IsBranch(now[p - 1]) && now[p - 1] / 0x1_0000 == s[p - 1] / 0x1_0000
    ensures var dest := Dest(p, c, |s|, slot);
      if dest.Some? then TargetOf(now[p - 1], p - 1) == dest.value && now[p] == NOP
      else now[p - 1] == s[p - 1] && now[p] == s[p]
  {
    var dest := Dest(p, c, |s|, slot);
    LoadsAndNops(c.exitno);
    hide IsBranch, Retarget, Jump, TargetOf, SlotPos;
    assert !Patched(s, p + 1, c, slot);
    assert Patched(s, p, c, slot) <==> dest.Some?;
    assert s[p - 1] != ExitLoad(c.exitno) && !Patched(s, p - 1, c, slot);
    if dest.Some? { RetargetMeaning(s[p - 1], p - 1, dest.value - p); }
  }

  // A branch to a slot that holds the jump reaches the target.
  lemma SlotReaches(now: seq<u32>, a: nat, c: Patch, issued: seq<u32>, k: nat)
    requires a < |now| && Holds(now, issued) && SameRegion(c, |now|)
    requires k < |issued| && issued[k] == Jump(c.target) && TargetOf(now[a], a) == SlotPos(|now|, k)
    ensures Reaches(now, a, c.target)
  {
    SlotRegion(c, |now|, k);
    JumpLands(c.target, SlotPos(|now|, k));
    hide Jump, TargetOf, JumpTarget, IsJump;
  }

  // Every branch to the exit stub for this exit number, unless it is marked, either goes to the target
  // in at most two hops, with the load of the exit number removed and its condition unchanged, or is
  // left alone. It is left alone only if it does not reach the target and no slot is left or near.
  lemma ExitsReachTarget(s: seq<u32>, now: seq<u32>, c: Patch, issued: seq<u32>, after: seq<u32>, p: nat)
    requires Fits(c, |s|) && SameRegion(c, |s|) && |issued| <= SPAREJUMP && Distinct(issued)
    requires Done(s, now, c, UseSlot(issued, Jump(c.target)).0) && SlotsDone(s, now, c.end, c, issued, after)
    requires c.start < p < c.end && Hit(s, p, c)
    ensures IsBranch(now[p - 1]) && now[p - 1] / 0x1_0000 == s[p - 1] / 0x1_0000
    ensures var dest := Dest(p, c, |s|, UseSlot(issued, Jump(c.target)).0);
      if dest.Some? then Reaches(now, p - 1, c.target) && now[p] == NOP
      else now[p - 1] == s[p - 1] && now[p] == s[p]
  {
    var t := Jump(c.target);
    var slot := UseSlot(issued, t).0;
    HitGoes(s, now, c, slot, p);
    hide IsBranch, Jump, TargetOf, Hit, Done, SlotPos;
    if Dest(p, c, |s|, slot).Some? && !Near(c.target - p) {
      assert Far(s, p, c);
      SlotReaches(now, p - 1, c, after, slot.value);
    }
  }

  lemma SlotRegion(c: Patch, n: nat, k: nat)
    requires SameRegion(c, n) && k < SPAREJUMP
    ensures (SlotPos(n, k) + 1) / REGION == c.target / REGION
  {
  }
}
