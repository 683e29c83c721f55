// Patching the exit branches of an ARM64 trace (lj_asm_patchexit), with the exit stubs behind it.
module A64Patch {
  import opened ModArith
  import opened Words

  // Code is a sequence of 32-bit words; addresses are word indices.
  const A64I_NOP: u32 := 0xd503_201f
  const A64I_B: u32 := 0x1400_0000
  const ARM64_NOPATCH_GC_CHECK: u32 := 0xaa1f_03ff

  // The four kinds of branches that can exit a trace.
  datatype Branch = NotBranch | Bcc | B | Cb | Tb

  function BranchOf(w: u32): Branch {
    if w / 0x100_0000 == 0x54 then Bcc
    else if w / 0x400_0000 == 0x05 then B
    else if w / 0x200_0000 % 64 == 0x1a then Cb
    else if w / 0x200_0000 % 64 == 0x1b then Tb
    else NotBranch
  }

  // Number of values of the offset field, and the weight of its lowest bit.
  function Range(b: Branch): nat {
    match b
    case B => 0x400_0000
    case Tb => 0x4000
    case _ => 0x8_0000
  }

  function Lsb(b: Branch): nat { if b == B then 1 else 32 }

  function Field(w: u32, b: Branch): (f: nat)
    ensures f < Range(b)
  {
    w / Lsb(b) % Range(b)
  }

  predicate InRange(b: Branch, delta: int) { 0 <= 2 * delta + Range(b) < 2 * Range(b) }

  // Architectural meaning: where a branch at p goes.
  function TargetOf(w: u32, p: int): int
    requires BranchOf(w) != NotBranch
  {
    var b := BranchOf(w);
    var f := Field(w, b);
    if 2 * f < Range(b) then p + f else p + f - Range(b)
  }

  // Replace the offset field and keep all other bits.
  function Retarget(w: u32, delta: int): (r: u32)
    requires BranchOf(w) != NotBranch
  {
    var b := BranchOf(w);
    RetargetBound(w, b, delta);
    w + (delta % Range(b) - Field(w, b)) * Lsb(b)
  }

  lemma RetargetBound(w: u32, b: Branch, delta: int)
    requires b != NotBranch
    ensures 0 <= w + (delta % Range(b) - Field(w, b)) * Lsb(b) < 0x1_0000_0000
  {
    SplitWord(w, Lsb(b), Range(b));
  }

  // A word is its high part, the field and its low part.
  lemma SplitWord(w: u32, lsb: nat, range: nat)
    requires (lsb == 1 && range == 0x400_0000) || (lsb == 32 && range in {0x4000, 0x8_0000})
    ensures w == w / lsb / range * (lsb * range) + w / lsb % range * lsb + w % lsb
    ensures w / lsb / range * (lsb * range) + lsb * range <= 0x1_0000_0000
  {
  }

  // All bits outside the offset field: the opcode, condition, register and bit number.
  function Rest(w: u32, b: Branch): (nat, nat) { (w / Lsb(b) / Range(b), w % Lsb(b)) }

  lemma Rebuild(hi: nat, f: nat, lo: nat, lsb: nat, range: nat)
    requires (lsb == 1 && range == 0x400_0000) || (lsb == 32 && range in {0x4000, 0x8_0000})
    requires f < range && lo < lsb
    ensures var w := hi * (lsb * range) + f * lsb + lo;
      w / lsb / range == hi && w / lsb % range == f && w % lsb == lo
  {
    var w := hi * (lsb * range) + f * lsb + lo;
    if lsb == 1 {} else if range == 0x4000 {} else {}
    assert w / lsb == hi * range + f;
  }

  lemma RetargetFields(w: u32, b: Branch, delta: int)
    requires BranchOf(w) == b != NotBranch
    ensures Field(Retarget(w, delta), b) == delta % Range(b) && Rest(Retarget(w, delta), b) == Rest(w, b)
  {
    var lsb, range := Lsb(b), Range(b);
    SplitWord(w, lsb, range);
    var (hi, lo) := Rest(w, b);
    Rebuild(hi, delta % range, lo, lsb, range);
    hide BranchOf;
    var f := delta % range;
    if b == B {} else if b == Tb {} else {}
    assert Retarget(w, delta) == hi * (lsb * range) + f * lsb + lo;
  }

  // The branch kind only depends on the bits that are kept.
  lemma KindFromRest(w: u32, v: u32, b: Branch)
    requires BranchOf(w) == b != NotBranch && Rest(v, b) == Rest(w, b)
    ensures BranchOf(v) == b
  {
    if b == B {
      UnconditionalTop(w, v);
    } else {
      HighBits(w);
      HighBits(v);
      SameTop(w, v);
    }
    hide BranchOf;
  }

  lemma UnconditionalTop(w: u32, v: u32)
    requires BranchOf(w) == B && v / 0x400_0000 == w / 0x400_0000
    ensures BranchOf(v) == B
  {
    assert v / 0x100_0000 < 0x18;
  }

  lemma SameTop(w: u32, v: u32)
    requires w / 0x100_0000 == v / 0x100_0000
    ensures BranchOf(w) == BranchOf(v)
  {
    assert w / 0x200_0000 == w / 0x100_0000 / 2 && v / 0x200_0000 == v / 0x100_0000 / 2;
    assert w / 0x400_0000 == w / 0x100_0000 / 4 && v / 0x400_0000 == v / 0x100_0000 / 4;
  }

  lemma HighBits(w: u32)
    ensures w / 0x100_0000 == w / 32 / 0x8_0000 == w / 32 / 0x4000 / 32
  {
  }

  // A retargeted branch is the same kind of branch and goes where it should.
  lemma RetargetMeaning(w: u32, p: int, target: int)
    requires BranchOf(w) != NotBranch && InRange(BranchOf(w), target - p)
    ensures var v := Retarget(w, target - p);
      BranchOf(v) == BranchOf(w) && Rest(v, BranchOf(w)) == Rest(w, BranchOf(w)) && TargetOf(v, p) == target
  {
    hide BranchOf, Retarget, Rest, Field;
    var b, v := BranchOf(w), Retarget(w, target - p);
    RetargetFields(w, b, target - p);
    KindFromRest(w, v, b);
    var d := target - p;
    assert d % Range(b) == if d >= 0 then d else d + Range(b);
  }

  // -- The patcher ---------------------------------------------------------------

  // The field test of the patcher: offsets are compared modulo the size of the field.
  predicate Matches(w: u32, d: int) {
    BranchOf(w) != NotBranch && Field(w, BranchOf(w)) == d % Range(BranchOf(w))
  }

  // A GC check exit, marked by the word in front of it.
  predicate Marked(w: u32, prev: u32) { BranchOf(w) == Cb && prev == ARM64_NOPATCH_GC_CHECK }

  // The patched word at p.
  function PatchWord(w: u32, prev: u32, p: int, px: int, target: int): u32 {
    if Matches(w, px - p) && !Marked(w, prev) && (BranchOf(w) == B || InRange(BranchOf(w), target - p))
    then Retarget(w, target - p) else w
  }

  // Unconditional branches must reach the target, from the trace and from the stub.
  predicate Reachable(start: int, px: int, target: int) {
    InRange(B, target - start) && InRange(B, target - px)
  }

  ghost predicate NoMarked(old_: seq<u32>, start: nat, end: nat, px: int) {
    end <= |old_| && forall p :: 0 < start <= p < end && Matches(old_[p], px - p) ==> !Marked(old_[p], old_[p - 1])
  }

  // The marker is no branch, so patching the word in front of p cannot change the test.
  lemma MarkerStable(prev: u32, prev2: u32, p: int, px: int, target: int)
    ensures PatchWord(prev, prev2, p, px, target) == ARM64_NOPATCH_GC_CHECK <==> prev == ARM64_NOPATCH_GC_CHECK
  {
    if PatchWord(prev, prev2, p, px, target) != prev {
      hide Retarget, Rest;
      RetargetFields(prev, BranchOf(prev), target - p);
      KindFromRest(prev, Retarget(prev, target - p), BranchOf(prev));
    }
  }

  // The trace is mem[start..end); a word in front of it exists. The stub at px lies behind it.
  method LjAsmPatchExit(mem: array<u32>, start: nat, end: nat, px: nat, target: int)
    requires 0 < start <= end <= px < mem.Length && Reachable(start, px, target)
    modifies mem
    ensures forall p :: start <= p < end ==>
      mem[p] == PatchWord(old(mem[p]), old(mem[p - 1]), p, px, target)
    ensures mem[px] ==
      if NoMarked(old(mem[..]), start, end, px) then A64I_B + (target - px) % 0x400_0000 else old(mem[px])
    ensures forall p :: 0 <= p < mem.Length && !(start <= p < end) && p != px ==> mem[p] == old(mem[p])
    ensures PatchedFrom(old(mem[..]), mem[..], start, end, px, target)
  {
    hide PatchWord, Matches, Marked, Retarget, InRange, BranchOf;
    ghost var was := mem[..];
    var patchlong := true;
    for p := start to end
      invariant forall q :: start <= q < p ==> mem[q] == PatchWord(was[q], was[q - 1], q, px, target)
      invariant forall q :: 0 <= q < mem.Length && !(start <= q < p) ==> mem[q] == was[q]
      invariant patchlong <==> forall q :: start <= q < p && Matches(was[q], px - q) ==> !Marked(was[q], was[q - 1])
    {
      if p > start { MarkerStable(was[p - 1], was[p - 2], p - 1, px, target); }
      MarkedByMarker(mem[p], mem[p - 1], was[p - 1]);
      PatchStep(mem[p], was[p - 1], p, px, target);
      if Matches(mem[p], px - p) {
        if Marked(mem[p], mem[p - 1]) {
          patchlong := false;
        } else if BranchOf(mem[p]) == B || InRange(BranchOf(mem[p]), target - p) {
          mem[p] := Retarget(mem[p], target - p);
        }
      }
    }
    if patchlong { mem[px] := A64I_B + (target - px) % 0x400_0000; }
  }

  lemma MarkedByMarker(w: u32, a: u32, b: u32)
    requires a == ARM64_NOPATCH_GC_CHECK <==> b == ARM64_NOPATCH_GC_CHECK
    ensures Marked(w, a) == Marked(w, b)
  {
  }

  lemma PatchStep(w: u32, prev: u32, p: int, px: int, target: int)
    ensures Matches(w, px - p) ==> BranchOf(w) != NotBranch
    ensures !Matches(w, px - p) || Marked(w, prev) ==> PatchWord(w, prev, p, px, target) == w
    ensures Matches(w, px - p) && !Marked(w, prev) ==>
      PatchWord(w, prev, p, px, target)
        == if BranchOf(w) == B || InRange(BranchOf(w), target - p) then Retarget(w, target - p) else w
  {
  }

  // -- What patching achieves ----------------------------------------------------

  // The field test compares targets modulo the range of the field.
  lemma MatchExact(w: u32, p: int, px: int)
    requires BranchOf(w) != NotBranch
    ensures Matches(w, px - p) <==> (TargetOf(w, p) - px) % Range(BranchOf(w)) == 0
  {
    hide BranchOf, Field;
    var b := BranchOf(w);
    var r, d, f := Range(b), px - p, Field(w, b);
    var t := TargetOf(w, p) - px;
    SameResidue(f, d, r);
    if t != f - d {
      assert t == f - d + (-1) * r;
      AddMultiple(f - d, -1, r);
    }
  }

  lemma SameResidue(f: nat, d: int, r: nat)
    requires f < r
    ensures f == d % r <==> (f - d) % r == 0
  {
    if f == d % r {
      assert f - d == (-(d / r)) * r + 0;
      ModUnique(f - d, r, -(d / r), 0);
    }
    if (f - d) % r == 0 {
      var k := (f - d) / r;
      assert d == (-k) * r + f;
      ModUnique(d, r, -k, f);
    }
  }

  lemma MatchIsTarget(w: u32, p: int, px: int)
    requires BranchOf(w) != NotBranch && InRange(BranchOf(w), px - p)
    ensures Matches(w, px - p) <==> TargetOf(w, p) == px
  {
    hide BranchOf, Field;
    var b := BranchOf(w);
    var d := px - p;
    assert d % Range(b) == if d >= 0 then d else d + Range(b);
  }

  // With the stub less than 2^14 words ahead a branch passes the test if it goes to the stub, or if it is
  // a tbz or tbnz to the word 2^14 in front of the stub, which is outside a code area of 2^14 words.
  predicate Taken(w: u32, p: int, px: int) {
    var b := BranchOf(w);
    b != NotBranch && (TargetOf(w, p) == px || (b == Tb && TargetOf(w, p) == px - 0x4000))
  }

  lemma MatchInArea(w: u32, p: int, px: int)
    requires 0 <= px - p < 0x4000
    ensures Matches(w, px - p) <==> Taken(w, p, px)
  {
    hide BranchOf, Field;
    var b := BranchOf(w);
    if b == Tb { assert (px - p) % 0x4000 == px - p; } else if b != NotBranch { MatchIsTarget(w, p, px); }
  }

  // In half of that distance only branches to the stub are taken for one.
  lemma TakenNear(w: u32, p: int, px: int)
    requires 0 <= px - p < 0x2000
    ensures Taken(w, p, px) <==> BranchOf(w) != NotBranch && TargetOf(w, p) == px
  {
    if BranchOf(w) != NotBranch { TargetNear(w, p); }
    hide BranchOf, TargetOf;
  }

  // Some branch of a kind.
  function Sample(b: Branch): (w: u32)
    requires b != NotBranch
    ensures BranchOf(w) == b
  {
    match b case Bcc => 0x5400_0000 case B => 0x1400_0000 case Cb => 0x3400_0000 case Tb => 0x3600_0000
  }

  // For a kind of branch the test means "branches to the stub" if and only if the stub is in its range:
  // a distance of 2^13 words for tbz/tbnz, of 2^18 for the other conditional branches and of 2^25 for b.
  lemma MatchRightExact(b: Branch, p: int, px: int)
    requires b != NotBranch
    ensures (forall w: u32 :: BranchOf(w) == b ==> (Matches(w, px - p) <==> TargetOf(w, p) == px))
       <==> InRange(b, px - p)
  {
    hide BranchOf, Retarget, Field, Rest;
    if InRange(b, px - p) {
      forall w: u32 | BranchOf(w) == b ensures Matches(w, px - p) <==> TargetOf(w, p) == px { MatchIsTarget(w, p, px); }
    } else {
      var w := Retarget(Sample(b), px - p);
      RetargetFields(Sample(b), b, px - p);
      KindFromRest(Sample(b), w, b);
      TargetNear(w, p);
    }
  }

  lemma TargetNear(w: u32, p: int)
    requires BranchOf(w) != NotBranch
    ensures InRange(BranchOf(w), TargetOf(w, p) - p)
  {
    hide BranchOf, Field;
  }

  // With the stub 2^14 words behind it, a tbz to the word at index 5 passes for a branch to the stub.
  lemma MatchTooFar()
    ensures var w: u32 := 0x3600_00a0; BranchOf(w) == Tb && Matches(w, 0x4005 - 0) && TargetOf(w, 0) == 5
  {
  }

  // Address reached from p by following at most n branches inside mem.
  function Follow(mem: seq<u32>, p: int, n: nat): int
    decreases n
  {
    if n == 0 || !(0 <= p < |mem|) || BranchOf(mem[p]) == NotBranch then p
    else Follow(mem, TargetOf(mem[p], p), n - 1)
  }

  ghost predicate PatchedFrom(was: seq<u32>, now: seq<u32>, start: nat, end: nat, px: nat, target: int) {
    && |was| == |now| && 0 < start <= end <= px < |was| && Reachable(start, px, target)
    && (forall p :: start <= p < end ==> now[p] == PatchWord(was[p], was[p - 1], p, px, target))
    && now[px] == (if NoMarked(was, start, end, px) then A64I_B + (target - px) % 0x400_0000 else was[px])
  }

  // For a trace and stubs shorter than 2^14 words: a branch that is taken for one to the stub and is not
  // a GC check goes to the target if its range allows it, and every other word is unchanged.
  lemma PatchedWord(was: seq<u32>, now: seq<u32>, start: nat, end: nat, px: nat, target: int, p: nat)
    requires PatchedFrom(was, now, start, end, px, target) && px - start < 0x4000 && start <= p < end
    ensures
      if Taken(was[p], p, px) && !Marked(was[p], was[p - 1]) && InRange(BranchOf(was[p]), target - p) then
        && BranchOf(now[p]) == BranchOf(was[p]) && Rest(now[p], BranchOf(now[p])) == Rest(was[p], BranchOf(was[p]))
        && TargetOf(now[p], p) == target
      else now[p] == was[p]
  {
    hide Retarget, Rest, BranchOf, TargetOf, Field, Taken;
    assert now[p] == PatchWord(was[p], was[p - 1], p, px, target);
    MatchInArea(was[p], p, px);
    if BranchOf(was[p]) != NotBranch {
      if InRange(BranchOf(was[p]), target - p) { RetargetMeaning(was[p], p, target); }
    }
  }

  // If no branch to the stub is marked, all of them reach the target in at most two hops.
  lemma AllExitsReachTarget(was: seq<u32>, now: seq<u32>, start: nat, end: nat, px: nat, target: int, p: nat)
    requires PatchedFrom(was, now, start, end, px, target) && px - start < 0x4000 && start <= p < end
    requires NoMarked(was, start, end, px)
    requires BranchOf(was[p]) != NotBranch && TargetOf(was[p], p) == px
    ensures Follow(now, p, 1) == target || Follow(now, p, 2) == target
  {
    hide Retarget, Rest, Field;
    PatchedWord(was, now, start, end, px, target, p);
    MatchInArea(was[p], p, px);
    StubBranch(px, target);
    assert now[px] == A64I_B + (target - px) % 0x400_0000;
    hide BranchOf, TargetOf;
    assert Follow(now, px, 1) == Follow(now, target, 0) == target;
    assert Follow(now, p, 1) == Follow(now, TargetOf(now[p], p), 0);
  }

  lemma StubBranch(px: int, target: int)
    requires InRange(B, target - px)
    ensures var w := A64I_B + (target - px) % 0x400_0000;
      BranchOf(w) == B && TargetOf(w, px) == target
  {
    var d := target - px;
    assert d % 0x400_0000 == if d >= 0 then d else d + 0x400_0000;
  }

  // -- Finding the stub ------------------------------------------------------------

  // Skip the NOPs behind the trace; the stubs follow three words of common code.
  method ExitStubTraceAddr(mem: array<u32>, end: nat, exitno: nat) returns (px: nat)
    requires exists j :: end <= j < mem.Length && mem[j] != A64I_NOP
    ensures var p := px - 3 - exitno;
      end <= p < mem.Length && mem[p] != 0xd503_201f && forall k :: end <= k < p ==> mem[k] == 0xd503_201f
  {
    var p := end;
    while mem[p] == A64I_NOP
      invariant end <= p < mem.Length && forall k :: end <= k < p ==> mem[k] == A64I_NOP
      invariant exists j :: p <= j < mem.Length && mem[j] != A64I_NOP
      decreases mem.Length - p
    {
      p := p + 1;
    }
    px := p + 3 + exitno;
  }
}
