// MIPS: the exit stub of a trace, and its exits patched one after the other.
module MipsExits {
  import opened Words
  import opened MipsJumps
  import opened MipsPatch

  // The first word behind the trace that is not a NOP is taken for the exit stub.
  ghost predicate IsStub(s: seq<u32>, end: nat, px: nat) {
    end <= px < |s| && s[px] != NOP && forall k :: end <= k < px ==> s[k] == NOP
  }

  method ExitStubTraceAddr(mem: array<u32>, end: nat) returns (px: nat)
    requires exists j :: end <= j < mem.Length && mem[j] != NOP
    ensures IsStub(mem[..], end, px)
  {
    px := end;
    while mem[px] == NOP
      invariant end <= px < mem.Length && forall k :: end <= k < px ==> mem[k] == NOP
      invariant exists j :: px <= j < mem.Length && mem[j] != NOP
      decreases mem.Length - px
    {
      px := px + 1;
    }
  }

  // -- The inverted loop branch ------------------------------------------------------------

  // What is executed from a on if no conditional branch is taken: the words up to the delay slot of
  // the first jump, and where that jump goes.
  function FallThrough(s: seq<u32>, a: nat): (seq<u32>, int)
    requires a < |s|
    decreases |s| - a
  {
    if a + 1 == |s| then ([s[a]], a + 1)
    else if IsJump(s[a]) then ([s[a + 1]], JumpTarget(s[a], a))
    else
      var (words, to) := FallThrough(s, a + 1);
      ([s[a]] + words, to)
  }

  // Once the exit of the inverted loop branch is patched, execution that leaves the loop runs through
  // a NOP instead of the load of the exit number and the first word of the stub to the target, if that
  // is in the same region; the loop branch is as before.
  lemma TailReachesTarget(s: seq<u32>, now: seq<u32>, c: Patch, slot: Option<nat>)
    requires Fits(c, |s|) && (slot.Some? ==> slot.value < SPAREJUMP) && Done(s, now, c, slot)
    requires TailHit(s, c) && IsStub(s, c.end, c.px) && c.px == c.end + 1 < |s| - 2 * SPAREJUMP
    ensures FallThrough(now, c.end - 1) == ([NOP, s[c.px]], c.target) <==> (c.end + 1) / REGION == c.target / REGION
    ensures FallThrough(s, c.end - 1).0[0] == ExitLoad(c.exitno)
    ensures IsBranch(s[c.end - 2]) ==> now[c.end - 2] == s[c.end - 2]
  {
    hide Hit, IsBranch, Retarget, Jump;
    TailWords(s, now, c, slot);
    LoadNoJump(c.exitno);
    EndFalls(now, c, s[c.px]);
  }

  lemma EndFalls(s: seq<u32>, c: Patch, first: u32)
    requires 1 <= c.end && c.end + 1 < |s|
    requires s[c.end - 1] == NOP && s[c.end] == Jump(c.target) && s[c.end + 1] == first
    ensures FallThrough(s, c.end - 1) == ([NOP, first], c.target) <==> (c.end + 1) / REGION == c.target / REGION
  {
    JumpExact(c.target, c.end);
    hide Jump;
    assert FallThrough(s, c.end) == ([first], JumpTarget(s[c.end], c.end));
    assert [NOP] + [first] == [NOP, first];
  }

  lemma LoadNoJump(exitno: nat)
    requires exitno < 0x1_0000
    ensures !IsJump(ExitLoad(exitno)) && !IsJump(NOP)
  {
  }

  lemma JumpExact(target: nat, a: nat)
    ensures IsJump(Jump(target))
    ensures JumpTarget(Jump(target), a) == target <==> (a + 1) / REGION == target / REGION
  {
  }

  lemma TailWords(s: seq<u32>, now: seq<u32>, c: Patch, slot: Option<nat>)
    requires Fits(c, |s|) && (slot.Some? ==> slot.value < SPAREJUMP) && Done(s, now, c, slot) && TailHit(s, c)
    ensures now[c.end - 1] == NOP && now[c.end] == Jump(c.target)
    ensures c.end + 1 < |s| - 2 * SPAREJUMP ==> now[c.end + 1] == s[c.end + 1]
    ensures IsBranch(s[c.end - 2]) ==> now[c.end - 2] == s[c.end - 2]
  {
    LoadsAndNops(c.exitno);
    hide Retarget, IsBranch, Jump;
  }

  // -- Several exits of one trace -------------------------------------------------------------

  datatype State = State(mem: seq<u32>, issued: seq<u32>)

  // The exit c is patched, with the stub where the search finds it.
  ghost predicate Patches(a: State, c: Patch, b: State) {
    && Fits(c, |a.mem|) && |a.issued| <= SPAREJUMP && Holds(a.mem, a.issued) && SameRegion(c, |a.mem|)
    && IsStub(a.mem, c.end, c.px) && c.px < |a.mem| - 2 * SPAREJUMP
    && Done(a.mem, b.mem, c, UseSlot(a.issued, Jump(c.target)).0)
    && SlotsDone(a.mem, b.mem, c.end, c, a.issued, b.issued)
  }

  // Patches of different exits of one trace.
  predicate SameTrace(c: Patch, d: Patch) { c.start == d.start && c.end == d.end && c.exitno != d.exitno }

  ghost predicate Run(st: seq<State>, cs: seq<Patch>) {
    && |st| == |cs| + 1
    && (forall i :: 0 <= i < |cs| ==> Patches(st[i], cs[i], st[i + 1]))
    && forall i, j :: 0 <= i < j < |cs| ==> SameTrace(cs[i], cs[j])
  }

  // The words of an exit are not touched by patching another one.
  lemma KeptWords(a: State, c: Patch, b: State, exitno: nat, p: nat)
    requires Patches(a, c, b) && c.start < p < c.end && exitno < 0x1_0000 && exitno != c.exitno
    requires IsBranch(a.mem[p - 1]) && a.mem[p] in {NOP, ExitLoad(exitno)}
    ensures b.mem[p - 1] == a.mem[p - 1] && b.mem[p] == a.mem[p]
  {
    LoadsAndNops(c.exitno);
    LoadsAndNops(exitno);
    SlotSmall(a.issued, Jump(c.target));
    hide IsBranch, Retarget, Jump, Holds, UseSlot, SlotsDone, IsStub;
  }

  // Neither does patching one exit make or remove a match for another one.
  lemma HitKept(a: State, c: Patch, b: State, d: Patch, p: nat)
    requires Patches(a, c, b) && SameTrace(c, d) && Fits(d, |a.mem|) && c.start < p < c.end
    ensures Hit(b.mem, p, d) == Hit(a.mem, p, d)
  {
    LoadsAndNops(c.exitno);
    LoadsAndNops(d.exitno);
    SlotSmall(a.issued, Jump(c.target));
    FinalKinds(a, c, b, p - 1);
    FinalKinds(a, c, b, p);
    if p - 2 >= c.start { FinalKinds(a, c, b, p - 2); }
    if IsBranch(a.mem[p - 1]) && a.mem[p] == ExitLoad(d.exitno) { KeptWords(a, c, b, d.exitno, p); }
    hide IsBranch, Retarget, Jump, Holds, UseSlot, SlotsDone, IsStub, Done;
  }

  // A word of the trace is unchanged, or a branch that stays one, or a load of this exit number.
  lemma FinalKinds(a: State, c: Patch, b: State, q: nat)
    requires Patches(a, c, b) && c.start <= q < c.end
    ensures b.mem[q] == a.mem[q] || (IsBranch(b.mem[q]) && IsBranch(a.mem[q]))
      || (b.mem[q] == NOP && a.mem[q] == ExitLoad(c.exitno))
  {
    SlotSmall(a.issued, Jump(c.target));
    var slot := UseSlot(a.issued, Jump(c.target)).0;
    hide IsBranch, Retarget, Jump, Holds, UseSlot, SlotsDone, IsStub;
    assert b.mem[q] == FinalWord(a.mem, q, c, slot);
    if Patched(a.mem, q + 1, c, slot) {
      DestNear(q + 1, c, |a.mem|, slot);
      RetargetMeaning(a.mem[q], q, Dest(q + 1, c, |a.mem|, slot).value - (q + 1));
    }
  }

  lemma DestNear(p: nat, c: Patch, n: nat, slot: Option<nat>)
    requires 2 * SPAREJUMP <= n && (slot.Some? ==> slot.value < SPAREJUMP)
    ensures Dest(p, c, n, slot).Some? ==> Near(Dest(p, c, n, slot).value - p)
  {
  }

  // The search finds the same stub afterwards, except behind an inverted loop branch.
  lemma StubKept(a: State, c: Patch, b: State)
    requires Patches(a, c, b)
    ensures IsStub(b.mem, c.end, if TailHit(a.mem, c) then c.end else c.px)
  {
    SlotSmall(a.issued, Jump(c.target));
    JumpExact(c.target, 0);
    hide IsBranch, Retarget, Jump, Holds, UseSlot, SlotsDone, Hit;
    var slot := UseSlot(a.issued, Jump(c.target)).0;
    assert b.mem[c.end] == FinalWord(a.mem, c.end, c, slot);
  }

  // -- Whole runs ----------------------------------------------------------------------------

  lemma {:induction false} LengthRun(st: seq<State>, cs: seq<Patch>, i: nat)
    requires Run(st, cs) && i <= |cs|
    ensures |st[i].mem| == |st[0].mem|
  {
    if i > 0 {
      LengthRun(st, cs, i - 1);
      assert Patches(st[i - 1], cs[i - 1], st[i]);
    }
  }

  // Slots once issued stay.
  lemma {:induction false} IssuedRun(st: seq<State>, cs: seq<Patch>, i: nat, m: nat)
    requires Run(st, cs) && 0 < i <= m <= |cs|
    ensures st[i].issued <= st[m].issued && Holds(st[m].mem, st[m].issued)
    decreases m
  {
    hide Holds;
    assert Patches(st[m - 1], cs[m - 1], st[m]);
    if i < m { IssuedRun(st, cs, i, m - 1); }
  }

  lemma {:induction false} KeptRun(st: seq<State>, cs: seq<Patch>, i: nat, m: nat, exitno: nat, p: nat)
    requires Run(st, cs) && i <= m <= |cs| && exitno < 0x1_0000 && cs != [] && cs[0].start < p < cs[0].end < |st[i].mem|
    requires forall j :: i <= j < m ==> cs[j].exitno != exitno
    requires IsBranch(st[i].mem[p - 1]) && st[i].mem[p] in {NOP, ExitLoad(exitno)}
    ensures |st[m].mem| == |st[i].mem| && st[m].mem[p - 1] == st[i].mem[p - 1] && st[m].mem[p] == st[i].mem[p]
    decreases m
  {
    hide IsBranch, ExitLoad, Patches;
    if i < m {
      KeptRun(st, cs, i, m - 1, exitno, p);
      var a, c, b := st[m - 1], cs[m - 1], st[m];
      assert Patches(a, c, b) && (m > 1 ==> SameTrace(cs[0], c));
      PatchLength(a, c, b);
      KeptWords(a, c, b, exitno, p);
    }
  }

  lemma PatchLength(a: State, c: Patch, b: State)
    requires Patches(a, c, b)
    ensures Fits(c, |a.mem|) && |b.mem| == |a.mem|
  {
  }

  lemma {:induction false} HitRun(st: seq<State>, cs: seq<Patch>, i: nat, d: Patch, p: nat)
    requires Run(st, cs) && i <= |cs| && Fits(d, |st[0].mem|) && d.start < p < d.end
    requires forall j :: 0 <= j < i ==> SameTrace(cs[j], d)
    ensures |st[i].mem| == |st[0].mem| && Hit(st[i].mem, p, d) == Hit(st[0].mem, p, d)
    decreases i
  {
    hide Hit, Patches;
    if i > 0 {
      HitRun(st, cs, i - 1, d, p);
      assert Patches(st[i - 1], cs[i - 1], st[i]);
      PatchLength(st[i - 1], cs[i - 1], st[i]);
      HitKept(st[i - 1], cs[i - 1], st[i], d, p);
    }
  }

  // The exit as it is in the unpatched trace.
  function Original(cs: seq<Patch>, i: nat): Patch
    requires i < |cs|
  {
    cs[i].(px := cs[0].px)
  }

  // One of the exits patched before exit i is that of the inverted loop branch.
  ghost predicate LoopBefore(st: seq<State>, cs: seq<Patch>, i: nat)
    requires Run(st, cs) && i <= |cs|
  {
    exists j :: 0 <= j < i && IsLoopExit(st, cs, j)
  }

  ghost predicate IsLoopExit(st: seq<State>, cs: seq<Patch>, j: nat)
    requires Run(st, cs) && j < |cs|
  {
    OriginalFits(st, cs, j);
    TailHit(st[0].mem, Original(cs, j))
  }

  lemma OriginalFits(st: seq<State>, cs: seq<Patch>, j: nat)
    requires Run(st, cs) && j < |cs|
    ensures Fits(Original(cs, j), |st[0].mem|)
  {
    LengthRun(st, cs, j);
    assert Patches(st[0], cs[0], st[1]) && Patches(st[j], cs[j], st[j + 1]);
    assert j > 0 ==> SameTrace(cs[0], cs[j]);
  }

  lemma {:induction false} TailRun(st: seq<State>, cs: seq<Patch>, i: nat, d: Patch)
    requires Run(st, cs) && i <= |cs| && Fits(d, |st[0].mem|)
    requires forall j :: 0 <= j < i ==> SameTrace(cs[j], d)
    ensures |st[i].mem| == |st[0].mem| && TailHit(st[i].mem, d) == TailHit(st[0].mem, d)
    decreases i
  {
    hide Hit, Patches;
    if i > 0 && d.start < d.end - 1 {
      TailRun(st, cs, i - 1, d);
      assert Patches(st[i - 1], cs[i - 1], st[i]);
      PatchLength(st[i - 1], cs[i - 1], st[i]);
      HitKept(st[i - 1], cs[i - 1], st[i], d, d.end - 1);
      FinalKinds(st[i - 1], cs[i - 1], st[i], d.end - 1);
      LoadsAndNops(d.exitno);
    } else {
      LengthRun(st, cs, i);
    }
  }

  // Where the search ends before exit i is patched.
  lemma {:induction false} StubRun(st: seq<State>, cs: seq<Patch>, i: nat)
    requires Run(st, cs) && i < |cs|
    ensures cs[i].px == if LoopBefore(st, cs, i) then cs[0].end else cs[0].px
    decreases i
  {
    hide Patches, Hit, TailHit;
    if i > 0 {
      StubRun(st, cs, i - 1);
      var a, c, b := st[i - 1], cs[i - 1], st[i];
      assert Patches(a, c, b) && Patches(b, cs[i], st[i + 1]);
      PatchLength(a, c, b);
      assert i > 1 ==> SameTrace(cs[0], c);
      StubKept(a, c, b);
      StubUnique(b, cs[i], st[i + 1], if TailHit(a.mem, c) then c.end else c.px);
      LoopStep(st, cs, i - 1);
      assert SameTrace(c, cs[i]);
    }
  }

  lemma StubUnique(a: State, c: Patch, b: State, px: nat)
    requires Patches(a, c, b) && IsStub(a.mem, c.end, px)
    ensures c.px == px
  {
  }

  lemma LoopStep(st: seq<State>, cs: seq<Patch>, i: nat)
    requires Run(st, cs) && i < |cs| && Fits(cs[i], |st[i].mem|)
    ensures LoopBefore(st, cs, i + 1) <==> LoopBefore(st, cs, i) || IsLoopExit(st, cs, i)
    ensures cs[i].px == cs[0].px ==> (TailHit(st[i].mem, cs[i]) <==> IsLoopExit(st, cs, i))
  {
    OriginalFits(st, cs, i);
    forall j | 0 <= j < i ensures SameTrace(cs[j], Original(cs, i)) {}
    TailRun(st, cs, i, Original(cs, i));
  }

  // Patching exit i when the search has ended at another place leaves the words of its branch alone.
  lemma MissedWords(a: State, c: Patch, b: State, p: nat)
    requires Patches(a, c, b) && c.start < p < c.end && IsBranch(a.mem[p - 1]) && a.mem[p] == ExitLoad(c.exitno)
    requires TargetOf(a.mem[p - 1], p - 1) != c.px && !(p == c.end - 1 && TailHit(a.mem, c))
    ensures b.mem[p - 1] == a.mem[p - 1] && b.mem[p] == a.mem[p]
  {
    HitIsTarget(a.mem, p, c);
    LoadsAndNops(c.exitno);
    SlotSmall(a.issued, Jump(c.target));
    hide IsBranch, Retarget, Jump, Holds, UseSlot, SlotsDone, IsStub, TargetOf;
  }

  // The branch in front of p is as it was.
  predicate Untouched(a: State, b: State, p: nat) {
    0 < p < |a.mem| == |b.mem| && b.mem[p - 1] == a.mem[p - 1] && b.mem[p] == a.mem[p]
  }

  // What patching exit c in state a means for the branch in front of p in state fin.
  predicate Settled(a: State, c: Patch, fin: State, p: nat)
  {
    var (was, now) := (a.mem, fin.mem);
    && 2 * SPAREJUMP <= |was| == |now| && 0 < p < |was| && SlotBound(a, c)
    && var dest := Dest(p, c, |was|, Slot(a, c));
    && IsBranch(now[p - 1]) && now[p - 1] / 0x1_0000 == was[p - 1] / 0x1_0000
    && if dest.Some? then Reaches(now, p - 1, c.target) && now[p] == NOP
       else now[p - 1] == was[p - 1] && now[p] == was[p]
  }

  // Right after the patch the branch goes to its destination; a far one has a slot.
  lemma FoundNow(a: State, c: Patch, b: State, p: nat)
    requires Patches(a, c, b) && c.start < p < c.end && Hit(a.mem, p, c)
    ensures SlotBound(a, c) && |b.mem| == |a.mem|
    ensures IsBranch(b.mem[p - 1]) && b.mem[p - 1] / 0x1_0000 == a.mem[p - 1] / 0x1_0000
    ensures var dest := Dest(p, c, |a.mem|, Slot(a, c));
      if dest.Some? then TargetOf(b.mem[p - 1], p - 1) == dest.value && b.mem[p] == NOP
      else b.mem[p - 1] == a.mem[p - 1] && b.mem[p] == a.mem[p] == ExitLoad(c.exitno)
    ensures Slot(a, c).Some? && !Near(c.target - p) ==>
      Slot(a, c).value < |b.issued| && b.issued[Slot(a, c).value] == Jump(c.target)
  {
    SlotSmall(a.issued, Jump(c.target));
    HitGoes(a.mem, b.mem, c, Slot(a, c), p);
    hide IsBranch, Jump, TargetOf, Done, SlotPos, Holds, IsStub, ExitLoad, Dest;
    if Slot(a, c).Some? && !Near(c.target - p) {
      assert Far(a.mem, p, c);
      SlotUsed(a.issued, Jump(c.target));
    }
  }

  lemma PatchFacts(a: State, c: Patch, b: State)
    requires Patches(a, c, b)
    ensures SameRegion(c, |a.mem|)
  {
  }

  function Slot(a: State, c: Patch): Option<nat> { UseSlot(a.issued, Jump(c.target)).0 }
  predicate SlotBound(a: State, c: Patch) { Slot(a, c).Some? ==> Slot(a, c).value < SPAREJUMP }

  // Patching exit i and the later ones, when the search finds the stub.
  lemma FoundExit(st: seq<State>, cs: seq<Patch>, i: nat, p: nat)
    requires Run(st, cs) && i < |cs| && Fits(cs[i], |st[i].mem|) && cs[i].start < p < cs[i].end
    requires Hit(st[i].mem, p, cs[i])
    ensures Settled(st[i], cs[i], st[|cs|], p)
  {
    hide IsBranch, Jump, TargetOf, Hit, Done, SlotPos, Holds, IsStub, ExitLoad, Near, UseSlot, SlotsDone;
    hide IsJump, JumpTarget;
    var a, c, b, fin := st[i], cs[i], st[i + 1], st[|cs|];
    assert Patches(a, c, b) && (i > 0 ==> SameTrace(cs[0], c));
    FoundNow(a, c, b, p);
    LaterExits(cs, i);
    IssuedRun(st, cs, i + 1, |cs|);
    KeptRun(st, cs, i + 1, |cs|, c.exitno, p);
    PatchFacts(a, c, b);
    hide Run, Patches, Fits, SameRegion;
    if Dest(p, c, |a.mem|, Slot(a, c)).Some? && !Near(c.target - p) {
      SlotReaches(fin.mem, p - 1, c, fin.issued, Slot(a, c).value);
    }
  }

  lemma SlotUsed(issued: seq<u32>, t: u32)
    requires UseSlot(issued, t).0.Some?
    ensures var (slot, after) := UseSlot(issued, t); slot.value < |after| && after[slot.value] == t
  {
  }

  lemma LaterExits(cs: seq<Patch>, i: nat)
    requires i < |cs| && forall j, k :: 0 <= j < k < |cs| ==> SameTrace(cs[j], cs[k])
    ensures forall j :: 0 <= j < |cs| && j != i ==> cs[j].exitno != cs[i].exitno
  {
    forall j | 0 <= j < |cs| && j != i ensures cs[j].exitno != cs[i].exitno {
      assert if j < i then SameTrace(cs[j], cs[i]) else SameTrace(cs[i], cs[j]);
    }
  }

  // The branch in front of p goes to the stub with the number of exit i in the unpatched trace.
  ghost predicate ExitBranch(st: seq<State>, cs: seq<Patch>, i: nat, p: nat)
    requires Run(st, cs) && i < |cs|
  {
    OriginalFits(st, cs, i);
    cs[i].start < p < cs[i].end && Hit(st[0].mem, p, Original(cs, i))
  }

  // Before its own exit is patched the branch is as it was, and still found if the stub is.
  lemma BeforeExit(st: seq<State>, cs: seq<Patch>, i: nat, p: nat)
    requires Run(st, cs) && i < |cs| && ExitBranch(st, cs, i, p)
    ensures Fits(cs[i], |st[i].mem|) && |st[i].mem| == |st[0].mem|
    ensures st[i].mem[p - 1] == st[0].mem[p - 1] && st[i].mem[p] == st[0].mem[p] == ExitLoad(cs[i].exitno)
    ensures IsBranch(st[0].mem[p - 1]) && TargetOf(st[0].mem[p - 1], p - 1) == cs[0].px
    ensures cs[i].px == cs[0].px ==> Hit(st[i].mem, p, cs[i])
  {
    var d := Original(cs, i);
    OriginalFits(st, cs, i);
    HitIsTarget(st[0].mem, p, d);
    assert Patches(st[i], cs[i], st[i + 1]) && (i > 0 ==> SameTrace(cs[0], cs[i]));
    LaterExits(cs, i);
    KeptRun(st, cs, 0, i, cs[i].exitno, p);
    forall j | 0 <= j < i ensures SameTrace(cs[j], d) { assert SameTrace(cs[j], cs[i]); }
    HitRun(st, cs, i, d, p);
  }

  // Patching the exits of a trace in turn: a branch to the stub reaches the target of its own exit at
  // the end, in at most two hops, or is left alone because it had no destination.
  lemma ExitsInTurn(st: seq<State>, cs: seq<Patch>, i: nat, p: nat)
    requires Run(st, cs) && i < |cs| && ExitBranch(st, cs, i, p) && !LoopBefore(st, cs, i)
    ensures Settled(st[i], cs[i], st[|cs|], p) && Untouched(st[0], st[i], p)
  {
    BeforeExit(st, cs, i, p);
    StubRun(st, cs, i);
    FoundExit(st, cs, i, p);
  }

  // Behind the exit of an inverted loop branch the search for the stub ends at the word that has become
  // a jump: no other exit of the trace is patched any more.
  lemma ExitsMissed(st: seq<State>, cs: seq<Patch>, i: nat, p: nat)
    requires Run(st, cs) && i < |cs| && ExitBranch(st, cs, i, p) && LoopBefore(st, cs, i)
    requires cs[0].px != cs[0].end   // a NOP is expected there
    ensures Untouched(st[0], st[|cs|], p)
  {
    BeforeExit(st, cs, i, p);
    StubRun(st, cs, i);
    LastLoad(st, cs, i, p);
    var a, c, b := st[i], cs[i], st[i + 1];
    assert Patches(a, c, b) && SameTrace(cs[0], c);
    hide Patches, IsBranch, ExitLoad, Hit, TailHit, Done, LoopBefore, Fits;
    MissedWords(a, c, b, p);
    PatchLength(a, c, b);
    LaterExits(cs, i);
    KeptRun(st, cs, i + 1, |cs|, c.exitno, p);
  }

  // Only the loop exit has its load at the very end.
  lemma LastLoad(st: seq<State>, cs: seq<Patch>, i: nat, p: nat)
    requires Run(st, cs) && i < |cs| && ExitBranch(st, cs, i, p) && LoopBefore(st, cs, i)
    ensures p != cs[i].end - 1
  {
    var j :| 0 <= j < i && IsLoopExit(st, cs, j);
    assert SameTrace(cs[j], cs[i]);
    OriginalFits(st, cs, i);
    OriginalFits(st, cs, j);
    LoadsDiffer(cs[j].exitno, cs[i].exitno);
    hide Patches, IsBranch, ExitLoad, Done;
  }

  lemma LoadsDiffer(e: nat, f: nat)
    requires e < 0x1_0000 && f < 0x1_0000 && e != f
    ensures ExitLoad(e) != ExitLoad(f)
  {
  }

  // -- The loop exit over a run ----------------------------------------------------------------

  // From the loop branch to the first word of the stub.
  predicate SameEnd(s: seq<u32>, t: seq<u32>, end: nat) {
    && 2 <= end && end + 1 < |s| == |t| && t[end - 1] == s[end - 1] && t[end] == s[end] && t[end + 1] == s[end + 1]
    && (IsBranch(s[end - 2]) ==> t[end - 2] == s[end - 2])
  }

  // Patching another exit leaves the end of the trace alone.
  lemma EndKept(a: State, c: Patch, b: State, exitno: nat)
    requires Patches(a, c, b) && exitno < 0x1_0000 && exitno != c.exitno
    requires c.start < c.end - 1 && c.end + 1 < |a.mem| - 2 * SPAREJUMP
    requires a.mem[c.end - 1] in {NOP, ExitLoad(exitno)}
    ensures SameEnd(a.mem, b.mem, c.end)
  {
    LoadsAndNops(c.exitno);
    LoadsDiffer(exitno, c.exitno);
    SlotSmall(a.issued, Jump(c.target));
    hide IsBranch, ExitLoad, Retarget, Jump, Holds, UseSlot, SlotsDone, IsStub;
  }

  lemma {:induction false} EndRun(st: seq<State>, cs: seq<Patch>, i: nat, m: nat, exitno: nat)
    requires Run(st, cs) && i <= m <= |cs| && exitno < 0x1_0000 && cs != []
    requires cs[0].start < cs[0].end - 1 && cs[0].end + 1 < |st[i].mem| - 2 * SPAREJUMP
    requires forall j :: i <= j < m ==> cs[j].exitno != exitno
    requires st[i].mem[cs[0].end - 1] in {NOP, ExitLoad(exitno)}
    ensures SameEnd(st[i].mem, st[m].mem, cs[0].end)
    decreases m
  {
    hide IsBranch, ExitLoad, Patches;
    if i < m {
      EndRun(st, cs, i, m - 1, exitno);
      var a, c, b := st[m - 1], cs[m - 1], st[m];
      assert Patches(a, c, b) && (m > 1 ==> SameTrace(cs[0], c));
      PatchLength(a, c, b);
      EndKept(a, c, b, exitno);
    }
  }

  // The loop exit too goes to its own target at the end of any run: what is executed behind the loop
  // branch is as right after its own patch.
  lemma LoopExitInTurn(st: seq<State>, cs: seq<Patch>, i: nat)
    requires Run(st, cs) && i < |cs| && IsLoopExit(st, cs, i)
    requires cs[0].px == cs[0].end + 1   // one NOP is expected in front of the stub
    ensures var (was, fin, c) := (st[0].mem, st[|cs|].mem, cs[i]);
      && 2 <= c.end && c.end + 1 < |was| == |fin|
      && (FallThrough(fin, c.end - 1) == ([NOP, was[c.end + 1]], c.target)
          <==> (c.end + 1) / REGION == c.target / REGION)
      && (IsBranch(was[c.end - 2]) ==> fin[c.end - 2] == was[c.end - 2])
  {
    hide IsBranch, ExitLoad, FallThrough, Hit, Patches, Done;
    LoopExitFirst(st, cs, i);
    var a, c, b := st[i], cs[i], st[i + 1];
    LaterExits(cs, i);
    EndRun(st, cs, 0, i, c.exitno);
    LoopExitNow(a, c, b);
    EndRun(st, cs, i + 1, |cs|, c.exitno);
    EndFalls(st[|cs|].mem, c, st[0].mem[c.end + 1]);
  }

  // No other exit has its load at the end, so the stub is still found when the loop exit is patched.
  lemma LoopExitFirst(st: seq<State>, cs: seq<Patch>, i: nat)
    requires Run(st, cs) && i < |cs| && IsLoopExit(st, cs, i)
    ensures Patches(st[i], cs[i], st[i + 1]) && cs[i].start == cs[0].start && cs[i].end == cs[0].end
    ensures cs[i].px == cs[0].px && cs[0].start < cs[0].end - 1 && cs[i].exitno < 0x1_0000
    ensures cs[0].px < |st[0].mem| - 2 * SPAREJUMP && st[0].mem[cs[0].end - 1] == ExitLoad(cs[i].exitno)
    ensures Fits(cs[i], |st[i].mem|) && TailHit(st[i].mem, cs[i])
  {
    hide Hit, ExitLoad, IsBranch, Done, Holds, SlotsDone, UseSlot, SameRegion;
    OriginalFits(st, cs, i);
    assert Patches(st[0], cs[0], st[1]) && Patches(st[i], cs[i], st[i + 1]);
    assert i > 0 ==> SameTrace(cs[0], cs[i]);
    forall j | 0 <= j < i ensures !IsLoopExit(st, cs, j) { OneLoopExit(st, cs, i, j); }
    StubRun(st, cs, i);
    LoopStep(st, cs, i);
  }

  lemma OneLoopExit(st: seq<State>, cs: seq<Patch>, i: nat, j: nat)
    requires Run(st, cs) && j < i < |cs| && IsLoopExit(st, cs, i)
    ensures !IsLoopExit(st, cs, j)
  {
    hide Hit, ExitLoad, IsBranch, Patches;
    OriginalFits(st, cs, i);
    OriginalFits(st, cs, j);
    assert SameTrace(cs[j], cs[i]);
    LoadsDiffer(cs[j].exitno, cs[i].exitno);
  }

  lemma LoopExitNow(a: State, c: Patch, b: State)
    requires Patches(a, c, b) && Fits(c, |a.mem|) && TailHit(a.mem, c) && c.end + 1 < |a.mem| - 2 * SPAREJUMP
    ensures |b.mem| == |a.mem| && b.mem[c.end - 1] == NOP && b.mem[c.end] == Jump(c.target)
    ensures b.mem[c.end + 1] == a.mem[c.end + 1]
    ensures IsBranch(a.mem[c.end - 2]) ==> b.mem[c.end - 2] == a.mem[c.end - 2]
  {
    SlotSmall(a.issued, Jump(c.target));
    hide IsBranch, Hit, Holds, UseSlot, SlotsDone, IsStub, Done;
    TailWords(a.mem, b.mem, c, UseSlot(a.issued, Jump(c.target)).0);
  }

  // -- A trace whose second exit is missed -----------------------------------------------------

  // beq to the stub with li TMP,2; the inverted loop branch with li TMP,1; the NOP; the stub; the slots.
  function LoopTrace(): seq<u32> {
    [0, 0, 0x1000_0006, 0x241f_0002, 0, 0, 0x1400_fffa, 0x241f_0001, 0, 0xafbf_0000, 1, 1, 0, 0, 0, 0, 0, 0, 0, 0]
  }

  function LoopPatched(): seq<u32> { Put(LoopTrace(), 7, NOP, Jump(100)) }

  function MissedRun(): (seq<State>, seq<Patch>) {
    ([State(LoopTrace(), []), State(LoopPatched(), []), State(LoopPatched(), [])],
     [Patch(1, 8, 9, 100, 1), Patch(1, 8, 8, 100, 2)])
  }

  // The exit of the loop branch is patched first; the branch at word 2 then keeps going to the stub.
  lemma MissedInstance()
    ensures var (st, cs) := MissedRun();
      && Run(st, cs) && LoopBefore(st, cs, 1) && ExitBranch(st, cs, 1, 3)
      && TargetOf(st[0].mem[2], 2) == 9 && Untouched(st[0], st[2], 3)
  {
    hide LoopTrace, LoopPatched, Hit, Patches, ExitLoad;
    var (st, cs) := MissedRun();
    FirstPatched();
    SecondPatched();
    assert SameTrace(cs[0], cs[1]);
    assert Run(st, cs);
    SecondExit();
    OriginalFits(st, cs, 0);
    OriginalFits(st, cs, 1);
    assert IsLoopExit(st, cs, 0);
    ExitsMissed(st, cs, 1, 3);
  }

  lemma SecondExit()
    ensures |LoopTrace()| == 20 && Hit(LoopTrace(), 3, Patch(1, 8, 9, 100, 2)) && TargetOf(LoopTrace()[2], 2) == 9
    ensures TailHit(LoopTrace(), Patch(1, 8, 9, 100, 1))
  {
    NoHit(7);
  }

  // The only load of exit number 1 is not behind a branch to the stub.
  lemma NoHit(p: nat)
    requires 1 < p < 8
    ensures !Hit(LoopTrace(), p, Patch(1, 8, 9, 100, 1))
  {
    if p == 7 { assert !ToStub(LoopTrace()[6], 7, 9); }
  }

  lemma FirstPatched()
    ensures Patches(State(LoopTrace(), []), Patch(1, 8, 9, 100, 1), State(LoopPatched(), []))
  {
    var s, now, c := LoopTrace(), LoopPatched(), Patch(1, 8, 9, 100, 1);
    assert Holds(s, []) && IsStub(s, 8, 9) && Holds(now, []);
    hide LoopTrace, LoopPatched, Hit, Jump, ExitLoad, Done;
    FirstDone(UseSlot([], Jump(100)).0);
    forall q | 1 < q < 8 ensures !Far(s, q, c) { NoHit(q); }
  }

  lemma FirstDone(slot: Option<nat>)
    requires slot.Some? ==> slot.value < SPAREJUMP
    ensures |LoopTrace()| == 20 && Done(LoopTrace(), LoopPatched(), Patch(1, 8, 9, 100, 1), slot)
  {
    var s, now, c := LoopTrace(), LoopPatched(), Patch(1, 8, 9, 100, 1);
    SecondExit();
    hide LoopTrace, Hit, IsBranch, Jump, ExitLoad, TailHit;
    forall p | 1 < p < 8 ensures !Patched(s, p, c, slot) { NoHit(p); }
    hide Patched;
    forall q | 1 <= q <= 8 ensures now[q] == FinalWord(s, q, c, slot) {}
  }

  lemma SecondPatched()
    ensures Patches(State(LoopPatched(), []), Patch(1, 8, 8, 100, 2), State(LoopPatched(), []))
  {
    var s, c := LoopPatched(), Patch(1, 8, 8, 100, 2);
    var slot := UseSlot([], Jump(100)).0;
    assert Holds(s, []) && IsStub(s, 8, 8) && s[7] == NOP;
    forall p | 1 < p < 8 ensures !Hit(s, p, c) {
      if p == 3 { assert !ToStub(s[2], 3, 8); } else { assert s[p] != ExitLoad(2); }
    }
    assert !TailHit(s, c);
    hide LoopPatched, Hit, IsBranch, Jump, ExitLoad, TailHit;
    forall q | 1 <= q <= 8 ensures s[q] == FinalWord(s, q, c, slot) {}
  }
}
