// ARM64: the exits of one trace patched one after the other.
module A64Exits {
  import opened Words
  import opened A64Patch

  // The exit with its stub at px is patched to go to target.
  datatype Request = Request(px: nat, target: int)

  // One call of the patcher, for a trace and stubs of less than 2^14 words.
  ghost predicate Patches(was: seq<u32>, r: Request, now: seq<u32>, start: nat, end: nat) {
    && PatchedFrom(was, now, start, end, r.px, r.target) && r.px - start < 0x4000
    && forall q :: 0 <= q < |was| && !(start <= q < end) && q != r.px ==> now[q] == was[q]
  }

  // Different exits; no target is one of the stubs.
  ghost predicate Run(st: seq<seq<u32>>, rs: seq<Request>, start: nat, end: nat) {
    && |st| == |rs| + 1 && (forall i :: 0 <= i < |rs| ==> Patches(st[i], rs[i], st[i + 1], start, end))
    && (forall i, j :: 0 <= i < j < |rs| ==> Apart(rs[i], rs[j]))
  }

  predicate Apart(r: Request, t: Request) { r.px != t.px && r.target != t.px && t.target != r.px }

  predicate GoesTo(w: u32, p: int, px: int) { BranchOf(w) != NotBranch && TargetOf(w, p) == px }

  // A word of the trace after one call, with respect to another stub.
  lemma OtherStub(was: seq<u32>, r: Request, now: seq<u32>, start: nat, end: nat, px: nat, p: nat)
    requires Patches(was, r, now, start, end) && start <= p < end && start <= px && px != r.px && px != r.target
    ensures |now| == |was| && (GoesTo(now[p], p, px) <==> GoesTo(was[p], p, px))
    ensures GoesTo(was[p], p, px) || BranchOf(was[p]) == NotBranch ==> now[p] == was[p]
    ensures BranchOf(now[p]) == BranchOf(was[p])
  {
    PatchedWord(was, now, start, end, r.px, r.target, p);
    hide BranchOf, TargetOf, Rest, PatchedFrom, Marked, InRange;
  }

  // Markers stay where they are.
  lemma MarkersStay(was: seq<u32>, r: Request, now: seq<u32>, start: nat, end: nat, p: nat)
    requires Patches(was, r, now, start, end) && start <= p < end
    ensures |now| == |was| && (now[p - 1] == ARM64_NOPATCH_GC_CHECK <==> was[p - 1] == ARM64_NOPATCH_GC_CHECK)
  {
    assert BranchOf(ARM64_NOPATCH_GC_CHECK) == NotBranch;
    if p > start { PatchedWord(was, now, start, end, r.px, r.target, p - 1); }
    hide BranchOf, TargetOf, Rest, PatchWord, Reachable;
  }

  // The word at p and the marker in front of it, before and after calls i to m for other stubs.
  lemma {:induction false} KeptRun(st: seq<seq<u32>>, rs: seq<Request>, start: nat, end: nat, i: nat, m: nat,
                                    px: nat, p: nat)
    requires Run(st, rs, start, end) && i <= m <= |rs| && 0 < start <= p < end <= |st[i]| && start <= px
    requires forall j :: i <= j < m ==> rs[j].px != px && rs[j].target != px
    ensures |st[m]| == |st[i]| && (GoesTo(st[m][p], p, px) <==> GoesTo(st[i][p], p, px))
    ensures GoesTo(st[i][p], p, px) ==> st[m][p] == st[i][p]
    ensures st[m][p - 1] == ARM64_NOPATCH_GC_CHECK <==> st[i][p - 1] == ARM64_NOPATCH_GC_CHECK
    decreases m
  {
    hide Patches, GoesTo;
    if i < m {
      KeptRun(st, rs, start, end, i, m - 1, px, p);
      assert Patches(st[m - 1], rs[m - 1], st[m], start, end);
      OtherStub(st[m - 1], rs[m - 1], st[m], start, end, px, p);
      MarkersStay(st[m - 1], rs[m - 1], st[m], start, end, p);
    }
  }

  // A branch that is not taken for one to the stub of a later call is not touched by them.
  lemma {:induction false} SettledRun(st: seq<seq<u32>>, rs: seq<Request>, start: nat, end: nat, i: nat, p: nat)
    requires Run(st, rs, start, end) && i <= |rs| && start <= p < end <= |st[i]|
    requires forall j :: i <= j < |rs| ==> !Taken(st[i][p], p, rs[j].px)
    ensures |st[|rs|]| == |st[i]| && st[|rs|][p] == st[i][p]
    decreases |rs| - i
  {
    if i < |rs| {
      assert Patches(st[i], rs[i], st[i + 1], start, end);
      PatchedWord(st[i], st[i + 1], start, end, rs[i].px, rs[i].target, p);
      hide BranchOf, TargetOf, Rest, PatchedFrom, Marked, InRange;
      SettledRun(st, rs, start, end, i + 1, p);
    }
  }

  lemma LaterRequests(rs: seq<Request>, i: nat)
    requires i < |rs| && forall j, k :: 0 <= j < k < |rs| ==> Apart(rs[j], rs[k])
    ensures forall j :: 0 <= j < |rs| && j != i ==> Apart(rs[j], rs[i])
  {
    forall j | 0 <= j < |rs| && j != i ensures Apart(rs[j], rs[i]) {
      assert if j < i then Apart(rs[j], rs[i]) else Apart(rs[i], rs[j]);
    }
  }

  // The word at p, an exit of request r, once it is patched: retargeted, or left alone because it is
  // marked or does not reach.
  predicate Settled(w: u32, prev: u32, v: u32, p: int, r: Request)
    requires BranchOf(w) != NotBranch
  {
    if Marked(w, prev) || !InRange(BranchOf(w), r.target - p) then v == w
    else BranchOf(v) == BranchOf(w) && Rest(v, BranchOf(v)) == Rest(w, BranchOf(w)) && TargetOf(v, p) == r.target
  }

  // The target of request i is not 2^14 words in front of the stub of a later one, where a retargeted
  // tbz would be taken for one to that stub.
  predicate NoClash(w: u32, p: int, rs: seq<Request>, i: nat)
    requires i < |rs|
  {
    BranchOf(w) == Tb && InRange(Tb, rs[i].target - p) ==>
      forall j :: i < j < |rs| ==> rs[j].px != rs[i].target + 0x4000
  }

  // A trace and stubs of less than 2^13 words have no such targets in range.
  lemma NearNoClash(w: u32, p: int, rs: seq<Request>, i: nat)
    requires i < |rs| && forall j :: i < j < |rs| ==> 0 <= rs[j].px - p < 0x2000
    ensures NoClash(w, p, rs, i)
  {
  }

  // Every exit gets the target of its own request, whatever was patched before and after it.
  lemma ExitsInTurn(st: seq<seq<u32>>, rs: seq<Request>, start: nat, end: nat, i: nat, p: nat)
    requires Run(st, rs, start, end) && i < |rs| && 0 < start <= p < end <= |st[0]| && GoesTo(st[0][p], p, rs[i].px)
    requires NoClash(st[0][p], p, rs, i)
    ensures |st[|rs|]| == |st[0]| && Settled(st[0][p], st[0][p - 1], st[|rs|][p], p, rs[i])
  {
    hide BranchOf, TargetOf, Rest, PatchedFrom, InRange, Marked, NoClash;
    var was, now := st[i], st[i + 1];
    assert Patches(was, rs[i], now, start, end);
    PatchLength(was, rs[i], now, start, end);
    StubPlaces(st, rs, start, end);
    LaterRequests(rs, i);
    KeptRun(st, rs, start, end, 0, i, rs[i].px, p);
    PatchedWord(was, now, start, end, rs[i].px, rs[i].target, p);
    MarkedSame(was[p], was[p - 1], st[0][p - 1]);
    forall j | i < j < |rs| ensures !Taken(now[p], p, rs[j].px) { NotTaken(now[p], was[p], p, rs, i, j, start); }
    hide Taken, Patches;
    SettledRun(st, rs, start, end, i + 1, p);
  }

  lemma PatchLength(was: seq<u32>, r: Request, now: seq<u32>, start: nat, end: nat)
    requires Patches(was, r, now, start, end)
    ensures |now| == |was| && start <= end <= r.px < |was| && r.px < start + 0x4000
  {
    hide PatchWord, NoMarked, Reachable;
  }

  lemma StubPlaces(st: seq<seq<u32>>, rs: seq<Request>, start: nat, end: nat)
    requires Run(st, rs, start, end)
    ensures forall j :: 0 <= j < |rs| ==> end <= rs[j].px < start + 0x4000
  {
    forall j | 0 <= j < |rs| ensures end <= rs[j].px < start + 0x4000 {
      PatchLength(st[j], rs[j], st[j + 1], start, end);
    }
  }

  // An exit of request i is not taken for one of request j, before or after it is retargeted.
  lemma NotTaken(v: u32, w: u32, p: int, rs: seq<Request>, i: nat, j: nat, start: nat)
    requires i < j < |rs| && Apart(rs[j], rs[i]) && BranchOf(v) == BranchOf(w) && NoClash(w, p, rs, i)
    requires start <= rs[i].px && rs[j].px < start + 0x4000
    requires GoesTo(v, p, rs[i].px) || (GoesTo(v, p, rs[i].target) && InRange(BranchOf(w), rs[i].target - p))
    ensures !Taken(v, p, rs[j].px)
  {
    hide BranchOf, TargetOf, InRange;
  }

  lemma MarkedSame(w: u32, a: u32, b: u32)
    requires a == ARM64_NOPATCH_GC_CHECK <==> b == ARM64_NOPATCH_GC_CHECK
    ensures Marked(w, a) == Marked(w, b)
  {
  }

  // Some exit of the stub is marked now if and only if one was at the start.
  lemma NoMarkedRun(st: seq<seq<u32>>, rs: seq<Request>, start: nat, end: nat, i: nat)
    requires Run(st, rs, start, end) && i < |rs| && 0 < start <= end <= |st[0]| == |st[i]|
    ensures NoMarked(st[i], start, end, rs[i].px) <==> NoMarked(st[0], start, end, rs[i].px)
  {
    var px := rs[i].px;
    hide PatchedFrom, Matches, Marked, ToMarked, GoesTo, NoMarked;
    LaterRequests(rs, i);
    assert Patches(st[i], rs[i], st[i + 1], start, end);
    PatchLength(st[i], rs[i], st[i + 1], start, end);
    StubPlaces(st, rs, start, end);
    hide Patches;
    forall p | start <= p < end
      ensures ToMarked(st[i], p, px) == ToMarked(st[0], p, px)
    {
      KeptRun(st, rs, start, end, 0, i, px, p);
      ToMarkedGoes(st[i], p, px);
      ToMarkedGoes(st[0], p, px);
      MarkedSame(st[0][p], st[i][p - 1], st[0][p - 1]);
    }
    NoMarkedMeans(st[i], start, end, px);
    NoMarkedMeans(st[0], start, end, px);
  }

  predicate ToMarked(s: seq<u32>, p: nat, px: int)
    requires 0 < p < |s|
  {
    Matches(s[p], px - p) && Marked(s[p], s[p - 1])
  }

  lemma NoMarkedMeans(s: seq<u32>, start: nat, end: nat, px: int)
    requires 0 < start <= end <= |s|
    ensures NoMarked(s, start, end, px) <==> forall p :: start <= p < end ==> !ToMarked(s, p, px)
  {
    hide Matches, Marked;
    if forall p :: start <= p < end ==> !ToMarked(s, p, px) {
      forall p | start <= p < end && Matches(s[p], px - p) ensures !Marked(s[p], s[p - 1]) {
        assert !ToMarked(s, p, px);
      }
    }
  }

  // A marked branch is no tbz, so it is only taken for an exit if it is one.
  lemma ToMarkedGoes(s: seq<u32>, p: nat, px: nat)
    requires 0 < p < |s| && 0 <= px - p < 0x4000
    ensures ToMarked(s, p, px) <==> GoesTo(s[p], p, px) && Marked(s[p], s[p - 1])
  {
    MatchInArea(s[p], p, px);
    hide BranchOf, TargetOf, Field, Matches;
  }

  // The stub of a request is a branch to its target at the end, unless one of its exits is marked.
  lemma StubInTurn(st: seq<seq<u32>>, rs: seq<Request>, start: nat, end: nat, i: nat)
    requires Run(st, rs, start, end) && i < |rs|
    ensures var (px, fin) := (rs[i].px, st[|rs|]);
      && 0 < start <= end <= px < |st[0]| == |fin|
      && fin[px] == if NoMarked(st[0], start, end, px) then A64I_B + (rs[i].target - px) % 0x400_0000 else st[0][px]
  {
    LaterRequests(rs, i);
    assert Patches(st[i], rs[i], st[i + 1], start, end);
    WordRun(st, rs, start, end, 0, i, rs[i].px);
    WordRun(st, rs, start, end, i + 1, |rs|, rs[i].px);
    NoMarkedRun(st, rs, start, end, i);
    hide NoMarked, PatchWord, Reachable, Run;
  }

  // Other stubs are not written.
  lemma {:induction false} WordRun(st: seq<seq<u32>>, rs: seq<Request>, start: nat, end: nat, i: nat, m: nat, px: nat)
    requires Run(st, rs, start, end) && i <= m <= |rs| && end <= px
    requires forall j :: i <= j < m ==> rs[j].px != px
    ensures |st[m]| == |st[i]| && (px < |st[i]| ==> st[m][px] == st[i][px])
    decreases m
  {
    if i < m {
      WordRun(st, rs, start, end, i, m - 1, px);
      assert Patches(st[m - 1], rs[m - 1], st[m], start, end);
      hide PatchWord, Reachable, NoMarked;
    }
  }

  // If none of the exits of a request is marked, all of them reach its target in at most two hops.
  lemma ExitsReachTargets(st: seq<seq<u32>>, rs: seq<Request>, start: nat, end: nat, i: nat, p: nat)
    requires Run(st, rs, start, end) && i < |rs| && 0 < start <= p < end <= |st[0]| && GoesTo(st[0][p], p, rs[i].px)
    requires NoMarked(st[0], start, end, rs[i].px) && NoClash(st[0][p], p, rs, i)
    ensures Follow(st[|rs|], p, 1) == rs[i].target || Follow(st[|rs|], p, 2) == rs[i].target
  {
    var px, target, fin := rs[i].px, rs[i].target, st[|rs|];
    ExitsInTurn(st, rs, start, end, i, p);
    StubInTurn(st, rs, start, end, i);
    NoMarkedMeans(st[0], start, end, px);
    assert Patches(st[i], rs[i], st[i + 1], start, end);
    assert px - p < 0x4000;
    StubBranch(px, target);
    hide BranchOf, TargetOf, Rest, InRange, Marked, Run, PatchedFrom;
    ToMarkedGoes(st[0], p, px);
    assert !ToMarked(st[0], p, px);
    assert Follow(fin, px, 1) == Follow(fin, target, 0) == target;
    assert Follow(fin, p, 1) == Follow(fin, TargetOf(fin[p], p), 0);
  }
}
