// Exit stub groups: 32 stubs that push an exit number and share one jump to the exit handler.
module X64Stubs {
  import opened Words
  import opened X64Ops
  import opened X64Emit
  import opened X64Decode

  const EXITSTUBS_PER_GROUP: nat := 32
  const EXITSTUB_SPACING: nat := 4
  const LJ_MAX_EXITSTUBGR: nat := 16
  const GROUP_SIZE: nat := 2 + 4 * 31 + 2 + 5

  // Generate a group at mcbot; the handler displacement is relative to the end of the group.
  method AsmExitStubGen(mc: array<byte>, mcbot: nat, group: nat, handlerRel: i32) returns (mxp: nat)
    requires group < LJ_MAX_EXITSTUBGR && mcbot + GROUP_SIZE <= mc.Length
    modifies mc
    ensures mxp == mcbot + GROUP_SIZE
    ensures GroupAt(mc[..], mcbot, group, handlerRel)
    ensures forall k :: 0 <= k < mc.Length && !(mcbot <= k < mxp) ==> mc[k] == old(mc[k])
  {
    hide StubAt, GroupAt, LE32;
    var groupofs := group * EXITSTUBS_PER_GROUP % 256;
    mxp := mcbot;
    mc[mxp], mc[mxp + 1] := XI_PUSHi8, groupofs;
    mxp := mxp + 2;
    for i := 1 to EXITSTUBS_PER_GROUP
      invariant mxp == mcbot + 4 * i - 2
      invariant mc[mcbot] == XI_PUSHi8 && mc[mcbot + 1] == groupofs
      invariant forall j :: 1 <= j < i ==> StubAt(mc[..], mcbot, j, groupofs)
      invariant forall k :: 0 <= k < mc.Length && !(mcbot <= k < mxp) ==> mc[k] == old(mc[k])
    {
      ghost var was := mc[..];
      mc[mxp], mc[mxp + 1] := XI_JMPs, 4 * (EXITSTUBS_PER_GROUP - i) - 2;
      mc[mxp + 2], mc[mxp + 3] := XI_PUSHi8, groupofs + i;
      StubsKept(was, mc[..], mcbot, i, groupofs);
      StubWritten(mc[..], mcbot, i, groupofs);
      mxp := mxp + 4;
    }
    ghost var was := mc[..];
    StubTail(mc, mxp, group, handlerRel);
    StubsKept(was, mc[..], mcbot, EXITSTUBS_PER_GROUP, groupofs);
    GroupWritten(mc[..], mcbot, group, handlerRel);
    mxp := mxp + 7;
  }

  // The high byte of the exit numbers and the jump to the handler, shared by the group.
  method StubTail(mc: array<byte>, p: nat, group: nat, handlerRel: i32)
    requires group < LJ_MAX_EXITSTUBGR && p + 7 <= mc.Length
    modifies mc
    ensures mc[p] == XI_PUSHi8 && mc[p + 1] == group * EXITSTUBS_PER_GROUP / 256 && mc[p + 2] == XI_JMP
    ensures mc[p + 3..p + 7] == LE32(handlerRel)
    ensures forall k :: 0 <= k < mc.Length && !(p <= k < p + 7) ==> mc[k] == old(mc[k])
  {
    mc[p], mc[p + 1] := XI_PUSHi8, group * EXITSTUBS_PER_GROUP / 256;
    mc[p + 2] := XI_JMP;
    var rel := LE32(handlerRel);
    mc[p + 3], mc[p + 4], mc[p + 5], mc[p + 6] := rel[0], rel[1], rel[2], rel[3];
  }

  // The short jump in front of stub i and the push of its low byte.
  ghost predicate StubAt(s: seq<byte>, p: nat, i: nat, groupofs: nat) {
    var q := p + 4 * i - 2;
    0 < i && At(s, q) == XI_JMPs && At(s, q + 1) == 4 * (EXITSTUBS_PER_GROUP - i) - 2
    && At(s, q + 2) == XI_PUSHi8 && At(s, q + 3) == groupofs + i
  }

  lemma StubWritten(s: seq<byte>, p: nat, i: nat, groupofs: nat)
    requires 0 < i < EXITSTUBS_PER_GROUP && p + 4 * i + 2 <= |s|
    requires var q := p + 4 * i - 2;
      && s[q] == XI_JMPs && s[q + 1] == 4 * (EXITSTUBS_PER_GROUP - i) - 2
      && s[q + 2] == XI_PUSHi8 && s[q + 3] == groupofs + i
    ensures StubAt(s, p, i, groupofs)
  {
  }

  lemma GroupWritten(s: seq<byte>, p: nat, group: nat, handlerRel: i32)
    requires p + GROUP_SIZE <= |s| && s[p] == XI_PUSHi8 && s[p + 1] == group * EXITSTUBS_PER_GROUP % 256
    requires forall j :: 1 <= j < EXITSTUBS_PER_GROUP ==> StubAt(s, p, j, group * EXITSTUBS_PER_GROUP % 256)
    requires var t := p + 126;
      && s[t] == XI_PUSHi8 && s[t + 1] == group * EXITSTUBS_PER_GROUP / 256 && s[t + 2] == XI_JMP
      && s[t + 3..t + 7] == LE32(handlerRel)
    ensures GroupAt(s, p, group, handlerRel)
  {
    hide StubAt, LE32;
    forall k | p + 129 <= k < p + 133 ensures s[k] == LE32(handlerRel)[k - (p + 129)] {
      assert s[k] == s[p + 129..p + 133][k - (p + 129)];
    }
  }

  lemma StubsKept(was: seq<byte>, now: seq<byte>, p: nat, n: nat, groupofs: nat)
    requires |was| == |now| && n > 0 && p + 4 * n - 2 <= |was|
    requires forall k :: p <= k < p + 4 * n - 2 ==> now[k] == was[k]
    requires forall j :: 1 <= j < n ==> StubAt(was, p, j, groupofs)
    ensures forall j :: 1 <= j < n ==> StubAt(now, p, j, groupofs)
  {
    forall j | 1 <= j < n ensures StubAt(now, p, j, groupofs) { assert StubAt(was, p, j, groupofs); }
  }

  ghost predicate GroupAt(s: seq<byte>, p: nat, group: nat, handlerRel: i32) {
    var groupofs, t := group * EXITSTUBS_PER_GROUP % 256, p + 126;
    && p + GROUP_SIZE <= |s|
    && At(s, p) == XI_PUSHi8 && At(s, p + 1) == groupofs
    && (forall j :: 1 <= j < EXITSTUBS_PER_GROUP ==> StubAt(s, p, j, groupofs))
    && At(s, t) == XI_PUSHi8 && At(s, t + 1) == group * EXITSTUBS_PER_GROUP / 256
    && At(s, t + 2) == XI_JMP && HasAt(s, t + 3, LE32(handlerRel))
  }

  // Execution of push imm8 (6a ib) and forward jumps (eb cb): the bytes pushed, last first, and the
  // address that the final near jump (e9 cd) reaches.
  datatype Outcome = Stuck | Reached(pushed: seq<byte>, addr: int)

  function Run(s: seq<byte>, p: nat, pushed: seq<byte>): Outcome
    decreases |s| - p
  {
    if p >= |s| then Stuck
    else if s[p] == 0x6a && p + 2 <= |s| then Run(s, p + 2, [At(s, p + 1)] + pushed)
    else if s[p] == 0xeb && 0 <= Int8At(s, p + 1) <= |s| - p - 2 then Run(s, p + 2 + Int8At(s, p + 1), pushed)
    else if s[p] == 0xe9 then Reached(pushed, p + 5 + Int32At(s, p + 1))
    else Stuck
  }

  // Entering stub i at the address exitstub_addr computes pushes two bytes that recombine to
  // exactly that exit number, and ends up in the exit handler.
  lemma ExitStubPushesExitNo(s: seq<byte>, p: nat, group: nat, i: nat, handlerRel: i32)
    requires group < 16 && i < 32 && GroupAt(s, p, group, handlerRel)
    ensures exists hi: byte, lo: byte ::
      && Run(s, p + 4 * i, []) == Reached([hi, lo], p + 133 + handlerRel)
      && lo + 256 * hi == group * 32 + i
  {
    var exitno := group * EXITSTUBS_PER_GROUP;
    var lo: byte, hi: byte := exitno % 256 + i, exitno / 256;
    TailRuns(s, p, group, handlerRel, lo);
    StubRuns(s, p, group, i, handlerRel, lo);
    hide GroupAt, Run;
  }

  // The shared tail pushes the high byte and jumps to the handler.
  lemma TailRuns(s: seq<byte>, p: nat, group: nat, handlerRel: i32, lo: byte)
    requires group < LJ_MAX_EXITSTUBGR && GroupAt(s, p, group, handlerRel)
    ensures Run(s, p + 126, [lo]) == Reached([group * EXITSTUBS_PER_GROUP / 256, lo], p + GROUP_SIZE + handlerRel)
  {
    hide StubAt, Int32At, LE32;
    var t, hi: byte := p + 126, group * EXITSTUBS_PER_GROUP / 256;
    LE32RoundTrip(s, t + 3, handlerRel);
    assert Run(s, t + 2, [hi] + [lo]) == Reached([hi] + [lo], p + GROUP_SIZE + handlerRel);
    assert [hi] + [lo] == [hi, lo];
  }

  // The stub pushes its low byte and gets to the tail.
  lemma StubRuns(s: seq<byte>, p: nat, group: nat, i: nat, handlerRel: i32, lo: byte)
    requires group < LJ_MAX_EXITSTUBGR && i < EXITSTUBS_PER_GROUP && GroupAt(s, p, group, handlerRel)
    requires lo == group * EXITSTUBS_PER_GROUP % 256 + i
    ensures Run(s, p + EXITSTUB_SPACING * i, []) == Run(s, p + 126, [lo])
  {
    hide Int32At, LE32, HasAt;
    var q, ofs := p + 4 * i, group * EXITSTUBS_PER_GROUP % 256;
    if i > 0 { assert StubAt(s, p, i, ofs); }
    assert [lo] + [] == [lo];
    assert Run(s, q, []) == Run(s, q + 2, [lo]);
    if i + 1 < EXITSTUBS_PER_GROUP { assert StubAt(s, p, i + 1, ofs); }
  }
}
