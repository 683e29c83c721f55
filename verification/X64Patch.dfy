// Patching the exit jumps of a trace to a new target (lj_asm_patchexit for x64).
module X64Patch {
  import opened Words
  import opened X64Ops
  import opened X64Emit
  import opened X64Decode
  import opened X64InsLen
  import opened X64Trace
  import X64Load

  // Addresses are integers; the trace occupies [base, base + len).
  datatype Patch = Patch(base: int, len: nat, stub: int, target: int, statei: i32, gcstep: int)

  // Every jump of the trace can reach the new target.
  predicate Reachable(c: Patch) { InI32(c.target - c.base) && InI32(c.target - c.base - c.len) }

  // The byte test for the store of the trace number to g->vmstate.
  predicate StateTest(s: seq<byte>, p: nat, statei: i32) {
    var ofs := if 0x40 <= At(s, p) < 0x50 then 1 else 0;
    Int32At(s, p + 2 + ofs) == statei && At(s, p + ofs) == XI_MOVmi
  }

  predicate IsStateStore(i: Ins, statei: i32)
    requires ValidIns(i)
  {
    StateTest(Bytes(i), 0, statei)
  }

  // The exit branch at the end of the trace is only a 5-byte jmp if its bytes say so.
  predicate TailTest(s: seq<byte>, c: Patch) {
    c.len > 5 && |s| == c.len && s[c.len - 5] == XI_JMP && c.base + c.len + Int32At(s, c.len - 4) == c.stub
  }

  ghost predicate TailOk(ins: seq<Ins>, c: Patch)
    requires ValidTrace(ins)
  {
    (ins != [] && ins[|ins| - 1].Jmp?) || !TailTest(Flatten(ins), c)
  }

  // Position of the exit that a GC step call protects; none before the first call.
  datatype Phase = Search | Active(pgc: int)
  const NO_PGC: int := -1

  function PatchIns(i: Ins, p: nat, ph: Phase, c: Patch): (r: (Ins, Phase))
    requires ValidIns(i) && Reachable(c) && p + |Bytes(i)| <= c.len
    ensures ValidIns(r.0) && |Bytes(r.0)| == |Bytes(i)|
  {
    if p + 6 >= c.len || (ph == Search && !IsStateStore(i, c.statei)) then (i, ph)
    else
      var pgc := if ph == Search then NO_PGC else ph.pgc;
      if i.Jcc? && c.base + p + 6 + i.rel == c.stub && p != pgc then
        (Jcc(i.cc, c.target - (c.base + p + 6)), Active(pgc))
      else if i.Call? && c.base + p + 5 + i.rel == c.gcstep then (i, Active(p + 7))
      else (i, Active(pgc))
  }

  function PatchAll(ins: seq<Ins>, p: nat, ph: Phase, c: Patch): (r: seq<Ins>)
    requires ValidTrace(ins) && Reachable(c) && p + |Flatten(ins)| <= c.len
    ensures |r| == |ins| && ValidTrace(r) && |Flatten(r)| == |Flatten(ins)|
  {
    if ins == [] then []
    else
      var (i, ph') := PatchIns(ins[0], p, ph, c);
      [i] + PatchAll(ins[1..], p + |Bytes(i)|, ph', c)
  }

  function PatchTail(ins: seq<Ins>, c: Patch): (r: seq<Ins>)
    requires ValidTrace(ins) && Reachable(c)
    ensures |r| == |ins| && ValidTrace(r)
  {
    var n := |ins|;
    if n > 0 && c.len > 5 && ins[n - 1].Jmp? && c.base + c.len + ins[n - 1].rel == c.stub
    then WithJmp(ins, c.target - (c.base + c.len))
    else ins
  }

  // The last instruction replaced by a jump.
  function WithJmp(ins: seq<Ins>, rel: i32): (r: seq<Ins>)
    requires ValidTrace(ins) && ins != []
    ensures |r| == |ins| && ValidTrace(r) && r[|ins| - 1] == Jmp(rel) && r[..|ins| - 1] == ins[..|ins| - 1]
  {
    ins[..|ins| - 1] + [Jmp(rel)]
  }

  // -- The byte tests of the patcher recognise instructions ------------------

  lemma OpHead(xo: X86Op, rr: RegArg, rb: Reg, rx: Reg)
    requires KnownOp(xo)
    ensures Printable(xo)
    ensures var e := OpBytes(xo, rr, rb, rx); var ofs := if 0x40 <= e[0] < 0x50 then 1 else 0;
      && |e| > ofs && (e[ofs] == XI_MOVmi ==> xo == XO_(XI_MOVmi) && |e| == ofs + 1)
      && e[0] != XI_CALL && (e[0] == 0x0f ==> |e| > 1 && e[1] / 16 != 8)
  {
    hide RexByte, NeedsRex;
    RexRange(rr, rb, rx);
  }

  ghost predicate HeadFacts(i: Ins)
    requires ValidIns(i)
  {
    var e := Bytes(i);
    var ofs := if 0x40 <= e[0] < 0x50 then 1 else 0;
    && |e| > ofs
    && (e[ofs] == XI_MOVmi ==> |e| >= ofs + 6)
    && (e[0] == XI_CALL <==> i.Call?)
    && (e[0] == 0x0f ==> |e| > 1 && (e[1] / 16 == 8 <==> i.Jcc?))
    && (i.Jcc? ==> e[0] == 0x0f && |e| == 6 && e[1] == XI_JCCn + i.cc)
  }

  lemma Heads(i: Ins)
    requires ValidIns(i)
    ensures HeadFacts(i)
  {
    hide LE32;
    match i
    case Op(xo, rr, rm, imm) => OpHeads(i);
    case Cmp16(rr, r, b) => assert Bytes(i)[0] == XI_O16;
    case Roundsd(rr, rm, b) => assert Bytes(i)[0] == 0x66;
    case Bswap(rr, r) => BswapHead(i);
    case _ =>
  }

  lemma OpHeads(i: Ins)
    requires i.Op? && ValidIns(i)
    ensures HeadFacts(i)
  {
    hide OpBytes, RmBytes, KnownOp;
    KnownPrintable(i.xo);
    var (b, x) := match i.rm case Direct(r) => (r, 0) case Mem(m) => (BaseField(m), IdxField(m));
    OpHead(i.xo, i.rr, b, x);
    var op := OpBytes(i.xo, i.rr, b, x);
    assert Bytes(i)[..|op|] == op;
    assert Bytes(i)[0] == op[0];
    if |op| > 1 { assert Bytes(i)[1] == op[1]; }
    assert |RmBytes(i.rr.id, i.rm)| > 0 by { RmNonEmpty(i.rr.id, i.rm); }
  }

  lemma RmNonEmpty(digit: Reg, rm: Rm)
    requires ValidRm(rm)
    ensures |RmBytes(digit, rm)| > 0
  {
  }

  lemma BswapHead(i: Ins)
    requires i.Bswap? && ValidIns(i)
    ensures HeadFacts(i)
  {
    hide RexByte, NeedsRex;
    RexRange(i.rr, i.r, 0);
  }

  lemma JccRel(s: seq<byte>, p: nat, i: Ins)
    requires (i.Jcc? || i.Call? || i.Jmp?) && ValidIns(i) && HasAt(s, p, Bytes(i))
    ensures Int32At(s, p + (if i.Jcc? then 2 else 1)) == i.rel
  {
    hide LE32, Int32At, HasAt;
    var op := if i.Jcc? then [0x0f, XI_JCCn + i.cc] else if i.Call? then [XI_CALL] else [XI_JMP];
    assert Bytes(i) == op + LE32(i.rel);
    HasParts(s, p, op, LE32(i.rel));
    LE32RoundTrip(s, p + |op|, i.rel);
  }

  // The state test only looks at the bytes of the instruction itself.
  lemma StateTestLocal(s: seq<byte>, p: nat, i: Ins, statei: i32)
    requires ValidIns(i) && HasAt(s, p, Bytes(i))
    ensures StateTest(s, p, statei) <==> IsStateStore(i, statei)
  {
    Heads(i);
    var e := Bytes(i);
    var ofs := if 0x40 <= e[0] < 0x50 then 1 else 0;
    assert s[p] == e[0] && s[p + ofs] == e[ofs];
    if e[ofs] == XI_MOVmi {
      assert forall k :: p <= k < p + |e| ==> At(s, k) == At(e, k - p);
    }
  }

  lemma BranchTests(s: seq<byte>, p: nat, i: Ins)
    requires ValidIns(i) && HasAt(s, p, Bytes(i))
    ensures At(s, p) == 0x0f && At(s, p + 1) / 16 == 8 <==> i.Jcc?
    ensures At(s, p) == XI_CALL <==> i.Call?
    ensures i.Jcc? ==> Int32At(s, p + 2) == i.rel
    ensures i.Call? ==> Int32At(s, p + 1) == i.rel
  {
    Heads(i);
    var e := Bytes(i);
    assert s[p] == e[0];
    if |e| > 1 { assert s[p + 1] == e[1]; }
    if i.Jcc? || i.Call? { JccRel(s, p, i); }
  }

  // -- The patcher ----------------------------------------------------------

  method StoreI32(code: array<byte>, p: nat, i: i32)
    requires p + 4 <= code.Length
    modifies code
    ensures code[..] == old(code[..p]) + LE32(i) + old(code[p + 4..])
  {
    var b := LE32(i);
    code[p], code[p + 1], code[p + 2], code[p + 3] := b[0], b[1], b[2], b[3];
  }

  method PatchTailJmp(code: array<byte>, c: Patch, ghost ins: seq<Ins>)
    requires ValidTrace(ins) && code[..] == Flatten(ins) && c.len == code.Length
    requires Reachable(c) && TailOk(ins, c)
    modifies code
    ensures code[..] == Flatten(PatchTail(ins, c))
  {
    hide Flatten, Int32At, LE32, Bytes;
    var len := c.len;
    ghost var n := |ins|;
    if n > 0 && ins[n - 1].Jmp? { LastJmp(ins); }
    if len > 5 && code[len - 5] == XI_JMP && c.base + len + Int32At(code[..], len - 4) == c.stub {
      StoreI32(code, len - 4, c.target - (c.base + len));
      TailBytes(ins, c.target - (c.base + len));
      assert code[..] == Flatten(ins)[..len - 4] + LE32(c.target - (c.base + len));
    }
  }

  lemma LastJmp(ins: seq<Ins>)
    requires ValidTrace(ins) && ins != [] && ins[|ins| - 1].Jmp?
    ensures var s, n := Flatten(ins), |Flatten(ins)|;
      n >= 5 && s[n - 5] == XI_JMP && Int32At(s, n - 4) == ins[|ins| - 1].rel
  {
    hide Flatten, LE32, Int32At;
    var n := |ins|;
    assert ins == ins[..n - 1] + [ins[n - 1]];
    FlattenSnoc(ins[..n - 1], ins[n - 1]);
    assert Bytes(ins[n - 1]) == [XI_JMP] + LE32(ins[n - 1].rel);
    HasParts(Flatten(ins), 0, Flatten(ins[..n - 1]), Bytes(ins[n - 1]));
    JccRel(Flatten(ins), |Flatten(ins[..n - 1])|, ins[n - 1]);
  }

  lemma JmpBytes(j: Ins)
    requires j.Jmp?
    ensures ValidIns(j) && Bytes(j) == [XI_JMP] + LE32(j.rel)
  {
  }

  lemma TailBytes(ins: seq<Ins>, rel: i32)
    requires ValidTrace(ins) && ins != [] && ins[|ins| - 1].Jmp?
    ensures |Flatten(ins)| >= 5
    ensures Flatten(WithJmp(ins, rel)) == Flatten(ins)[..|Flatten(ins)| - 4] + LE32(rel)
  {
    hide Flatten, LE32, Bytes, ValidIns, WithJmp;
    var n := |ins|;
    var out := WithJmp(ins, rel);
    LastBytes(ins);
    LastBytes(out);
    var pre := Flatten(ins[..n - 1]) + [XI_JMP];
    hide ValidTrace;
    assert Flatten(ins) == pre + LE32(ins[n - 1].rel);
    assert Flatten(ins)[..|Flatten(ins)| - 4] == pre;
  }

  lemma LastBytes(ins: seq<Ins>)
    requires ValidTrace(ins) && ins != [] && ins[|ins| - 1].Jmp?
    ensures Flatten(ins) == (Flatten(ins[..|ins| - 1]) + [XI_JMP]) + LE32(ins[|ins| - 1].rel)
  {
    hide Flatten, LE32, Bytes;
    var n := |ins|;
    JmpBytes(ins[n - 1]);
    assert ins == ins[..n - 1] + [ins[n - 1]];
    FlattenSnoc(ins[..n - 1], ins[n - 1]);
  }

  // Loop state: code = done ++ rest, with p between them, and the result is done ++ PatchAll(rest).
  ghost predicate Progress(s: seq<byte>, p: nat, done: seq<Ins>, rest: seq<Ins>, ph: Phase,
                           goal: seq<Ins>, c: Patch)
    requires Reachable(c)
  {
    && ValidTrace(done) && ValidTrace(rest)
    && s == Flatten(done) + Flatten(rest) && p == |Flatten(done)| && |s| == c.len
    && goal == done + PatchAll(rest, p, ph, c)
  }

  lemma FlattenHead(ins: seq<Ins>)
    requires ValidTrace(ins) && ins != []
    ensures Flatten(ins) == Bytes(ins[0]) + Flatten(ins[1..])
  {
  }

  lemma PatchHead(ins: seq<Ins>, p: nat, ph: Phase, c: Patch)
    requires ValidTrace(ins) && Reachable(c) && p + |Flatten(ins)| <= c.len && ins != []
    ensures p + |Bytes(ins[0])| <= c.len
    ensures var (i, ph') := PatchIns(ins[0], p, ph, c);
      && p + |Bytes(i)| + |Flatten(ins[1..])| <= c.len
      && PatchAll(ins, p, ph, c) == [i] + PatchAll(ins[1..], p + |Bytes(i)|, ph', c)
  {
    hide Bytes, PatchIns, ValidIns, Reachable;
  }

  lemma AtHead(s: seq<byte>, p: nat, done: seq<Ins>, rest: seq<Ins>, ph: Phase, goal: seq<Ins>, c: Patch)
    requires Reachable(c) && Progress(s, p, done, rest, ph, goal, c) && p < c.len
    ensures rest != [] && HasAt(s, p, Bytes(rest[0]))
  {
    hide Bytes, PatchAll;
    if rest != [] { HeadAt(Flatten(done), rest); }
  }

  // One instruction further, whatever the patched code s' is, as long as it matches PatchIns.
  lemma Advance(s: seq<byte>, p: nat, done: seq<Ins>, rest: seq<Ins>, ph: Phase, goal: seq<Ins>, c: Patch,
                s': seq<byte>)
    requires Reachable(c) && Progress(s, p, done, rest, ph, goal, c) && rest != []
    requires p + |Bytes(rest[0])| <= c.len
    requires var (i, _) := PatchIns(rest[0], p, ph, c);
      s' == Flatten(done) + Bytes(i) + Flatten(rest[1..])
    ensures var (i, ph') := PatchIns(rest[0], p, ph, c);
      && ValidIns(i) && |Bytes(i)| == |Bytes(rest[0])|
      && Progress(s', p + |Bytes(i)|, done + [i], rest[1..], ph', goal, c)
      && InsLen(s', p) == |Bytes(i)|
  {
    hide Bytes, Flatten, PatchAll, PatchIns, InsLen, ValidIns, Reachable;
    var (i, ph') := PatchIns(rest[0], p, ph, c);
    FlattenSnoc(done, i);
    FlattenHead(rest);
    PatchHead(rest, p, ph, c);
    assert done + ([i] + PatchAll(rest[1..], p + |Bytes(i)|, ph', c))
      == (done + [i]) + PatchAll(rest[1..], p + |Bytes(i)|, ph', c);
    HasParts(s', 0, Flatten(done) + Bytes(i), Flatten(rest[1..]));
    HasParts(s', 0, Flatten(done), Bytes(i));
    InsLenExact(s', p, i);
  }

  // Patching a jcc in place replaces one instruction.
  lemma JccInPlace(s: seq<byte>, pre: seq<byte>, j: Ins, t: seq<byte>, rel: i32)
    requires j.Jcc? && ValidIns(j) && s == pre + Bytes(j) + t
    ensures |pre| + 6 <= |s|
    ensures s[..|pre| + 2] + LE32(rel) + s[|pre| + 6..] == pre + Bytes(Jcc(j.cc, rel)) + t
  {
    hide LE32;
    var h := [0x0f, XI_JCCn + j.cc];
    assert Bytes(j) == h + LE32(j.rel) && Bytes(Jcc(j.cc, rel)) == h + LE32(rel);
    assert s[..|pre| + 2] == pre + h && s[|pre| + 6..] == t;
  }

  // Beyond the last position the patcher looks at, nothing changes.
  lemma PastEnd(ins: seq<Ins>, p: nat, ph: Phase, c: Patch)
    requires ValidTrace(ins) && Reachable(c) && p + |Flatten(ins)| <= c.len && p + 6 >= c.len
    ensures PatchAll(ins, p, ph, c) == ins
  {
    hide Bytes;
    if ins != [] {
      PastEnd(ins[1..], p + |Bytes(ins[0])|, ph, c);
      assert ins == [ins[0]] + ins[1..];
    }
  }

  // The byte tests of the second loop.
  predicate JccTest(s: seq<byte>, p: nat, pgc: int, c: Patch) {
    At(s, p) == 0x0f && At(s, p + 1) / 16 == 8 && c.base + p + 6 + Int32At(s, p + 2) == c.stub && p != pgc
  }

  predicate CallTest(s: seq<byte>, p: nat, c: Patch) {
    At(s, p) == XI_CALL && c.base + p + 5 + Int32At(s, p + 1) == c.gcstep
  }

  lemma SearchStep(s: seq<byte>, p: nat, done: seq<Ins>, rest: seq<Ins>, goal: seq<Ins>, c: Patch)
    requires Reachable(c) && Progress(s, p, done, rest, Search, goal, c)
    requires p + 6 < c.len && !StateTest(s, p, c.statei)
    ensures rest != [] && InsLen(s, p) > 0
    ensures Progress(s, p + InsLen(s, p), done + [rest[0]], rest[1..], Search, goal, c)
  {
    hide Bytes, PatchAll, InsLen, Flatten, StateTest;
    AtHead(s, p, done, rest, Search, goal, c);
    StateTestLocal(s, p, rest[0], c.statei);
    FlattenHead(rest);
    assert s == Flatten(done) + Bytes(rest[0]) + Flatten(rest[1..]);
    Advance(s, p, done, rest, Search, goal, c, s);
  }

  ghost function Patched(s: seq<byte>, p: nat, pgc: int, c: Patch): seq<byte>
    requires Reachable(c) && p + 6 <= |s| == c.len
  {
    if JccTest(s, p, pgc, c) then s[..p + 2] + LE32(c.target - (c.base + p + 6)) + s[p + 6..] else s
  }

  lemma ActiveStep(s: seq<byte>, p: nat, done: seq<Ins>, rest: seq<Ins>, ph: Phase, pgc: int, goal: seq<Ins>, c: Patch)
      returns (i': Ins)
    requires Reachable(c) && Progress(s, p, done, rest, ph, goal, c) && p + 6 < c.len
    requires ph == Active(pgc) || (ph == Search && pgc == NO_PGC && StateTest(s, p, c.statei))
    ensures rest != [] && InsLen(Patched(s, p, pgc, c), p) > 0
    ensures var pgc' := if !JccTest(s, p, pgc, c) && CallTest(s, p, c) then p + 7 else pgc;
      var s' := Patched(s, p, pgc, c);
      Progress(s', p + InsLen(s', p), done + [i'], rest[1..], Active(pgc'), goal, c)
  {
    hide Bytes, PatchAll, InsLen, Flatten, StateTest, Int32At, LE32;
    AtHead(s, p, done, rest, ph, goal, c);
    var i := rest[0];
    if ph == Search { StateTestLocal(s, p, i, c.statei); }
    BranchTests(s, p, i);
    FlattenHead(rest);
    assert s == Flatten(done) + Bytes(i) + Flatten(rest[1..]);
    if JccTest(s, p, pgc, c) {
      JccInPlace(s, Flatten(done), i, Flatten(rest[1..]), c.target - (c.base + p + 6));
    }
    i' := PatchIns(i, p, ph, c).0;
    Advance(s, p, done, rest, ph, goal, c, Patched(s, p, pgc, c));
  }

  // Skip beyond the vmstate update: an exit before it belongs to the stack check of the parent.
  method SkipToState(code: array<byte>, c: Patch, ghost ins: seq<Ins>)
      returns (p: nat, ghost done: seq<Ins>, ghost rest: seq<Ins>)
    requires c.len == code.Length && ValidTrace(ins) && code[..] == Flatten(ins) && Reachable(c)
    ensures Progress(code[..], p, done, rest, Search, PatchAll(ins, 0, Search, c), c)
    ensures p + 6 >= c.len || StateTest(code[..], p, c.statei)
  {
    hide Bytes, PatchAll, InsLen, Flatten, StateTest, Progress;
    done, rest, p := [], ins, 0;
    Started(ins, c);
    ghost var goal := PatchAll(ins, 0, Search, c);
    while p < code.Length - 6 && !StateTest(code[..], p, c.statei)
      invariant Progress(code[..], p, done, rest, Search, goal, c)
      decreases code.Length - p
    {
      SearchStep(code[..], p, done, rest, goal, c);
      var n := AsmX86InsLen(code, p);
      done, rest, p := done + [rest[0]], rest[1..], p + n;
    }
  }

  method PatchBranches(code: array<byte>, start: nat, c: Patch, ghost done0: seq<Ins>, ghost rest0: seq<Ins>,
                       ghost goal: seq<Ins>)
    requires c.len == code.Length && ValidTrace(goal) && Reachable(c)
    requires Progress(code[..], start, done0, rest0, Search, goal, c)
    requires start + 6 >= c.len || StateTest(code[..], start, c.statei)
    modifies code
    ensures code[..] == Flatten(goal)
  {
    hide Bytes, PatchAll, InsLen, Flatten, StateTest, Int32At, LE32, Progress, Reachable;
    ghost var done, rest, ph := done0, rest0, Search;
    var p, pgc := start, NO_PGC;
    while p < code.Length - 6
      invariant Progress(code[..], p, done, rest, ph, goal, c)
      invariant ph == Active(pgc) || (ph == Search && pgc == NO_PGC)
      invariant ph == Search && p + 6 < c.len ==> StateTest(code[..], p, c.statei)
      decreases code.Length - p
    {
      ghost var i' := ActiveStep(code[..], p, done, rest, ph, pgc, goal, c);
      pgc := PatchOne(code, p, pgc, c);
      done, rest, ph := done + [i'], rest[1..], Active(pgc);
      var n := AsmX86InsLen(code, p);
      p := p + n;
    }
    Finished(code[..], p, done, rest, ph, goal, c);
  }

  method PatchOne(code: array<byte>, p: nat, pgc: int, c: Patch) returns (pgc': int)
    requires c.len == code.Length && Reachable(c) && p + 6 < c.len
    modifies code
    ensures code[..] == Patched(old(code[..]), p, pgc, c)
    ensures pgc' == if !JccTest(old(code[..]), p, pgc, c) && CallTest(old(code[..]), p, c) then p + 7 else pgc
  {
    pgc' := pgc;
    if JccTest(code[..], p, pgc, c) {
      StoreI32(code, p + 2, c.target - (c.base + p + 6));
    } else if CallTest(code[..], p, c) {
      pgc' := p + 7;  // do not patch the GC check exit
    }
  }

  // The patched code is exactly the code of the patched instruction list.
  method LjAsmPatchExit(code: array<byte>, c: Patch, ghost ins: seq<Ins>)
    requires ValidTrace(ins) && code[..] == Flatten(ins) && c.len == code.Length
    requires Reachable(c) && TailOk(ins, c)
    modifies code
    ensures |Flatten(PatchTail(ins, c))| == c.len
    ensures code[..] == Flatten(PatchAll(PatchTail(ins, c), 0, Search, c))
  {
    hide Bytes, PatchAll, Flatten, StateTest, PatchTail, TailOk, Progress;
    PatchTailJmp(code, c, ins);
    ghost var mid := PatchTail(ins, c);
    var p, done, rest := SkipToState(code, c, mid);
    PatchBranches(code, p, c, done, rest, PatchAll(mid, 0, Search, c));
  }

  lemma Started(ins: seq<Ins>, c: Patch)
    requires ValidTrace(ins) && Reachable(c) && |Flatten(ins)| == c.len
    ensures Progress(Flatten(ins), 0, [], ins, Search, PatchAll(ins, 0, Search, c), c)
  {
    assert Flatten([]) == [];
  }

  lemma Finished(s: seq<byte>, p: nat, done: seq<Ins>, rest: seq<Ins>, ph: Phase, goal: seq<Ins>, c: Patch)
    requires Reachable(c) && Progress(s, p, done, rest, ph, goal, c) && p + 6 >= c.len && ValidTrace(goal)
    ensures s == Flatten(goal)
  {
    hide Bytes, PatchAll, Flatten;
    PastEnd(rest, p, ph, c);
    FlattenAppend(done, rest);
  }

  // -- Which jumps are redirected -------------------------------------------

  predicate IsGcCall(i: Ins, p: nat, c: Patch) { i.Call? && c.base + p + 5 + i.rel == c.gcstep }

  // The vmstate store is at or before instruction k.
  ghost predicate Seen(ins: seq<Ins>, ph: Phase, k: nat, c: Patch)
    requires ValidTrace(ins) && k < |ins|
  {
    ph.Active? || exists j :: 0 <= j <= k && IsStateStore(ins[j], c.statei)
  }

  // Instruction k is the exit check two bytes behind a GC step call.
  ghost predicate Guarded(ins: seq<Ins>, p: nat, ph: Phase, k: nat, c: Patch)
    requires ValidTrace(ins) && k < |ins|
  {
    var at := Starts(ins, p);
    || (ph.Active? && at[k] == ph.pgc)
    || exists j :: 0 <= j < k && Seen(ins, ph, j, c) && IsGcCall(ins[j], at[j], c) && at[k] == at[j] + 7
  }

  ghost predicate Redirected(ins: seq<Ins>, p: nat, ph: Phase, k: nat, c: Patch)
    requires ValidTrace(ins) && k < |ins|
  {
    var at := Starts(ins, p)[k];
    && ins[k].Jcc? && at + 6 < c.len && c.base + at + 6 + ins[k].rel == c.stub
    && Seen(ins, ph, k, c) && !Guarded(ins, p, ph, k, c)
  }

  lemma StartsShift(ins: seq<Ins>, p: nat, k: nat)
    requires ValidTrace(ins) && 0 < k < |ins|
    ensures Starts(ins, p)[k] == Starts(ins[1..], p + |Bytes(ins[0])|)[k - 1] >= p + |Bytes(ins[0])|
    decreases k
  {
    hide Bytes;
    if k > 1 { StartsShift(ins[1..], p + |Bytes(ins[0])|, k - 1); }
  }

  lemma StoreIsNoBranch(i: Ins, statei: i32)
    requires ValidIns(i) && IsStateStore(i, statei)
    ensures !i.Jcc? && !i.Call?
  {
  }

  lemma SeenShift(ins: seq<Ins>, p: nat, ph: Phase, k: nat, c: Patch)
    requires ValidTrace(ins) && 0 < k < |ins| && Reachable(c) && p + |Bytes(ins[0])| <= c.len && p + 6 < c.len
    ensures Seen(ins, ph, k, c) <==> Seen(ins[1..], PatchIns(ins[0], p, ph, c).1, k - 1, c)
  {
    hide Bytes, IsStateStore;
    var ph' := PatchIns(ins[0], p, ph, c).1;
    if Seen(ins, ph, k, c) && !ph'.Active? {
      var j :| 0 <= j <= k && IsStateStore(ins[j], c.statei);
      assert IsStateStore(ins[1..][j - 1], c.statei);
    }
    if Seen(ins[1..], ph', k - 1, c) && !ph.Active? && !IsStateStore(ins[0], c.statei) {
      var j :| 0 <= j <= k - 1 && IsStateStore(ins[1..][j], c.statei);
      assert IsStateStore(ins[j + 1], c.statei);
    }
  }

  lemma GuardedShift(ins: seq<Ins>, p: nat, ph: Phase, k: nat, c: Patch)
    requires ValidTrace(ins) && 0 < k < |ins| && Reachable(c) && p + |Bytes(ins[0])| <= c.len && p + 6 < c.len
    requires ph.Active? ==> ph.pgc <= p + 2
    ensures Guarded(ins, p, ph, k, c)
       <==> Guarded(ins[1..], p + |Bytes(ins[0])|, PatchIns(ins[0], p, ph, c).1, k - 1, c)
  {
    hide Bytes, IsStateStore, Seen, Starts;
    var ph', p' := PatchIns(ins[0], p, ph, c).1, p + |Bytes(ins[0])|;
    var at, at' := Starts(ins, p), Starts(ins[1..], p');
    StartsShift(ins, p, k);
    FirstStart(ins, p);
    SeenFirst(ins, ph, c);
    if ins[0].Call? { CallLen(ins[0]); }
    if Guarded(ins, p, ph, k, c) && !(ph.Active? && at[k] == ph.pgc) {
      var j :| 0 <= j < k && Seen(ins, ph, j, c) && IsGcCall(ins[j], at[j], c) && at[k] == at[j] + 7;
      if j > 0 {
        StartsShift(ins, p, j);
        SeenShift(ins, p, ph, j, c);
        assert IsGcCall(ins[1..][j - 1], at'[j - 1], c);
      }
    }
    if Guarded(ins[1..], p', ph', k - 1, c) && !(ph'.Active? && at'[k - 1] == ph'.pgc) {
      var j :| 0 <= j < k - 1 && Seen(ins[1..], ph', j, c) && IsGcCall(ins[1..][j], at'[j], c)
               && at'[k - 1] == at'[j] + 7;
      StartsShift(ins, p, j + 1);
      SeenShift(ins, p, ph, j + 1, c);
      assert IsGcCall(ins[j + 1], at[j + 1], c);
    }
  }

  lemma FirstStart(ins: seq<Ins>, p: nat)
    requires ValidTrace(ins) && ins != []
    ensures Starts(ins, p)[0] == p
  {
  }

  lemma CallLen(i: Ins)
    requires i.Call? && ValidIns(i)
    ensures |Bytes(i)| == 5
  {
  }

  lemma SeenFirst(ins: seq<Ins>, ph: Phase, c: Patch)
    requires ValidTrace(ins) && ins != []
    ensures Seen(ins, ph, 0, c) <==> ph.Active? || IsStateStore(ins[0], c.statei)
    ensures IsStateStore(ins[0], c.statei) ==> !ins[0].Call? && !ins[0].Jcc?
  {
    if IsStateStore(ins[0], c.statei) { StoreIsNoBranch(ins[0], c.statei); }
  }

  function Redirect(i: Ins, at: nat, c: Patch): Ins
    requires i.Jcc? && Reachable(c) && at + 6 <= c.len
  {
    Jcc(i.cc, c.target - (c.base + at + 6))
  }

  lemma NeverPastEnd(ins: seq<Ins>, p: nat, k: nat)
    requires ValidTrace(ins) && k < |ins|
    ensures Starts(ins, p)[k] >= p
  {
    hide Bytes;
    FirstStart(ins, p);
    if k > 0 { StartsShift(ins, p, k); }
  }

  lemma {:induction false} PatchAllPointwise(ins: seq<Ins>, p: nat, ph: Phase, c: Patch, k: nat)
    requires ValidTrace(ins) && Reachable(c) && p + |Flatten(ins)| <= c.len && k < |ins|
    requires ph.Active? ==> ph.pgc <= p + 2
    ensures PatchAll(ins, p, ph, c)[k]
      == if Redirected(ins, p, ph, k, c) then Redirect(ins[k], Starts(ins, p)[k], c) else ins[k]
    decreases k
  {
    hide Bytes, IsStateStore, Seen, Starts, Flatten, PatchAll;
    PatchHead(ins, p, ph, c);
    FirstStart(ins, p);
    SeenFirst(ins, ph, c);
    NeverPastEnd(ins, p, k);
    if p + 6 >= c.len {
      PastEnd(ins, p, ph, c);
    } else if k > 0 {
      var (i, ph') := PatchIns(ins[0], p, ph, c);
      StartsShift(ins, p, k);
      SeenShift(ins, p, ph, k, c);
      GuardedShift(ins, p, ph, k, c);
      if ins[0].Call? { CallLen(ins[0]); }
      PatchAllPointwise(ins[1..], p + |Bytes(ins[0])|, ph', c, k - 1);
    }
  }

  lemma {:induction false} SameStarts(a: seq<Ins>, b: seq<Ins>, p: nat)
    requires ValidTrace(a) && ValidTrace(b) && |a| == |b|
    requires forall k :: 0 <= k < |a| ==> |Bytes(a[k])| == |Bytes(b[k])|
    ensures Starts(a, p) == Starts(b, p) && |Flatten(a)| == |Flatten(b)|
  {
    hide Bytes;
    if a != [] {
      assert |Bytes(a[0])| == |Bytes(b[0])|;
      SameStarts(a[1..], b[1..], p + |Bytes(a[0])|);
    }
  }

  lemma {:induction false} SameLengths(ins: seq<Ins>, p: nat, ph: Phase, c: Patch, k: nat)
    requires ValidTrace(ins) && Reachable(c) && p + |Flatten(ins)| <= c.len && k < |ins|
    ensures |Bytes(PatchAll(ins, p, ph, c)[k])| == |Bytes(ins[k])|
    decreases k
  {
    hide Bytes, Flatten, PatchAll;
    PatchHead(ins, p, ph, c);
    if k > 0 { SameLengths(ins[1..], p + |Bytes(ins[0])|, PatchIns(ins[0], p, ph, c).1, c, k - 1); }
  }

  lemma TailLengths(ins: seq<Ins>, c: Patch, k: nat)
    requires ValidTrace(ins) && Reachable(c) && k < |ins|
    ensures |Bytes(PatchTail(ins, c)[k])| == |Bytes(ins[k])|
  {
    var i := PatchTail(ins, c)[k];
    if i != ins[k] {
      assert i.Jmp? && ins[k].Jmp?;
      JmpBytes(i);
      JmpBytes(ins[k]);
    }
    hide Bytes, LE32;
  }

  // Patching moves no instruction boundary.
  lemma ExitPatchBoundaries(ins: seq<Ins>, c: Patch)
    requires ValidTrace(ins) && Reachable(c) && |Flatten(ins)| == c.len
    ensures |Flatten(PatchTail(ins, c))| == c.len
    ensures Starts(PatchTail(ins, c), 0) == Starts(PatchAll(PatchTail(ins, c), 0, Search, c), 0) == Starts(ins, 0)
  {
    hide Bytes, PatchTail, PatchAll, Flatten, Starts;
    var mid := PatchTail(ins, c);
    forall j | 0 <= j < |ins| ensures |Bytes(ins[j])| == |Bytes(mid[j])| { TailLengths(ins, c, j); }
    SameStarts(ins, mid, 0);
    var out := PatchAll(mid, 0, Search, c);
    forall j | 0 <= j < |ins| ensures |Bytes(mid[j])| == |Bytes(out[j])| { SameLengths(mid, 0, Search, c, j); }
    SameStarts(mid, out, 0);
  }

  // The trace after patching: a conditional exit is redirected if and only if it jumped to the
  // stub, lies behind the first instruction that passes the test for the vmstate store, and is not the
  // GC check exit; the final jmp is redirected if and only if it jumped to the stub. No other
  // instruction changes.
  lemma ExitPatchExact(ins: seq<Ins>, c: Patch, k: nat)
    requires ValidTrace(ins) && Reachable(c) && |Flatten(ins)| == c.len && k < |ins|
    ensures |Flatten(PatchTail(ins, c))| == c.len
    ensures PatchAll(PatchTail(ins, c), 0, Search, c)[k] ==
      if k == |ins| - 1 && c.len > 5 && ins[k].Jmp? && c.base + c.len + ins[k].rel == c.stub then
        Jmp(c.target - (c.base + c.len))
      else if Redirected(ins, 0, Search, k, c) then Redirect(ins[k], Starts(ins, 0)[k], c)
      else ins[k]
  {
    hide Bytes, PatchAll, Flatten, Starts, Redirected;
    ExitPatchBoundaries(ins, c);
    PatchAllPointwise(PatchTail(ins, c), 0, Search, c, k);
    RedirectedTail(ins, c, k);
    RedirectedJcc(ins, 0, Search, k, c);
  }

  lemma RedirectedJcc(ins: seq<Ins>, p: nat, ph: Phase, k: nat, c: Patch)
    requires ValidTrace(ins) && k < |ins|
    ensures Redirected(ins, p, ph, k, c) ==> ins[k].Jcc?
  {
  }

  // Redirecting the final jmp does not influence the rest.
  lemma RedirectedTail(ins: seq<Ins>, c: Patch, k: nat)
    requires ValidTrace(ins) && Reachable(c) && k < |ins|
    requires Starts(PatchTail(ins, c), 0) == Starts(ins, 0)
    ensures Redirected(PatchTail(ins, c), 0, Search, k, c) <==> Redirected(ins, 0, Search, k, c)
  {
    hide Bytes, Starts, PatchTail, Seen;
    var mid := PatchTail(ins, c);
    forall j | 0 <= j < |ins| ensures TailAlike(ins, c, j) { TailKinds(ins, c, j); }
    forall j | 0 <= j < |ins| ensures Seen(mid, Search, j, c) <==> Seen(ins, Search, j, c) { TailSeen(ins, c, j); }
    assert TailAlike(ins, c, k);
    var at := Starts(ins, 0);
    if Guarded(ins, 0, Search, k, c) {
      var j :| 0 <= j < k && Seen(ins, Search, j, c) && IsGcCall(ins[j], at[j], c) && at[k] == at[j] + 7;
      assert TailAlike(ins, c, j);
      assert Seen(mid, Search, j, c) && IsGcCall(mid[j], at[j], c);
    }
    if Guarded(mid, 0, Search, k, c) {
      var j :| 0 <= j < k && Seen(mid, Search, j, c) && IsGcCall(mid[j], at[j], c) && at[k] == at[j] + 7;
      assert TailAlike(ins, c, j);
      assert Seen(ins, Search, j, c) && IsGcCall(ins[j], at[j], c);
    }
  }

  ghost predicate TailAlike(ins: seq<Ins>, c: Patch, j: nat)
    requires ValidTrace(ins) && Reachable(c) && j < |ins|
  {
    var mid := PatchTail(ins, c);
    && (IsStateStore(mid[j], c.statei) <==> IsStateStore(ins[j], c.statei))
    && (mid[j].Jcc? || ins[j].Jcc? || mid[j].Call? || ins[j].Call? ==> mid[j] == ins[j])
  }

  lemma TailKinds(ins: seq<Ins>, c: Patch, j: nat)
    requires ValidTrace(ins) && Reachable(c) && j < |ins|
    ensures TailAlike(ins, c, j)
  {
    var mid := PatchTail(ins, c);
    if mid[j] != ins[j] { JmpIsNoStore(mid[j], c.statei); JmpIsNoStore(ins[j], c.statei); }
  }

  lemma JmpIsNoStore(i: Ins, statei: i32)
    requires i.Jmp? && ValidIns(i)
    ensures !IsStateStore(i, statei)
  {
  }

  lemma TailSeen(ins: seq<Ins>, c: Patch, k: nat)
    requires ValidTrace(ins) && Reachable(c) && k < |ins|
    ensures Seen(PatchTail(ins, c), Search, k, c) <==> Seen(ins, Search, k, c)
  {
    hide Bytes, PatchTail, IsStateStore;
    var mid := PatchTail(ins, c);
    forall j | 0 <= j < |ins| ensures IsStateStore(mid[j], c.statei) <==> IsStateStore(ins[j], c.statei) {
      TailKinds(ins, c, j);
    }
    if j :| 0 <= j <= k && IsStateStore(ins[j], c.statei) { assert IsStateStore(mid[j], c.statei); }
    if j :| 0 <= j <= k && IsStateStore(mid[j], c.statei) { assert IsStateStore(ins[j], c.statei); }
  }

  // -- What the scan for the vmstate store finds --------------------------------

  // The bytes behind ModRM, where the scan expects the displacement.
  function ScanWindow(rm: Rm, imm: seq<byte>): i32
    requires ValidRm(rm)
  {
    Int32At(RmBytes(0, rm)[1..] + imm, 0)
  }

  lemma WindowAt(e: seq<byte>, n: nat, digit: Reg, rm: Rm, imm: seq<byte>)
    requires ValidRm(rm) && n <= |e| && e[n..] == RmBytes(digit, rm) + imm
    ensures Int32At(e, n + 1) == ScanWindow(rm, imm)
  {
    var w := RmBytes(0, rm)[1..] + imm;
    assert RmBytes(digit, rm)[1..] == RmBytes(0, rm)[1..] by { TailBytesOfRm(digit, rm); }
    hide RmBytes;
    assert e[n..][1..] == w;
    hide Int32At;
    SameWindow(e, n + 1, w);
  }

  lemma SameWindow(e: seq<byte>, p: nat, w: seq<byte>)
    requires p <= |e| && e[p..] == w
    ensures Int32At(e, p) == Int32At(w, 0)
  {
    forall k | 0 <= k < 4 ensures At(e, p + k) == At(w, k) {
      if k < |w| { assert w[k] == e[p..][k]; }
    }
  }

  // Only the ModRM byte depends on the register field.
  lemma TailBytesOfRm(digit: Reg, rm: Rm)
    requires ValidRm(rm)
    ensures |RmBytes(digit, rm)| > 0 && RmBytes(digit, rm)[1..] == RmBytes(0, rm)[1..]
  {
    hide ModRM, LE32, Disp, DispMode;
  }

  // Exactly the MOV stores and loads of a 32-bit immediate pass whose bytes behind ModRM are the
  // displacement that the scan looks for.
  lemma StateTestExact(i: Ins, statei: i32)
    requires ValidIns(i)
    ensures IsStateStore(i, statei) <==> i.Op? && i.xo == XO_(XI_MOVmi) && ScanWindow(i.rm, i.imm) == statei
  {
    Heads(i);
    HeadIsMov(i);
    var e := Bytes(i);
    if i.Op? && i.xo == XO_(XI_MOVmi) {
      var n := MovHead(i);
      WindowAt(e, n, i.rr.id, i.rm, i.imm);
    }
    hide Bytes, RmBytes, ScanWindow, Int32At;
  }

  lemma HeadIsMov(i: Ins)
    requires ValidIns(i)
    ensures var e := Bytes(i); var ofs := if 0x40 <= e[0] < 0x50 then 1 else 0;
      At(e, ofs) == XI_MOVmi ==> i.Op? && i.xo == XO_(XI_MOVmi)
  {
    Heads(i);
    if i.Op? { OpMovOnly(i); } else { OtherHeads(i); }
    hide Bytes;
  }

  lemma OpMovOnly(i: Ins)
    requires i.Op? && ValidIns(i)
    ensures var e := Bytes(i); var ofs := if 0x40 <= e[0] < 0x50 then 1 else 0;
      At(e, ofs) == XI_MOVmi ==> i.xo == XO_(XI_MOVmi)
  {
    var (b, x) := OperandRegs(i.rm);
    OpHead(i.xo, i.rr, b, x);
    var op := OpBytes(i.xo, i.rr, b, x);
    assert Bytes(i) == op + (RmBytes(i.rr.id, i.rm) + i.imm);
    hide OpBytes, RmBytes, Bytes, KnownOp;
  }

  function OperandRegs(rm: Rm): (Reg, Reg) {
    match rm case Direct(r) => (r, 0) case Mem(m) => (BaseField(m), IdxField(m))
  }

  lemma OtherHeads(i: Ins)
    requires !i.Op? && ValidIns(i)
    ensures var e := Bytes(i); var ofs := if 0x40 <= e[0] < 0x50 then 1 else 0; At(e, ofs) != XI_MOVmi
  {
  }

  // Where ModRM of such a MOV is.
  lemma MovHead(i: Ins) returns (n: nat)
    requires i.Op? && ValidIns(i) && i.xo == XO_(XI_MOVmi)
    ensures var e := Bytes(i); var ofs := if 0x40 <= e[0] < 0x50 then 1 else 0;
      n == ofs + 1 <= |e| && e[ofs] == XI_MOVmi && e[n..] == RmBytes(i.rr.id, i.rm) + i.imm
  {
    var (b, x) := OperandRegs(i.rm);
    RexRange(i.rr, b, x);
    var op := OpBytes(i.xo, i.rr, b, x);
    n := |op|;
    assert Bytes(i) == op + (RmBytes(i.rr.id, i.rm) + i.imm);
    hide Bytes, RmBytes, RexByte, NeedsRex;
  }

  // mov dword [DISPATCH+ofs], imm
  function VmStateStore(ofs: i32, imm: seq<byte>): (i: Ins)
    requires |imm| == 4
    ensures ValidIns(i)
  {
    Op(XO_(XI_MOVmi), RegArg(0, NoRex), Mem(Mrm(RID_DISPATCH, RID_NONE, XM_SCALE1, ofs)), imm)
  }

  predicate HasSib(m: Mrm) { m.idx != RID_NONE || m.base == RID_NONE || (m.base % 8 == RID_ESP && m.base != RID_RIP) }

  // The window is the displacement if that has 32 bits and no SIB byte comes first; otherwise bytes of
  // the immediate are in it.
  lemma WindowForms(rm: Rm, imm: seq<byte>)
    requires ValidRm(rm) && |imm| == 4
    ensures rm.Direct? ==> ScanWindow(rm, imm) == Int32At(imm, 0)
    ensures rm.Mem? && !HasSib(rm.m) && |Disp(rm.m)| == 4 ==> ScanWindow(rm, imm) == rm.m.ofs
    ensures rm.Mem? && !HasSib(rm.m) && |Disp(rm.m)| < 4 ==> ScanWindow(rm, imm) == Int32At(Disp(rm.m) + imm, 0)
    ensures rm.Mem? && HasSib(rm.m) ==>
      exists sib: byte :: ScanWindow(rm, imm) == Int32At([sib] + (Disp(rm.m) + imm), 0)
  {
    hide LE32, Int32At;
    var e := RmBytes(0, rm);
    match rm
    case Direct(r) => assert e[1..] + imm == imm;
    case Mem(m) =>
      if HasSib(m) {
        assert e[1..] + imm == [e[1]] + (Disp(m) + imm);
      } else {
        assert e[1..] == Disp(m);
        if |Disp(m)| == 4 {
          assert Disp(m) == LE32(m.ofs);
          HasParts(e[1..] + imm, 0, LE32(m.ofs), imm);
          LE32RoundTrip(e[1..] + imm, 0, m.ofs);
        }
      }
  }

  // The immediate bytes that make a short displacement look like a long one.
  predicate LooksLong(ofs: i32, imm: seq<byte>)
    requires |imm| == 4
  {
    if ofs == 0 then imm == [0, 0, 0, 0]
    else if ofs > 0 then imm[0] == imm[1] == imm[2] == 0
    else imm[0] == imm[1] == imm[2] == 0xff
  }

  lemma ShortWindow(ofs: i32, imm: seq<byte>)
    requires |imm| == 4 && CheckI8(ofs)
    ensures Int32At((if ofs == 0 then [] else [Byte(ofs)]) + imm, 0) == ofs <==> LooksLong(ofs, imm)
  {
    var s := (if ofs == 0 then [] else [Byte(ofs)]) + imm;
    if ofs == 0 { assert s == imm; } else { assert s[1] == imm[0] && s[2] == imm[1] && s[3] == imm[2]; }
  }

  // The store of the trace number is found if and only if its displacement needs 32 bits, or the bytes
  // of the number behind the short displacement happen to extend it.
  lemma StateStoreFound(ofs: i32, imm: seq<byte>)
    requires |imm| == 4
    ensures IsStateStore(VmStateStore(ofs, imm), ofs) <==> !CheckI8(ofs) || LooksLong(ofs, imm)
  {
    hide IsStateStore, ScanWindow, LooksLong, Int32At, LE32;
    var i := VmStateStore(ofs, imm);
    StateTestExact(i, ofs);
    WindowForms(i.rm, imm);
    if CheckI8(ofs) {
      ShortWindow(ofs, imm);
      assert Disp(i.rm.m) == if ofs == 0 then [] else [Byte(ofs)];
    }
  }

  // A load of a 64-bit register with a sign-extended constant passes for the store, if the constant is
  // the displacement.
  lemma MovMiPasses(r: Reg, i: i32, statei: i32)
    requires IsGpr(r)
    ensures ValidIns(X64Load.MovMi(r, i)) && (IsStateStore(X64Load.MovMi(r, i), statei) <==> i == statei)
  {
    var m := X64Load.MovMi(r, i);
    StateTestExact(m, statei);
    WindowForms(m.rm, m.imm);
    LE32RoundTrip(LE32(i), 0, i);
    hide IsStateStore, ScanWindow, Int32At, LE32;
  }

  predicate IsVmStateStore(i: Ins, c: Patch) { i.Op? && |i.imm| == 4 && i == VmStateStore(c.statei, i.imm) }

  // The vmstate store is instruction j, and none comes before it.
  ghost predicate FirstStore(ins: seq<Ins>, j: nat, c: Patch) {
    j < |ins| && IsVmStateStore(ins[j], c) && forall i :: 0 <= i < j ==> !IsVmStateStore(ins[i], c)
  }

  // Instruction i is not the store, but passes for it.
  predicate PassesForStore(i: Ins, c: Patch)
    requires ValidIns(i)
  {
    !IsVmStateStore(i, c) && i.Op? && i.xo == XO_(XI_MOVmi) && ScanWindow(i.rm, i.imm) == c.statei
  }

  // Nothing in front of the store passes for it, and the store itself is recognised.
  ghost predicate Recognised(ins: seq<Ins>, j: nat, c: Patch)
    requires ValidTrace(ins) && FirstStore(ins, j, c)
  {
    && (!CheckI8(c.statei) || LooksLong(c.statei, ins[j].imm))
    && forall i :: 0 <= i < j ==> !PassesForStore(ins[i], c)
  }

  // The scan starts patching exactly behind the vmstate store, if and only if the store is recognised
  // and nothing before it passes for one.
  lemma SeenExact(ins: seq<Ins>, j: nat, c: Patch)
    requires ValidTrace(ins) && FirstStore(ins, j, c)
    ensures Recognised(ins, j, c) <==> forall k :: 0 <= k < |ins| ==> (Seen(ins, Search, k, c) <==> j <= k)
  {
    hide IsStateStore, VmStateStore, ScanWindow, LooksLong;
    StateStoreFound(c.statei, ins[j].imm);
    forall i | 0 <= i < j ensures IsStateStore(ins[i], c.statei) <==> PassesForStore(ins[i], c) {
      StateTestExact(ins[i], c.statei);
    }
    if forall k :: 0 <= k < |ins| ==> (Seen(ins, Search, k, c) <==> j <= k) {
      assert Seen(ins, Search, j, c);
      forall i | 0 <= i < j ensures !IsStateStore(ins[i], c.statei) { assert !Seen(ins, Search, i, c); }
    }
    if Recognised(ins, j, c) {
      forall k | 0 <= k < |ins| ensures Seen(ins, Search, k, c) <==> j <= k {
        if j <= k { assert IsStateStore(ins[j], c.statei); }
      }
    }
  }

  // The exit check of a GC step call behind the store.
  ghost predicate GcExit(ins: seq<Ins>, j: nat, k: nat, c: Patch)
    requires ValidTrace(ins) && k < |ins|
  {
    var at := Starts(ins, 0);
    exists g :: j <= g < k && IsGcCall(ins[g], at[g], c) && at[k] == at[g] + 7
  }

  // For a trace whose store is recognised: a conditional exit is redirected if and only if it jumped to
  // the stub, lies behind the vmstate store and is not the GC check exit; the final jmp is redirected
  // if and only if it jumped to the stub. No other instruction changes.
  lemma ExitPatchBehindStore(ins: seq<Ins>, j: nat, c: Patch, k: nat)
    requires ValidTrace(ins) && Reachable(c) && |Flatten(ins)| == c.len && k < |ins|
    requires FirstStore(ins, j, c) && Recognised(ins, j, c)
    ensures |Flatten(PatchTail(ins, c))| == c.len
    ensures var at := Starts(ins, 0)[k];
      PatchAll(PatchTail(ins, c), 0, Search, c)[k] ==
        if k == |ins| - 1 && c.len > 5 && ins[k].Jmp? && c.base + c.len + ins[k].rel == c.stub then
          Jmp(c.target - (c.base + c.len))
        else if ins[k].Jcc? && at + 6 < c.len && c.base + at + 6 + ins[k].rel == c.stub
          && j < k && !GcExit(ins, j, k, c)
          then Jcc(ins[k].cc, c.target - (c.base + at + 6))
        else ins[k]
  {
    hide Bytes, PatchAll, PatchTail, Flatten, Starts, Seen, Recognised, Guarded, GcExit;
    ExitPatchExact(ins, c, k);
    SeenExact(ins, j, c);
    GuardedBehind(ins, j, k, c);
    assert Seen(ins, Search, k, c) <==> j <= k;
    assert j == k ==> !ins[k].Jcc?;
  }

  lemma GuardedBehind(ins: seq<Ins>, j: nat, k: nat, c: Patch)
    requires ValidTrace(ins) && k < |ins| && forall i :: 0 <= i < |ins| ==> (Seen(ins, Search, i, c) <==> j <= i)
    ensures Guarded(ins, 0, Search, k, c) <==> GcExit(ins, j, k, c)
  {
    hide Seen, Starts;
    var at := Starts(ins, 0);
    if Guarded(ins, 0, Search, k, c) {
      var g :| 0 <= g < k && Seen(ins, Search, g, c) && IsGcCall(ins[g], at[g], c) && at[k] == at[g] + 7;
      assert j <= g;
    }
    if GcExit(ins, j, k, c) {
      var g :| j <= g < k && IsGcCall(ins[g], at[g], c) && at[k] == at[g] + 7;
      assert Seen(ins, Search, g, c);
    }
  }

  // mov rax, -3000; jcc stub; mov dword [DISPATCH-3000], imm
  function EarlyTrace(imm: seq<byte>): (ins: seq<Ins>)
    requires |imm| == 4
    ensures ValidTrace(ins)
  {
    MovMiPasses(0, -3000, -3000);
    [X64Load.MovMi(0, -3000), Jcc(4, 987), VmStateStore(-3000, imm)]
  }

  lemma EarlyTraceShape(imm: seq<byte>)
    requires |imm| == 4
    ensures Starts(EarlyTrace(imm), 0)[1] == 7 && |Flatten(EarlyTrace(imm))| == 24
  {
    var ins := EarlyTrace(imm);
    assert |Bytes(ins[0])| == 7 && |Bytes(ins[1])| == 6;
    VmStateBytes(-3000, imm);
    assert ins[1..][0] == ins[1] && ins[1..][1..] == [ins[2]];
    FirstStart(ins[1..], 7);
    StartsShift(ins, 0, 1);
    FlattenHead(ins);
    FlattenHead(ins[1..]);
    FlattenHead([ins[2]]);
    hide Bytes, Starts;
    assert Flatten([ins[2]][1..]) == [];
  }

  // A constant that equals the displacement of vmstate makes the exit behind it be redirected, although
  // the vmstate store comes later.
  lemma RedirectedTooEarly(imm: seq<byte>)
    requires |imm| == 4
    ensures var (ins, c) := (EarlyTrace(imm), Patch(0, 24, 1000, 2000, -3000, 0));
      && |Flatten(ins)| == c.len && FirstStore(ins, 2, c) && !Recognised(ins, 2, c)
      && PatchAll(PatchTail(ins, c), 0, Search, c)[1] == Jcc(4, 1987)
  {
    hide Bytes, IsStateStore, Starts, PatchAll, PatchTail, Flatten, ScanWindow, EarlyTrace, PassesForStore;
    hide VmStateStore;
    var ins, c := EarlyTrace(imm), Patch(0, 24, 1000, 2000, -3000, 0);
    EarlyTraceShape(imm);
    EarlyTraceTests(imm);
    ExitPatchExact(ins, c, 1);
    assert Redirected(ins, 0, Search, 1, c);
  }

  lemma EarlyTraceTests(imm: seq<byte>)
    requires |imm| == 4
    ensures var (ins, c) := (EarlyTrace(imm), Patch(0, 24, 1000, 2000, -3000, 0));
      && |ins| == 3 && !ins[0].Call? && ins[1] == Jcc(4, 987)
      && IsStateStore(ins[0], c.statei) && PassesForStore(ins[0], c)
      && !IsVmStateStore(ins[0], c) && !IsVmStateStore(ins[1], c) && IsVmStateStore(ins[2], c)
  {
    MovMiPasses(0, -3000, -3000);
    StateTestExact(EarlyTrace(imm)[0], -3000);
    hide IsStateStore, ScanWindow, LE32;
  }

  lemma VmStateBytes(ofs: i32, imm: seq<byte>)
    requires |imm| == 4 && !CheckI8(ofs)
    ensures |Bytes(VmStateStore(ofs, imm))| == 11
  {
    hide LE32;
    assert Bytes(VmStateStore(ofs, imm)) == [0x41, XI_MOVmi] + ([0x86] + LE32(ofs)) + imm;
  }

  // -- A GC step called through a register -------------------------------------------

  // mov dword [DISPATCH-3000], imm; mov rax, gcstep; call rax; test eax, eax; jcc stub; nop
  function GcTrace(imm: seq<byte>): (ins: seq<Ins>)
    requires |imm| == 4
    ensures ValidTrace(ins)
  {
    [VmStateStore(-3000, imm), MovRi64(X64Load.RID_RET, 0, 0x7000), X64Load.CallReg(), TestRet(), Jcc(5, 969), Nop]
  }

  function TestRet(): (i: Ins)
    ensures ValidIns(i)
  {
    Op(XO_(0x85), RegArg(X64Load.RID_RET, NoRex), Direct(X64Load.RID_RET), [])
  }

  lemma GcTraceLengths(imm: seq<byte>)
    requires |imm| == 4
    ensures var ins := GcTrace(imm);
      && |ins| == 6 && |Bytes(ins[0])| == 11 && |Bytes(ins[1])| == 10 && |Bytes(ins[2])| == 2
      && |Bytes(ins[3])| == 2 && |Bytes(ins[4])| == 6 && |Bytes(ins[5])| == 1
  {
    VmStateBytes(-3000, imm);
    X64Load.CallRegBytes();
    hide LE32;
  }

  lemma {:induction false} StartIsPrefix(ins: seq<Ins>, p: nat, k: nat)
    requires ValidTrace(ins) && k < |ins|
    ensures Starts(ins, p)[k] == p + |Flatten(ins[..k])|
    decreases k
  {
    hide Bytes;
    if k > 0 {
      StartIsPrefix(ins[1..], p + |Bytes(ins[0])|, k - 1);
      StartsShift(ins, p, k);
      FlattenHead(ins[..k]);
      assert ins[..k][1..] == ins[1..][..k - 1];
    }
  }

  lemma {:induction false} FlattenStep(ins: seq<Ins>, k: nat)
    requires ValidTrace(ins) && k < |ins|
    ensures |Flatten(ins[..k + 1])| == |Flatten(ins[..k])| + |Bytes(ins[k])|
  {
    hide Bytes, Flatten;
    assert ins[..k + 1] == ins[..k] + [ins[k]];
    FlattenSnoc(ins[..k], ins[k]);
  }

  lemma GcTraceShape(imm: seq<byte>)
    requires |imm| == 4
    ensures |Starts(GcTrace(imm), 0)| == 6 && Starts(GcTrace(imm), 0)[4] == 25 && |Flatten(GcTrace(imm))| == 32
  {
    var ins := GcTrace(imm);
    GcTraceLengths(imm);
    hide GcTrace, Bytes;
    assert |Flatten(ins[..0])| == 0;
    hide Flatten, Starts;
    FlattenStep(ins, 0);
    FlattenStep(ins, 1);
    FlattenStep(ins, 2);
    FlattenStep(ins, 3);
    FlattenStep(ins, 4);
    FlattenStep(ins, 5);
    StartIsPrefix(ins, 0, 4);
    assert ins[..6] == ins;
  }

  // The call goes to the GC step, but the scan does not see it: the exit behind it is redirected.
  lemma GcExitMissed(imm: seq<byte>, next: int, dispatch: u64)
    requires |imm| == 4
    ensures var (ins, c) := (GcTrace(imm), Patch(0, 32, 1000, 2000, -3000, 0x7000_0000_0000));
      && |ins| == 6 && |Flatten(ins)| == c.len && FirstStore(ins, 0, c) && Recognised(ins, 0, c)
      && X64Load.Loaded(ins[1], X64Load.RID_RET, next, dispatch) == Some(c.gcstep) && ins[2] == X64Load.CallReg()
      && PatchAll(PatchTail(ins, c), 0, Search, c)[4] == Jcc(5, 1969)
  {
    hide GcTrace, Bytes, Starts, PatchAll, PatchTail, Flatten, ScanWindow, LooksLong, VmStateStore;
    hide X64Load.Loaded, X64Load.CallReg;
    var ins, c := GcTrace(imm), Patch(0, 32, 1000, 2000, -3000, 0x7000_0000_0000);
    GcTraceShape(imm);
    GcTraceIns(imm, next, dispatch);
    ExitPatchBehindStore(ins, 0, c, 4);
  }

  lemma GcTraceIns(imm: seq<byte>, next: int, dispatch: u64)
    requires |imm| == 4
    ensures var ins := GcTrace(imm);
      && |ins| == 6 && ins[0].Op? && ins[0].imm == imm && ins[0] == VmStateStore(-3000, imm)
      && X64Load.Loaded(ins[1], X64Load.RID_RET, next, dispatch) == Some(0x7000_0000_0000)
      && ins[2] == X64Load.CallReg() && ins[4] == Jcc(5, 969) && forall k :: 0 <= k < 6 ==> !ins[k].Call?
  {
  }
}
