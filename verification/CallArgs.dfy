// Where the calling conventions want each argument, counted from the arguments in front of it, and that
// the argument loops put it there.
module CallArgs {
  import opened Calls

  // How many of the first n arguments satisfy the test.
  function CountFp(args: seq<Arg>, n: nat): (c: nat)
    requires n <= |args|
    ensures c <= n
  {
    if n == 0 then 0 else CountFp(args, n - 1) + (if args[n - 1].Fp? then 1 else 0)
  }

  // -- x64 -----------------------------------------------------------------------------------

  // POSIX: the first six arguments that are not floating-point have rdi, rsi, rdx, rcx, r8 and r9, the
  // first eight that are have xmm0..xmm7. Windows: the first four arguments have rcx, rdx, r8 and r9 or
  // xmm0..xmm3. XMM registers are numbered from 16.
  predicate X64InReg(args: seq<Arg>, i: nat, win: bool)
    requires i < |args|
  {
    if win then i < 4 else if args[i].Fp? then CountFp(args, i) < 8 else i - CountFp(args, i) < 6
  }

  function X64Reg(args: seq<Arg>, i: nat, win: bool): nat
    requires i < |args| && X64InReg(args, i, win)
  {
    if args[i].Fp? then 16 + (if win then i else CountFp(args, i))
    else if win then [1, 2, 8, 9][i]
    else [7, 6, 2, 1, 8, 9][i - CountFp(args, i)]
  }

  // How many of the first n arguments have no register.
  function X64Stacked(args: seq<Arg>, n: nat, win: bool): (c: nat)
    requires n <= |args|
    ensures c <= n
  {
    if n == 0 then 0 else X64Stacked(args, n - 1, win) + (if X64InReg(args, n - 1, win) then 0 else 1)
  }

  // Argument i is in its register, or on the stack in the slot of its number: eight bytes, or four for a
  // float. Slots start at the stack pointer, behind 32 bytes with the Windows ABI.
  ghost predicate X64Placed(args: seq<Arg>, i: nat, win: bool, regs: seq<nat>, st: seq<Store>)
    requires i < |args|
  {
    var k := X64Stacked(args, i, win);
    if X64InReg(args, i, win) then i - k < |regs| && regs[i - k] == X64Reg(args, i, win)
    else k < |st| && st[k] == Store((if win then 32 else 0) + 8 * k, if args[i].Fp? && !args[i].isnum then 4 else 8)
  }

  // The state of the loop after the first n arguments.
  ghost predicate X64After(args: seq<Arg>, n: nat, win: bool, u: Use)
    requires n <= |args|
  {
    && |u.st| == X64Stacked(args, n, win) && |u.regs| == n - |u.st|
    && u.ofs == (if win then 32 else 0) + 8 * |u.st|
    && u.gprs == GprsAfter(if win then n else n - CountFp(args, n), win)
    && u.fpr == 16 + (if win then n else if CountFp(args, n) < 8 then CountFp(args, n) else 8)
    && forall i :: 0 <= i < n ==> X64Placed(args, i, win, u.regs, u.st)
  }

  lemma {:induction false} X64Run(args: seq<Arg>, n: nat, win: bool)
    requires n <= |args|
    ensures X64After(args, n, win, X64Use(args[..n], win))
    decreases n
  {
    hide GprsAfter, X64UseStep;
    if n == 0 {
      GprsStart();
    } else {
      X64Run(args, n - 1, win);
      assert args[..n][..n - 1] == args[..n - 1] && args[..n][n - 1] == args[n - 1];
      X64Step(args, n - 1, win, X64Use(args[..n - 1], win));
    }
  }

  lemma GprsStart()
    ensures GprsAfter(0, true) == REGARG_GPRS_WIN && GprsAfter(0, false) == REGARG_GPRS
  {
  }

  lemma X64Step(args: seq<Arg>, n: nat, win: bool, u: Use)
    requires n < |args| && X64After(args, n, win, u)
    ensures X64After(args, n + 1, win, X64UseStep(u, args[n], win))
  {
    hide GprsAfter, X64Placed, X64Stacked;
    var u' := X64UseStep(u, args[n], win);
    RegIs(if win then n else n - CountFp(args, n), win);
    StackedNext(args, n, win);
    forall i | 0 <= i < n ensures X64Placed(args, i, win, u'.regs, u'.st) { PlacedKept(args, i, n, win, u, u'); }
    PlacedNext(args, n, win, u, u');
  }

  lemma StackedNext(args: seq<Arg>, n: nat, win: bool)
    requires n < |args|
    ensures X64Stacked(args, n + 1, win) == X64Stacked(args, n, win) + (if X64InReg(args, n, win) then 0 else 1)
  {
  }

  // The n-th register of the packed list.
  lemma RegIs(n: nat, win: bool)
    ensures var r := GprsAfter(n, win) % 32;
      && GprsAfter(n + 1, win) == GprsAfter(n, win) / 32
      && r == if n >= (if win then 4 else 6) then 0 else if win then [1, 2, 8, 9][n] else [7, 6, 2, 1, 8, 9][n]
  {
    ArgRegIs(n, win);
  }

  lemma PlacedKept(args: seq<Arg>, i: nat, n: nat, win: bool, u: Use, u': Use)
    requires i < n < |args| && X64Placed(args, i, win, u.regs, u.st) && u.regs <= u'.regs && u.st <= u'.st
    ensures X64Placed(args, i, win, u'.regs, u'.st)
  {
  }

  lemma PlacedNext(args: seq<Arg>, n: nat, win: bool, u: Use, u': Use)
    requires n < |args| && X64After(args, n, win, u) && u' == X64UseStep(u, args[n], win)
    ensures X64Placed(args, n, win, u'.regs, u'.st)
  {
    hide GprsAfter, X64Stacked;
    RegIs(if win then n else n - CountFp(args, n), win);
  }

  // Every argument is in its register or in its stack slot, and there are no other stores.
  lemma X64ArgsPlaced(args: seq<Arg>, win: bool)
    ensures var u := X64Use(args, win);
      && |u.st| == X64Stacked(args, |args|, win) && |u.regs| + |u.st| == |args|
      && forall i :: 0 <= i < |args| ==> X64Placed(args, i, win, u.regs, u.st)
  {
    assert args[..|args|] == args;
    X64Run(args, |args|, win);
    hide X64Placed, X64Use, X64Stacked, GprsAfter;
  }

  // The slots counted beforehand are those that are used, eight bytes each, with the POSIX ABI.
  lemma X64CountExact(args: seq<Arg>)
    ensures X64Count(args).nslots == 2 * X64Stacked(args, |args|, false)
  {
    var n := X64PosixSim(args);
    X64ArgsPlaced(args, false);
    hide X64Use, X64Count, X64Stacked, X64Placed, Layout, GprsAfter;
  }

  // -- PPC -----------------------------------------------------------------------------------

  // The first eight floating-point arguments have f1..f8, the first eight others r3..r10; a filler (no
  // reference) takes the place of an integer.
  predicate PpcInReg(args: seq<Arg>, i: nat)
    requires i < |args|
  {
    if args[i].Fp? then CountFp(args, i) < 8 else i - CountFp(args, i) < 8
  }

  predicate PpcStored(args: seq<Arg>, i: nat)
    requires i < |args|
  {
    !PpcInReg(args, i) && !args[i].Zero?
  }

  function RoundUp8(x: nat): nat { (x + 7) / 8 * 8 }

  // The first free byte of the stack behind the first n arguments: it starts behind eight reserved bytes,
  // a double takes eight at a multiple of eight and anything else four.
  function PpcFree(args: seq<Arg>, n: nat): nat
    requires n <= |args|
  {
    if n == 0 then 8
    else if PpcInReg(args, n - 1) then PpcFree(args, n - 1)
    else if args[n - 1] == Fp(true) then RoundUp8(PpcFree(args, n - 1)) + 8
    else PpcFree(args, n - 1) + 4
  }

  function PpcStacked(args: seq<Arg>, n: nat): (c: nat)
    requires n <= |args|
  {
    if n == 0 then 0 else PpcStacked(args, n - 1) + (if PpcStored(args, n - 1) then 1 else 0)
  }

  ghost predicate PpcPlaced(args: seq<Arg>, i: nat, st: seq<Store>)
    requires i < |args|
  {
    PpcStored(args, i) ==>
      var (k, free) := (PpcStacked(args, i), PpcFree(args, i));
      k < |st| && st[k] == if args[i] == Fp(true) then Store(RoundUp8(free), 8) else Store(free, 4)
  }

  ghost predicate PpcAfter(args: seq<Arg>, n: nat, u: RegUse)
    requires n <= |args|
  {
    && u.fpr == (if CountFp(args, n) < 8 then CountFp(args, n) else 8)
    && u.gpr == (if n - CountFp(args, n) < 8 then n - CountFp(args, n) else 8)
    && u.ofs == PpcFree(args, n) && u.ofs % 4 == 0 && |u.st| == PpcStacked(args, n)
    && forall i :: 0 <= i < n ==> PpcPlaced(args, i, u.st)
  }

  lemma {:induction false} PpcRun(args: seq<Arg>, n: nat)
    requires n <= |args|
    ensures PpcAfter(args, n, PpcUse(args[..n]))
    decreases n
  {
    hide PpcUseStep;
    if n > 0 {
      PpcRun(args, n - 1);
      assert args[..n][..n - 1] == args[..n - 1] && args[..n][n - 1] == args[n - 1];
      PpcStep(args, n - 1, PpcUse(args[..n - 1]));
    }
  }

  lemma PpcStep(args: seq<Arg>, n: nat, u: RegUse)
    requires n < |args| && PpcAfter(args, n, u)
    ensures PpcAfter(args, n + 1, PpcUseStep(u, args[n]))
  {
    hide PpcPlaced, RoundUp8, Align8;
    var u' := PpcUseStep(u, args[n]);
    AlignIs(u.ofs);
    PpcNext(args, n, u);
    forall i | 0 <= i < n ensures PpcPlaced(args, i, u'.st) { PpcKept(args, i, u.st, u'.st); }
  }

  lemma AlignIs(x: nat)
    requires x % 4 == 0
    ensures Align8(x) == RoundUp8(x) && RoundUp8(x) % 4 == 0
  {
    var m, j := x / 4, x / 8;
    assert x == 4 * m && j == m / 2;
    Rounded(j);
    if m % 2 == 1 { assert x == 8 * j + 4; } else { assert x == 8 * j; }
  }

  lemma Rounded(j: nat)
    ensures RoundUp8(8 * j) == 8 * j && RoundUp8(8 * j + 4) == 8 * j + 8
  {
    assert (8 * j + 7) / 8 == j;
    assert (8 * j + 4 + 7) / 8 == j + 1;
  }

  lemma PpcKept(args: seq<Arg>, i: nat, st: seq<Store>, st': seq<Store>)
    requires i < |args| && PpcPlaced(args, i, st) && st <= st'
    ensures PpcPlaced(args, i, st')
  {
  }

  lemma PpcNext(args: seq<Arg>, n: nat, u: RegUse)
    requires n < |args| && PpcAfter(args, n, u)
    ensures PpcPlaced(args, n, PpcUseStep(u, args[n]).st)
  {
    hide RoundUp8, Align8, PpcStacked, PpcFree;
    AlignIs(u.ofs);
  }

  lemma PpcArgsPlaced(args: seq<Arg>)
    ensures |PpcUse(args).st| == PpcStacked(args, |args|)
    ensures forall i :: 0 <= i < |args| ==> PpcPlaced(args, i, PpcUse(args).st)
  {
    assert args[..|args|] == args;
    PpcRun(args, |args|);
    hide PpcPlaced, PpcUse, PpcStacked, PpcFree;
  }

  // The reservation has room for every floating-point argument as if it were a double, and no more.
  function Doubles(args: seq<Arg>): (r: seq<Arg>)
    ensures |r| == |args| && forall i :: 0 <= i < |args| ==> r[i] == if args[i].Fp? then Fp(true) else args[i]
  {
    seq(|args|, i requires 0 <= i < |args| => if args[i].Fp? then Fp(true) else args[i])
  }

  lemma {:induction false} PpcCountRun(args: seq<Arg>, n: nat)
    requires n <= |args|
    ensures PpcCounted(args, n, PpcCount(args[..n]))
    decreases n
  {
    if n > 0 {
      PpcCountRun(args, n - 1);
      hide RoundUp8, Doubles, PpcCountStep;
      assert args[..n][..n - 1] == args[..n - 1] && args[..n][n - 1] == args[n - 1];
      PpcCountNext(args, n - 1, PpcCount(args[..n - 1]));
    }
  }

  ghost predicate PpcCounted(args: seq<Arg>, n: nat, c: Count)
    requires n <= |args|
  {
    && 4 * c.nslots == PpcFree(Doubles(args), n) && CountFp(Doubles(args), n) == CountFp(args, n)
    && c.nfpr == (if CountFp(args, n) < 8 then 8 - CountFp(args, n) else 0)
    && c.ngpr == (if n - CountFp(args, n) < 8 then 8 - (n - CountFp(args, n)) else 0)
  }

  lemma PpcCountNext(args: seq<Arg>, n: nat, c: Count)
    requires n < |args| && PpcCounted(args, n, c)
    ensures PpcCounted(args, n + 1, PpcCountStep(c, args[n]))
  {
    hide RoundUp8, Doubles;
    SlotsRound(c.nslots);
  }

  lemma SlotsRound(n: nat)
    ensures 4 * ((n + 3) / 2 * 2) == RoundUp8(4 * n) + 8
  {
    var j := n / 2;
    Rounded(j);
    if n % 2 == 0 {
      assert (2 * j + 3) / 2 == j + 1;
      assert 4 * n == 8 * j;
    } else {
      assert (2 * j + 1 + 3) / 2 == j + 2;
      assert 4 * n == 8 * j + 4;
    }
    hide RoundUp8;
  }

  lemma PpcCountExact(args: seq<Arg>)
    ensures 4 * PpcCount(args).nslots == PpcFree(Doubles(args), |args|)
  {
    assert args[..|args|] == args;
    PpcCountRun(args, |args|);
    hide PpcCount, PpcFree, CountFp;
  }

  // -- ARM64 ---------------------------------------------------------------------------------

  // Integers among the first n arguments.
  function CountInt(args: seq<Arg>, n: nat): (c: nat)
    requires n <= |args|
    ensures c <= n
  {
    if n == 0 then 0 else CountInt(args, n - 1) + (if args[n - 1].Int? then 1 else 0)
  }

  // macOS: argument i is one of the variable arguments, behind the marker.
  predicate Behind(args: seq<Arg>, i: nat, abi: Abi)
    requires i <= |args|
  {
    abi == Osx && Zero in args[..i]
  }

  // General registers that the first n arguments ask for: x0..x7 go to integers, and to all arguments of
  // a variadic call on Windows. The others go to d0..d7.
  function A64Gprs(args: seq<Arg>, n: nat, win: bool): nat
    requires n <= |args|
  {
    CountInt(args, n) + if win then CountFp(args, n) else 0
  }

  predicate A64InReg(args: seq<Arg>, i: nat, abi: Abi, vararg: bool)
    requires i < |args|
  {
    var win := abi == Win && vararg;
    !Behind(args, i, abi) && if args[i].Fp? && !win then CountFp(args, i) < 8 else A64Gprs(args, i, win) < 8
  }

  predicate A64Stored(args: seq<Arg>, i: nat, abi: Abi, vararg: bool)
    requires i < |args|
  {
    !args[i].Zero? && !A64InReg(args, i, abi, vararg)
  }

  // Bytes of the argument.
  function SizeOf(a: Arg): nat {
    match a case Zero => 1 case Fp(isnum) => (if isnum then 8 else 4) case Int(size) => size
  }

  // macOS packs the named arguments by their natural size; otherwise each one takes eight bytes, of which
  // at least four are written.
  function Room(args: seq<Arg>, i: nat, abi: Abi): (n: nat)
    requires i < |args| && ValidArgs(args)
    ensures n in {1, 2, 4, 8}
  {
    if abi == Osx && !Behind(args, i, abi) then SizeOf(args[i]) else 8
  }

  function Written(args: seq<Arg>, i: nat, abi: Abi): nat
    requires i < |args| && ValidArgs(args)
  {
    if Room(args, i, abi) == 8 && SizeOf(args[i]) < 8 then 4 else SizeOf(args[i])
  }

  function RoundUp(x: nat, n: nat): nat
    requires n in {1, 2, 4, 8}
  {
    match n case 1 => x case 2 => (x + 1) / 2 * 2 case 4 => (x + 3) / 4 * 4 case _ => (x + 7) / 8 * 8
  }

  // The first free byte of the stack behind the first n arguments; with fillers, those that are no
  // arguments count, too.
  function A64Free(args: seq<Arg>, n: nat, abi: Abi, vararg: bool, fillers: bool): nat
    requires n <= |args| && ValidArgs(args)
  {
    if n == 0 then 0
    else if A64Stored(args, n - 1, abi, vararg) || (fillers && args[n - 1].Zero?) then
      RoundUp(A64Free(args, n - 1, abi, vararg, fillers), Room(args, n - 1, abi)) + Room(args, n - 1, abi)
    else A64Free(args, n - 1, abi, vararg, fillers)
  }

  function A64Stacked(args: seq<Arg>, n: nat, abi: Abi, vararg: bool): (c: nat)
    requires n <= |args|
  {
    if n == 0 then 0 else A64Stacked(args, n - 1, abi, vararg) + (if A64Stored(args, n - 1, abi, vararg) then 1 else 0)
  }

  ghost predicate A64Placed(args: seq<Arg>, i: nat, abi: Abi, vararg: bool, st: seq<Store>)
    requires i < |args| && ValidArgs(args)
  {
    A64Stored(args, i, abi, vararg) ==>
      var (k, free) := (A64Stacked(args, i, abi, vararg), A64Free(args, i, abi, vararg, false));
      k < |st| && st[k] == Store(RoundUp(free, Room(args, i, abi)), Written(args, i, abi))
  }

  function AtMost8(n: nat): nat { if n < 8 then n else 8 }

  // The registers used, and whether arguments are still packed, after the first n arguments.
  ghost predicate A64Regs(args: seq<Arg>, n: nat, abi: Abi, vararg: bool, gpr: nat, fpr: nat, spalign: nat)
    requires n <= |args|
  {
    var win := abi == Win && vararg;
    && spalign == (if abi == Osx && !Behind(args, n, abi) then 0 else 7)
    && gpr == (if Behind(args, n, abi) then 8 else AtMost8(A64Gprs(args, n, win)))
    && fpr == (if Behind(args, n, abi) || win then 8 else AtMost8(CountFp(args, n)))
  }

  ghost predicate A64After(args: seq<Arg>, n: nat, abi: Abi, vararg: bool, u: A64Use)
    requires n <= |args| && ValidArgs(args)
  {
    && A64Regs(args, n, abi, vararg, u.gpr, u.fpr, u.spalign)
    && u.spofs == A64Free(args, n, abi, vararg, false) && |u.st| == A64Stacked(args, n, abi, vararg)
    && forall i :: 0 <= i < n ==> A64Placed(args, i, abi, vararg, u.st)
  }

  // One more argument.
  lemma BehindNext(args: seq<Arg>, n: nat, abi: Abi)
    requires n < |args|
    ensures Behind(args, n + 1, abi) <==> Behind(args, n, abi) || (abi == Osx && args[n].Zero?)
  {
    assert args[..n + 1] == args[..n] + [args[n]];
  }

  lemma {:induction false} A64Run(args: seq<Arg>, n: nat, abi: Abi, vararg: bool)
    requires n <= |args| && ValidArgs(args)
    ensures A64After(args, n, abi, vararg, A64UseArgs(args[..n], abi, vararg))
    decreases n
  {
    hide A64UseStep;
    if n == 0 {
      assert args[..0] == [];
    } else {
      A64Run(args, n - 1, abi, vararg);
      UseNext(args, n - 1, abi, vararg);
      A64Step(args, n - 1, abi, vararg, A64UseArgs(args[..n - 1], abi, vararg));
    }
  }

  lemma A64Step(args: seq<Arg>, n: nat, abi: Abi, vararg: bool, u: A64Use)
    requires n < |args| && ValidArgs(args) && A64After(args, n, abi, vararg, u)
    ensures A64After(args, n + 1, abi, vararg, A64UseStep(u, args[n], abi, vararg))
  {
    assert u.spalign in {0, 7};
    hide A64Placed, A64Regs;
    var u' := A64UseStep(u, args[n], abi, vararg);
    RegsStep(args, n, abi, vararg, u);
    OffsetStep(args, n, abi, vararg, u);
    hide A64UseStep, A64Free, A64Stacked;
    forall i | 0 <= i < n ensures A64Placed(args, i, abi, vararg, u'.st) {
      A64Kept(args, i, abi, vararg, u.st, u'.st);
    }
  }

  lemma A64Kept(args: seq<Arg>, i: nat, abi: Abi, vararg: bool, st: seq<Store>, st': seq<Store>)
    requires i < |args| && ValidArgs(args) && A64Placed(args, i, abi, vararg, st) && st <= st'
    ensures A64Placed(args, i, abi, vararg, st')
  {
    hide A64Stored, A64Free, A64Stacked, Room, Written, RoundUp;
  }

  lemma RegsStep(args: seq<Arg>, n: nat, abi: Abi, vararg: bool, u: A64Use)
    requires n < |args| && ValidArgs(args) && A64Regs(args, n, abi, vararg, u.gpr, u.fpr, u.spalign)
    ensures var u' := A64UseStep(u, args[n], abi, vararg);
      A64Regs(args, n + 1, abi, vararg, u'.gpr, u'.fpr, u'.spalign) && u.st <= u'.st
  {
    BehindNext(args, n, abi);
    hide Behind, AlignUp, AlignOf;
  }

  lemma OffsetStep(args: seq<Arg>, n: nat, abi: Abi, vararg: bool, u: A64Use)
    requires n < |args| && ValidArgs(args) && A64After(args, n, abi, vararg, u)
    ensures var u' := A64UseStep(u, args[n], abi, vararg);
      && u'.spofs == A64Free(args, n + 1, abi, vararg, false) && |u'.st| == A64Stacked(args, n + 1, abi, vararg)
      && A64Placed(args, n, abi, vararg, u'.st)
  {
    RoomIs(args, n, abi, u.spalign, u.spofs);
    InRegIs(args, n, abi, vararg, u);
    hide Behind, AlignUp, AlignOf, RoundUp, Room, Written, A64InReg, A64Regs;
    var a := args[n];
    var al := AlignOf(a, u.spalign, abi);
    if A64Stored(args, n, abi, vararg) {
      assert A64UseStep(u, a, abi, vararg).st == u.st + [Store(AlignUp(u.spofs, al), Written(args, n, abi))];
    }
  }

  lemma RoomIs(args: seq<Arg>, n: nat, abi: Abi, spalign: nat, x: nat)
    requires n < |args| && ValidArgs(args) && spalign == if abi == Osx && !Behind(args, n, abi) then 0 else 7
    ensures var al := AlignOf(args[n], spalign, abi);
      && al + 1 == Room(args, n, abi) && AlignUp(x, al) == RoundUp(x, Room(args, n, abi))
      && (args[n].Fp? ==> Written(args, n, abi) == if args[n].isnum then 8 else 4)
      && (args[n].Int? ==> Written(args, n, abi) == if al >= 3 then (if args[n].size == 8 then 8 else 4) else al + 1)
  {
    hide Behind;
  }

  lemma InRegIs(args: seq<Arg>, n: nat, abi: Abi, vararg: bool, u: A64Use)
    requires n < |args| && A64Regs(args, n, abi, vararg, u.gpr, u.fpr, u.spalign)
    ensures args[n].Fp? ==> (A64InReg(args, n, abi, vararg) <==> u.fpr < 8 || (abi == Win && vararg && u.gpr < 8))
    ensures args[n].Int? ==> (A64InReg(args, n, abi, vararg) <==> u.gpr < 8)
  {
    hide Behind;
  }

  // Every argument without a register has its stack slot, and there are no other stores.
  lemma A64ArgsPlaced(args: seq<Arg>, abi: Abi, vararg: bool)
    requires ValidArgs(args)
    ensures var st := A64UseArgs(args, abi, vararg).st;
      && |st| == A64Stacked(args, |args|, abi, vararg)
      && forall i :: 0 <= i < |args| ==> A64Placed(args, i, abi, vararg, st)
  {
    assert args[..|args|] == args;
    A64Run(args, |args|, abi, vararg);
    hide A64Placed, A64UseArgs, A64Stacked, A64Regs, A64Free;
  }

  // The bytes counted beforehand are those that are used, with the fillers on top.
  lemma {:induction false} A64CountRun(args: seq<Arg>, n: nat, abi: Abi, vararg: bool)
    requires n <= |args| && ValidArgs(args)
    ensures var c := A64CountArgs(args[..n], abi, vararg);
      && c.spofs == A64Free(args, n, abi, vararg, true) && c.ngpr <= 8 && c.nfpr <= 8
      && A64Regs(args, n, abi, vararg, 8 - c.ngpr, 8 - c.nfpr, c.spalign)
    decreases n
  {
    hide A64CountStep;
    if n == 0 {
      assert args[..0] == [];
    } else {
      A64CountRun(args, n - 1, abi, vararg);
      A64CountSnoc(args, n - 1, abi, vararg);
      A64CountNext(args, n - 1, abi, vararg, A64CountArgs(args[..n - 1], abi, vararg));
    }
  }

  lemma A64CountNext(args: seq<Arg>, n: nat, abi: Abi, vararg: bool, c: A64Count)
    requires n < |args| && ValidArgs(args) && c.ngpr <= 8 && c.nfpr <= 8
    requires c.spofs == A64Free(args, n, abi, vararg, true)
    requires A64Regs(args, n, abi, vararg, 8 - c.ngpr, 8 - c.nfpr, c.spalign)
    ensures var c' := A64CountStep(c, args[n], abi, vararg);
      && c'.spofs == A64Free(args, n + 1, abi, vararg, true) && c'.ngpr <= 8 && c'.nfpr <= 8
      && A64Regs(args, n + 1, abi, vararg, 8 - c'.ngpr, 8 - c'.nfpr, c'.spalign)
  {
    var u := A64Use(8 - c.ngpr, 8 - c.nfpr, 0, c.spalign, []);
    BehindNext(args, n, abi);
    RoomIs(args, n, abi, c.spalign, c.spofs);
    InRegIs(args, n, abi, vararg, u);
    hide Behind, AlignUp, AlignOf, RoundUp, Room, A64InReg;
  }

  lemma A64CountExact(args: seq<Arg>, abi: Abi, vararg: bool)
    requires ValidArgs(args)
    ensures A64CountArgs(args, abi, vararg).spofs == A64Free(args, |args|, abi, vararg, true)
  {
    assert args[..|args|] == args;
    A64CountRun(args, |args|, abi, vararg);
    hide A64CountArgs, A64Free, A64Regs;
  }
}
