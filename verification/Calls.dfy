// Stack slots reserved for a C call against the slots the call really stores to.
module Calls {
  // An argument: no reference (a marker or a filler), a float or double, or an integer.
  datatype Arg = Zero | Fp(isnum: bool) | Int(size: nat)

  predicate ValidArg(a: Arg) { a.Int? ==> a.size in {1, 2, 4, 8} }
  ghost predicate ValidArgs(args: seq<Arg>) { forall i :: 0 <= i < |args| ==> ValidArg(args[i]) }

  datatype Store = Store(ofs: int, size: nat)

  // All stores lie in [lo, hi), one behind the other.
  ghost predicate Layout(st: seq<Store>, lo: int, hi: int) {
    && (forall i :: 0 <= i < |st| ==> lo <= st[i].ofs && st[i].ofs + st[i].size <= hi && st[i].size > 0)
    && (forall i, j :: 0 <= i < j < |st| ==> st[i].ofs + st[i].size <= st[j].ofs)
  }

  lemma Extend(st: seq<Store>, lo: int, mid: int, s: Store, hi: int)
    requires Layout(st, lo, mid) && lo <= mid <= s.ofs && s.size > 0 && s.ofs + s.size <= hi
    ensures Layout(st + [s], lo, hi)
  {
  }

  // -- x64 -------------------------------------------------------------------------

  // Registers left to asm_count_call_slots and the 32-bit slots counted so far.
  datatype Count = Count(ngpr: nat, nfpr: nat, nslots: nat)

  // POSIX: six integer and eight FP argument registers.
  function X64Count(args: seq<Arg>): (c: Count)
    ensures c.nslots % 2 == 0
  {
    if args == [] then Count(6, 8, 0) else X64CountStep(X64Count(args[..|args| - 1]), args[|args| - 1])
  }

  function X64CountStep(c: Count, a: Arg): (c': Count)
    ensures c'.nslots % 2 == c.nslots % 2
  {
    if a.Fp? then (if c.nfpr > 0 then c.(nfpr := c.nfpr - 1) else c.(nslots := c.nslots + 2))
    else if c.ngpr > 0 then c.(ngpr := c.ngpr - 1) else c.(nslots := c.nslots + 2)
  }

  method CountCallSlots(args: seq<Arg>, win: bool) returns (nslots: nat)
    ensures nslots == if win then 2 * |args| else X64Count(args).nslots
  {
    if win { return 2 * |args|; }
    var ngpr, nfpr := 6, 8;
    nslots := 0;
    for i := 0 to |args|
      invariant Count(ngpr, nfpr, nslots) == X64Count(args[..i])
    {
      assert args[..i + 1][..i] == args[..i];
      if args[i].Fp? {
        if nfpr > 0 { nfpr := nfpr - 1; } else { nslots := nslots + 2; }
      } else {
        if ngpr > 0 { ngpr := ngpr - 1; } else { nslots := nslots + 2; }
      }
    }
    assert args[..|args|] == args;
  }

  // Argument registers packed five bits each; zero is EAX, never an argument register.
  const REGARG_GPRS: nat := 7 + 32 * (6 + 32 * (2 + 32 * (1 + 32 * (8 + 32 * 9))))
  const REGARG_GPRS_WIN: nat := 1 + 32 * (2 + 32 * (8 + 32 * 9))

  // Packed registers left, next FP register and offset, registers handed out and stack stores.
  datatype Use = Use(gprs: nat, fpr: nat, ofs: int, regs: seq<nat>, st: seq<Store>)

  function StoreSize(a: Arg): nat { if a == Fp(false) then 4 else 8 }

  function X64Use(args: seq<Arg>, win: bool): Use {
    if args == [] then (if win then Use(REGARG_GPRS_WIN, 16, 32, [], []) else Use(REGARG_GPRS, 16, 0, [], []))
    else X64UseStep(X64Use(args[..|args| - 1], win), args[|args| - 1], win)
  }

  function X64UseStep(u: Use, a: Arg, win: bool): Use {
    var lastfpr := if win then 19 else 23;
    var r := if a.Fp? then (if u.fpr <= lastfpr then u.fpr else 0) else u.gprs % 32;
    var gprs := if win || !a.Fp? then u.gprs / 32 else u.gprs;
    var fpr := if win || (a.Fp? && u.fpr <= lastfpr) then u.fpr + 1 else u.fpr;
    if r != 0 then Use(gprs, fpr, u.ofs, u.regs + [r], u.st)
    else Use(gprs, fpr, u.ofs + 8, u.regs, u.st + [Store(u.ofs, StoreSize(a))])
  }

  // The argument setup loop of asm_gencall: the registers it loads and the stack stores it emits.
  method GenCall(args: seq<Arg>, win: bool) returns (regs: seq<nat>, st: seq<Store>)
    ensures regs == X64Use(args, win).regs && st == X64Use(args, win).st
  {
    var ofs: nat, gprs: nat, fpr: nat := if win then 32 else 0, if win then REGARG_GPRS_WIN else REGARG_GPRS, 16;
    regs, st := [], [];
    for n := 0 to |args|
      invariant gprs >= 0
      invariant Use(gprs, fpr, ofs, regs, st) == X64Use(args[..n], win)
    {
      assert args[..n + 1][..n] == args[..n];
      var r;
      if win {
        // every position uses up a register of both kinds
        r := if args[n].Fp? then (if fpr <= 19 then fpr else 0) else gprs % 32;
        fpr, gprs := fpr + 1, gprs / 32;
      } else if args[n].Fp? {
        r := if fpr <= 23 then fpr else 0;
        if fpr <= 23 { fpr := fpr + 1; }
      } else {
        r, gprs := gprs % 32, gprs / 32;
      }
      if r != 0 {
        regs := regs + [r];
      } else {
        st := st + [Store(ofs, StoreSize(args[n]))];
        ofs := ofs + 8;
      }
    }
    assert args[..|args|] == args;
  }

  // The packed list, shifted once for every register that has been handed out.
  function GprsAfter(n: nat, win: bool): nat {
    if n == 0 then (if win then REGARG_GPRS_WIN else REGARG_GPRS) else GprsAfter(n - 1, win) / 32
  }

  lemma {:induction false} GprsLeft(n: nat, win: bool)
    ensures GprsAfter(n, win) % 32 == 0 <==> n >= (if win then 4 else 6)
    ensures n >= 6 ==> GprsAfter(n, win) == 0
    decreases n
  {
    if n == 0 {
    } else if n <= 6 {
      GprsSteps(win);
    } else {
      GprsLeft(n - 1, win);
    }
  }

  lemma GprsSteps(win: bool)
    ensures GprsAfter(1, false) == 6 + 32 * (2 + 32 * (1 + 32 * (8 + 32 * 9)))
    ensures GprsAfter(2, false) == 2 + 32 * (1 + 32 * (8 + 32 * 9))
    ensures GprsAfter(3, false) == 1 + 32 * (8 + 32 * 9)
    ensures GprsAfter(4, false) == 8 + 32 * 9 && GprsAfter(5, false) == 9 && GprsAfter(6, false) == 0
    ensures GprsAfter(1, true) == 2 + 32 * (8 + 32 * 9) && GprsAfter(2, true) == 8 + 32 * 9
    ensures GprsAfter(3, true) == 9 && GprsAfter(4, true) == GprsAfter(5, true) == GprsAfter(6, true) == 0
  {
  }

  predicate Distinct(s: seq<nat>) { forall i, j :: 0 <= i < j < |s| ==> s[i] != s[j] }

  // The n-th integer argument register.
  function ArgReg(n: nat, win: bool): nat {
    if n >= (if win then 4 else 6) then 0
    else if win then [1, 2, 8, 9][n] else [7, 6, 2, 1, 8, 9][n]
  }

  lemma ArgRegIs(n: nat, win: bool)
    ensures GprsAfter(n, win) % 32 == ArgReg(n, win) && GprsAfter(n + 1, win) == GprsAfter(n, win) / 32
  {
    GprsLeft(n, win);
    GprsSteps(win);
  }

  // A register handed out is one of the first n integer or the FP registers below fpr.
  predicate HandedOut(r: nat, n: nat, fpr: nat) {
    if r < 16 then exists j: nat :: j < n && j < 6 && r == ArgReg(j, false) else r < fpr
  }

  // After n integer arguments the registers left are those counted, and every argument has a register
  // or a stack slot.
  ghost predicate PosixInStep(c: Count, u: Use, n: nat, args: nat) {
    && u.gprs == GprsAfter(n, false) && c.ngpr == (if n < 6 then 6 - n else 0)
    && c.nfpr <= 8 && u.fpr == 24 - c.nfpr
    && u.ofs == 4 * c.nslots && Layout(u.st, 0, u.ofs)
    && |u.regs| + |u.st| == args && 2 * |u.st| == c.nslots
    && Distinct(u.regs) && forall i :: 0 <= i < |u.regs| ==> HandedOut(u.regs[i], n, u.fpr)
  }

  lemma PosixStepSim(c: Count, u: Use, n: nat, args: nat, a: Arg)
    requires PosixInStep(c, u, n, args)
    ensures PosixInStep(X64CountStep(c, a), X64UseStep(u, a, false), if a.Fp? then n else n + 1, args + 1)
  {
    hide Layout, GprsAfter, HandedOut;
    ArgRegIs(n, false);
    Extend(u.st, 0, u.ofs, Store(u.ofs, StoreSize(a)), u.ofs + 8);
    var u', n' := X64UseStep(u, a, false), if a.Fp? then n else n + 1;
    forall i | 0 <= i < |u.regs| ensures HandedOut(u.regs[i], n', u'.fpr) && u.regs[i] !in {ArgReg(n, false), u.fpr} {
      NextIsNew(u.regs[i], n, u.fpr, n', u'.fpr);
    }
    if u'.regs != u.regs { NextIsOut(n, u.fpr, n', u'.fpr, a.Fp?); }
  }

  lemma NextIsNew(r: nat, n: nat, fpr: nat, n': nat, fpr': nat)
    requires HandedOut(r, n, fpr) && n <= n' && 16 <= fpr <= fpr'
    ensures HandedOut(r, n', fpr') && r != fpr && (n < 6 ==> r != ArgReg(n, false)) && r != 0
  {
  }

  lemma NextIsOut(n: nat, fpr: nat, n': nat, fpr': nat, fp: bool)
    requires 16 <= fpr && if fp then fpr' == fpr + 1 else n < 6 && n' == n + 1
    ensures HandedOut(if fp then fpr else ArgReg(n, false), n', fpr')
  {
  }

  lemma {:induction false} X64PosixSim(args: seq<Arg>) returns (n: nat)
    ensures PosixInStep(X64Count(args), X64Use(args, false), n, |args|)
    decreases |args|
  {
    hide X64CountStep, X64UseStep;
    if args == [] {
      n := 0;
    } else {
      var pre, a := args[..|args| - 1], args[|args| - 1];
      n := X64PosixSim(pre);
      PosixStepSim(X64Count(pre), X64Use(pre, false), n, |pre|, a);
      n := if a.Fp? then n else n + 1;
    }
  }

  // With the Windows ABI the first four arguments take the registers of their positions.
  function WinReg(a: Arg, i: nat): nat
    requires i < 4
  {
    if a.Fp? then 16 + i else ArgReg(i, true)
  }

  lemma {:induction false} X64WinSim(args: seq<Arg>)
    ensures var u := X64Use(args, true);
      && u.gprs == GprsAfter(|args|, true) && u.fpr == 16 + |args|
      && u.ofs == (if |args| <= 4 then 32 else 8 * |args|) && Layout(u.st, 32, u.ofs)
      && |u.regs| == (if |args| < 4 then |args| else 4) && |u.regs| + |u.st| == |args|
      && forall i :: 0 <= i < |u.regs| ==> u.regs[i] == WinReg(args[i], i)
    decreases |args|
  {
    hide GprsAfter, Layout;
    if args == [] {
      WinStart();
    } else {
      var pre, a := args[..|args| - 1], args[|args| - 1];
      X64WinSim(pre);
      var u := X64Use(pre, true);
      ArgRegIs(|pre|, true);
      Extend(u.st, 32, u.ofs, Store(u.ofs, StoreSize(a)), u.ofs + 8);
    }
  }

  lemma WinStart()
    ensures GprsAfter(0, true) == REGARG_GPRS_WIN && Layout([], 32, 32)
  {
  }

  // Every argument gets a register of its own or a stack slot of its own. All slots lie inside those
  // counted beforehand, for both ABIs; with the Windows ABI also outside the callee's save area.
  lemma X64CallSlots(args: seq<Arg>, win: bool)
    ensures var u := X64Use(args, win);
      && Layout(u.st, if win then 32 else 0, 4 * (if win then 2 * |args| else X64Count(args).nslots))
      && Distinct(u.regs) && |u.regs| + |u.st| == |args|
  {
    hide Layout, Distinct, X64Use, X64Count, WinReg;
    if win {
      X64WinSim(args);
      WinDistinct(args, X64Use(args, true).regs);
      if |args| <= 4 { NoStores(X64Use(args, true).st, 32, 8 * |args|); }
    } else {
      var n := X64PosixSim(args);
    }
  }

  lemma WinDistinct(args: seq<Arg>, regs: seq<nat>)
    requires |regs| <= |args| && |regs| <= 4 && forall i :: 0 <= i < |regs| ==> regs[i] == WinReg(args[i], i)
    ensures Distinct(regs)
  {
  }

  lemma NoStores(st: seq<Store>, lo: int, hi: int)
    requires st == []
    ensures Layout(st, lo, hi)
  {
  }

  // -- PPC -------------------------------------------------------------------------

  // Two slots are always reserved; a stacked FP argument counts as an aligned pair.
  function PpcCount(args: seq<Arg>): Count {
    if args == [] then Count(8, 8, 2) else PpcCountStep(PpcCount(args[..|args| - 1]), args[|args| - 1])
  }

  function PpcCountStep(c: Count, a: Arg): Count {
    if a.Fp? then
      (if c.nfpr > 0 then c.(nfpr := c.nfpr - 1) else c.(nslots := (c.nslots + 3) / 2 * 2))
    else if c.ngpr > 0 then c.(ngpr := c.ngpr - 1) else c.(nslots := c.nslots + 1)
  }

  method PpcSetupCallSlots(args: seq<Arg>, evenspill: nat) returns (evenspill': nat)
    ensures evenspill' >= evenspill && evenspill' >= PpcCount(args).nslots
    ensures evenspill' == evenspill || evenspill' == PpcCount(args).nslots
  {
    var nslots: nat, ngpr: nat, nfpr: nat := 2, 8, 8;
    for i := 0 to |args|
      invariant Count(ngpr, nfpr, nslots) == PpcCount(args[..i])
    {
      assert args[..i + 1][..i] == args[..i];
      if args[i].Fp? {
        if nfpr > 0 { nfpr := nfpr - 1; } else { nslots := (nslots + 3) / 2 * 2; }
      } else {
        if ngpr > 0 { ngpr := ngpr - 1; } else { nslots := nslots + 1; }
      }
    }
    assert args[..|args|] == args;
    evenspill' := if nslots > evenspill then nslots else evenspill;
  }

  datatype RegUse = RegUse(gpr: nat, fpr: nat, ofs: nat, st: seq<Store>)

  // (ofs + 4) & ~4 for a multiple of 4
  function Align8(ofs: nat): nat { if ofs / 4 % 2 == 1 then ofs + 4 else ofs }

  function PpcUse(args: seq<Arg>): RegUse {
    if args == [] then RegUse(0, 0, 8, []) else PpcUseStep(PpcUse(args[..|args| - 1]), args[|args| - 1])
  }

  function PpcUseStep(u: RegUse, a: Arg): RegUse {
    match a
    case Fp(isnum) =>
      if u.fpr < 8 then u.(fpr := u.fpr + 1)
      else
        var ofs, n := if isnum then Align8(u.ofs) else u.ofs, if isnum then 8 else 4;
        u.(ofs := ofs + n, st := u.st + [Store(ofs, n)])
    case Int(_) =>
      if u.gpr < 8 then u.(gpr := u.gpr + 1)
      else u.(ofs := u.ofs + 4, st := u.st + [Store(u.ofs, 4)])
    case Zero =>
      if u.gpr < 8 then u.(gpr := u.gpr + 1) else u.(ofs := u.ofs + 4)
  }

  method PpcGenCall(args: seq<Arg>) returns (st: seq<Store>)
    ensures st == PpcUse(args).st
  {
    var ofs: nat, gpr: nat, fpr: nat := 8, 0, 0;
    st := [];
    for n := 0 to |args|
      invariant RegUse(gpr, fpr, ofs, st) == PpcUse(args[..n])
    {
      assert args[..n + 1][..n] == args[..n];
      if args[n] != Zero {
        if args[n].Fp? {
          if fpr < 8 {
            fpr := fpr + 1;
          } else {
            if args[n].isnum { ofs := Align8(ofs); }
            var size := if args[n].isnum then 8 else 4;
            st := st + [Store(ofs, size)];
            ofs := ofs + size;
          }
        } else if gpr < 8 {
          gpr := gpr + 1;
        } else {
          st := st + [Store(ofs, 4)];
          ofs := ofs + 4;
        }
      } else if gpr < 8 {
        gpr := gpr + 1;
      } else {
        ofs := ofs + 4;
      }
    }
    assert args[..|args|] == args;
  }

  ghost predicate PpcInStep(c: Count, u: RegUse) {
    && c.ngpr + u.gpr == 8 && c.nfpr + u.fpr == 8
    && u.ofs % 4 == 0 && 8 <= u.ofs <= 4 * c.nslots && Layout(u.st, 8, u.ofs)
    && forall i :: 0 <= i < |u.st| && u.st[i].size == 8 ==> u.st[i].ofs % 8 == 0
  }

  lemma PpcAdd(c: Count, c': Count, u: RegUse, ofs: nat, n: nat)
    requires PpcInStep(c, u) && u.ofs <= ofs && n in {4, 8} && ofs % n == 0
    requires ofs + n <= 4 * c'.nslots && c'.ngpr == c.ngpr && c'.nfpr == c.nfpr
    ensures PpcInStep(c', u.(ofs := ofs + n, st := u.st + [Store(ofs, n)]))
  {
    Extend(u.st, 8, u.ofs, Store(ofs, n), ofs + n);
    hide Layout;
  }

  lemma PpcFpStep(c: Count, c': Count, u: RegUse, isnum: bool)
    requires PpcInStep(c, u) && c.nfpr == 0 && c' == c.(nslots := (c.nslots + 3) / 2 * 2)
    ensures var ofs, n := if isnum then Align8(u.ofs) else u.ofs, if isnum then 8 else 4;
      PpcInStep(c', u.(ofs := ofs + n, st := u.st + [Store(ofs, n)]))
  {
    var ofs := if isnum then Align8(u.ofs) else u.ofs;
    PpcAdd(c, c', u, ofs, if isnum then 8 else 4);
    hide Layout;
  }

  lemma PpcIntStep(c: Count, c': Count, u: RegUse)
    requires PpcInStep(c, u) && c' == c.(nslots := c.nslots + 1)
    ensures PpcInStep(c', u.(ofs := u.ofs + 4, st := u.st + [Store(u.ofs, 4)]))
    ensures PpcInStep(c', u.(ofs := u.ofs + 4))
  {
  }

  // The count may run ahead of the offset (a float takes four bytes but is counted as a pair); it
  // never falls behind. Doubles are stored at multiples of eight.
  lemma {:induction false} PpcSim(args: seq<Arg>)
    ensures PpcInStep(PpcCount(args), PpcUse(args))
    decreases |args|
  {
    hide PpcCountStep, PpcUseStep;
    if args != [] {
      var pre, a := args[..|args| - 1], args[|args| - 1];
      PpcSim(pre);
      PpcStepSim(PpcCount(pre), PpcUse(pre), a);
    }
  }

  lemma PpcStepSim(c: Count, u: RegUse, a: Arg)
    requires PpcInStep(c, u)
    ensures PpcInStep(PpcCountStep(c, a), PpcUseStep(u, a))
  {
    hide Layout, Align8;
    var c' := PpcCountStep(c, a);
    if a.Fp? {
      if u.fpr >= 8 { PpcFpStep(c, c', u, a.isnum); }
    } else if u.gpr >= 8 {
      PpcIntStep(c, c', u);
    }
  }

  lemma LayoutGrow(st: seq<Store>, lo: int, hi: int, hi2: int)
    requires Layout(st, lo, hi) && hi <= hi2
    ensures Layout(st, lo, hi2)
  {
  }

  // Every stack argument lies between the reserved words and the end of the counted slots.
  lemma PpcCallSlots(args: seq<Arg>)
    ensures Layout(PpcUse(args).st, 8, 4 * PpcCount(args).nslots)
    ensures forall i :: 0 <= i < |PpcUse(args).st| && PpcUse(args).st[i].size == 8 ==> PpcUse(args).st[i].ofs % 8 == 0
  {
    PpcSim(args);
    LayoutGrow(PpcUse(args).st, 8, PpcUse(args).ofs, 4 * PpcCount(args).nslots);
  }

  // -- ARM64 (little-endian) ---------------------------------------------------------

  datatype Abi = Posix | Osx | Win

  datatype A64Count = A64Count(ngpr: nat, nfpr: nat, spofs: nat, spalign: nat)

  // (x + al) & ~al for al in {0, 1, 3, 7}
  function AlignUp(x: nat, al: nat): nat
    requires al in {0, 1, 3, 7}
  {
    if al == 7 then (x + 7) / 8 * 8 else if al == 3 then (x + 3) / 4 * 4 else if al == 1 then (x + 1) / 2 * 2 else x
  }

  // Alignment mask: an argument takes its natural size only with the macOS ABI.
  function AlignOf(a: Arg, spalign: nat, abi: Abi): (al: nat)
    requires ValidArg(a) && spalign in {0, 7}
    ensures al in {0, 1, 3, 7}
  {
    if abi != Osx || spalign == 7 then spalign
    else match a case Zero => 0 case Fp(isnum) => (if isnum then 7 else 3) case Int(size) => size - 1
  }

  function A64CountStep(c: A64Count, a: Arg, abi: Abi, vararg: bool): (c': A64Count)
    requires ValidArg(a) && c.spalign in {0, 7}
    ensures c'.spalign in {0, 7}
  {
    var bumped := c.(spofs := AlignUp(c.spofs, AlignOf(a, c.spalign, abi)) + AlignOf(a, c.spalign, abi) + 1);
    if a.Zero? then (if abi == Osx then bumped.(nfpr := 0, ngpr := 0, spalign := 7) else bumped)
    else if a.Fp? then
      if c.nfpr > 0 then c.(nfpr := c.nfpr - 1)
      else if abi == Win && vararg && c.ngpr > 0 then c.(ngpr := c.ngpr - 1)
      else bumped
    else if c.ngpr > 0 then c.(ngpr := c.ngpr - 1)
    else bumped
  }

  function A64CountArgs(args: seq<Arg>, abi: Abi, vararg: bool): (c: A64Count)
    requires ValidArgs(args)
    ensures c.spalign in {0, 7}
  {
    if args == [] then A64Count(8, if abi == Win && vararg then 0 else 8, 0, if abi == Osx then 0 else 7)
    else A64CountStep(A64CountArgs(args[..|args| - 1], abi, vararg), args[|args| - 1], abi, vararg)
  }

  method A64SetupCallSlots(args: seq<Arg>, abi: Abi, vararg: bool, evenspill: nat) returns (evenspill': nat)
    requires ValidArgs(args)
    ensures evenspill' >= evenspill
    ensures |args| > 8 || (abi == Osx && vararg) ==> 4 * evenspill' >= A64CountArgs(args, abi, vararg).spofs
    ensures evenspill' == evenspill || evenspill' == (A64CountArgs(args, abi, vararg).spofs + 3) / 4
    ensures |args| <= 8 && !(abi == Osx && vararg) ==> evenspill' == evenspill
  {
    hide AlignUp, AlignOf, Bump, A64CountArgs;
    A64CountNil(abi, vararg);
    evenspill' := evenspill;
    if |args| > 8 || (abi == Osx && vararg) {
      var ngpr: nat, nfpr: nat := 8, 8;
      var spofs: nat, spalign: nat := 0, if abi == Osx then 0 else 7;
      if abi == Win && vararg { nfpr := 0; }
      for i := 0 to |args|
        invariant spalign in {0, 7}
        invariant A64Count(ngpr, nfpr, spofs, spalign) == A64CountArgs(args[..i], abi, vararg)
      {
        A64CountSnoc(args, i, abi, vararg);
        var al := AlignOf(args[i], spalign, abi);
        if args[i].Zero? {
          if abi == Osx { nfpr, ngpr, spalign := 0, 0, 7; }
        } else if args[i].Fp? {
          if nfpr > 0 { nfpr := nfpr - 1; continue; }
          if abi == Win && vararg && ngpr > 0 { ngpr := ngpr - 1; continue; }
        } else {
          if ngpr > 0 { ngpr := ngpr - 1; continue; }
        }
        BumpIsAlign(spofs, al);
        spofs := Bump(spofs, al);
      }
      assert args[..|args|] == args;
      var nslots := (spofs + 3) / 4;
      if nslots > evenspill { evenspill' := nslots; }
    }
  }

  lemma A64CountNil(abi: Abi, vararg: bool)
    ensures A64CountArgs([], abi, vararg)
      == A64Count(8, if abi == Win && vararg then 0 else 8, 0, if abi == Osx then 0 else 7)
  {
  }

  lemma A64CountSnoc(args: seq<Arg>, i: nat, abi: Abi, vararg: bool)
    requires ValidArgs(args) && i < |args|
    ensures A64CountArgs(args[..i + 1], abi, vararg)
      == A64CountStep(A64CountArgs(args[..i], abi, vararg), args[i], abi, vararg)
  {
    assert args[..i + 1][..i] == args[..i];
    hide A64CountStep;
  }

  // Align and bump in one go: (x + 2*al+1) & ~al
  function Bump(x: nat, al: nat): nat
    requires al in {0, 1, 3, 7}
  {
    if al == 7 then (x + 15) / 8 * 8
    else if al == 3 then (x + 7) / 4 * 4
    else if al == 1 then (x + 3) / 2 * 2
    else x + 1
  }

  lemma BumpIsAlign(x: nat, al: nat)
    requires al in {0, 1, 3, 7}
    ensures Bump(x, al) == AlignUp(x, al) + al + 1
  {
    assert (x + 15) / 8 == (x + 7) / 8 + 1;
    assert (x + 7) / 4 == (x + 3) / 4 + 1;
    assert (x + 3) / 2 == (x + 1) / 2 + 1;
  }

  lemma AlignMono(x: nat, y: nat, al: nat)
    requires al in {0, 1, 3, 7} && x <= y
    ensures x <= AlignUp(x, al) <= AlignUp(y, al) && AlignUp(x, al) % (al + 1) == 0
  {
    if al != 0 { MultipleMono(x, y, al + 1); }
  }

  lemma MultipleMono(x: nat, y: nat, n: nat)
    requires n in {2, 4, 8} && x <= y
    ensures x <= (x + n - 1) / n * n <= (y + n - 1) / n * n && (x + n - 1) / n * n % n == 0
  {
    Multiple(x, n);
    Multiple(y, n);
    if n == 2 {
      assert (x + 1) / 2 <= (y + 1) / 2;
    } else if n == 4 {
      assert (x + 3) / 4 <= (y + 3) / 4;
    } else {
      assert (x + 7) / 8 <= (y + 7) / 8;
    }
  }

  lemma Multiple(x: nat, n: nat)
    requires n in {2, 4, 8}
    ensures x <= (x + n - 1) / n * n < x + n && (x + n - 1) / n * n % n == 0
  {
    if n == 2 {} else if n == 4 {} else {}
  }

  datatype A64Use = A64Use(gpr: nat, fpr: nat, spofs: nat, spalign: nat, st: seq<Store>)

  function A64UseStep(u: A64Use, a: Arg, abi: Abi, vararg: bool): (u': A64Use)
    requires ValidArg(a) && u.spalign in {0, 7}
    ensures u'.spalign in {0, 7}
  {
    var al := AlignOf(a, u.spalign, abi);
    var ofs := AlignUp(u.spofs, al);
    var size := match a case Zero => 1 case Fp(isnum) => (if isnum then 8 else 4)
                case Int(n) => if al >= 3 then (if n == 8 then 8 else 4) else al + 1;
    var stored := u.(spofs := ofs + al + 1, st := u.st + [Store(ofs, size)]);
    if a.Zero? then (if abi == Osx then u.(gpr := 8, fpr := 8, spalign := 7) else u)
    else if a.Fp? then
      if u.fpr < 8 then u.(fpr := u.fpr + 1)
      else if abi == Win && vararg && u.gpr < 8 then u.(gpr := u.gpr + 1)
      else stored
    else if u.gpr < 8 then u.(gpr := u.gpr + 1)
    else stored
  }

  function A64UseArgs(args: seq<Arg>, abi: Abi, vararg: bool): (u: A64Use)
    requires ValidArgs(args)
    ensures u.spalign in {0, 7}
  {
    if args == [] then A64Use(0, if abi == Win && vararg then 8 else 0, 0, if abi == Osx then 0 else 7, [])
    else A64UseStep(A64UseArgs(args[..|args| - 1], abi, vararg), args[|args| - 1], abi, vararg)
  }

  lemma UseNone(abi: Abi, vararg: bool)
    ensures A64UseArgs([], abi, vararg) ==
      A64Use(0, if abi == Win && vararg then 8 else 0, 0, if abi == Osx then 0 else 7, [])
  {
  }

  lemma UseNext(args: seq<Arg>, n: nat, abi: Abi, vararg: bool)
    requires ValidArgs(args) && n < |args|
    ensures A64UseArgs(args[..n + 1], abi, vararg) ==
      A64UseStep(A64UseArgs(args[..n], abi, vararg), args[n], abi, vararg)
  {
    hide A64UseStep;
    assert args[..n + 1][..n] == args[..n];
  }

  method A64GenCall(args: seq<Arg>, abi: Abi, vararg: bool) returns (st: seq<Store>)
    requires ValidArgs(args)
    ensures st == A64UseArgs(args, abi, vararg).st
  {
    hide AlignUp, AlignOf, A64UseArgs;
    assert args[..0] == [];
    UseNone(abi, vararg);
    var gpr: nat, fpr: nat := 0, if abi == Win && vararg then 8 else 0;
    var spofs: nat, spalign: nat := 0, if abi == Osx then 0 else 7;
    st := [];
    for n := 0 to |args|
      invariant spalign in {0, 7}
      invariant A64Use(gpr, fpr, spofs, spalign, st) == A64UseArgs(args[..n], abi, vararg)
    {
      UseNext(args, n, abi, vararg);
      match args[n] {
        case Zero =>
          if abi == Osx { gpr, fpr, spalign := 8, 8, 7; }
        case Fp(isnum) =>
          if fpr < 8 {
            fpr := fpr + 1;
          } else if abi == Win && vararg && gpr < 8 {
            gpr := gpr + 1;
          } else {
            var al := AlignOf(args[n], spalign, abi);
            spofs := AlignUp(spofs, al);
            st := st + [Store(spofs, if isnum then 8 else 4)];
            spofs := spofs + al + 1;
          }
        case Int(size) =>
          if gpr < 8 {
            gpr := gpr + 1;
          } else {
            var al := AlignOf(args[n], spalign, abi);
            spofs := AlignUp(spofs, al);
            st := st + [Store(spofs, if al >= 3 then (if size == 8 then 8 else 4) else al + 1)];
            spofs := spofs + al + 1;
          }
      }
    }
    assert args[..|args|] == args;
  }

  ghost predicate InStep(c: A64Count, u: A64Use, abi: Abi) {
    && c.ngpr + u.gpr == 8 && c.nfpr + u.fpr == 8 && c.spalign == u.spalign && c.spalign in {0, 7}
    && (c.spalign == 0 ==> abi == Osx) && u.spofs <= c.spofs && Layout(u.st, 0, u.spofs)
  }

  lemma A64StepSim(c: A64Count, u: A64Use, a: Arg, abi: Abi, vararg: bool)
    requires ValidArg(a) && InStep(c, u, abi)
    ensures InStep(A64CountStep(c, a, abi, vararg), A64UseStep(u, a, abi, vararg), abi)
  {
    hide AlignUp;
    var al := AlignOf(a, c.spalign, abi);
    AlignMono(u.spofs, c.spofs, al);
    var u' := A64UseStep(u, a, abi, vararg);
    if u'.st != u.st {
      var s := u'.st[|u.st|];
      hide AlignOf, Layout;
      Extend(u.st, 0, u.spofs, s, s.ofs + al + 1);
    }
  }

  // The counting loop bumps its offset for a marker, too, so it may run ahead of the other one.
  lemma {:induction false} A64Sim(args: seq<Arg>, abi: Abi, vararg: bool)
    requires ValidArgs(args)
    ensures InStep(A64CountArgs(args, abi, vararg), A64UseArgs(args, abi, vararg), abi)
    decreases |args|
  {
    hide A64CountStep, A64UseStep;
    if args != [] {
      var pre, a := args[..|args| - 1], args[|args| - 1];
      A64Sim(pre, abi, vararg);
      A64StepSim(A64CountArgs(pre, abi, vararg), A64UseArgs(pre, abi, vararg), a, abi, vararg);
    }
  }

  // Without markers at most one register is used per argument.
  lemma {:induction false} A64FewArgs(args: seq<Arg>, abi: Abi, vararg: bool)
    requires ValidArgs(args) && |args| <= 8 && (abi == Osx ==> Zero !in args)
    ensures var u := A64UseArgs(args, abi, vararg);
      && u.st == [] && u.gpr <= |args| && u.fpr <= |args| + (if abi == Win && vararg then 8 else 0)
      && (abi == Win && vararg ==> u.fpr == 8)
    decreases |args|
  {
    if args != [] {
      assert forall x :: x in args[..|args| - 1] ==> x in args;
      A64FewArgs(args[..|args| - 1], abi, vararg);
    }
  }

  // Every stack argument lies inside the reserved slots, whatever was reserved before. Markers
  // only occur in variadic calls.
  lemma A64CallSlots(args: seq<Arg>, abi: Abi, vararg: bool, evenspill: nat)
    requires ValidArgs(args) && (abi == Osx && Zero in args ==> vararg)
    requires |args| > 8 || (abi == Osx && vararg) ==> 4 * evenspill >= A64CountArgs(args, abi, vararg).spofs
    ensures Layout(A64UseArgs(args, abi, vararg).st, 0, 4 * evenspill)
  {
    A64Sim(args, abi, vararg);
    if !(|args| > 8 || (abi == Osx && vararg)) { A64FewArgs(args, abi, vararg); }
  }
}
