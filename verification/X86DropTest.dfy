// x86: dropping `test r,r` when the previous instruction already set the flags (asm_intarith).
module X86DropTest {
  import opened Words
  import opened CmpOps
  import opened X86Compare

  // A register test, with an optional REX prefix: its length, or 0.
  function TestLen(s: seq<byte>, p: nat): nat {
    if p + 2 <= |s| && s[p] in {0x84, 0x85} && s[p + 1] >= 0xc0 then 2
    else if p + 3 <= |s| && 0x40 <= s[p] < 0x50 && s[p + 1] in {0x84, 0x85} && s[p + 2] >= 0xc0 then 3
    else 0
  }

  // The condition of the short or near conditional jump at p.
  function JccAt(s: seq<byte>, p: nat): Option<int> {
    if p < |s| && 0x70 <= s[p] < 0x80 then Some(s[p] - 0x70)
    else if p + 1 < |s| && s[p] == 0x0f && 0x80 <= s[p + 1] < 0x90 then Some(s[p + 1] - 0x80)
    else None
  }

  // Where the jump keeps its condition.
  function CcPos(s: seq<byte>, p: nat): nat { if p < |s| && s[p] == 0x0f then p + 1 else p }

  // L <-> S, NL <-> NS
  function NewCc(cc: int): int { if cc >= 12 then cc - 4 else cc }

  // -- The flags of the instruction that computed the register -------------------------------

  datatype Arith = ADD | SUB | AND | OR | XOR

  function BitOp(op: Arith, a: nat, b: nat): nat
    decreases a + b
  {
    if a == 0 && b == 0 then 0
    else
      var x, y := a % 2 == 1, b % 2 == 1;
      var bit := match op case AND => x && y case OR => x || y case _ => x != y;
      (if bit then 1 else 0) + 2 * BitOp(op, a / 2, b / 2)
  }

  function Result(op: Arith, a: nat, b: nat, m: int): nat
    requires m > 0
  {
    match op case ADD => (a + b) % m case SUB => (a - b) % m case _ => BitOp(op, a, b)
  }

  function ArithFlags(op: Arith, a: nat, b: nat, m: int): Flags
    requires m > 0
  {
    match op
    case ADD => AddFlags(a, b, m)
    case SUB => SubFlags(a, b, m)
    case _ => LogicFlags(BitOp(op, a, b), m)
  }

  // The rewritten jump decides on the flags of the operation as the old one did on those of the test.
  predicate SameBranch(cc: int, op: Arith, a: nat, b: nat, m: int)
    requires m > 0
  {
    Cond(NewCc(cc), ArithFlags(op, a, b, m)) == Cond(cc, LogicFlags(Result(op, a, b, m), m))
  }

  ghost predicate AlwaysSame(cc: int) {
    forall op: Arith, a: nat, b: nat, m: int :: IsWidth(m) && a < m && b < m ==> SameBranch(cc, op, a, b, m)
  }

  // The condition looks at neither carry nor overflow, except for the signed orders.
  predicate ReadsNoCarry(cc: int) { cc !in {CC_O, CC_NO, CC_B, CC_AE, CC_BE, CC_A} }

  lemma BranchKept(cc: int, op: Arith, a: nat, b: nat, m: int)
    requires cc in {4, 5, 8, 9, 10, 11, 12, 13} && m > 0
    ensures SameBranch(cc, op, a, b, m)
  {
  }

  // Dropping the test is right exactly for the conditions that do not look at carry or overflow.
  lemma DropExact(cc: int)
    requires 0 <= cc < 14
    ensures AlwaysSame(cc) <==> ReadsNoCarry(cc)
  {
    if cc in {CC_O, CC_NO} {
      assert AddFlags(0x7fff_ffff, 1, TWO32).of;
      assert !SameBranch(cc, ADD, 0x7fff_ffff, 1, TWO32);
    } else if cc in {CC_B, CC_AE, CC_BE, CC_A} {
      assert AddFlags(0xffff_ffff, 2, TWO32).cf;
      assert !SameBranch(cc, ADD, 0xffff_ffff, 2, TWO32);
    } else {
      forall op: Arith, a: nat, b: nat, m: int | IsWidth(m) && a < m && b < m ensures SameBranch(cc, op, a, b, m) {
        BranchKept(cc, op, a, b, m);
      }
    }
  }

  // Whether the jump is taken when the code at p, an optional test of a register that holds x and a
  // conditional jump, is executed with flags f.
  function Jumps(s: seq<byte>, p: nat, f: Flags, x: nat, m: int): Option<bool>
    requires m > 0
  {
    var n := TestLen(s, p);
    match JccAt(s, p + n)
    case None => None
    case Some(cc) => Some(Cond(cc, if n > 0 then LogicFlags(x, m) else f))
  }

  // Behind every operation the code at q in t branches as the code at p in s.
  ghost predicate Alike(s: seq<byte>, p: nat, t: seq<byte>, q: nat) {
    forall op: Arith, a: nat, b: nat, m: int :: IsWidth(m) && a < m && b < m ==>
      var (f, x) := (ArithFlags(op, a, b, m), Result(op, a, b, m));
      Jumps(s, p, f, x, m) == Jumps(t, q, f, x, m)
  }

  lemma JumpsAlike(s: seq<byte>, p: nat, t: seq<byte>, q: nat, cc: int)
    requires TestLen(s, p) > 0 && JccAt(s, p + TestLen(s, p)) == Some(cc)
    requires JccAt(t, q) == Some(NewCc(cc)) && TestLen(t, q) == 0
    ensures Alike(s, p, t, q) <==> AlwaysSame(cc)
  {
    hide TestLen, JccAt, NewCc, ArithFlags, Result, Cond;
    if Alike(s, p, t, q) {
      forall op: Arith, a: nat, b: nat, m: int | IsWidth(m) && a < m && b < m ensures SameBranch(cc, op, a, b, m) {
        var f, x := ArithFlags(op, a, b, m), Result(op, a, b, m);
        assert Jumps(s, p, f, x, m) == Jumps(t, q, f, x, m);
      }
    }
    if AlwaysSame(cc) {
      forall op: Arith, a: nat, b: nat, m: int | IsWidth(m) && a < m && b < m
        ensures var (f, x) := (ArithFlags(op, a, b, m), Result(op, a, b, m));
          Jumps(s, p, f, x, m) == Jumps(t, q, f, x, m)
      {
        assert SameBranch(cc, op, a, b, m);
      }
    }
  }

  method DropTest(code: array<byte>, mcp: nat) returns (dropped: bool, mcp': nat)
    requires TestLen(code[..], mcp) > 0
    requires JccAt(code[..], mcp + TestLen(code[..], mcp)).Some?
    modifies code
    ensures var p := mcp + old(TestLen(code[..], mcp));
      var (q, cc) := (old(CcPos(code[..], p)), old(JccAt(code[..], p)).value);
      && q < code.Length
      && dropped == (cc < 14)
      && (dropped ==> mcp' == p && JccAt(code[..], p) == Some(NewCc(cc))
                      && code[..] == old(code[..])[q := code[q]] && CcPos(code[..], p) == q)
      && (!dropped ==> mcp' == mcp && code[..] == old(code[..]))
      && (Alike(old(code[..]), mcp, code[..], mcp') <==> !dropped || ReadsNoCarry(cc))
  {
    ghost var was := code[..];
    var p := mcp + if code[mcp] < 0x84 then 3 else 2;
    var q := if code[p] == 0x0f then p + 1 else p;
    dropped, mcp' := false, mcp;
    if code[q] % 16 < 14 {
      if code[q] % 16 >= 12 { code[q] := code[q] - 4; }
      dropped, mcp' := true, p;
    }
    if dropped {
      JumpsAlike(was, mcp, code[..], p, was[q] % 16);
      DropExact(was[q] % 16);
    }
  }

  // cc ^= 3 or cc ^= 5 for swapped operands
  function SwapCc(cc: int): int {
    if cc >= 12 then 27 - cc else if cc in {CC_B, CC_BE, CC_AE, CC_A} then 9 - cc else cc
  }

  // A test of a register is only emitted, and may only be dropped later, for these guards; a guard
  // at the end of a loop is negated.
  lemma TestedGuards(op: CmpOp, swapped: bool, inverted: bool)
    ensures var ci := AsmCompMap(op).ci;
      var cc := if swapped then SwapCc(ci) else ci;
      cc / 2 !in {1, 3} ==>
        var g := if inverted then cc + 1 - cc % 2 * 2 else cc;
        g in {CC_E, CC_NE, CC_L, CC_GE, CC_LE, CC_G} && ReadsNoCarry(g)
  {
  }
}
