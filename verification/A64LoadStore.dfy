// ARM64 load/store emission with fusion of neighbours into LDP/STP (emit_lso).
module A64LoadStore {
  import opened ModArith
  import opened Words

  // Register 31 is SP as a base and the zero register as data.
  type Reg = r: nat | r < 32

  // Data size in bytes is 1 << sc.
  datatype Kind = Kind(load: bool, fp: bool, sc: nat)

  predicate IsKind(k: Kind) { k.sc < 4 && (k.fp ==> k.sc >= 2) }

  function SizeOf(sc: nat): (n: nat)
    requires sc < 4
    ensures n in {1, 2, 4, 8}
  {
    if sc == 0 then 1 else if sc == 1 then 2 else if sc == 2 then 4 else 8
  }

  // A64I_LDRB .. A64I_STRd
  function Ai(k: Kind): nat
    requires IsKind(k)
  {
    0x4000_0000 * k.sc + 0x3900_0000 + (if k.fp then 0x0400_0000 else 0) + (if k.load then 0x0040_0000 else 0)
  }

  const A64I_LS_U: nat := 0x0100_0000

  // -- Words and their meaning (Arm ARM, load/store register and register pair) -----

  // Accesses with a write-back leave the address in the base register: of the access itself (pre-indexed)
  // or behind it (post-indexed). The no-allocate pair only differs in a hint.
  datatype Access = Single(k: Kind, rt: Reg, rn: Reg, ofs: int)
                  | SingleIndexed(k: Kind, rt: Reg, rn: Reg, ofs: int, pre: bool)
                  | Pair(k: Kind, rt: Reg, rt2: Reg, rn: Reg, ofs: int)
                  | PairNoAlloc(k: Kind, rt: Reg, rt2: Reg, rn: Reg, ofs: int)
                  | PairIndexed(k: Kind, rt: Reg, rt2: Reg, rn: Reg, ofs: int, pre: bool)
                  | Other

  function SignExt(x: nat, half: nat): int { if x < half then x else x - 2 * half }

  // Load/store register: size in bits 31..30, 111 in bits 29..27, V in bit 26. Bits 25..24 are 01 for a
  // scaled unsigned offset; they are 00, with bit 21 clear, for the signed offset of nine bits, which bits
  // 11..10 make unscaled or indexed. The opc field in bits 23..22 is 00 for stores and 01 for loads.
  function DecodeSingle(size: nat, v: nat, mode: nat, opc: nat, low: nat): Access
    requires size < 4
  {
    var k, rt, rn := Kind(opc == 1, v == 1, size), low % 32, low / 32 % 32;
    var imm9 := SignExt(low / 0x1000 % 0x200, 0x100);
    if opc >= 2 || (v == 1 && size < 2) then Other
    else if mode == 1 then
      Single(k, rt, rn, low / 0x400 % 0x1000 * (match size case 0 => 1 case 1 => 2 case 2 => 4 case _ => 8))
    else if mode != 0 || low / 0x20_0000 % 2 != 0 then Other
    else match low / 0x400 % 4
      case 0 => Single(k, rt, rn, imm9)
      case 1 => SingleIndexed(k, rt, rn, imm9, false)
      case 3 => SingleIndexed(k, rt, rn, imm9, true)
      case _ => Other
  }

  // Load/store pair: opc in bits 31..30, 101 in bits 29..27, V in bit 26, the addressing mode in bits
  // 25..23, L in bit 22 and a signed offset of seven bits, scaled by the size.
  function DecodePairFields(opc: nat, v: nat, mode: nat, l: nat, low: nat): Access {
    var rt, rt2, rn := low % 32, low / 0x400 % 32, low / 32 % 32;
    var sc := if v == 0 then (if opc == 2 then 3 else 2) else if opc == 1 then 3 else 2;
    var k, ofs := Kind(l == 1, v == 1, sc), SignExt(low / 0x8000 % 0x80, 0x40) * (if sc == 3 then 8 else 4);
    if opc > (if v == 0 then 2 else 1) || (v == 0 && opc == 1) then Other
    else match mode
      case 0 => PairNoAlloc(k, rt, rt2, rn, ofs)
      case 1 => PairIndexed(k, rt, rt2, rn, ofs, false)
      case 2 => Pair(k, rt, rt2, rn, ofs)
      case 3 => PairIndexed(k, rt, rt2, rn, ofs, true)
      case _ => Other
  }

  // From bits 22..31 and the bits below.
  function DecodeFields(top: nat, low: nat): Access
    requires top < 0x400
  {
    if top / 32 % 8 == 7 then DecodeSingle(top / 256, top / 16 % 2, top / 4 % 4, top % 4, low)
    else if top / 32 % 8 == 5 then DecodePairFields(top / 256, top / 16 % 2, top / 2 % 8, top % 2, low)
    else Other
  }

  function Decode(w: nat): Access {
    if w / 0x40_0000 < 0x400 then DecodeFields(w / 0x40_0000, w % 0x40_0000) else Other
  }

  // ai ^ 0x50000000 for 64-bit general registers and ai ^ 0x90000000 otherwise; every bit that is
  // flipped is set in ai.
  function PairOp(k: Kind): nat
    requires IsKind(k) && k.sc >= 2
  {
    if !k.fp && k.sc == 3 then Ai(k) - 0x5000_0000 else Ai(k) - 0x9000_0000
  }

  // -- Machine state and execution ---------------------------------------------

  // x[31] is SP. Memory maps a 64-bit address to a byte.
  datatype State = State(x: seq<int>, f: seq<int>, mem: int -> int)

  predicate IsState(s: State) { |s.x| == 32 && |s.f| == 32 }

  function Addr(s: State, rn: Reg, ofs: int): int
    requires IsState(s)
  {
    (s.x[rn] + ofs) % TWO64
  }

  // Little-endian value of n bytes.
  function LoadN(mem: int -> int, a: int, n: nat): int
    decreases n
  {
    if n == 0 then 0 else mem(a % TWO64) + 256 * LoadN(mem, a + 1, n - 1)
  }

  function ByteOf(v: int, i: nat): int
    decreases i
  {
    if i == 0 then v % 256 else ByteOf(v / 256, i - 1)
  }

  function StoreN(mem: int -> int, a: int, n: nat, v: int): int -> int {
    k => if Within(k, a, n) then ByteOf(v, (k - a) % TWO64) else mem(k)
  }

  // Address k is one of the n bytes from a on, with wrap-around.
  predicate Within(k: int, a: int, n: nat) { (k - a) % TWO64 < n }

  // 256 to the power of n, and v without its lowest i bytes.
  function Pow256(n: nat): (r: nat)
    ensures r > 0
  {
    if n == 0 then 1 else 256 * Pow256(n - 1)
  }

  function Upper(v: int, i: nat): int
    decreases i
  {
    if i == 0 then v else Upper(v / 256, i - 1)
  }

  // Memory gives back what was stored: the low n bytes of the value.
  lemma StoredIsLoaded(mem: int -> int, a: int, n: nat, v: int)
    requires n <= 8
    ensures LoadN(StoreN(mem, a, n, v), a, n) == v % Pow256(n)
  {
    StoredFrom(mem, a, n, v, 0);
  }

  lemma {:induction false} StoredFrom(mem: int -> int, a: int, n: nat, v: int, i: nat)
    requires i <= n <= 8
    ensures LoadN(StoreN(mem, a, n, v), a + i, n - i) == Upper(v, i) % Pow256(n - i)
    decreases n - i
  {
    if i < n {
      StoredFrom(mem, a, n, v, i + 1);
      NthByte(v, i);
      ByteRead(mem, a, n, v, i);
      LowestByte(Upper(v, i), Pow256(n - i - 1));
      FirstLoaded(StoreN(mem, a, n, v), a + i, n - i);
      assert a + i + 1 == a + (i + 1) && n - i - 1 == n - (i + 1);
      hide LoadN, StoreN, ByteOf, Upper;
      assert Pow256(n - i) == 256 * Pow256(n - i - 1);
      hide Pow256;
    }
  }

  lemma FirstLoaded(mem: int -> int, a: int, n: nat)
    requires n > 0
    ensures LoadN(mem, a, n) == mem(a % TWO64) + 256 * LoadN(mem, a + 1, n - 1)
  {
  }

  lemma ByteRead(mem: int -> int, a: int, n: nat, v: int, i: nat)
    requires i < n <= 8
    ensures StoreN(mem, a, n, v)((a + i) % TWO64) == ByteOf(v, i)
  {
    var k := (a + i) % TWO64;
    AddMod(a + i, 0 - a, TWO64);
    assert k - a == k + (0 - a) && (k - a) % TWO64 == i;
    assert Within(k, a, n);
    assert StoreN(mem, a, n, v)(k) == ByteOf(v, (k - a) % TWO64);
  }

  lemma {:induction false} NthByte(v: int, i: nat)
    ensures ByteOf(v, i) == Upper(v, i) % 256 && Upper(v, i + 1) == Upper(v, i) / 256
    decreases i
  {
    if i > 0 { NthByte(v / 256, i - 1); }
  }

  lemma LowestByte(x: int, p: nat)
    requires p > 0
    ensures x % (256 * p) == x % 256 + 256 * (x / 256 % p)
  {
    var q, t := x / 256, x / 256 / p;
    assert q == t * p + q % p;
    assert x == t * (256 * p) + (x % 256 + 256 * (q % p));
    ModUnique(x, 256 * p, t, x % 256 + 256 * (q % p));
  }

  // A data register as source (the zero register reads as zero) and as destination.
  function Get(s: State, k: Kind, r: Reg): int
    requires IsState(s)
  {
    if k.fp then s.f[r] else if r == 31 then 0 else s.x[r]
  }

  function Set(s: State, k: Kind, r: Reg, v: int): (s': State)
    requires IsState(s)
    ensures IsState(s')
  {
    if k.fp then s.(f := s.f[r := v]) else if r == 31 then s else s.(x := s.x[r := v])
  }

  function ExecSingle(s: State, k: Kind, rt: Reg, a: int): (s': State)
    requires IsState(s) && IsKind(k)
    ensures IsState(s')
  {
    if k.load then Set(s, k, rt, LoadN(s.mem, a, SizeOf(k.sc)))
    else s.(mem := StoreN(s.mem, a, SizeOf(k.sc), Get(s, k, rt)))
  }

  // Base register of a write-back.
  function WriteBack(s: State, rn: Reg, ofs: int): (s': State)
    requires IsState(s)
    ensures IsState(s')
  {
    s.(x := s.x[rn := Addr(s, rn, ofs)])
  }

  // Both addresses of a pair come from the base before anything is loaded. A load pair with two
  // equal destinations is unpredictable and not covered.
  function Exec(i: Access, s: State): (s': State)
    requires IsState(s) && !i.Other? && IsKind(i.k)
    ensures IsState(s')
  {
    match i
    case Single(k, rt, rn, ofs) => ExecSingle(s, k, rt, Addr(s, rn, ofs))
    case SingleIndexed(k, rt, rn, ofs, pre) =>
      WriteBack(ExecSingle(s, k, rt, Addr(s, rn, if pre then ofs else 0)), rn, ofs)
    case Pair(k, rt, rt2, rn, ofs) => ExecPair(s, k, rt, rt2, rn, ofs)
    case PairNoAlloc(k, rt, rt2, rn, ofs) => ExecPair(s, k, rt, rt2, rn, ofs)
    case PairIndexed(k, rt, rt2, rn, ofs, pre) =>
      WriteBack(ExecPair(s, k, rt, rt2, rn, if pre then ofs else 0), rn, ofs)
  }

  function ExecPair(s: State, k: Kind, rt: Reg, rt2: Reg, rn: Reg, ofs: int): (s': State)
    requires IsState(s) && IsKind(k)
    ensures IsState(s')
  {
    var a, b := Addr(s, rn, ofs), Addr(s, rn, ofs + SizeOf(k.sc));
    if k.load then
      var u, v := LoadN(s.mem, a, SizeOf(k.sc)), LoadN(s.mem, b, SizeOf(k.sc));
      Set(Set(s, k, rt, u), k, rt2, v)
    else
      var t := s.(mem := StoreN(s.mem, a, SizeOf(k.sc), Get(s, k, rt)));
      t.(mem := StoreN(t.mem, b, SizeOf(k.sc), Get(s, k, rt2)))
  }

  ghost predicate Same(s: State, t: State) {
    s.x == t.x && s.f == t.f && forall a: int :: s.mem(a) == t.mem(a)
  }

  // Distinct loads of a pair need distinct destinations (or the zero register).
  predicate Distinct(k: Kind, r1: Reg, r2: Reg) { k.load ==> r1 != r2 }

  lemma DisjointBytes(x: int, n: nat, k: int)
    requires 0 < n <= 8
    ensures !(Within(k, x % TWO64, n) && Within(k, (x + n) % TWO64, n))
  {
    var d := (k - x) % TWO64;
    SubMod(k, x, TWO64);
    SubMod(k, x + n, TWO64);
    AddMod(k - x, 0 - n as int, TWO64);
    assert (d - n) % TWO64 == if d >= n then d - n else d - n + TWO64;
  }

  // Two neighbouring accesses of the same kind from the same base: the pair does the same as
  // the two in either order, whichever of them has the lower address.
  lemma PairMeaning(s: State, k: Kind, lo: Reg, hi: Reg, rn: Reg, ofs: int, lowFirst: bool)
    requires IsState(s) && IsKind(k) && Distinct(k, lo, hi)
    requires k.load ==> (if lowFirst then lo else hi) != rn
    ensures var n := SizeOf(k.sc);
      var a, b := Single(k, lo, rn, ofs), Single(k, hi, rn, ofs + n);
      Same(Exec(Pair(k, lo, hi, rn, ofs), s), if lowFirst then Exec(b, Exec(a, s)) else Exec(a, Exec(b, s)))
  {
    hide LoadN;
    if k.load { hide Addr; LoadPair(s, k, lo, hi, rn, ofs, lowFirst); } else { StorePair(s, k, lo, hi, rn, ofs); }
  }

  lemma LoadPair(s: State, k: Kind, lo: Reg, hi: Reg, rn: Reg, ofs: int, lowFirst: bool)
    requires IsState(s) && IsKind(k) && k.load && lo != hi && (if lowFirst then lo else hi) != rn
    ensures var n := SizeOf(k.sc);
      var a, b := Single(k, lo, rn, ofs), Single(k, hi, rn, ofs + n);
      Exec(Pair(k, lo, hi, rn, ofs), s) == if lowFirst then Exec(b, Exec(a, s)) else Exec(a, Exec(b, s))
  {
    hide LoadN, SizeOf;
    var n := SizeOf(k.sc);
    var first := if lowFirst then lo else hi;
    var u := LoadN(s.mem, Addr(s, rn, if lowFirst then ofs else ofs + n), n);
    assert Set(s, k, first, u).mem == s.mem && Set(s, k, first, u).x[rn] == s.x[rn];
    if !lowFirst { SetCommutes(s, k, lo, hi, LoadN(s.mem, Addr(s, rn, ofs), n), u); }
  }

  lemma SetCommutes(s: State, k: Kind, p: Reg, q: Reg, u: int, v: int)
    requires IsState(s) && p != q
    ensures Set(Set(s, k, p, u), k, q, v) == Set(Set(s, k, q, v), k, p, u)
  {
  }

  lemma StorePair(s: State, k: Kind, lo: Reg, hi: Reg, rn: Reg, ofs: int)
    requires IsState(s) && IsKind(k) && !k.load
    ensures var n := SizeOf(k.sc);
      var a, b := Single(k, lo, rn, ofs), Single(k, hi, rn, ofs + n);
      var pair := Exec(Pair(k, lo, hi, rn, ofs), s);
      Same(pair, Exec(b, Exec(a, s))) && Same(pair, Exec(a, Exec(b, s)))
  {
    hide ByteOf;
    var n := SizeOf(k.sc);
    var p, q := Addr(s, rn, ofs), Addr(s, rn, ofs + n);
    var a, b := Single(k, lo, rn, ofs), Single(k, hi, rn, ofs + n);
    var pair, ba := Exec(Pair(k, lo, hi, rn, ofs), s), Exec(a, Exec(b, s));
    forall x: int ensures pair.mem(x) == ba.mem(x) {
      DisjointBytes(s.x[rn] + ofs, n, x);
    }
  }

  // -- Encoders and their decoding ----------------------------------------------

  function WordU12(k: Kind, x: nat, rn: Reg, rt: Reg): nat
    requires IsKind(k)
  {
    Ai(k) + x * 1024 + rn * 32 + rt
  }

  function WordS9(k: Kind, ofs: int, rn: Reg, rt: Reg): nat
    requires IsKind(k)
  {
    Ai(k) - A64I_LS_U + ofs % 512 * 4096 + rn * 32 + rt
  }

  // q counts data sizes
  function WordPair(k: Kind, q: int, rn: Reg, rt: Reg, rt2: Reg): nat
    requires IsKind(k) && k.sc >= 2
  {
    PairOp(k) + q % 128 * 0x8000 + rt2 * 1024 + rn * 32 + rt
  }

  lemma Fields(top: nat, low: nat)
    requires low < 0x40_0000
    ensures var w := top * 0x40_0000 + low; w / 0x40_0000 == top && w % 0x40_0000 == low
  {
  }

  // The fields of the upper ten bits.
  lemma TopFields(hi: nat, mid: nat, v: nat, lo: nat)
    requires hi < 4 && mid < 8 && v < 2 && lo < 16
    ensures var top := 256 * hi + 32 * mid + 16 * v + lo;
      && top < 0x400 && top / 256 == hi && top / 32 % 8 == mid && top / 16 % 2 == v
      && top / 4 % 4 == lo / 4 && top % 4 == lo % 4 && top / 2 % 8 == lo / 2 && top % 2 == lo % 2
  {
    LowNibble(16 * hi + 2 * mid + v, lo);
    HighFields(hi, mid, v);
  }

  lemma LowNibble(u: nat, lo: nat)
    requires lo < 16
    ensures var top := 16 * u + lo; top / 16 == u && top / 32 == u / 2 && top / 256 == u / 16
    ensures var top := 16 * u + lo; top / 4 % 4 == lo / 4 && top % 4 == lo % 4
    ensures var top := 16 * u + lo; top / 2 % 8 == lo / 2 && top % 2 == lo % 2
  {
    Quarters(u, lo);
    Halves(u, lo);
  }

  lemma Quarters(u: nat, lo: nat)
    requires lo < 16
    ensures var top := 16 * u + lo; top / 4 % 4 == lo / 4 && top % 4 == lo % 4
  {
    var m, d := lo / 4, lo % 4;
    assert 16 * u + lo == 4 * (4 * u + m) + d;
  }

  lemma Halves(u: nat, lo: nat)
    requires lo < 16
    ensures var top := 16 * u + lo; top / 2 % 8 == lo / 2 && top % 2 == lo % 2
  {
    var m, d := lo / 2, lo % 2;
    assert 16 * u + lo == 2 * (8 * u + m) + d;
  }

  lemma HighFields(hi: nat, mid: nat, v: nat)
    requires hi < 4 && mid < 8 && v < 2
    ensures var u := 16 * hi + 2 * mid + v; u < 64 && u % 2 == v && u / 2 % 8 == mid && u / 16 == hi
  {
    var u := 16 * hi + 2 * mid + v;
    assert u / 2 == 8 * hi + mid;
  }

  function Bit(b: bool): nat { if b then 1 else 0 }

  lemma LowFields(x: nat, rn: Reg, rt: Reg)
    ensures var low := x * 1024 + rn * 32 + rt; low % 32 == rt && low / 32 % 32 == rn && low / 1024 == x
  {
  }

  lemma DecodeU12(k: Kind, x: nat, rn: Reg, rt: Reg)
    requires IsKind(k) && x < 4096
    ensures Decode(WordU12(k, x, rn, rt)) == Single(k, rt, rn, x * SizeOf(k.sc))
  {
    hide DecodeSingle, DecodePairFields;
    TopFields(k.sc, 7, Bit(k.fp), 4 + Bit(k.load));
    var top, low := 256 * k.sc + 224 + 16 * Bit(k.fp) + 4 + Bit(k.load), x * 1024 + rn * 32 + rt;
    SingleU12(k, x, rn, rt);
    assert WordU12(k, x, rn, rt) == top * 0x40_0000 + low;
    hide WordU12;
    Fields(top, low);
  }

  lemma SingleU12(k: Kind, x: nat, rn: Reg, rt: Reg)
    requires IsKind(k) && x < 4096
    ensures var low := x * 1024 + rn * 32 + rt;
      low < 0x40_0000 && DecodeSingle(k.sc, Bit(k.fp), 1, Bit(k.load), low) == Single(k, rt, rn, x * SizeOf(k.sc))
  {
    LowFields(x, rn, rt);
    assert x % 0x1000 == x;
  }

  lemma DecodeS9(k: Kind, ofs: int, rn: Reg, rt: Reg)
    requires IsKind(k) && -256 <= ofs < 256
    ensures Decode(WordS9(k, ofs, rn, rt)) == Single(k, rt, rn, ofs)
  {
    hide DecodeSingle, DecodePairFields;
    TopFields(k.sc, 7, Bit(k.fp), Bit(k.load));
    var top, low := 256 * k.sc + 224 + 16 * Bit(k.fp) + Bit(k.load), ofs % 512 * 4096 + rn * 32 + rt;
    SingleS9(k, ofs, rn, rt);
    assert WordS9(k, ofs, rn, rt) == top * 0x40_0000 + low;
    hide WordS9;
    Fields(top, low);
  }

  lemma SingleS9(k: Kind, ofs: int, rn: Reg, rt: Reg)
    requires IsKind(k) && -256 <= ofs < 256
    ensures var low := ofs % 512 * 4096 + rn * 32 + rt;
      low < 0x40_0000 && DecodeSingle(k.sc, Bit(k.fp), 0, Bit(k.load), low) == Single(k, rt, rn, ofs)
  {
    S9Field(ofs % 512, rn, rt);
    SignExt9(ofs);
    hide SignExt;
  }

  lemma SignExt9(ofs: int)
    requires -256 <= ofs < 256
    ensures 0 <= ofs % 512 < 512 && SignExt(ofs % 512, 256) == ofs
  {
  }

  lemma S9Field(u: nat, rn: Reg, rt: Reg)
    requires u < 512
    ensures var low := u * 4096 + rn * 32 + rt;
      && low < 0x20_0000 && low / 0x20_0000 % 2 == 0 && low % 32 == rt && low / 32 % 32 == rn
      && low / 1024 % 4 == 0 && low / 4096 % 512 == u
  {
    LowFields(u * 4, rn, rt);
    assert (u * 4096 + rn * 32 + rt) / 4096 == u;
  }

  lemma PairFields(q: nat, rn: Reg, rt: Reg, rt2: Reg)
    requires q < 128
    ensures var low := q * 0x8000 + rt2 * 1024 + rn * 32 + rt;
      low < 0x40_0000 && low % 32 == rt && low / 32 % 32 == rn && low / 1024 % 32 == rt2 && low / 0x8000 % 128 == q
  {
    LowFields(q * 32 + rt2, rn, rt);
    assert (q * 0x8000 + rt2 * 1024 + rn * 32 + rt) / 1024 / 32 == q;
  }

  lemma DecodePair(k: Kind, q: int, rn: Reg, rt: Reg, rt2: Reg)
    requires IsKind(k) && k.sc >= 2 && -64 <= q < 64
    ensures Decode(WordPair(k, q, rn, rt, rt2)) == Pair(k, rt, rt2, rn, q * SizeOf(k.sc))
  {
    hide DecodeSingle, DecodePairFields;
    var u, opc := q % 128, if k.fp then k.sc - 2 else 2 * (k.sc - 2);
    TopFields(opc, 5, Bit(k.fp), 4 + Bit(k.load));
    var top := 256 * opc + 160 + 16 * Bit(k.fp) + 4 + Bit(k.load);
    var low := u * 0x8000 + rt2 * 1024 + rn * 32 + rt;
    PairRead(k, q, rn, rt, rt2);
    assert PairOp(k) == top * 0x40_0000 by { PairTop(k); }
    assert WordPair(k, q, rn, rt, rt2) == top * 0x40_0000 + low;
    hide WordPair, PairOp;
    Fields(top, low);
  }

  lemma PairRead(k: Kind, q: int, rn: Reg, rt: Reg, rt2: Reg)
    requires IsKind(k) && k.sc >= 2 && -64 <= q < 64
    ensures var low := q % 128 * 0x8000 + rt2 * 1024 + rn * 32 + rt;
      low < 0x40_0000 && DecodePairFields(if k.fp then k.sc - 2 else 2 * (k.sc - 2), Bit(k.fp), 2, Bit(k.load), low)
        == Pair(k, rt, rt2, rn, q * SizeOf(k.sc))
  {
    SignExt7(q);
    PairFields(q % 128, rn, rt, rt2);
    hide SignExt;
  }

  lemma SignExt7(q: int)
    requires -64 <= q < 64
    ensures 0 <= q % 128 < 128 && SignExt(q % 128, 64) == q
  {
  }

  lemma PairTop(k: Kind)
    requires IsKind(k) && k.sc >= 2
    ensures var opc := if k.fp then k.sc - 2 else 2 * (k.sc - 2);
      PairOp(k) == (256 * opc + 160 + 16 * Bit(k.fp) + 4 + Bit(k.load)) * 0x40_0000
  {
    if k.sc == 2 {} else { assert k.sc == 3; }
  }

  // -- The emitter ---------------------------------------------------------------

  // 1: scaled unsigned offset, -1: unscaled signed offset, 0: not encodable
  function EmitCheckOfs(k: Kind, ofs: int): int
    requires IsKind(k)
  {
    if ofs < 0 || ofs % SizeOf(k.sc) != 0 then (if -256 <= ofs <= 255 then -1 else 0)
    else if ofs < 4096 * SizeOf(k.sc) then 1 else 0
  }

  // Word w is a single access of this kind and offset.
  predicate Accesses(w: nat, k: Kind, ofs: int) { Decode(w).Single? && Decode(w).k == k && Decode(w).ofs == ofs }

  // An offset is accepted if and only if some word of the architecture has it, and the scaled form is used
  // if and only if twelve bits of data sizes reach it.
  lemma CheckOfsExact(k: Kind, ofs: int)
    requires IsKind(k)
    ensures EmitCheckOfs(k, ofs) != 0 <==> exists w: nat :: Accesses(w, k, ofs)
    ensures EmitCheckOfs(k, ofs) == 1 <==> 0 <= ofs < 4096 * SizeOf(k.sc) && ofs % SizeOf(k.sc) == 0
    ensures EmitCheckOfs(k, ofs) in {0, 1, -1}
  {
    hide Decode, WordU12, WordS9, SizeOf;
    if EmitCheckOfs(k, ofs) == 1 {
      var x := ofs / SizeOf(k.sc);
      assert ofs == x * SizeOf(k.sc) && x < 4096 by { Scaled(k, ofs); }
      DecodeU12(k, x, 0, 0);
      assert Accesses(WordU12(k, x, 0, 0), k, ofs);
    } else if EmitCheckOfs(k, ofs) == -1 {
      DecodeS9(k, ofs, 0, 0);
      assert Accesses(WordS9(k, ofs, 0, 0), k, ofs);
    }
    forall w: nat | Accesses(w, k, ofs) ensures EmitCheckOfs(k, ofs) != 0 { SingleInRange(w, k, ofs); }
  }

  lemma Scaled(k: Kind, ofs: nat)
    requires IsKind(k) && ofs % SizeOf(k.sc) == 0 && ofs < 4096 * SizeOf(k.sc)
    ensures ofs == ofs / SizeOf(k.sc) * SizeOf(k.sc) && ofs / SizeOf(k.sc) < 4096
  {
  }

  lemma SingleInRange(w: nat, k: Kind, ofs: int)
    requires IsKind(k) && Accesses(w, k, ofs)
    ensures EmitCheckOfs(k, ofs) != 0
  {
    var x := SingleOffset(w, k, ofs);
    if !(-256 <= ofs < 256) { ScaledOffset(k, x); }
  }

  lemma SingleOffset(w: nat, k: Kind, ofs: int) returns (x: nat)
    requires IsKind(k) && Accesses(w, k, ofs)
    ensures x < 4096 && (-256 <= ofs < 256 || ofs == x * SizeOf(k.sc))
  {
    x := w % 0x40_0000 / 0x400 % 0x1000;
    var imm := w % 0x40_0000 / 0x1000 % 0x200;
  }

  lemma ScaledOffset(k: Kind, x: nat)
    requires IsKind(k) && x < 4096
    ensures EmitCheckOfs(k, x * SizeOf(k.sc)) == 1
  {
  }

  // ai | A64F_N(rn) | A64F_U12(x): an x of 4096 runs into the load bit.
  function OrU12(k: Kind, x: nat, rn: Reg): nat
    requires IsKind(k) && x <= 4096
  {
    if x < 4096 then WordU12(k, x, rn, 0) else WordU12(k.(load := true), 0, rn, 0)
  }

  // The word, without its data register, that the neighbour at ofs would have.
  function PairCandidate(k: Kind, rn: Reg, ofs: int): nat
    requires IsKind(k) && ofs <= 4096 * SizeOf(k.sc)
  {
    if ofs >= 0 then OrU12(k, ofs / SizeOf(k.sc), rn)
    else if ofs >= -256 then WordS9(k, ofs, rn, 0)
    else 31
  }

  // lj_ror on 32 bits: any bit that is shifted out comes back at the top.
  function Ror32(v: int, sc: nat): nat
    requires sc < 4
  {
    var u := v % 0x1_0000_0000;
    u / SizeOf(sc) + u % SizeOf(sc) * (0x1_0000_0000 / SizeOf(sc))
  }

  lemma RorCheck(ofs: int, sc: nat)
    requires 2 <= sc < 4 && -0x1_0000 <= ofs <= 0x1_0000
    ensures Ror32(ofs + 64 * SizeOf(sc), sc) <= 127
       <==> ofs % SizeOf(sc) == 0 && -64 <= ofs / SizeOf(sc) < 64
  {
    if sc == 2 { RorCheck4(ofs); } else { RorCheck8(ofs); }
  }

  lemma RorCheck4(ofs: int)
    requires -0x1_0000 <= ofs <= 0x1_0000
    ensures var u := (ofs + 256) % 0x1_0000_0000;
      u / 4 + u % 4 * 0x4000_0000 <= 127 <==> ofs % 4 == 0 && -64 <= ofs / 4 < 64
  {
    var v := ofs + 256;
    assert v % 0x1_0000_0000 == if v < 0 then v + 0x1_0000_0000 else v;
  }

  lemma RorCheck8(ofs: int)
    requires -0x1_0000 <= ofs <= 0x1_0000
    ensures var u := (ofs + 512) % 0x1_0000_0000;
      u / 8 + u % 8 * 0x2000_0000 <= 127 <==> ofs % 8 == 0 && -64 <= ofs / 8 < 64
  {
    var v := ofs + 512;
    assert v % 0x1_0000_0000 == if v < 0 then v + 0x1_0000_0000 else v;
  }

  lemma MulDiv(q: int, n: nat)
    requires n in {1, 2, 4, 8}
    ensures q * n / n == q && q * n % n == 0
  {
  }

  // A word that equals the candidate is the neighbour, given that its offset is in pair range.
  lemma CandidateIsNeighbour(k: Kind, w: nat, rn: Reg, q: int)
    requires IsKind(k) && k.sc >= 2 && -64 <= q <= 64
    requires q * SizeOf(k.sc) <= 4096 * SizeOf(k.sc)
    requires w - w % 32 == PairCandidate(k, rn, q * SizeOf(k.sc))
    ensures Decode(w) == Single(k, w % 32, rn, q * SizeOf(k.sc))
  {
    hide Decode, Ai, SizeOf;
    var rt, n := w % 32, SizeOf(k.sc);
    MulDiv(q, n);
    assert (w - rt) % 32 == 0;
    if q * n >= 0 {
      assert q >= 0;
      DecodeU12(k, q, rn, rt);
    } else if q * n >= -256 {
      DecodeS9(k, q * n, rn, rt);
    }
  }

  // What fusing has to preserve: the new access runs right before the one it is merged with.
  ghost predicate FusedRight(word: nat, prev: nat, k: Kind, rd: Reg, rn: Reg, ofs: int) {
    var i, p := Decode(word), Decode(prev);
    && i.Pair? && p.Single? && i.k == p.k == k && IsKind(k) && p.rn == rn
    && (p.ofs == ofs - SizeOf(k.sc) || p.ofs == ofs + SizeOf(k.sc))
    && forall s: State :: IsState(s) && Distinct(k, rd, p.rt) ==>
         Same(Exec(i, s), Exec(p, Exec(Single(k, rd, rn, ofs), s)))
  }

  lemma FusedMeaning(word: nat, prev: nat, k: Kind, rd: Reg, rt: Reg, rn: Reg, low: int, below: bool)
    requires IsKind(k) && (k.load ==> rd != rn)
    requires var n := SizeOf(k.sc);
      && Decode(word) == (if below then Pair(k, rt, rd, rn, low) else Pair(k, rd, rt, rn, low))
      && Decode(prev) == Single(k, rt, rn, if below then low else low + n)
    ensures FusedRight(word, prev, k, rd, rn, if below then low + SizeOf(k.sc) else low)
  {
    hide Decode, Exec, Same, SizeOf, Distinct;
    var i, p, ofs := Decode(word), Decode(prev), if below then low + SizeOf(k.sc) else low;
    forall s: State | IsState(s) && Distinct(k, rd, rt)
      ensures Same(Exec(i, s), Exec(p, Exec(Single(k, rd, rn, ofs), s)))
    {
      assert Distinct(k, rt, rd) by { DistinctSym(k, rd, rt); }
      if below { PairMeaning(s, k, rt, rd, rn, low, false); } else { PairMeaning(s, k, rd, rt, rn, low, true); }
    }
  }

  lemma DistinctSym(k: Kind, a: Reg, b: Reg)
    ensures Distinct(k, a, b) <==> Distinct(k, b, a)
  {
  }

  lemma FusedBelow(k: Kind, prev: nat, rd: Reg, rn: Reg, q: int)
    requires IsKind(k) && k.sc >= 2 && -64 <= q < 64 && (k.load ==> rd != rn)
    requires q * SizeOf(k.sc) <= 4096 * SizeOf(k.sc)
    requires prev - prev % 32 == PairCandidate(k, rn, q * SizeOf(k.sc))
    ensures FusedRight(WordPair(k, q, rn, prev % 32, rd), prev, k, rd, rn, q * SizeOf(k.sc) + SizeOf(k.sc))
  {
    hide Decode, WordPair, PairCandidate, FusedRight, SizeOf;
    CandidateIsNeighbour(k, prev, rn, q);
    DecodePair(k, q, rn, prev % 32, rd);
    FusedMeaning(WordPair(k, q, rn, prev % 32, rd), prev, k, rd, prev % 32, rn, q * SizeOf(k.sc), true);
  }

  lemma FusedAbove(k: Kind, prev: nat, rd: Reg, rn: Reg, q: int)
    requires IsKind(k) && k.sc >= 2 && -64 <= q < 64 && (k.load ==> rd != rn)
    requires (q + 1) * SizeOf(k.sc) <= 4096 * SizeOf(k.sc)
    requires prev - prev % 32 == PairCandidate(k, rn, (q + 1) * SizeOf(k.sc))
    ensures FusedRight(WordPair(k, q, rn, rd, prev % 32), prev, k, rd, rn, q * SizeOf(k.sc))
  {
    hide Decode, WordPair, PairCandidate, FusedRight, SizeOf;
    CandidateIsNeighbour(k, prev, rn, q + 1);
    DecodePair(k, q, rn, rd, prev % 32);
    assert (q + 1) * SizeOf(k.sc) == q * SizeOf(k.sc) + SizeOf(k.sc);
    FusedMeaning(WordPair(k, q, rn, rd, prev % 32), prev, k, rd, prev % 32, rn, q * SizeOf(k.sc), false);
  }

  // -- When accesses are fused ------------------------------------------------------

  // What the emitter writes for a single access.
  function EmittedWord(k: Kind, rt: Reg, rn: Reg, ofs: int): nat
    requires IsKind(k) && EmitCheckOfs(k, ofs) != 0
  {
    if EmitCheckOfs(k, ofs) == 1 then WordU12(k, ofs / SizeOf(k.sc), rn, rt) else WordS9(k, ofs, rn, rt)
  }

  // prev is the emitter's own access by rt to the neighbour below or above, in the range of a pair.
  ghost predicate PairsWith(prev: nat, rt: Reg, k: Kind, rd: Reg, rn: Reg, ofs: int, below: bool)
    requires IsKind(k)
  {
    var n := SizeOf(k.sc);
    var (o, low) := if below then (ofs - n, ofs - n) else (ofs + n, ofs);
    && k.sc >= 2 && (k.load ==> rd != rn)
    && low % n == 0 && -64 <= low / n < 64 && EmitCheckOfs(k, o) != 0 && prev == EmittedWord(k, rt, rn, o)
  }

  lemma CandidateIsEmitted(k: Kind, rt: Reg, rn: Reg, q: int)
    requires IsKind(k) && k.sc >= 2 && -64 <= q <= 64 && EmitCheckOfs(k, q * SizeOf(k.sc)) != 0
    requires q * SizeOf(k.sc) <= 4096 * SizeOf(k.sc)
    ensures var w := EmittedWord(k, rt, rn, q * SizeOf(k.sc));
      w % 32 == rt && w - w % 32 == PairCandidate(k, rn, q * SizeOf(k.sc))
  {
    hide Ai, SizeOf, WordU12, WordS9;
    MulDiv(q, SizeOf(k.sc));
    if q * SizeOf(k.sc) >= 0 {
      assert q >= 0;
      U12Low(k, q, rn, rt);
    } else {
      S9Low(k, q * SizeOf(k.sc), rn, rt);
    }
  }

  // The register field is independent of the rest.
  lemma U12Low(k: Kind, x: nat, rn: Reg, rt: Reg)
    requires IsKind(k)
    ensures WordU12(k, x, rn, rt) == WordU12(k, x, rn, 0) + rt && WordU12(k, x, rn, rt) % 32 == rt
  {
    WordLow(Ai(k) + x * 1024, rn, rt);
  }

  lemma S9Low(k: Kind, ofs: int, rn: Reg, rt: Reg)
    requires IsKind(k)
    ensures WordS9(k, ofs, rn, rt) == WordS9(k, ofs, rn, 0) + rt && WordS9(k, ofs, rn, rt) % 32 == rt
  {
    WordLow(Ai(k) - A64I_LS_U + ofs % 512 * 4096, rn, rt);
  }

  lemma WordLow(w: int, rn: Reg, rt: Reg)
    requires w % 1024 == 0
    ensures (w + rn * 32 + rt) % 32 == rt
  {
    var a := w / 1024 * 32 + rn;
    assert w + rn * 32 + rt == 32 * a + rt;
  }

  lemma Multiples(x: int, n: nat)
    requires n in {4, 8} && x % n == 0
    ensures x / n * n == x && (x / n + 1) * n == x + n && (x / n - 1) * n == x - n
  {
  }

  // The candidates for the two neighbours differ, so the first test cannot shadow the second one.
  lemma OneCandidate(k: Kind, w: nat, rn: Reg, q: int)
    requires IsKind(k) && k.sc >= 2 && -64 <= q < 64
    requires (q - 1) * SizeOf(k.sc) <= 4096 * SizeOf(k.sc) && (q + 1) * SizeOf(k.sc) <= 4096 * SizeOf(k.sc)
    requires w - w % 32 == PairCandidate(k, rn, (q + 1) * SizeOf(k.sc))
    ensures PairCandidate(k, rn, (q - 1) * SizeOf(k.sc)) != w - w % 32
  {
    hide Decode, PairCandidate;
    var n := SizeOf(k.sc);
    CandidateIsNeighbour(k, w, rn, q + 1);
    if q - 1 >= -64 {
      if PairCandidate(k, rn, (q - 1) * n) == w - w % 32 { CandidateIsNeighbour(k, w, rn, q - 1); }
    } else {
      FarCandidate(k, rn, n);
    }
  }

  lemma FarCandidate(k: Kind, rn: Reg, n: nat)
    requires IsKind(k) && n in {4, 8}
    ensures PairCandidate(k, rn, -65 * n) == 31
  {
  }

  lemma WillFuse(prev: nat, rt: Reg, k: Kind, rd: Reg, rn: Reg, ofs: int, below: bool)
    requires IsKind(k) && EmitCheckOfs(k, ofs) != 0 && PairsWith(prev, rt, k, rd, rn, ofs, below)
    ensures ofs + SizeOf(k.sc) <= 4096 * SizeOf(k.sc)
    ensures var (n, w) := (SizeOf(k.sc), prev - prev % 32);
      if below then w == PairCandidate(k, rn, ofs - n) && Ror32(ofs - n + 64 * n, k.sc) <= 127
      else w != PairCandidate(k, rn, ofs - n) && w == PairCandidate(k, rn, ofs + n) && Ror32(ofs + 64 * n, k.sc) <= 127
  {
    hide PairCandidate, EmittedWord, Ror32;
    var n := SizeOf(k.sc);
    var low := if below then ofs - n else ofs;
    var q := low / n;
    Multiples(low, n);
    RorCheck(low, k.sc);
    if below {
      CandidateIsEmitted(k, rt, rn, q);
    } else {
      CandidateIsEmitted(k, rt, rn, q + 1);
      OneCandidate(k, prev, rn, q);
    }
  }

  ghost predicate Pairable(prev: nat, k: Kind, rd: Reg, rn: Reg, ofs: int)
    requires IsKind(k)
  {
    exists rt: Reg, below: bool :: PairsWith(prev, rt, k, rd, rn, ofs, below)
  }

  lemma MustFuse(prev: nat, k: Kind, rd: Reg, rn: Reg, ofs: int)
    requires IsKind(k) && EmitCheckOfs(k, ofs) != 0 && Pairable(prev, k, rd, rn, ofs)
    ensures k.sc >= 2 && (k.load ==> rd != rn) && ofs + SizeOf(k.sc) <= 4096 * SizeOf(k.sc)
    ensures var (n, w) := (SizeOf(k.sc), prev - prev % 32);
      || (w == PairCandidate(k, rn, ofs - n) && Ror32(ofs - n + 64 * n, k.sc) <= 127)
      || (w != PairCandidate(k, rn, ofs - n) && w == PairCandidate(k, rn, ofs + n) && Ror32(ofs + 64 * n, k.sc) <= 127)
  {
    hide PairCandidate, Ror32, EmittedWord;
    var rt: Reg, below: bool :| PairsWith(prev, rt, k, rd, rn, ofs, below);
    WillFuse(prev, rt, k, rd, rn, ofs, below);
  }

  lemma PairBelow(k: Kind, prev: nat, rd: Reg, rn: Reg, ofs: int)
    requires IsKind(k) && EmitCheckOfs(k, ofs) != 0 && k.sc >= 2 && (k.load ==> rd != rn)
    requires ofs - SizeOf(k.sc) <= 4096 * SizeOf(k.sc) && prev - prev % 32 == PairCandidate(k, rn, ofs - SizeOf(k.sc))
    requires Ror32(ofs - SizeOf(k.sc) + 64 * SizeOf(k.sc), k.sc) <= 127
    ensures FusedRight(WordPair(k, (ofs - SizeOf(k.sc)) / SizeOf(k.sc), rn, prev % 32, rd), prev, k, rd, rn, ofs)
  {
    hide PairCandidate, Ror32, FusedRight, WordPair;
    OffsetBounds(k, ofs);
    var n := SizeOf(k.sc);
    RorCheck(ofs - n, k.sc);
    assert (ofs - n) / n * n == ofs - n;
    FusedBelow(k, prev, rd, rn, (ofs - n) / n);
  }

  lemma PairAbove(k: Kind, prev: nat, rd: Reg, rn: Reg, ofs: int)
    requires IsKind(k) && EmitCheckOfs(k, ofs) != 0 && k.sc >= 2 && (k.load ==> rd != rn)
    requires ofs + SizeOf(k.sc) <= 4096 * SizeOf(k.sc) && prev - prev % 32 == PairCandidate(k, rn, ofs + SizeOf(k.sc))
    requires Ror32(ofs + 64 * SizeOf(k.sc), k.sc) <= 127
    ensures FusedRight(WordPair(k, ofs / SizeOf(k.sc), rn, rd, prev % 32), prev, k, rd, rn, ofs)
  {
    hide PairCandidate, Ror32, FusedRight, WordPair;
    OffsetBounds(k, ofs);
    var n := SizeOf(k.sc);
    RorCheck(ofs, k.sc);
    assert ofs / n * n == ofs && (ofs / n + 1) * n == ofs + n;
    FusedAbove(k, prev, rd, rn, ofs / n);
  }

  class Asm {
    var code: seq<nat>  // from mcp on, in execution order; never empty
    var mcloop: nat  // number of words from the loop start on; no fusion across it

    // An access next to the one emitted before it becomes a pair.
    method TryPair(k: Kind, rd: Reg, rn: Reg, ofs: int) returns (fused: bool)
      requires IsKind(k) && EmitCheckOfs(k, ofs) != 0 && code != []
      modifies this`code
      ensures fused ==> code != [] && code[1..] == old(code)[1..] && |old(code)| != mcloop
                        && FusedRight(code[0], old(code)[0], k, rd, rn, ofs)
      ensures !fused ==> code == old(code)
      ensures Pairable(old(code)[0], k, rd, rn, ofs) && |old(code)| != mcloop ==> fused
    {
      hide Pairable, Decode, WordPair, PairCandidate, FusedRight, Ror32, EmitCheckOfs, SizeOf;
      if Pairable(code[0], k, rd, rn, ofs) { MustFuse(code[0], k, rd, rn, ofs); }
      var n := SizeOf(k.sc);
      if k.sc >= 2 && (!k.load || rd != rn) && |code| != mcloop {
        OffsetBounds(k, ofs);
        var prev := code[0] - code[0] % 32;
        var ofsm, ofsp := ofs - n, ofs + n;
        if prev == PairCandidate(k, rn, ofsm) {
          if Ror32(ofsm + 64 * n, k.sc) <= 127 {
            PairBelow(k, code[0], rd, rn, ofs);
            code := [WordPair(k, ofsm / n, rn, code[0] % 32, rd)] + code[1..];
            return true;
          }
        } else if prev == PairCandidate(k, rn, ofsp) {
          if Ror32(ofs + 64 * n, k.sc) <= 127 {
            PairAbove(k, code[0], rd, rn, ofs);
            code := [WordPair(k, ofs / n, rn, rd, code[0] % 32)] + code[1..];
            return true;
          }
        }
      }
      return false;
    }

    // A load or store with immediate offset, combined with the previously emitted one if possible.
    method EmitLso(k: Kind, rd: Reg, rn: Reg, ofs: int)
      requires IsKind(k) && EmitCheckOfs(k, ofs) != 0 && code != []
      modifies this`code
      ensures || (|code| == |old(code)| + 1 && code[1..] == old(code) && Decode(code[0]) == Single(k, rd, rn, ofs))
              || (code != [] && code[1..] == old(code)[1..] && |old(code)| != mcloop
                  && FusedRight(code[0], old(code)[0], k, rd, rn, ofs))
      ensures Pairable(old(code)[0], k, rd, rn, ofs) && |old(code)| != mcloop ==> |code| == |old(code)|
    {
      hide Pairable, FusedRight, Decode, WordU12, WordS9;
      var ot, n := EmitCheckOfs(k, ofs), SizeOf(k.sc);
      var fused := TryPair(k, rd, rn, ofs);
      if fused { return; }
      if ot == 1 {
        DecodeU12(k, ofs / n, rn, rd);
        code := [WordU12(k, ofs / n, rn, rd)] + code;
      } else {
        DecodeS9(k, ofs, rn, rd);
        code := [WordS9(k, ofs, rn, rd)] + code;
      }
    }
  }

  lemma OffsetBounds(k: Kind, ofs: int)
    requires IsKind(k) && EmitCheckOfs(k, ofs) != 0
    ensures -256 <= ofs < 4096 * SizeOf(k.sc) && ofs + SizeOf(k.sc) <= 4096 * SizeOf(k.sc)
  {
  }
}
