// ARM64 logical immediates (K13): the encoder against DecodeBitMasks of the Arm ARM.
module A64Imm {
  import opened Bits
  import opened ModArith

  datatype K13 = NotEncodable | K13(n: nat, immr: nat, imms: nat)

  predicate IsPow2(s: int) { s in {2, 4, 8, 16, 32, 64} }

  // x & (size - 1), which is a remainder only because size is a power of two.
  function LowBits(x: int, size: int): (r: nat)
    requires IsPow2(size)
    ensures r < size
  {
    x % size
  }

  // Start of a run of ones: 64 stands for no rotation.
  function RunStart(n: Word): (rot: nat)
    requires |n| == 64
    ensures rot <= 64
  {
    var t := And(n, Inc(n));
    if true in t then Ctz(t) else 64
  }

  function Normalised(n: Word): (m: Word)
    requires |n| == 64
    ensures |m| == 64
  {
    Ror(n, RunStart(n) % 64)
  }

  // All-zero and all-ones words have no encoding.
  predicate Mixed(n: Word) { true in n && false in n }

  // Length of the run of ones at the bottom of the normalised word.
  function Ones(n: Word): (ones: nat)
    requires |n| == 64 && Mixed(n)
    ensures 0 < ones < 64 && !Normalised(n)[ones] && forall i :: 0 <= i < ones ==> Normalised(n)[i]
  {
    NormalisedEnds(n);
    assert forall i :: 0 <= i < 64 ==> Normalised(n)[i] == !Not(Normalised(n))[i];
    Ctz(Not(Normalised(n)))
  }

  // Number of zeros at its top.
  function Zeros(n: Word): (c: nat)
    requires |n| == 64 && Mixed(n)
    ensures 0 < c < 64 && Normalised(n)[63 - c] && forall i :: 64 - c <= i < 64 ==> !Normalised(n)[i]
  {
    NormalisedEnds(n);
    Clz(Normalised(n))
  }

  function Size(n: Word): nat
    requires |n| == 64 && Mixed(n)
  {
    Zeros(n) + Ones(n)
  }

  predicate Encodable(n: Word)
    requires |n| == 64 && Mixed(n)
  {
    Ror(Normalised(n), Size(n) % 64) == Normalised(n)
  }

  // is64 is false for a constant whose high half is ignored.
  function Widen(n: Word, is64: bool): (r: Word)
    requires |n| == 64
    ensures |r| == 64
  {
    if is64 then n else n[..32] + n[..32]
  }

  function EmitIsk13(n0: Word, is64: bool): (k: K13)
    requires |n0| == 64
  {
    hide Normalised, RunStart, Encodable, Zeros, Ones, Period;
    var n := Widen(n0, is64);
    if !Mixed(n) || !Encodable(n) then NotEncodable
    else
      SizeIsPow2(n);
      // A64F_IMMR(immr | (size & 64)) puts bit 6 of size into the N field
      K13(if Size(n) == 64 then 1 else 0, LowBits(0 - RunStart(n), Size(n)),
          LowBits(0 - 2 * Size(n), 64) + (Ones(n) - 1))
  }

  // -- DecodeBitMasks (Arm ARM, section C3.4.2) ------------------------------

  // Element size from N:NOT(imms); zero for a reserved encoding.
  function ElementSize(n: nat, imms: nat): nat {
    if n == 1 then 64
    else if imms < 32 then 32
    else if imms < 48 then 16
    else if imms < 56 then 8
    else if imms < 60 then 4
    else if imms < 62 then 2
    else 0
  }

  predicate Legal(k: K13) {
    k.K13? && k.n < 2 && k.immr < 64 && k.imms < 64
    && ElementSize(k.n, k.imms) != 0 && k.imms % ElementSize(k.n, k.imms) != ElementSize(k.n, k.imms) - 1
  }

  // S + 1 ones, rotated right by R inside an element and replicated.
  function DecodeBitMasks(k: K13): (r: Word)
    requires Legal(k)
    ensures |r| == 64
  {
    var esize := ElementSize(k.n, k.imms);
    seq(64, i => (i + k.immr) % esize <= k.imms % esize)
  }

  // -- Periods of the cyclic bit pattern --------------------------------------

  function At(m: Word, i: int): bool
    requires |m| == 64
  {
    m[i % 64]
  }

  ghost predicate Period(m: Word, d: int)
    requires |m| == 64
  {
    forall i: int :: At(m, i) == At(m, i + d)
  }

  lemma Mod64Add(i: int, d: int)
    ensures (i % 64 + d % 64) % 64 == (i + d) % 64
  {
  }

  lemma RorAt(m: Word, d: int, i: int)
    requires |m| == 64
    ensures Ror(m, d % 64)[i % 64] == At(m, i + d)
  {
  }

  lemma RorIsPeriod(m: Word, d: int)
    requires |m| == 64
    ensures Ror(m, d % 64) == m <==> Period(m, d)
  {
    hide Ror;
    var r := Ror(m, d % 64);
    if r == m {
      forall i: int ensures At(m, i) == At(m, i + d) { RorAt(m, d, i); }
    }
    if Period(m, d) {
      forall i | 0 <= i < 64 ensures r[i] == m[i] {
        RorAt(m, d, i);
        assert At(m, i) == At(m, i + d);
      }
    }
  }

  // Two periods have a common divisor that is a period, too.
  lemma {:induction false} GcdPeriod(m: Word, a: nat, b: nat) returns (g: nat, p: nat, q: nat)
    requires |m| == 64 && a > 0 && b > 0 && Period(m, a) && Period(m, b)
    ensures g > 0 && p > 0 && q > 0 && a == p * g && b == q * g && Period(m, g)
    decreases a + b
  {
    if a == b {
      return a, 1, 1;
    } else if a > b {
      forall i: int ensures At(m, i) == At(m, i + (a - b)) {
        assert At(m, i - b) == At(m, (i - b) + b) == At(m, (i - b) + a);
      }
      g, p, q := GcdPeriod(m, a - b, b);
      p := p + q;
    } else {
      forall i: int ensures At(m, i) == At(m, i + (b - a)) {
        assert At(m, i - a) == At(m, (i - a) + a) == At(m, (i - a) + b);
      }
      g, p, q := GcdPeriod(m, a, b - a);
      q := p + q;
    }
  }

  lemma {:induction false} MultiplePeriod(m: Word, g: nat, k: nat, i: int)
    requires |m| == 64 && Period(m, g)
    ensures At(m, i) == At(m, i + k * g)
    decreases k
  {
    if k > 0 {
      MultiplePeriod(m, g, k - 1, i);
      assert i + k * g == (i + (k - 1) * g) + g;
    }
  }

  // -- The shape of the normalised word ---------------------------------------

  lemma AndIncBits(n: Word, i: nat)
    requires i < |n|
    ensures And(n, Inc(n))[i] <==> n[i] && exists j :: 0 <= j < i && !n[j]
  {
    IncBits(n, i);
  }

  // The rotation starts at the bottom of a run of ones.
  lemma StartsRun(n: Word)
    requires |n| == 64 && Mixed(n)
    ensures At(n, RunStart(n)) && !At(n, RunStart(n) - 1)
  {
    hide And, Inc, RunStart, Ctz, Mixed;
    var t := And(n, Inc(n));
    StartBits(n, t);
    if true in t { LowestStart(n, t); } else { NoStart(n, t); }
  }

  lemma StartBits(n: Word, t: Word)
    requires |n| == 64 && t == And(n, Inc(n))
    ensures |t| == 64 && RunStart(n) == if true in t then Ctz(t) else 64
    ensures forall i :: 0 <= i < 64 ==> (t[i] <==> n[i] && exists j :: 0 <= j < i && !n[j])
  {
    forall i | 0 <= i < 64 ensures t[i] <==> n[i] && exists j :: 0 <= j < i && !n[j] { AndIncBits(n, i); }
    hide And, Inc, Ctz;
  }

  // The lowest bit that has a zero below it starts a run; without one the word is a run from bit 0 on.
  lemma LowestStart(n: Word, t: Word)
    requires |n| == |t| == 64 && true in t
    requires forall i :: 0 <= i < 64 ==> (t[i] <==> n[i] && exists j :: 0 <= j < i && !n[j])
    ensures Ctz(t) > 0 && n[Ctz(t)] && !n[Ctz(t) - 1]
  {
    var r := Ctz(t);
    hide Ctz;
    var j :| 0 <= j < r && !n[j];
    assert !t[r - 1];
  }

  lemma NoStart(n: Word, t: Word)
    requires |n| == |t| == 64 && true !in t && Mixed(n)
    requires forall i :: 0 <= i < 64 ==> (t[i] <==> n[i] && exists j :: 0 <= j < i && !n[j])
    ensures n[0] && !n[63]
  {
    var k :| 0 <= k < 64 && n[k];
    var z :| 0 <= z < 64 && !n[z];
    assert !t[k];
    assert n[0];
    assert !t[63];
  }

  lemma NormalisedAt(n: Word, i: int)
    requires |n| == 64
    ensures At(Normalised(n), i) == At(n, i + RunStart(n))
  {
    hide RunStart;
    Mod64Add(i, RunStart(n));
  }

  lemma NormalisedEnds(n: Word)
    requires |n| == 64 && Mixed(n)
    ensures var m := Normalised(n); m[0] && !m[63] && true in m && true in Not(m)
  {
    StartsRun(n);
    NormalisedAt(n, 0);
    NormalisedAt(n, -1);
    assert Not(Normalised(n))[63];
  }

  // From index 64 - zeros on, size bits: first all zeros, then all ones.
  lemma Window(n: Word, i: int)
    requires |n| == 64 && Mixed(n)
    ensures Size(n) <= 64
    ensures -(Zeros(n) as int) <= i < 0 ==> !At(Normalised(n), i)
    ensures 0 <= i < Ones(n) ==> At(Normalised(n), i)
  {
    hide Normalised, Zeros, Ones;
    assert !Normalised(n)[64 - Zeros(n)];
  }

  lemma Pow2Divisor(g: nat, q: nat)
    requires 2 <= g <= 64 && q * g == 64
    ensures IsPow2(g)
  {
  }

  // The only period a normalised word can have is the size, and it is a power of two: a shorter
  // one would put a zero behind the ones of the window.
  lemma NoShorterPeriod(n: Word, g: nat, p: nat)
    requires |n| == 64 && Mixed(n)
    requires Size(n) == p * g && g > 0 && p > 0 && Period(Normalised(n), g)
    ensures p == 1
  {
    hide Normalised, Zeros, Ones, At;
    var m, c, ones := Normalised(n), Zeros(n), Ones(n);
    if p > 1 {
      assert p * g >= g + g;
      Window(n, -(c as int));
      Window(n, g - c);
      assert At(m, -(c as int)) == At(m, -(c as int) + g);
      MultiplePeriod(m, g, p - 1, g - c - 1);
      assert g - c - 1 + (p - 1) * g == ones - 1 by { assert (p - 1) * g == p * g - g; }
      Window(n, ones - 1);
      Window(n, g - c - 1);
    }
  }

  lemma WholePeriod(m: Word)
    requires |m| == 64
    ensures Period(m, 64)
  {
  }

  lemma SizeIsPow2(n: Word)
    requires |n| == 64 && Mixed(n) && Encodable(n)
    ensures IsPow2(Size(n)) && Ones(n) < Size(n) && Period(Normalised(n), Size(n))
  {
    hide Normalised, Ror, Period, Zeros, Ones;
    Window(n, 0);
    RorIsPeriod(Normalised(n), Size(n));
    WholePeriod(Normalised(n));
    var g, p, q := GcdPeriod(Normalised(n), Size(n), 64);
    NoShorterPeriod(n, g, p);
    Pow2Divisor(g, q);
  }

  // The whole normalised word, from its period.
  lemma NormalisedShape(n: Word, i: int)
    requires |n| == 64 && Mixed(n) && Size(n) > 0 && Period(Normalised(n), Size(n))
    ensures At(Normalised(n), i) <==> i % Size(n) < Ones(n)
  {
    hide Normalised, Zeros, Ones, At;
    var m, size := Normalised(n), Size(n);
    var q, r := i / size, i % size;
    assert i == r + q * size;
    if q >= 0 { MultiplePeriod(m, size, q, r); } else { MultiplePeriod(m, size, -q, i); assert i + (-q) * size == r; }
    if r < Ones(n) { Window(n, r); } else { Window(n, r - size); assert At(m, r - size) == At(m, r - size + size); }
  }

  // -- Main results -----------------------------------------------------------

  // Soundness: hardware decodes the immediate to the constant that was asked for.
  lemma Isk13Sound(n0: Word, is64: bool)
    requires |n0| == 64 && EmitIsk13(n0, is64).K13?
    ensures Legal(EmitIsk13(n0, is64)) && DecodeBitMasks(EmitIsk13(n0, is64)) == Widen(n0, is64)
  {
    hide Normalised, RunStart, Encodable, Zeros, Ones, Period, ElementSize, Widen;
    var n, k := Widen(n0, is64), EmitIsk13(n0, is64);
    SizeIsPow2(n);
    ImmsFields(Size(n), Ones(n));
    forall i | 0 <= i < 64 ensures n[i] == ((i + k.immr) % Size(n) <= k.imms % Size(n)) { SoundAt(n, i); }
  }

  // Bit i of the constant, from the shape of its normalised form.
  lemma SoundAt(n: Word, i: nat)
    requires |n| == 64 && Mixed(n) && IsPow2(Size(n)) && Period(Normalised(n), Size(n)) && i < 64
    ensures n[i] <==> (i + LowBits(0 - RunStart(n), Size(n))) % Size(n) < Ones(n)
  {
    hide Normalised, RunStart, Ones, Zeros, Period, Size, Mixed;
    var rot: int := RunStart(n);
    NormalisedAt(n, i - rot);
    NormalisedShape(n, i - rot);
    ModAdd(i, -rot, Size(n));
  }

  lemma ModAdd(i: int, j: int, s: int)
    requires IsPow2(s)
    ensures (i + j % s) % s == (i + j) % s
  {
    AddMod(i, j, s);
  }

  lemma ImmsFields(size: nat, ones: nat)
    requires IsPow2(size) && 0 < ones < size
    ensures var imms := LowBits(0 - 2 * size, 64) + (ones - 1);
      imms < 64 && ElementSize(if size == 64 then 1 else 0, imms) == size && imms % size == ones - 1
  {
    assert LowBits(0 - 2 * size, 64) == if size == 64 then 0 else 64 - 2 * size;
    if size == 2 {} else if size == 4 {} else if size == 8 {} else if size == 16 {} else if size == 32 {} else {}
  }

  // Every legal encoding describes a run of ones that starts at multiples of its element size.
  lemma DecodedAt(k: K13, i: int)
    requires Legal(k)
    ensures var esize := ElementSize(k.n, k.imms);
      At(DecodeBitMasks(k), i) <==> (i + k.immr) % esize <= k.imms % esize
  {
    var esize := ElementSize(k.n, k.imms);
    assert (i % 64 + k.immr) % esize == (i + k.immr) % esize by { Mod64Mod(i, k.immr, esize); }
  }

  lemma Mod64Mod(i: int, j: int, s: int)
    requires IsPow2(s)
    ensures (i % 64 + j) % s == (i + j) % s
  {
    var k := 64 / s;
    assert i == i % 64 + (i / 64) * 64;
    assert 64 == k * s;
    assert i + j == (i % 64 + j) + (i / 64 * k) * s by { assert (i / 64) * (k * s) == (i / 64 * k) * s; }
    AddMultiple(i % 64 + j, i / 64 * k, s);
  }

  lemma DecodedMixed(k: K13)
    requires Legal(k)
    ensures Mixed(DecodeBitMasks(k))
  {
    hide DecodeBitMasks;
    var n, esize := DecodeBitMasks(k), ElementSize(k.n, k.imms);
    var r: int := k.immr;
    DecodedAt(k, -r);
    DecodedAt(k, -r - 1);
    assert At(n, -r) in n && At(n, -r - 1) in n;
  }

  // Normalising a legal pattern moves a run to the bottom.
  lemma DecodedNormal(k: K13, i: int)
    requires Legal(k) && Mixed(DecodeBitMasks(k))
    ensures var esize := ElementSize(k.n, k.imms);
      At(Normalised(DecodeBitMasks(k)), i) <==> i % esize <= k.imms % esize
  {
    hide DecodeBitMasks, Normalised, RunStart, At;
    var n, esize := DecodeBitMasks(k), ElementSize(k.n, k.imms);
    var rot: int := RunStart(n);
    StartsRun(n);
    DecodedAt(k, rot);
    DecodedAt(k, rot - 1);
    StepMod(rot - 1 + k.immr, esize);
    NormalisedAt(n, i);
    DecodedAt(k, i + rot);
    AlignedMod(i, rot + k.immr, esize);
  }

  // The run and the element size of a pattern with a run at the bottom are read off correctly.
  lemma ShapeFound(n: Word, esize: int, len: int)
    requires |n| == 64 && Mixed(n) && IsPow2(esize) && 0 < len < esize
    requires forall i: int :: At(Normalised(n), i) <==> i % esize < len
    ensures Ones(n) == len && Size(n) == esize
  {
    hide Normalised, Zeros, Ones, At, Mixed;
    var m, ones, zeros := Normalised(n), Ones(n), Zeros(n);
    forall i | 0 <= i < 64 ensures m[i] == At(m, i) { AtIndex(m, i); }
    TopBits(m, esize, len);
    assert !m[len];
    assert !m[ones] && m[63 - zeros] && m[63 - (esize - len)];
    hide IsPow2;
    assert forall i :: 0 <= i < len ==> m[i];
  }

  lemma AtIndex(m: Word, i: nat)
    requires |m| == 64 && i < 64
    ensures At(m, i) == m[i]
  {
  }

  lemma TopBits(m: Word, esize: int, len: int)
    requires |m| == 64 && IsPow2(esize) && 0 < len < esize
    requires forall i: int :: At(m, i) <==> i % esize < len
    ensures m[63 - (esize - len)] && forall i :: 64 - (esize - len) <= i < 64 ==> !m[i]
  {
    var top := 64 - (esize - len);
    TopMod(esize, len);
    assert At(m, top - 1) == m[top - 1];
    forall i | top <= i < 64 ensures !m[i] {
      assert At(m, i) == m[i];
      assert i % esize == i - (64 - esize) by { TopMod(esize, i - (64 - esize)); }
    }
  }

  lemma TopMod(s: int, r: int)
    requires IsPow2(s) && 0 <= r < s
    ensures (64 - s + r) % s == r && (r > 0 ==> (64 - s + r - 1) % s == r - 1)
  {
  }

  lemma StepMod(u: int, s: int)
    requires IsPow2(s)
    ensures (u + 1) % s == 0 || (u + 1) % s == u % s + 1
  {
    SuccMod(u, s);
  }

  lemma AlignedMod(i: int, u: int, s: int)
    requires IsPow2(s) && u % s == 0
    ensures (i + u) % s == i % s
  {
    AddMod(i, u, s);
  }

  // Completeness: whatever the instruction can express is encoded, so the encoder gives up only
  // on constants that have no encoding.
  lemma Isk13Complete(n0: Word, is64: bool, k: K13)
    requires |n0| == 64 && Legal(k) && DecodeBitMasks(k) == Widen(n0, is64)
    ensures EmitIsk13(n0, is64).K13?
  {
    hide DecodeBitMasks, Normalised, RunStart, Zeros, Ones, Widen;
    var n, esize := Widen(n0, is64), ElementSize(k.n, k.imms);
    DecodedMixed(k);
    forall i: int ensures At(Normalised(n), i) <==> i % esize < k.imms % esize + 1 { DecodedNormal(k, i); }
    ShapeFound(n, esize, k.imms % esize + 1);
    forall i: int ensures At(Normalised(n), i) == At(Normalised(n), i + esize) {
      AlignedMod(i, esize, esize);
    }
    assert Period(Normalised(n), Size(n));
    RorIsPeriod(Normalised(n), Size(n));
  }

  // The 32-bit form never sets the N field, which a 32-bit instruction does not have.
  lemma Isk13Narrow(n0: Word)
    requires |n0| == 64 && EmitIsk13(n0, false).K13?
    ensures EmitIsk13(n0, false).n == 0
  {
    hide Normalised, RunStart, Zeros, Ones, At, Encodable, Widen;
    var n := Widen(n0, false);
    SizeIsPow2(n);
    if Size(n) == 64 {
      NormalisedShape(n, 0);
      NormalisedShape(n, 32);
      NormalisedShape(n, 31);
      NormalisedShape(n, 63);
      HalvesRepeat(n0, 0);
      HalvesRepeat(n0, 31);
    }
  }

  lemma HalvesRepeat(n0: Word, i: int)
    requires |n0| == 64
    ensures var m := Normalised(Widen(n0, false)); At(m, i) == At(m, i + 32)
  {
    hide RunStart, Normalised;
    var n := Widen(n0, false);
    NormalisedAt(n, i);
    NormalisedAt(n, i + 32);
    var a := (i + RunStart(n)) % 64;
    assert (i + 32 + RunStart(n)) % 64 == if a < 32 then a + 32 else a - 32;
  }

  // It encodes exactly the constants that some legal immediate decodes to.
  lemma Isk13Exact(n0: Word, is64: bool)
    requires |n0| == 64
    ensures EmitIsk13(n0, is64).K13? <==> exists k :: Legal(k) && DecodeBitMasks(k) == Widen(n0, is64)
  {
    if EmitIsk13(n0, is64).K13? { Isk13Sound(n0, is64); }
    if k :| Legal(k) && DecodeBitMasks(k) == Widen(n0, is64) { Isk13Complete(n0, is64, k); }
  }
}
