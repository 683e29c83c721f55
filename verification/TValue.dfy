// Tagged values with 64-bit GC references: a NaN-boxed word with a 17-bit type tag.
module TValue {
  import opened Words

  const TWO17: int := 0x2_0000
  const TWO47: int := 0x8000_0000_0000

  // Type ids; the internal type is the complement.
  const NIL: nat := 0
  const FALSE: nat := 1
  const TRUE: nat := 2
  const LIGHTUD: nat := 3
  const UDATA: nat := 12
  const NUMX: nat := 13

  const TISNUM: u32 := Not32(NUMX)

  // x << 47 and x << 15, truncated.
  function Lsl47(x: u64): u64 { x * TWO47 % TWO64 }
  function Lsl15(x: u32): u32 { x * 0x8000 % TWO32 }

  // Bitwise OR of words without common ones at and above bit 47 and below it.
  function Join47(low: u64, high: u64): u64
    requires low < TWO47 && high % TWO47 == 0
  {
    low + high
  }

  function Tag17(o: u64): nat { o / TWO47 }
  function Low47(o: u64): nat { o % TWO47 }
  function Hi32(o: u64): u32 { o / TWO32 }
  function Lo32(o: u64): u32 { o % TWO32 }

  // (uint32_t)(it64 >> 47)
  function Itype(o: u64): u32 { Signed64(o) / TWO47 % TWO32 }

  predicate IsTag(o: u64, t: nat)
    requires t <= NUMX
  {
    Itype(o) == Not32(t)
  }

  predicate TvIsNil(o: u64) { Signed64(o) == -1 }
  predicate TvIsInt(o: u64) { Itype(o) == TISNUM }
  predicate TvIsNum(o: u64) { Itype(o) < TISNUM }
  predicate TvIsPri(o: u64) { Itype(o) >= Not32(TRUE) }
  predicate TvIsGcv(o: u64) { (Itype(o) - Not32(3)) % TWO32 > (TISNUM - Not32(3)) % TWO32 }

  function GcVal(o: u64): u64 { o % TWO47 }
  function BoolV(o: u64): int { (Not32(FALSE) - Itype(o)) % TWO32 }
  function IntV(o: u64): int { Signed32(Lo32(o)) }

  // The internal type is the tag field counted down from all ones.
  lemma ItypeTag(o: u64)
    ensures Tag17(o) < TWO17
    ensures Itype(o) == if Tag17(o) < TWO17 / 2 then Tag17(o) else Tag17(o) + (TWO32 - TWO17)
    ensures forall t: nat :: t <= NUMX ==> (IsTag(o, t) <==> Tag17(o) == TWO17 - 1 - t)
    ensures TvIsNum(o) <==> o < 0xfff9_0000_0000_0000
  {
    if o >= TWO63 {
      assert o - TWO64 == TWO47 * (o / TWO47 - TWO17) + o % TWO47;
      assert (o - TWO64) / TWO47 == o / TWO47 - TWO17;
    }
  }

  // A double: not a number when the exponent is all ones and the mantissa is not zero.
  predicate IsNan(o: u64) { o % TWO63 > 0x7ff0_0000_0000_0000 }
  predicate Canonical(o: u64) { IsNan(o) ==> o == 0xfff8_0000_0000_0000 }

  // The words that the setters make.
  predicate WellFormed(o: u64) {
    && (TvIsPri(o) ==> Low47(o) == TWO47 - 1)
    && (TvIsInt(o) ==> Low47(o) < TWO32)
    && (TvIsNum(o) ==> Canonical(o))
  }

  // A word is in exactly one class: a number, an integer or one of the tags.
  lemma OneClass(o: u64)
    ensures TvIsNum(o) ==> !TvIsInt(o) && forall t: nat :: t <= UDATA ==> !IsTag(o, t)
    ensures TvIsInt(o) ==> forall t: nat :: t <= UDATA ==> !IsTag(o, t)
    ensures !TvIsNum(o) && !TvIsInt(o) ==> IsTag(o, TWO17 - 1 - Tag17(o)) && TWO17 - 1 - Tag17(o) <= UDATA
    ensures forall s: nat, t: nat :: s < t <= NUMX ==> !(IsTag(o, s) && IsTag(o, t))
    ensures TvIsNil(o) ==> IsTag(o, 0)
    ensures TvIsPri(o) <==> IsTag(o, 0) || IsTag(o, 1) || IsTag(o, 2)
    ensures TvIsGcv(o) <==> exists t: nat :: 4 <= t <= 12 && IsTag(o, t)
  {
    ItypeTag(o);
    hide Itype;
    if TvIsGcv(o) { assert IsTag(o, TWO17 - 1 - Tag17(o)); }
  }

  class TValue {
    var u64: u64

    // setgcreft: the pointer ORed with the type in the upper 17 bits
    method SetGcVRaw(v: u64, itype: u32)
      requires v < TWO47 && 0xffff_fff3 <= itype <= 0xffff_fffc
      modifies this
      ensures WellFormed(u64) && Itype(u64) == itype && GcVal(u64) == v
      ensures u64 == (itype - 0xfffe_0000) * 0x8000_0000_0000 + v
    {
      TagShift(Not32(itype));
      u64 := Join47(v, Lsl47(itype));
      Boxed(u64, Not32(itype), v);
    }

    method SetPriV(x: u32)
      requires 0xffff_fffd <= x
      modifies this
      ensures WellFormed(u64) && Itype(u64) == x && (TvIsNil(u64) <==> x == 0xffff_ffff)
      ensures u64 == 0xffff_ffff_ffff_ffff - (0xffff_ffff - x) * 0x8000_0000_0000
    {
      u64 := Not64(Lsl47(Not32(x)));
      Boxed(u64, Not32(x), TWO47 - 1);
    }

    method SetNilV()
      modifies this
      ensures WellFormed(u64) && TvIsNil(u64) && Itype(u64) == 0xffff_ffff && u64 == 0xffff_ffff_ffff_ffff
    {
      u64 := TWO64 - 1;
      Boxed(u64, NIL, TWO47 - 1);
    }

    method SetBoolV(x: int)
      requires 0 <= x <= 1
      modifies this
      ensures WellFormed(u64) && BoolV(u64) == x && Itype(u64) == if x == 1 then 0xffff_fffd else 0xffff_fffe
      ensures u64 == if x == 1 then 0xfffe_ffff_ffff_ffff else 0xffff_7fff_ffff_ffff
    {
      u64 := Not64(Lsl47(x + 1));
      Boxed(u64, x + 1, TWO47 - 1);
    }

    // The type goes into the upper word, shifted by 15.
    method SetIntV(i: int)
      requires -0x8000_0000 <= i < 0x8000_0000
      modifies this
      ensures WellFormed(u64) && TvIsInt(u64) && IntV(u64) == i
      ensures u64 == 0xfff9_0000_0000_0000 + i % 0x1_0000_0000
    {
      u64 := Lsl15(TISNUM) * TWO32 + i % TWO32;
      Boxed(u64, NUMX, i % TWO32);
    }

    // The bits of a number; the FPU only makes one kind of NaN.
    method SetNumV(n: u64)
      requires Canonical(n)
      modifies this
      ensures WellFormed(u64) && TvIsNum(u64) && u64 == n
    {
      CanonicalIsNum(n);
      u64 := n;
      OneClass(n);
    }
  }

  lemma TagShift(t: nat)
    requires t <= NUMX
    ensures Lsl47(Not32(t)) == (TWO17 - 1 - t) * TWO47
  {
  }

  // The word with tag t and payload v.
  lemma Boxed(o: u64, t: nat, v: nat)
    requires t <= NUMX && v < TWO47 && o == (TWO17 - 1 - t) * TWO47 + v
    ensures Tag17(o) == TWO17 - 1 - t && Low47(o) == v && IsTag(o, t)
    ensures !TvIsNum(o) && (TvIsInt(o) <==> t == NUMX) && (TvIsPri(o) <==> t <= TRUE)
  {
    assert o / TWO47 == TWO17 - 1 - t && o % TWO47 == v;
    ItypeTag(o);
    hide Itype;
  }

  // Canonical numbers never look like a tagged value, and only NaNs do.
  lemma CanonicalIsNum(n: u64)
    ensures Canonical(n) ==> TvIsNum(n)
    ensures !TvIsNum(n) ==> IsNan(n) && n != 0xfff8_0000_0000_0000
  {
  }
}
