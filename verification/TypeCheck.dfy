// What a fused type check on a tagged value has to decide, and what the upper word tells.
module TypeCheck {
  import opened Words
  import opened TValue
  import opened ModArith

  // The type of a load: a tag (nil .. userdata), a number or an integer.
  datatype IrType = Tag(t: nat) | Num | Int

  predicate Valid(t: IrType) { t.Tag? ==> t.t <= UDATA }
  predicate IsAddr(t: IrType) { t.Tag? && LIGHTUD <= t.t }

  function ToItype(t: IrType): u32
    requires Valid(t)
  {
    match t case Tag(n) => Not32(n) case _ => TISNUM
  }

  predicate Is(t: IrType, o: u64)
    requires Valid(t)
  {
    match t case Tag(n) => IsTag(o, n) case Num => TvIsNum(o) case Int => TvIsInt(o)
  }

  // What a load of that type yields: the untagged pointer, the number's bits or the integer's word.
  // The value of a primitive is its type; nothing is promised about the register.
  predicate Yields(t: IrType, o: u64, x: u64)
    requires Valid(t)
  {
    if IsAddr(t) then x == GcVal(o) else if t.Num? then x == o else if t.Int? then x == Lo32(o) else true
  }

  datatype Outcome = Exit | Pass(r: u64)

  // The load passes exactly the words of the type, and yields the untagged value.
  predicate Checks(run: Outcome, t: IrType, used: bool, o: u64)
    requires Valid(t)
  {
    if Is(t, o) then run.Pass? && (used ==> Yields(t, o, run.r)) else run.Exit?
  }

  // The upper word is the tag and the upper part of the low bits.
  lemma HiParts(o: u64)
    ensures Hi32(o) == Tag17(o) * 0x8000 + Low47(o) / TWO32 && Low47(o) / TWO32 < 0x8000
  {
    var t, l := o / TWO47, o % TWO47;
    assert o == (t * 0x8000 + l / TWO32) * TWO32 + l % TWO32;
    ModUnique(o, TWO32, t * 0x8000 + l / TWO32, l % TWO32);
  }

  lemma NilTag(o: u64)
    requires WellFormed(o)
    ensures TvIsNil(o) <==> IsTag(o, NIL)
  {
    ItypeTag(o);
    hide Itype, Canonical;
  }

  lemma HiNum(o: u64)
    ensures TvIsNum(o) <==> Hi32(o) < Lsl15(TISNUM)
  {
    ItypeTag(o);
    hide Itype, TvIsNum;
  }

  lemma HiInt(o: u64)
    requires WellFormed(o)
    ensures TvIsInt(o) <==> Hi32(o) == Lsl15(TISNUM)
  {
    hide Itype, Hi32, Tag17, Low47, Canonical, Lsl15;
    ItypeTag(o);
    HiParts(o);
    LowParts(o);
    LslNot(13);
    SplitHi(Tag17(o), Low47(o) / TWO32, TWO17 - 14, 0);
  }

  lemma HiPri(o: u64, t: nat)
    requires WellFormed(o) && t <= TRUE
    ensures IsTag(o, t) <==> Hi32(o) == Lsl15(Not32(t)) + 0x7fff
  {
    hide Itype, Hi32, Tag17, Low47, Canonical, Lsl15;
    ItypeTag(o);
    HiParts(o);
    LowParts(o);
    LslNot(t);
    SplitHi(Tag17(o), Low47(o) / TWO32, TWO17 - 1 - t, 0x7fff);
    assert IsTag(o, t) <==> Tag17(o) == TWO17 - 1 - t;
  }

  // The shifted type, counted down from 2^32.
  lemma LslNot(t: nat)
    requires t < TWO17
    ensures Lsl15(Not32(t)) == (TWO17 - 1 - t) * 0x8000
  {
    assert Not32(t) * 0x8000 == 0x7fff * TWO32 + (TWO17 - 1 - t) * 0x8000;
    ModUnique(Not32(t) * 0x8000, TWO32, 0x7fff, (TWO17 - 1 - t) * 0x8000);
  }

  // What the setters leave between the tag and the lower word.
  lemma LowParts(o: u64)
    requires WellFormed(o)
    ensures TvIsInt(o) ==> Low47(o) / TWO32 == 0
    ensures TvIsPri(o) ==> Low47(o) / TWO32 == 0x7fff
  {
    hide Low47, TvIsInt, TvIsPri, TvIsNum, Canonical;
  }

  lemma SplitHi(a: nat, b: nat, c: nat, d: nat)
    requires b < 0x8000 && d < 0x8000
    ensures a * 0x8000 + b == c * 0x8000 + d <==> a == c && b == d
  {
  }

  // The upper word alone decides between numbers, integers and primitives.
  lemma HiCheck(o: u64)
    ensures TvIsNum(o) <==> Hi32(o) < Lsl15(TISNUM)
    ensures WellFormed(o) ==> (TvIsInt(o) <==> Hi32(o) == Lsl15(TISNUM))
    ensures WellFormed(o) ==> forall t: nat :: t <= TRUE ==>
      (IsTag(o, t) <==> Hi32(o) == Lsl15(Not32(t)) + 0x7fff)
    ensures WellFormed(o) ==> (TvIsNil(o) <==> IsTag(o, NIL))
  {
    HiNum(o);
    if WellFormed(o) {
      HiInt(o);
      forall t: nat | t <= TRUE ensures IsTag(o, t) <==> Hi32(o) == Lsl15(Not32(t)) + 0x7fff { HiPri(o, t); }
      NilTag(o);
    }
    hide IsTag, Hi32, Lsl15, Not32, TvIsNum, TvIsInt, TvIsNil, WellFormed;
  }
}
