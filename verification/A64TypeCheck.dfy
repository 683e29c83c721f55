// ARM64: fused type checks of loads (asm_ahuvload).
module A64TypeCheck {
  import opened Words
  import opened TValue
  import opened TypeCheck

  datatype A64Cc = CC_LS | CC_NE

  datatype A64Ins =
    | Ldr                    // ldr r, [addr]
    | AsrTmp                 // asr tmp, r, #47
    | CmnTmp(u12: int)       // cmn tmp, #u12
    | CmnReg(u12: int)       // cmn r, #u12
    | CmpHi(k: u64)          // cmp k, r, lsr #32
    | Bcc(cc: A64Cc)         // to the exit
    | AndMask                // and r, r, #(2^47-1)
    | Fmov                   // fmov d, r
    | MovW                   // mov w, w

  datatype A64State = A64State(r: u64, tmp: u64, d: u64, c: bool, z: bool)

  function A64Exec(i: A64Ins, s: A64State, o: u64): A64State {
    match i
    case Ldr => s.(r := o)
    case AsrTmp => s.(tmp := Signed64(s.r) / TWO47 % TWO64)
    case CmnTmp(u) => s.(c := s.tmp + u >= TWO64, z := (s.tmp + u) % TWO64 == 0)
    case CmnReg(u) => s.(c := s.r + u >= TWO64, z := (s.r + u) % TWO64 == 0)
    case CmpHi(k) => s.(c := k >= Hi32(s.r), z := k == Hi32(s.r))
    case AndMask => s.(r := s.r % TWO47)
    case Fmov => s.(d := s.r)
    case MovW => s.(r := Lo32(s.r))
    case Bcc(_) => s
  }

  predicate A64Taken(cc: A64Cc, s: A64State) { match cc case CC_LS => !s.c || s.z case CC_NE => !s.z }

  function A64Run(code: seq<A64Ins>, num: bool, s: A64State, o: u64): Outcome {
    if code == [] then Pass(if num then s.d else s.r)
    else if code[0].Bcc? && A64Taken(code[0].cc, s) then Exit
    else A64Run(code[1..], num, A64Exec(code[0], s, o), o)
  }

  lemma A64Step(i: A64Ins, rest: seq<A64Ins>, num: bool, s: A64State, o: u64)
    ensures A64Run([i] + rest, num, s, o) ==
      if i.Bcc? && A64Taken(i.cc, s) then Exit else A64Run(rest, num, A64Exec(i, s, o), o)
  {
  }

  // The compare, the guard and what is done with the loaded word.
  function A64Compare(t: IrType): seq<A64Ins>
    requires Valid(t)
  {
    if !t.Tag? then [CmpHi(Lsl15(TISNUM))]
    else if IsAddr(t) then [AsrTmp, CmnTmp(t.t + 1)]
    else if t.t == NIL then [CmnReg(1)]
    else [CmpHi(Lsl15(ToItype(t)) + 0x7fff)]
  }

  function A64Untag(t: IrType): seq<A64Ins>
    requires Valid(t)
  {
    if IsAddr(t) then [AndMask] else if t.Num? then [Fmov] else if t.Int? then [MovW] else []
  }

  function A64Load(t: IrType, used: bool): seq<A64Ins>
    requires Valid(t)
  {
    [Ldr] + (A64Compare(t) + ([Bcc(if t.Num? then CC_LS else CC_NE)] + (if used then A64Untag(t) else [])))
  }

  // From s to s', before rest: the loaded word is kept and the flags say whether it has the type.
  predicate Compared(t: IrType, rest: seq<A64Ins>, s: A64State, s': A64State, o: u64)
    requires Valid(t)
  {
    && s'.r == o && (!A64Taken(if t.Num? then CC_LS else CC_NE, s') <==> Is(t, o))
    && A64Run(A64Compare(t) + rest, t.Num?, s, o) == A64Run(rest, t.Num?, s', o)
  }

  lemma A64CompareRuns(t: IrType, rest: seq<A64Ins>, s: A64State, o: u64) returns (s': A64State)
    requires Valid(t) && WellFormed(o) && s.r == o
    ensures Compared(t, rest, s, s', o)
  {
    hide WellFormed, Itype, Canonical, Signed64, Hi32, A64Run;
    var c := A64Compare(t);
    if IsAddr(t) {
      var s1 := A64Exec(AsrTmp, s, o);
      s' := A64Exec(CmnTmp(t.t + 1), s1, o);
      assert c + rest == [AsrTmp] + ([CmnTmp(t.t + 1)] + rest);
      A64Step(AsrTmp, [CmnTmp(t.t + 1)] + rest, t.Num?, s, o);
      A64Step(CmnTmp(t.t + 1), rest, t.Num?, s1, o);
      AsrCheck(o, t.t);
    } else {
      s' := A64Exec(c[0], s, o);
      assert c + rest == [c[0]] + rest;
      A64Step(c[0], rest, t.Num?, s, o);
      HiCheck(o);
      NilSum(o);
    }
  }

  lemma NilSum(o: u64)
    ensures (o + 1) % TWO64 == 0 <==> TvIsNil(o)
  {
  }

  // asr and cmn compare all 17 bits.
  lemma AsrCheck(o: u64, t: nat)
    requires t <= UDATA
    ensures (Signed64(o) / TWO47 % TWO64 + (t + 1)) % TWO64 == 0 <==> IsTag(o, t)
  {
    var q := Signed64(o) / TWO47;
    assert -0x1_0000 <= q < 0x1_0000;
    assert (q % TWO64 + (t + 1)) % TWO64 == 0 <==> q == -1 - t;
  }

  // The untagging instruction after the guard.
  lemma UntagRuns(t: IrType, used: bool, s: A64State, o: u64)
    requires Valid(t) && s.r == o
    ensures var run := A64Run(if used then A64Untag(t) else [], t.Num?, s, o);
      run.Pass? && (used ==> Yields(t, o, run.r))
  {
  }

  lemma A64LoadChecks(t: IrType, used: bool, s: A64State, o: u64)
    requires Valid(t) && WellFormed(o)
    ensures Checks(A64Run(A64Load(t, used), t.Num?, s, o), t, used, o)
  {
    hide A64Compare, A64Untag, WellFormed, Is, A64Taken, A64Run, Yields;
    var (cc, tail) := (if t.Num? then CC_LS else CC_NE, if used then A64Untag(t) else []);
    var rest := [Bcc(cc)] + tail;
    var s1 := s.(r := o);
    A64Step(Ldr, A64Compare(t) + rest, t.Num?, s, o);
    var s2 := A64CompareRuns(t, rest, s1, o);
    A64Step(Bcc(cc), tail, t.Num?, s2, o);
    UntagRuns(t, used, s2, o);
  }

  class A64Asm {
    var code: seq<A64Ins>

    method Emit(i: A64Ins)
      modifies this
      ensures code == [i] + old(code)
    {
      code := [i] + code;
    }

    // asm_ahuvload
    method AhuvLoad(t: IrType, used: bool) returns (ghost ins: seq<A64Ins>)
      requires Valid(t)
      modifies this
      ensures code == ins + old(code)
      ensures forall s: A64State, o: u64 :: WellFormed(o) ==> Checks(A64Run(ins, t.Num?, s, o), t, used, o)
    {
      hide WellFormed, Checks, A64Run;
      ins := A64Load(t, used);
      forall s: A64State, o: u64 | WellFormed(o) { A64LoadChecks(t, used, s, o); }
      if used {
        if IsAddr(t) {
          Emit(AndMask);
        } else if t.Num? {
          Emit(Fmov);
        } else if t.Int? {
          Emit(MovW);
        }
      }
      Emit(Bcc(if t.Num? then CC_LS else CC_NE));
      if !t.Tag? {
        Emit(CmpHi(Lsl15(TISNUM)));
      } else if IsAddr(t) {
        Emit(CmnTmp(t.t + 1));
        Emit(AsrTmp);
      } else if t.t == NIL {
        Emit(CmnReg(1));
      } else {
        Emit(CmpHi(Lsl15(ToItype(t)) + 0x7fff));
      }
      Emit(Ldr);
    }
  }
}
