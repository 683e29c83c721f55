// Machine words as sequences of bits, least significant bit first.
module Bits {
  type Word = seq<bool>

  function And(a: Word, b: Word): (r: Word)
    requires |a| == |b|
    ensures |r| == |a|
  {
    seq(|a|, i requires 0 <= i < |a| => a[i] && b[i])
  }

  function Or(a: Word, b: Word): (r: Word)
    requires |a| == |b|
    ensures |r| == |a|
  {
    seq(|a|, i requires 0 <= i < |a| => a[i] || b[i])
  }

  function Not(a: Word): (r: Word)
    ensures |r| == |a|
  {
    seq(|a|, i requires 0 <= i < |a| => !a[i])
  }

  function Lsl(a: Word, n: nat): (r: Word)
    ensures |r| == |a|
  {
    seq(|a|, i requires 0 <= i < |a| => i >= n && a[i - n])
  }

  function Lsr(a: Word, n: nat): (r: Word)
    ensures |r| == |a|
  {
    seq(|a|, i requires 0 <= i < |a| => i + n < |a| && a[i + n])
  }

  function Asr(a: Word, n: nat): (r: Word)
    requires |a| > 0
    ensures |r| == |a|
  {
    seq(|a|, i requires 0 <= i < |a| => if i + n < |a| then a[i + n] else a[|a| - 1])
  }

  // Rotate right; the count may be any integer.
  function Ror(a: Word, n: int): (r: Word)
    ensures |r| == |a|
  {
    seq(|a|, i requires 0 <= i < |a| => a[(i + n) % |a|])
  }

  function Zero(w: nat): (r: Word)
    ensures |r| == w
  {
    seq(w, _ => false)
  }

  // a + 1 with wrap-around.
  function Inc(a: Word): (r: Word)
    ensures |r| == |a|
  {
    if a == [] then [] else if a[0] then [false] + Inc(a[1..]) else [true] + a[1..]
  }

  // Count trailing zeros (lj_ffs) and leading zeros of a word that is not zero.
  function Ctz(a: Word): (n: nat)
    requires true in a
    ensures n < |a| && a[n] && forall i :: 0 <= i < n ==> !a[i]
  {
    if a[0] then 0
    else
      assert a == [a[0]] + a[1..];
      Ctz(a[1..]) + 1
  }

  function Clz(a: Word): (n: nat)
    requires true in a
    ensures n < |a| && a[|a| - 1 - n] && forall i :: |a| - n <= i < |a| ==> !a[i]
  {
    if a[|a| - 1] then 0
    else
      assert a == a[..|a| - 1] + [a[|a| - 1]];
      Clz(a[..|a| - 1]) + 1
  }

  // Bit i of a + 1 flips exactly when all lower bits are set.
  lemma {:induction false} IncBits(a: Word, i: nat)
    requires i < |a|
    ensures Inc(a)[i] == if forall j :: 0 <= j < i ==> a[j] then !a[i] else a[i]
    decreases i
  {
    if i > 0 {
      if a[0] {
        IncBits(a[1..], i - 1);
        if forall j :: 0 <= j < i - 1 ==> a[1..][j] {
          assert forall j :: 0 < j < i ==> a[j] by {
            forall j | 0 < j < i ensures a[j] { assert a[1..][j - 1]; }
          }
        } else {
          var j :| 0 <= j < i - 1 && !a[1..][j];
          assert !a[j + 1];
        }
      }
    }
  }

  // m is a run of ones at the bottom, up to bit t.
  ghost predicate LowRun(m: Word, t: nat) { t < |m| && forall j :: 0 <= j < |m| ==> (m[j] <==> j <= t) }

  // mask && !((mask+1) & mask)
  predicate IsRun(m: Word) { true in m && true !in And(Inc(m), m) }

  lemma RunExact(m: Word)
    ensures IsRun(m) ==> LowRun(m, |m| - 1 - Clz(m))
    ensures IsRun(m) <==> exists t: nat :: LowRun(m, t)
  {
    if IsRun(m) {
      var t := |m| - 1 - Clz(m);
      IncBits(m, t);
      assert !And(Inc(m), m)[t];
      forall j | 0 <= j < t ensures m[j] {}
    }
    if t: nat :| LowRun(m, t) {
      assert m[t];
      forall i | 0 <= i < |m| ensures !And(Inc(m), m)[i] { IncBits(m, i); }
    }
  }

  // The ones of k are exactly the bits lo..hi.
  ghost predicate Run(k: Word, lo: nat, hi: nat) {
    lo <= hi < |k| && forall i :: 0 <= i < |k| ==> (k[i] <==> lo <= i <= hi)
  }
}
