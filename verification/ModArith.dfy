// Remainders for a divisor that is not a literal.
module ModArith {
  lemma MulAtLeast(k: int, s: int)
    requires k >= 1 && s > 0
    ensures k * s >= s
  {
  }

  // Quotient and remainder are unique.
  lemma ModUnique(x: int, s: int, q: int, r: int)
    requires s > 0 && 0 <= r < s && x == q * s + r
    ensures x % s == r && x / s == q
  {
    var q2, r2 := x / s, x % s;
    assert x == q2 * s + r2;
    assert (q - q2) * s == r2 - r && (q2 - q) * s == r - r2;
    if q > q2 { MulAtLeast(q - q2, s); }
    if q < q2 { MulAtLeast(q2 - q, s); }
  }

  lemma AddMultiple(x: int, k: int, s: int)
    requires s > 0
    ensures (x + k * s) % s == x % s
  {
    var q, r := x / s, x % s;
    assert x + k * s == (q + k) * s + r;
    ModUnique(x + k * s, s, q + k, r);
  }

  lemma AddMod(x: int, y: int, s: int)
    requires s > 0
    ensures (x + y % s) % s == (x + y) % s
    ensures (x % s + y) % s == (x + y) % s
  {
    assert x + y == (x + y % s) + (y / s) * s;
    AddMultiple(x + y % s, y / s, s);
    assert x + y == (x % s + y) + (x / s) * s;
    AddMultiple(x % s + y, x / s, s);
  }

  lemma SubMod(x: int, y: int, s: int)
    requires s > 0
    ensures (x - y % s) % s == (x - y) % s
  {
    assert x - y % s == (x - y) + (y / s) * s;
    AddMultiple(x - y, y / s, s);
  }

  // Stepping by one either increments the remainder or wraps it.
  lemma SuccMod(x: int, s: int)
    requires s > 0
    ensures (x + 1) % s == if x % s == s - 1 then 0 else x % s + 1
  {
    var q, r := x / s, x % s;
    if r == s - 1 {
      assert x + 1 == (q + 1) * s + 0;
      ModUnique(x + 1, s, q + 1, 0);
    } else {
      ModUnique(x + 1, s, q, r + 1);
    }
  }
}
