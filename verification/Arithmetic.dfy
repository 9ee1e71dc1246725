/** Facts about division by a variable, kept away from the proofs that need only their results. */
module Arithmetic {

  lemma AtLeastOnce(d: int, p: nat)
    requires 1 <= d
    ensures p <= d * p
  {
    assert d * p == (d - 1) * p + p;
  }

  lemma DivModUnique(x: int, p: nat, q: int, r: nat)
    requires r < p && x == q * p + r
    ensures x / p == q && x % p == r
  {
    var d := q - x / p;
    assert d * p == q * p - (x / p) * p;
    if 1 <= d {
      AtLeastOnce(d, p);
    } else if d <= -1 {
      AtLeastOnce(-d, p);
    }
  }

  /** Adding whole periods does not change a remainder. */
  lemma ModAdd(x: int, q: int, p: nat)
    requires 0 < p
    ensures (x + q * p) % p == x % p
  {
    assert x + q * p == (x / p + q) * p + x % p;
    DivModUnique(x + q * p, p, x / p + q, x % p);
  }

  lemma NextMod(x: nat, p: nat)
    requires 0 < p
    ensures (x % p + 1) % p == (x + 1) % p
  {
    var q := x / p;
    assert x + 1 == (x % p + 1) + q * p;
    ModAdd(x % p + 1, q, p);
  }

  lemma SumMod(a: nat, b: nat, p: nat)
    requires 0 < p
    ensures (a + b) % p == (a + b % p) % p
  {
    var q := b / p;
    assert a + b == (a + b % p) + q * p;
    ModAdd(a + b % p, q, p);
  }

  /** `x / n`, by subtraction. */
  function Quot(x: nat, n: nat): (q: nat)
    requires 2 <= n
    ensures q <= x && (n <= x ==> 1 <= q < x) && (x < n ==> q == 0)
  {
    if x < n then 0 else 1 + Quot(x - n, n)
  }

  /** `x % n`, by subtraction. */
  function Rem(x: nat, n: nat): (r: nat)
    requires 2 <= n
    ensures r < n
  {
    if x < n then x else Rem(x - n, n)
  }

  lemma {:induction false} QuotRem(x: nat, n: nat)
    requires 2 <= n
    ensures x == Quot(x, n) * n + Rem(x, n)
  {
    if n <= x {
      QuotRem(x - n, n);
      assert Quot(x, n) * n == Quot(x - n, n) * n + n;
    }
  }

  lemma DivIsQuot(x: nat, n: nat)
    requires 2 <= n
    ensures x / n == Quot(x, n) && x % n == Rem(x, n)
  {
    QuotRem(x, n);
    DivModUnique(x, n, Quot(x, n), Rem(x, n));
  }

  /** `q * n + r`, by addition. */
  function Recompose(q: nat, r: nat, n: nat): nat {
    if q == 0 then r else n + Recompose(q - 1, r, n)
  }

  lemma {:induction false} RecomposeIs(q: nat, r: nat, n: nat)
    ensures Recompose(q, r, n) == q * n + r
  {
    if q > 0 {
      RecomposeIs(q - 1, r, n);
      assert q * n == (q - 1) * n + n;
    }
  }

  lemma {:induction false} RecomposeQuotRem(x: nat, n: nat)
    requires 2 <= n
    ensures Recompose(Quot(x, n), Rem(x, n), n) == x
  {
    if n <= x {
      RecomposeQuotRem(x - n, n);
    }
  }

  lemma {:induction false} QuotMonotone(a: nat, b: nat, n: nat)
    requires a <= b && 2 <= n
    ensures Quot(a, n) <= Quot(b, n)
    decreases b
  {
    if n <= a {
      QuotMonotone(a - n, b - n, n);
    }
  }
}
