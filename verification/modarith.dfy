/**
 * Natural-number exponentiation and the modular-arithmetic facts that the
 * SRP server's big-integer computations rely on. Every value the server
 * feeds to `Exp`, `Mul`, `Add` and `Mod` is non-negative, so Go's
 * `big.Int` semantics coincide with Dafny's `%` on naturals here.
 */
module ModArith {

  /** x to the power e; `Pow(x, 0) == 1` as for `big.Int.Exp`. */
  function Pow(x: nat, e: nat): nat
  {
    if e == 0 then 1 else x * Pow(x, e - 1)
  }

  /** `big.Int.Exp(x, e, m)` for non-negative x, e and a positive modulus m. */
  function ModPow(x: nat, e: nat, m: nat): (r: nat)
    requires m > 0
    ensures r < m
  {
    Pow(x, e) % m
  }

  /** Division with remainder is unique. */
  lemma ModUnique(x: nat, m: nat, q: nat, r: nat)
    requires m > 0 && r < m && x == q * m + r
    ensures x % m == r && x / m == q
  {
    var q', r' := x / m, x % m;
    assert x == q' * m + r';
    if q' < q {
      MulDistrib(q', q - q', m);
      MulAtLeast(q - q', m);
      assert false;
    } else if q' > q {
      MulDistrib(q, q' - q, m);
      MulAtLeast(q' - q, m);
      assert false;
    }
  }

  lemma MulDistrib(a: nat, d: nat, m: nat)
    ensures (a + d) * m == a * m + d * m
  {
  }

  lemma MulAtLeast(d: nat, m: nat)
    requires d >= 1
    ensures d * m >= m
  {
    assert d * m == (d - 1) * m + m;
  }

  /** Reducing twice is reducing once. */
  lemma ModOfMod(x: nat, m: nat)
    requires m > 0
    ensures (x % m) % m == x % m
  {
    ModUnique(x % m, m, 0, x % m);
  }

  /** Adding a multiple of the modulus does not change a residue. */
  lemma ModAddMultiple(x: nat, k: nat, m: nat)
    requires m > 0
    ensures (x + k * m) % m == x % m
  {
    var q, r := x / m, x % m;
    assert x + k * m == (q + k) * m + r;
    ModUnique(x + k * m, m, q + k, r);
  }

  /** Reducing one summand first gives the same residue. */
  lemma ModAddLeft(a: nat, b: nat, m: nat)
    requires m > 0
    ensures (a + b % m) % m == (a + b) % m
  {
    var q := b / m;
    assert a + b == (a + b % m) + q * m;
    ModAddMultiple(a + b % m, q, m);
  }

  /** Reducing one factor first gives the same residue. */
  lemma ModMulRight(a: nat, b: nat, m: nat)
    requires m > 0
    ensures (a * (b % m)) % m == (a * b) % m
  {
    var q := b / m;
    assert b == q * m + b % m;
    calc {
      a * b;
      a * (q * m + b % m);
      a * (b % m) + (a * q) * m;
    }
    ModAddMultiple(a * (b % m), a * q, m);
  }

  /** Reducing the base first gives the same power residue. */
  lemma {:induction false} PowMod(x: nat, e: nat, m: nat)
    requires m > 0
    ensures Pow(x % m, e) % m == Pow(x, e) % m
  {
    if e > 0 {
      var y := x % m;
      calc {
        Pow(y, e) % m;
        (y * Pow(y, e - 1)) % m;
        { ModMulRight(y, Pow(y, e - 1), m); }
        (y * (Pow(y, e - 1) % m)) % m;
        { PowMod(x, e - 1, m); }
        (y * (Pow(x, e - 1) % m)) % m;
        { ModMulRight(y, Pow(x, e - 1), m); }
        (y * Pow(x, e - 1)) % m;
        (Pow(x, e - 1) * (x % m)) % m;
        { ModMulRight(Pow(x, e - 1), x, m); }
        (Pow(x, e - 1) * x) % m;
        Pow(x, e) % m;
      }
    }
  }

  /** Bases with the same residue have power residues that agree. */
  lemma PowCongruent(x: nat, y: nat, e: nat, m: nat)
    requires m > 0 && x % m == y % m
    ensures Pow(x, e) % m == Pow(y, e) % m
  {
    PowMod(x, e, m);
    PowMod(y, e, m);
  }
}
