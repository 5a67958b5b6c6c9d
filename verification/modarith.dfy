/**
 Natural-number powers and modular arithmetic.

 The card computes with fixed-width big integers through hardware primitives
 (modular exponentiation and multiplication). Here those primitives are the
 mathematical functions they implement, and the lemmas below are the facts
 about Euclidean `%` that the fixed-width computations rely on.
 */
module ModArith {

  /** `b` raised to the power `x`. */
  function Pow(b: nat, x: nat): (r: nat)
    ensures b > 0 ==> r > 0
  {
    if x == 0 then 1 else b * Pow(b, x - 1)
  }

  /** Modular exponentiation, the effect of `crypto_modexp`: `b^x mod n`. */
  function ModExp(b: nat, x: nat, n: nat): (r: nat)
    requires n > 0
    ensures r < n
  {
    Pow(b, x) % n
  }

  /** Modular multiplication, the effect of `crypto_modmul`: `a * b mod n`. */
  function ModMul(a: nat, b: nat, n: nat): (r: nat)
    requires n > 0
    ensures r < n
  {
    (a * b) % n
  }

  lemma {:induction false} PowAdd(b: nat, x: nat, y: nat)
    ensures Pow(b, x + y) == Pow(b, x) * Pow(b, y)
    decreases x
  {
    if x > 0 {
      PowAdd(b, x - 1, y);
      assert Pow(b, x + y) == b * Pow(b, x - 1 + y);
      MulAssoc(b, Pow(b, x - 1), Pow(b, y));
    }
  }

  lemma MulAssoc(a: int, b: int, c: int)
    ensures a * (b * c) == (a * b) * c
  {
  }

  lemma {:induction false} PowStrictlyIncreasing(b: nat, x: nat, y: nat)
    requires b > 1 && x < y
    ensures Pow(b, x) < Pow(b, y)
    decreases y
  {
    if x < y - 1 {
      PowStrictlyIncreasing(b, x, y - 1);
    }
    assert Pow(b, y) == b * Pow(b, y - 1);
    MulAtLeastDouble(b, Pow(b, y - 1));
  }

  lemma MulAtLeastDouble(b: nat, p: nat)
    requires b > 1 && p > 0
    ensures b * p > p
  {
    assert b * p == p + (b - 1) * p;
  }

  /** Powers of 256 are powers of 2: one byte is eight bits. */
  lemma {:induction false} PowBytesAreBits(k: nat)
    ensures Pow(2, 8 * k) == Pow(256, k)
    decreases k
  {
    if k > 0 {
      PowBytesAreBits(k - 1);
      PowAdd(2, 8, 8 * (k - 1));
      assert 8 + 8 * (k - 1) == 8 * k;
    }
  }

  lemma MulPositiveAtLeast(k: int, m: int)
    requires k >= 1 && m > 0
    ensures k * m >= m
  {
    assert k * m == m + (k - 1) * m;
  }

  /** Euclidean division is unique: a quotient and a remainder in range are THE quotient and remainder. */
  lemma ModUnique(x: int, m: int, q: int, s: int)
    requires m > 0 && 0 <= s < m && x == q * m + s
    ensures x % m == s && x / m == q
  {
    var q', s' := x / m, x % m;
    assert (q - q') * m == s' - s;
    if q > q' {
      MulPositiveAtLeast(q - q', m);
      assert false;
    } else if q < q' {
      MulPositiveAtLeast(q' - q, m);
      assert false;
    }
  }

  lemma MulRemainderBound(r: int, k: int, l: int, m: int)
    requires 0 <= r < m && 0 <= l < k
    ensures 0 <= r * k + l < m * k
  {
    assert r * k <= (m - 1) * k;
    assert (m - 1) * k + k == m * k;
  }

  /**
   Shifting a reduced value left and filling the vacated low digits:
   `(d mod m) * k + l == (d * k + l) mod (m * k)` for a low part `0 <= l < k`.
   This is the step that turns a reduction of the high window of a
   buffer into a reduction of the whole buffer.
   */
  lemma ModShift(d: int, m: int, k: int, l: int)
    requires m > 0 && k > 0 && 0 <= l < k
    ensures (d % m) * k + l == (d * k + l) % (m * k)
  {
    var q, r := d / m, d % m;
    assert d == q * m + r;
    assert d * k + l == q * (m * k) + (r * k + l) by {
      assert d * k == (q * m + r) * k == q * (m * k) + r * k;
    }
    MulRemainderBound(r, k, l, m);
    ModUnique(d * k + l, m * k, q, r * k + l);
  }

  /** Reducing the subtrahend first does not change the residue of a difference. */
  lemma ModSubMod(a: int, b: int, m: int)
    requires m > 0
    ensures (a - b % m) % m == (a - b) % m
  {
    var q := b / m;
    assert a - b % m == (a - b) + q * m;
    var s := (a - b) % m;
    ModUnique(a - b % m, m, (a - b) / m + q, s) by {
      assert a - b == ((a - b) / m) * m + s;
      assert a - b % m == ((a - b) / m + q) * m + s;
    }
  }

  /** Reducing the summand first does not change the residue of a sum. */
  lemma ModAddMod(a: int, b: int, m: int)
    requires m > 0
    ensures (a + b % m) % m == (a + b) % m
  {
    var q := b / m;
    var s := (a + b) % m;
    ModUnique(a + b % m, m, (a + b) / m - q, s) by {
      assert b == q * m + b % m;
      assert a + b == ((a + b) / m) * m + s;
      assert a + b % m == ((a + b) / m - q) * m + s;
    }
  }

  /** Reducing one factor first does not change the residue of a product. */
  lemma ModMulMod(a: int, b: int, m: int)
    requires m > 0
    ensures ((a % m) * b) % m == (a * b) % m
  {
    var q := a / m;
    assert a * b == (a % m) * b + (q * b) * m by {
      assert a == q * m + a % m;
      assert a * b == (q * m + a % m) * b == (q * b) * m + (a % m) * b;
    }
    var s := ((a % m) * b) % m;
    var t := ((a % m) * b) / m;
    assert (a % m) * b == t * m + s;
    ModUnique(a * b, m, t + q * b, s);
  }

  /** Reducing both factors first does not change the residue of a product. */
  lemma ModMulBoth(a: int, b: int, m: int)
    requires m > 0
    ensures ((a % m) * (b % m)) % m == (a * b) % m
  {
    ModMulMod(a, b % m, m);
    ModMulMod(b, a, m);
    assert a * (b % m) == (b % m) * a;
    assert b * a == a * b;
  }

  /** A value already in range is its own residue. */
  lemma ModSmall(x: int, m: int)
    requires 0 <= x < m
    ensures x % m == x
  {
    ModUnique(x, m, 0, x);
  }
}
