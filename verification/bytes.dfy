/**
 Big-endian byte buffers.

 Every big integer on the card lives in a fixed-length byte array, most
 significant byte first. `Value` reads such a buffer as a natural number and
 `FromNat` writes a number into a buffer of a given width, keeping only as
 many low-order bytes as fit.
 */
module Bytes {
  import opened ModArith

  type byte = b: int | 0 <= b < 256

  /** 256^k: one more than the largest value a k-byte buffer holds. */
  function Pow256(k: nat): (r: nat)
    ensures r > 0
  {
    Pow(256, k)
  }

  /** The number a big-endian buffer denotes. */
  function Value(s: seq<byte>): nat
  {
    ValueUpTo(s, |s|)
  }

  /** The number the first `n` bytes of a buffer denote. */
  function ValueUpTo(s: seq<byte>, n: nat): nat
    requires n <= |s|
  {
    if n == 0 then 0 else ValueUpTo(s, n - 1) * 256 + s[n - 1]
  }

  /** `k` zero bytes (the effect of `PUSHZ k` and `CLEARN`). */
  function Zeros(k: nat): (z: seq<byte>)
    ensures |z| == k
    ensures forall i :: 0 <= i < k ==> z[i] == 0
  {
    seq(k, _ => 0)
  }

  /** The `k`-byte big-endian encoding of `x mod 256^k`. */
  function FromNat(x: nat, k: nat): (s: seq<byte>)
    ensures |s| == k
  {
    if k == 0 then [] else FromNat(x / 256, k - 1) + [x % 256]
  }

  /** The prefix value only depends on the bytes of the prefix. */
  lemma {:induction false} ValueUpToAgree(s: seq<byte>, t: seq<byte>, n: nat)
    requires n <= |s| && n <= |t| && s[..n] == t[..n]
    ensures ValueUpTo(s, n) == ValueUpTo(t, n)
    decreases n
  {
    if n > 0 {
      assert s[n - 1] == s[..n][n - 1] == t[..n][n - 1] == t[n - 1];
      assert s[..n - 1] == s[..n][..n - 1] == t[..n][..n - 1] == t[..n - 1];
      ValueUpToAgree(s, t, n - 1);
    }
  }

  /** The first `n` bytes denote the value of the prefix `s[..n]`. */
  lemma ValuePrefix(s: seq<byte>, n: nat)
    requires n <= |s|
    ensures Value(s[..n]) == ValueUpTo(s, n)
  {
    assert s[..n][..n] == s[..n];
    ValueUpToAgree(s[..n], s, n);
  }

  /** Dropping the last byte: `Value(s) == Value(init) * 256 + last`. */
  lemma ValueLast(s: seq<byte>)
    requires |s| > 0
    ensures Value(s) == Value(s[..|s| - 1]) * 256 + s[|s| - 1]
  {
    ValuePrefix(s, |s| - 1);
  }

  lemma {:induction false} ValueUpToBound(s: seq<byte>, n: nat)
    requires n <= |s|
    ensures ValueUpTo(s, n) < Pow256(n)
    decreases n
  {
    if n > 0 {
      ValueUpToBound(s, n - 1);
      var v := ValueUpTo(s, n - 1);
      assert v * 256 + s[n - 1] < (v + 1) * 256;
      assert (v + 1) * 256 <= Pow256(n - 1) * 256;
      assert Pow256(n) == 256 * Pow256(n - 1);
    }
  }

  /** Appending a byte shifts the value by one digit. */
  lemma ValueAppend(s: seq<byte>, d: byte)
    ensures Value(s + [d]) == Value(s) * 256 + d
  {
    ValueLast(s + [d]);
    assert (s + [d])[..|s|] == s;
  }

  /** A k-byte buffer denotes a number below 256^k. */
  lemma ValueBound(s: seq<byte>)
    ensures Value(s) < Pow256(|s|)
  {
    ValueUpToBound(s, |s|);
  }

  lemma {:induction false} ValueUpToConcat(a: seq<byte>, b: seq<byte>, j: nat)
    requires j <= |b|
    ensures ValueUpTo(a + b, |a| + j) == Value(a) * Pow256(j) + ValueUpTo(b, j)
    decreases j
  {
    if j == 0 {
      assert (a + b)[..|a|] == a[..|a|];
      ValueUpToAgree(a + b, a, |a|);
    } else {
      ValueUpToConcat(a, b, j - 1);
      assert (a + b)[|a| + j - 1] == b[j - 1];
      ShiftDigit(Value(a), Pow256(j - 1), ValueUpTo(b, j - 1), b[j - 1]);
    }
  }

  /** Concatenating buffers concatenates digits: `a ++ b` denotes `a * 256^|b| + b`. */
  lemma ValueConcat(a: seq<byte>, b: seq<byte>)
    ensures Value(a + b) == Value(a) * Pow256(|b|) + Value(b)
  {
    ValueUpToConcat(a, b, |b|);
  }

  lemma ShiftDigit(x: int, p: int, y: int, d: int)
    ensures (x * p + y) * 256 + d == x * (256 * p) + (y * 256 + d)
  {
  }

  lemma {:induction false} ValueUpToZeros(k: nat, n: nat)
    requires n <= k
    ensures ValueUpTo(Zeros(k), n) == 0
    decreases n
  {
    if n > 0 {
      ValueUpToZeros(k, n - 1);
    }
  }

  lemma ValueOfZeros(k: nat)
    ensures Value(Zeros(k)) == 0
  {
    ValueUpToZeros(k, k);
  }

  /** Leading zero bytes do not change the value (zero-extension, as after `PUSHZ`). */
  lemma ValueZeroExtend(k: nat, s: seq<byte>)
    ensures Value(Zeros(k) + s) == Value(s)
  {
    ValueConcat(Zeros(k), s);
    ValueOfZeros(k);
  }

  /** Writing a number into k bytes keeps its residue modulo 256^k. */
  lemma {:induction false} ValueFromNat(x: nat, k: nat)
    ensures Value(FromNat(x, k)) == x % Pow256(k)
    decreases k
  {
    if k == 0 {
      assert x % 1 == 0 by { ModUnique(x, 1, x, 0); }
    } else {
      ValueFromNat(x / 256, k - 1);
      ValueAppend(FromNat(x / 256, k - 1), x % 256);
      ModShift(x / 256, Pow256(k - 1), 256, x % 256);
      assert Pow256(k) == 256 * Pow256(k - 1);
    }
  }

  /** A number that fits survives being written into k bytes and read back. */
  lemma ValueFromNatSmall(x: nat, k: nat)
    requires x < Pow256(k)
    ensures Value(FromNat(x, k)) == x
  {
    ValueFromNat(x, k);
    ModSmall(x, Pow256(k));
  }

  /** Reading a buffer and writing it back at the same width gives the same buffer. */
  lemma {:induction false} FromNatValue(s: seq<byte>)
    ensures FromNat(Value(s), |s|) == s
    decreases |s|
  {
    if |s| > 0 {
      var init := s[..|s| - 1];
      var last := s[|s| - 1];
      ValueLast(s);
      ModUnique(Value(s), 256, Value(init), last);
      FromNatValue(init);
      assert s == init + [last];
    }
  }

  /** Splitting a buffer at `j` splits its value into a high and a low part. */
  lemma ValueSplit(s: seq<byte>, j: nat)
    requires j <= |s|
    ensures Value(s) == Value(s[..j]) * Pow256(|s| - j) + Value(s[j..])
    ensures Value(s[j..]) < Pow256(|s| - j)
  {
    assert s == s[..j] + s[j..];
    ValueConcat(s[..j], s[j..]);
    ValueBound(s[j..]);
  }

  /** The trailing `|s| - j` bytes of a buffer denote its residue modulo 256^(|s| - j). */
  lemma ValueSuffix(s: seq<byte>, j: nat)
    requires j <= |s|
    ensures Value(s[j..]) == Value(s) % Pow256(|s| - j)
  {
    ValueSplit(s, j);
    ModUnique(Value(s), Pow256(|s| - j), Value(s[..j]), Value(s[j..]));
  }
}
