/**
 The fixed-width computation of `v' = v - e * rA` (`crypto_compute_vPrime`).

 The card has no big-integer subtraction of a product, so the routine works
 in a scratch buffer of SIZE_V bytes with MULTOS block primitives:

 1. the top SIZE_V - SIZE_R_A bytes are cleared;
 2. `e`, zero-extended to half the width of `rA`, is multiplied by the low
    half of `rA` and the SIZE_R_A-byte product is stored at the bottom;
 3. the same is done with the high half of `rA`, and that product is added
    into the buffer one half-width higher, which multiplies it by
    256^(SIZE_R_A/2);
 4. the product is subtracted from `v` in two windows: the low
    SIZE_V/2 + 1 bytes, whose borrow is folded into the high subtrahend by
    incrementing it, then the high SIZE_V/2 bytes.

 Each primitive is modelled by its arithmetic effect on big-endian byte
 sequences; widths are the lengths of the sequences.
 */
module VPrime {
  import opened ModArith
  import opened Bytes

  /**
   The widths the routine needs (SIZE_E, SIZE_R_A, SIZE_V): `rA` splits into
   two equal halves, `e` fits a half, the product buffer fits in `v`, and
   the two subtraction windows of SIZE_V/2 + 1 and SIZE_V/2 bytes tile `v`.
   */
  predicate ValidWidths(sizeE: nat, sizeRA: nat, sizeV: nat)
  {
    && sizeRA % 2 == 0
    && sizeE <= sizeRA / 2
    && sizeRA <= sizeV
    && sizeV % 2 == 1
  }

  /** PRIM_MULTIPLY on two equal-width operands: the double-width product. */
  function Multiply(a: seq<byte>, b: seq<byte>): (p: seq<byte>)
    requires |a| == |b|
    ensures |p| == 2 * |a|
  {
    FromNat(Value(a) * Value(b), 2 * |a|)
  }

  /** The double-width product is exact: nothing is lost to the width. */
  lemma MultiplyValue(a: seq<byte>, b: seq<byte>)
    requires |a| == |b|
    ensures Value(Multiply(a, b)) == Value(a) * Value(b)
  {
    ValueBound(a);
    ValueBound(b);
    PowAdd(256, |a|, |b|);
    ProductBound(Value(a), Value(b), Pow256(|a|), Pow256(|b|));
    ValueFromNatSmall(Value(a) * Value(b), 2 * |a|);
  }

  lemma ProductBound(x: nat, y: nat, p: nat, q: nat)
    requires x < p && y < q
    ensures x * y < p * q
  {
    assert x * y <= x * q;
    assert x * q < p * q;
  }

  /**
   ADDN: add an operand into a memory block, keeping the block's width.
   The operand is the value on the stack; when the block is wider than
   what was pushed, the stack bytes below it are taken to read as zero.
   */
  function AddN(block: seq<byte>, operand: seq<byte>): (r: seq<byte>)
    ensures |r| == |block|
  {
    FromNat(Value(block) + Value(operand), |block|)
  }

  lemma AddNValue(block: seq<byte>, operand: seq<byte>)
    ensures Value(AddN(block, operand)) == (Value(block) + Value(operand)) % Pow256(|block|)
  {
    ValueFromNat(Value(block) + Value(operand), |block|);
  }

  /**
   SUBN followed by CFlag: the fixed-width difference and whether it
   borrowed. A borrow is exactly what lifts the difference back into the
   window by one 256^width.
   */
  function SubN(a: seq<byte>, b: seq<byte>): (r: (seq<byte>, bool))
    requires |a| == |b|
    ensures |r.0| == |a|
    ensures r.1 <==> Value(a) < Value(b)
    ensures Value(r.0) == Value(a) - Value(b) + (if r.1 then Pow256(|a|) else 0)
  {
    var d, w := Value(a) - Value(b), Pow256(|a|);
    var borrow := Value(a) < Value(b);
    ValueBound(a);
    ValueBound(b);
    ModUnique(d, w, if borrow then -1 else 0, d + (if borrow then w else 0));
    ValueFromNatSmall(d % w, |a|);
    (FromNat(d % w, |a|), borrow)
  }

  lemma SubNValue(a: seq<byte>, b: seq<byte>)
    requires |a| == |b|
    ensures Value(SubN(a, b).0) == (Value(a) - Value(b)) % Pow256(|a|)
  {
    ValueFromNatSmall((Value(a) - Value(b)) % Pow256(|a|), |a|);
  }

  /** INCN: add one, wrapping at the block's width. */
  function IncN(a: seq<byte>): (r: seq<byte>)
    ensures |r| == |a|
  {
    FromNat(Value(a) + 1, |a|)
  }

  lemma IncNValue(a: seq<byte>)
    ensures Value(IncN(a)) == (Value(a) + 1) % Pow256(|a|)
  {
    ValueFromNat(Value(a) + 1, |a|);
  }

  /** PUSHZ followed by a push of `e`: `e` zero-extended to `width` bytes on the stack. */
  function Widen(e: seq<byte>, width: nat): (w: seq<byte>)
    requires |e| <= width
    ensures |w| == width && Value(w) == Value(e)
  {
    ValueZeroExtend(width - |e|, e);
    Zeros(width - |e|) + e
  }

  /**
   Steps 1-2 (lines 154-161): the top SIZE_V - SIZE_R_A bytes cleared and
   the low half-product stored below them.
   */
  function StoreLowProduct(e: seq<byte>, rA: seq<byte>, scratch: seq<byte>): (stored: seq<byte>)
    requires ValidWidths(|e|, |rA|, |scratch|)
    ensures |stored| == |scratch|
    ensures stored == Zeros(|scratch| - |rA|) + stored[|scratch| - |rA|..]
    ensures Value(stored[|scratch| - |rA|..]) == Value(e) * Value(rA[|rA| / 2..])
  {
    var V, R := |scratch|, |rA|;
    var H := R / 2;
    var cleared := Zeros(V - R) + scratch[V - R..];
    assert cleared[..V - R] == Zeros(V - R);
    var low := Multiply(Widen(e, H), rA[H..]);
    MultiplyValue(Widen(e, H), rA[H..]);
    var stored := cleared[..V - R] + low;
    assert stored[V - R..] == low;
    stored
  }

  /** Step 3 (lines 163-167): the high half-product on the stack. */
  function HighProduct(e: seq<byte>, rA: seq<byte>): (high: seq<byte>)
    requires |rA| % 2 == 0 && |e| <= |rA| / 2
    ensures |high| == |rA|
    ensures Value(high) == Value(e) * Value(rA[..|rA| / 2])
  {
    var H := |rA| / 2;
    MultiplyValue(Widen(e, H), rA[..H]);
    Multiply(Widen(e, H), rA[..H])
  }

  /**
   Steps 1-3 (lines 154-171): the buffer after both half-products and the
   add, starting from arbitrary previous contents `scratch`.
   */
  function ProductBuffer(e: seq<byte>, rA: seq<byte>, scratch: seq<byte>): (buf: seq<byte>)
    requires ValidWidths(|e|, |rA|, |scratch|)
    ensures |buf| == |scratch|
    ensures Value(buf) == (Value(e) * Value(rA)) % Pow256(|scratch|)
  {
    var stored := StoreLowProduct(e, rA, scratch);
    var high := HighProduct(e, rA);
    var sum := AddN(stored[..|stored| - |rA| / 2], high);
    ProductBufferValue(e, rA, stored, high, sum);
    sum + stored[|sum|..]
  }

  /**
   The value argument for steps 2-3: the low half-product sits at the
   bottom of a cleared buffer, and the high half-product is added one
   half-width of `rA` higher, modulo the width of that window.
   */
  lemma ProductBufferValue(e: seq<byte>, rA: seq<byte>, stored: seq<byte>, high: seq<byte>, sum: seq<byte>)
    requires |rA| % 2 == 0 && |rA| <= |stored|
    requires stored == Zeros(|stored| - |rA|) + stored[|stored| - |rA|..]
    requires Value(stored[|stored| - |rA|..]) == Value(e) * Value(rA[|rA| / 2..])
    requires Value(high) == Value(e) * Value(rA[..|rA| / 2])
    requires sum == AddN(stored[..|stored| - |rA| / 2], high)
    ensures |sum| <= |stored| && |sum + stored[|sum|..]| == |stored|
    ensures Value(sum + stored[|sum|..]) == (Value(e) * Value(rA)) % Pow256(|stored|)
  {
    var V, H := |stored|, |rA| / 2;
    AddNValue(stored[..V - H], high);
    BufferLayout(stored, sum, |rA|);
    ValueSplit(rA, H);
    ProductArith(Value(e), Value(rA[H..]), Value(rA[..H]), Value(rA), Value(stored[V - |rA|..]),
                 Value(stored[..V - H]), Value(stored[V - H..]), Value(high), Value(sum),
                 Value(sum + stored[V - H..]), Pow256(H), Pow256(V - H), Pow256(V));
  }

  /**
   The positions in the product buffer: the stored low product is the
   whole cleared buffer read as a window over a half-width low part, and
   writing the window back over the same low part shifts it by that half.
   */
  lemma BufferLayout(stored: seq<byte>, sum: seq<byte>, R: nat)
    requires R % 2 == 0 && R <= |stored| && |sum| == |stored| - R / 2
    requires stored == Zeros(|stored| - R) + stored[|stored| - R..]
    ensures var V, H := |stored|, R / 2;
            && Value(stored[V - R..]) == Value(stored[..V - H]) * Pow256(H) + Value(stored[V - H..])
            && Value(stored[V - H..]) < Pow256(H)
            && Value(sum + stored[V - H..]) == Value(sum) * Pow256(H) + Value(stored[V - H..])
            && Pow256(V) == Pow256(V - H) * Pow256(H)
  {
    var V, H := |stored|, R / 2;
    ValueSplit(stored, V - H);
    assert |stored| - (V - H) == H;
    ValueConcat(sum, stored[V - H..]);
    PowAdd(256, V - H, H);
    assert V - H + H == V;
    ValueZeroExtend(V - R, stored[V - R..]);
  }

  /**
   The arithmetic of steps 2-3. The buffer holds `low = x * lo` as a window
   `top` over a low part `bottom`; `high = x * hi` is added into the window
   modulo its width `m`. The whole buffer then holds `x * r` for
   `r = hi * k + lo`, modulo the whole width `m * k`.
   */
  lemma ProductArith(x: int, lo: int, hi: int, r: int, low: int, top: int, bottom: int,
                     high: int, window: int, whole: int, k: int, m: int, width: int)
    requires k > 0 && m > 0 && 0 <= bottom < k && width == m * k
    requires low == top * k + bottom && low == x * lo && r == hi * k + lo
    requires high == x * hi && window == (top + high) % m && whole == window * k + bottom
    ensures whole == (x * r) % width
  {
    ModShift(top + x * hi, m, k, bottom);
    assert (top + x * hi) * k + bottom == x * (hi * k + lo) by {
      assert (top + x * hi) * k == top * k + x * hi * k;
      assert x * (hi * k + lo) == x * hi * k + x * lo;
    }
  }

  /**
   The low subtraction window (line 174): SIZE_V/2 + 1 bytes of `v` minus
   the same bytes of the product, with the borrow read by CFlag.
   */
  function LowWindow(v: seq<byte>, buf: seq<byte>): (r: (seq<byte>, bool))
    requires |v| == |buf|
    ensures |r.0| == |v| - |v| / 2
    ensures Value(r.0) == (Value(v[|v| / 2..]) - Value(buf[|v| / 2..])) % Pow256(|v| - |v| / 2)
    ensures r.1 <==> Value(v[|v| / 2..]) < Value(buf[|v| / 2..])
  {
    SubNValue(v[|v| / 2..], buf[|v| / 2..]);
    SubN(v[|v| / 2..], buf[|v| / 2..])
  }

  /**
   The high subtrahend after the borrow step (lines 176-180): the high
   SIZE_V/2 bytes of the product, incremented once exactly when the low
   window borrowed.
   */
  function HighSubtrahend(v: seq<byte>, buf: seq<byte>): (r: seq<byte>)
    requires |v| == |buf|
    ensures |r| == |v| / 2
    ensures var borrow := if Value(v[|v| / 2..]) < Value(buf[|v| / 2..]) then 1 else 0;
            Value(r) == (Value(buf[..|v| / 2]) + borrow) % Pow256(|v| / 2)
  {
    var h := |v| / 2;
    var (_, borrow) := LowWindow(v, buf);
    if borrow then
      IncNValue(buf[..h]);
      IncN(buf[..h])
    else
      ValueBound(buf[..h]);
      ModSmall(Value(buf[..h]), Pow256(h));
      buf[..h]
  }

  /**
   Step 4 (lines 174-182): `v - buf` in two windows with one explicit borrow.
   The windows tile the buffer because its width is odd.
   */
  function SubtractWithBorrow(v: seq<byte>, buf: seq<byte>): (r: seq<byte>)
    requires |v| == |buf| && |v| % 2 == 1
    ensures |r| == |v|
    ensures Value(r) == (Value(v) - Value(buf)) % Pow256(|v|)
  {
    var h := |v| / 2;
    var (low, _) := LowWindow(v, buf);
    var (high, _) := SubN(v[..h], HighSubtrahend(v, buf));
    SubtractWithBorrowValue(v, buf, low, high);
    high + low
  }

  lemma SubtractWithBorrowValue(v: seq<byte>, buf: seq<byte>, low: seq<byte>, high: seq<byte>)
    requires |v| == |buf| && |v| % 2 == 1
    requires low == LowWindow(v, buf).0
    requires high == SubN(v[..|v| / 2], HighSubtrahend(v, buf)).0
    ensures Value(high + low) == (Value(v) - Value(buf)) % Pow256(|v|)
  {
    var h := |v| / 2;
    SubNValue(v[..h], HighSubtrahend(v, buf));
    ValueSplit(v, h);
    ValueSplit(buf, h);
    ValueConcat(high, low);
    PowAdd(256, h, |v| - h);
    BorrowArith(Value(v[..h]), Value(v[h..]), Value(buf[..h]), Value(buf[h..]), Pow256(|v| - h), Pow256(h));
  }

  /**
   The arithmetic of step 4: subtracting `bh * p + bl` from `vh * p + vl`
   window by window, with the low window's borrow added to the high
   subtrahend, gives the difference modulo `q * p`.
   */
  lemma BorrowArith(vh: int, vl: int, bh: int, bl: int, p: int, q: int)
    requires p > 0 && q > 0 && 0 <= vl < p && 0 <= bl < p
    ensures var beta := if vl < bl then 1 else 0;
            ((vh - (bh + beta) % q) % q) * p + (vl - bl) % p == ((vh * p + vl) - (bh * p + bl)) % (q * p)
  {
    var beta := if vl < bl then 1 else 0;
    var lowDiff := vl - bl + beta * p;
    assert 0 <= lowDiff < p;
    ModUnique(vl - bl, p, -beta, lowDiff);
    ModSubMod(vh, bh + beta, q);
    ModShift(vh - bh - beta, q, p, lowDiff);
    assert (vh - bh - beta) * p + lowDiff == (vh * p + vl) - (bh * p + bl) by {
      assert (vh - bh - beta) * p == vh * p - bh * p - beta * p;
    }
  }

  /**
   `crypto_compute_vPrime`: v' as the SIZE_V-byte buffer the routine leaves
   behind, from the signature's `v` and `e`, the blinding `rA` and whatever
   the scratch buffer held before.
   */
  function ComputeVPrime(e: seq<byte>, rA: seq<byte>, v: seq<byte>, scratch: seq<byte>): (vPrime: seq<byte>)
    requires |scratch| == |v| && ValidWidths(|e|, |rA|, |v|)
    ensures |vPrime| == |v|
    ensures Value(vPrime) == (Value(v) - Value(e) * Value(rA)) % Pow256(|v|)
  {
    var product := ProductBuffer(e, rA, scratch);
    ModSubMod(Value(v), Value(e) * Value(rA), Pow256(|v|));
    SubtractWithBorrow(v, product)
  }

  /** When the product fits, the buffer after step 3 holds `e * rA` exactly. */
  lemma ProductBufferExact(e: seq<byte>, rA: seq<byte>, scratch: seq<byte>)
    requires ValidWidths(|e|, |rA|, |scratch|) && |e| + |rA| <= |scratch|
    ensures Value(ProductBuffer(e, rA, scratch)) == Value(e) * Value(rA)
  {
    ValueBound(e);
    ValueBound(rA);
    PowAdd(256, |e|, |rA|);
    if |e| + |rA| < |scratch| {
      PowStrictlyIncreasing(256, |e| + |rA|, |scratch|);
    }
    ProductFits(Value(e), Value(rA), Pow256(|e|), Pow256(|rA|), Pow256(|scratch|));
  }

  /** A product of factors below `p` and `q` is its own residue modulo any `m >= p * q`. */
  lemma ProductFits(x: nat, y: nat, p: nat, q: nat, m: nat)
    requires x < p && y < q && p * q <= m
    ensures (x * y) % m == x * y
  {
    ProductBound(x, y, p, q);
    ModSmall(x * y, m);
  }

  /**
   When `v >= e * rA` (the margin on the length of `rA` is there to make
   this hold) the limb method computes the exact difference.
   */
  lemma VPrimeExact(e: seq<byte>, rA: seq<byte>, v: seq<byte>, scratch: seq<byte>)
    requires |scratch| == |v| && ValidWidths(|e|, |rA|, |v|)
    requires Value(v) >= Value(e) * Value(rA)
    ensures Value(ComputeVPrime(e, rA, v, scratch)) == Value(v) - Value(e) * Value(rA)
  {
    var d := Value(v) - Value(e) * Value(rA);
    ValueBound(v);
    ModSmall(d, Pow256(|v|));
  }

  /** The previous contents of the scratch buffer never reach the result. */
  lemma VPrimeIgnoresScratch(e: seq<byte>, rA: seq<byte>, v: seq<byte>, s1: seq<byte>, s2: seq<byte>)
    requires |s1| == |v| && |s2| == |v| && ValidWidths(|e|, |rA|, |v|)
    ensures ComputeVPrime(e, rA, v, s1) == ComputeVPrime(e, rA, v, s2)
  {
    var r1, r2 := ComputeVPrime(e, rA, v, s1), ComputeVPrime(e, rA, v, s2);
    FromNatValue(r1);
    FromNatValue(r2);
  }

  /** The two subtraction windows tile the buffer exactly when its width is odd. */
  lemma WindowsTileIffOdd(sizeV: nat)
    ensures (sizeV / 2 + 1) + sizeV / 2 == sizeV <==> sizeV % 2 == 1
  {
  }
}
