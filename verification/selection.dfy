/**
 Choosing the attributes to disclose (`selectAttributes`).

 The verifier sends a 16-bit mask; bit k set means attribute k is revealed.
 The card is meant to refuse a mask with a bit outside 1..size (index 0 is
 the master secret and must stay hidden). The loop that checks this walks
 the powers of two 1, 2, 4, ..., 0x4000, but its test is written
 `selection & i != 0`, which C parses as `selection & (i != 0)`, that is
 `selection & 1`. `SelectAttributes` models the check as written;
 `SelectAttributesIntended` is the check the error message of line 48
 ("invalid attribute index") and the `i > size` test evidently intend.
 */
module Selection {
  import opened ModArith
  import opened Status

  /** The disclosure mask: a 16-bit `int` on the card. */
  type Mask = bv16

  /** The part of the proof session `selectAttributes` writes. */
  datatype ProveSession = ProveSession(disclose: Mask)

  /** Whether bit `k` of the mask is set. */
  predicate Bit(mask: Mask, k: nat)
    requires k < 16
  {
    (mask >> k) & 1 == 1
  }

  /**
   The per-value test of line 46 with C precedence: `selection & (i != 0)`
   tests bit 0 only, and the range test compares the power of two itself
   with the number of attributes.
   */
  predicate LiteralTestFails(selection: Mask, i: nat, size: nat)
  {
    && (selection & (if i != 0 then 1 else 0)) != 0
    && (i == 0 || i > size)
  }

  /**
   `selectAttributes` as written (lines 42-54): test the loop values
   2^0, ..., 2^14 in turn, abort with WRONG DATA on the first failing test,
   else record the mask. `visited` lists the values of `i` the loop tested:
   all fifteen powers of two on success, never 0, so the `i == 0` disjunct
   of line 46 is unreachable.
   */
  method SelectAttributes(session: ProveSession, selection: Mask, size: nat)
    returns (next: ProveSession, outcome: Outcome, ghost visited: seq<nat>)
    ensures |visited| <= 15 && forall j :: 0 <= j < |visited| ==> visited[j] == Pow(2, j)
    ensures 0 !in visited
    ensures outcome.Pass? ==> |visited| == 15
    ensures outcome.Fail? ==> |visited| >= 1 && LiteralTestFails(selection, visited[|visited| - 1], size)
    ensures outcome.Fail? ==> forall j :: 0 <= j < |visited| - 1 ==> !LiteralTestFails(selection, visited[j], size)
    ensures outcome.Fail? <==> exists k :: 0 <= k < 15 && LiteralTestFails(selection, Pow(2, k), size)
    ensures outcome.Fail? <==> Bit(selection, 0) && size < 0x4000
    ensures outcome.Pass? ==> next == session.(disclose := selection)
    ensures outcome.Fail? ==> next == session && outcome.sw == WrongData
  {
    LiteralRejectsIff(selection, size);
    var i: nat := 1;
    ghost var k: nat := 0;
    visited := [];
    while i < 0x8000
      invariant k <= 15 && i == Pow(2, k) && |visited| == k
      invariant forall j :: 0 <= j < k ==> visited[j] == Pow(2, j)
      invariant 0 !in visited
      invariant forall j :: 0 <= j < k ==> !LiteralTestFails(selection, Pow(2, j), size)
      decreases 0x8000 - i
    {
      PowTwoBelowTop(k);
      PowTwoAtMostTop(k);
      visited := visited + [i];
      if LiteralTestFails(selection, i, size) {
        return session, Fail(WrongData), visited;
      }
      i := i * 2;
      k := k + 1;
    }
    PowTwoBelowTop(k);
    next := session.(disclose := selection);
    outcome := Pass;
  }

  /** The loop variable 2^k stays below 0x8000 exactly for the fifteen exponents k < 15. */
  lemma PowTwoBelowTop(k: nat)
    ensures Pow(2, k) < 0x8000 <==> k < 15
  {
    PowTwoTop();
    if k < 15 {
      PowStrictlyIncreasing(2, k, 15);
    } else if k > 15 {
      PowStrictlyIncreasing(2, 15, k);
    }
  }

  /**
   With C precedence the check rejects exactly when bit 0 is set and some
   visited power of two exceeds `size`, that is, when `size < 0x4000`.
   */
  lemma LiteralRejectsIff(selection: Mask, size: nat)
    ensures (exists k :: 0 <= k < 15 && LiteralTestFails(selection, Pow(2, k), size))
            <==> Bit(selection, 0) && size < 0x4000
  {
    forall k | 0 <= k < 15
      ensures LiteralTestFails(selection, Pow(2, k), size) <==> Bit(selection, 0) && Pow(2, k) > size
      ensures Pow(2, k) <= 0x4000
    {
      LiteralTestMeaning(selection, Pow(2, k), size);
      PowTwoAtMostTop(k);
    }
    if Bit(selection, 0) && size < 0x4000 {
      PowTwoAtMostTop(14);
      assert LiteralTestFails(selection, Pow(2, 14), size);
    }
  }

  /** With C precedence the test reads bit 0 and nothing else of the mask. */
  lemma LiteralTestMeaning(selection: Mask, i: nat, size: nat)
    ensures LiteralTestFails(selection, i, size) <==> i != 0 && Bit(selection, 0) && i > size
  {
    assert (selection & 1) != 0 <==> Bit(selection, 0);
    assert selection & 0 == 0;
  }

  lemma PowTwoTop()
    ensures Pow(2, 14) == 0x4000 && Pow(2, 15) == 0x8000
  {
    PowBytesAreBits(1);
    PowAdd(2, 8, 6);
    PowAdd(2, 8, 7);
  }

  /** The visited powers 2^0, ..., 2^14 are at most 0x4000, with 2^14 the last. */
  lemma PowTwoAtMostTop(k: nat)
    requires k < 15
    ensures 1 <= Pow(2, k) <= 0x4000
    ensures k == 14 ==> Pow(2, k) == 0x4000
  {
    PowTwoTop();
    if k < 14 {
      PowStrictlyIncreasing(2, k, 14);
    }
  }

  /**
   The intended rule: every set bit names an attribute, so its index lies
   in 1..size. Bit 0 (the master secret) is never disclosed.
   */
  predicate ValidSelection(selection: Mask, size: nat)
  {
    forall k :: 0 <= k < 16 && Bit(selection, k) ==> 1 <= k <= size
  }

  /**
   The corrected check: test every bit index of the mask against 1..size,
   abort with WRONG DATA on the first bad one, else record the mask.
   */
  method SelectAttributesIntended(session: ProveSession, selection: Mask, size: nat)
    returns (next: ProveSession, outcome: Outcome)
    ensures outcome.Pass? <==> ValidSelection(selection, size)
    ensures outcome.Pass? ==> next == session.(disclose := selection)
    ensures outcome.Fail? ==> next == session && outcome.sw == WrongData
  {
    var k: nat := 0;
    while k < 16
      invariant k <= 16
      invariant forall j :: 0 <= j < k && Bit(selection, j) ==> 1 <= j <= size
    {
      if Bit(selection, k) && (k == 0 || k > size) {
        return session, Fail(WrongData);
      }
      k := k + 1;
    }
    next := session.(disclose := selection);
    outcome := Pass;
  }

  /** The check as written never refuses a mask the intended rule accepts. */
  lemma IntendedValidPassesLiteral(selection: Mask, size: nat)
    requires ValidSelection(selection, size)
    ensures !exists k :: 0 <= k < 15 && LiteralTestFails(selection, Pow(2, k), size)
  {
    LiteralRejectsIff(selection, size);
    assert !Bit(selection, 0);
  }

  /**
   The check as written accepts masks the intended rule refuses: with four
   attributes, a mask naming attribute 5 passes.
   */
  lemma LiteralAcceptsOutOfRange()
    ensures !exists k :: 0 <= k < 15 && LiteralTestFails(0x0020, Pow(2, k), 4)
    ensures !ValidSelection(0x0020, 4)
  {
    LiteralRejectsIff(0x0020, 4);
    assert Bit(0x0020, 5);
  }

  /**
   The check as written lets the master secret (bit 0) through once the
   credential claims 0x4000 or more attributes; the intended rule never does.
   */
  lemma LiteralDisclosesMasterSecret(size: nat)
    requires size >= 0x4000
    ensures !exists k :: 0 <= k < 15 && LiteralTestFails(0x0001, Pow(2, k), size)
    ensures !ValidSelection(0x0001, size)
  {
    LiteralRejectsIff(0x0001, size);
    assert Bit(0x0001, 0);
  }

  /** Under the intended rule the master secret is hidden whatever the mask. */
  lemma IntendedHidesMasterSecret(selection: Mask, size: nat)
    requires ValidSelection(selection, size)
    ensures !Bit(selection, 0)
  {
  }
}
