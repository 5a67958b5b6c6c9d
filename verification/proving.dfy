/**
 Constructing a selective-disclosure proof (`constructProof`).

 The card holds a Camenisch-Lysyanskaya signature (A, e, v) on attributes
 m[0..size] under an issuer key (n, S, Z, R[]). To prove possession while
 revealing only some attributes, it

 1. draws blindings m~[i] for every hidden index i, and e~, v~ and rA;
 2. randomizes the signature: A' = S^rA * A mod n;
 3. commits: Z~ = S^v~ * A'^e~ * prod over hidden i of R[i]^m~[i] mod n;
 4. hashes (context, A', Z~, nonce) into the challenge c;
 5. answers e^ = e~ + c*e', v^ = v~ + c*v' and m^[i] = m~[i] + c*m[i] for
    every hidden i, where e' is e without its fixed top bit and
    v' = v - e*rA.

 Modular exponentiation and multiplication are the mathematical functions;
 the random source, the hash and the definition of "disclosed" are
 parameters.
 */
module Proving {
  import opened ModArith
  import opened Bytes
  import VPrime

  /** The issuer's public key: modulus n and bases S, Z, R[0..]. */
  datatype IssuerKey = IssuerKey(n: nat, S: nat, Z: nat, R: seq<nat>)

  /** The signature: A as a number, e and v as the big-endian buffers the card keeps. */
  datatype Signature = Signature(A: nat, e: seq<byte>, v: seq<byte>)

  /** A credential: `size` attributes m[1..size] next to the master secret m[0]. */
  datatype Credential = Credential(size: nat, m: seq<nat>, issuerKey: IssuerKey, signature: Signature)

  /**
   The build-time sizes: byte widths (SIZE_N, SIZE_H, SIZE_STATZK, SIZE_E,
   SIZE_EPRIME, SIZE_V, SIZE_R_A) and bit lengths of the random draws
   (LENGTH_M_, LENGTH_E_, LENGTH_V_, LENGTH_R_A).
   */
  datatype Sizes = Sizes(n: nat, h: nat, statZK: nat, e: nat, ePrime: nat, v: nat, rA: nat,
                         lengthMTilde: nat, lengthETilde: nat, lengthVTilde: nat, lengthRA: nat)

  /**
   What the routine needs of the sizes: e' is part of e, the widths of
   `crypto_compute_vPrime` fit, and the shortened rA draw fits its buffer.
   */
  predicate ValidSizes(z: Sizes)
  {
    && z.ePrime <= z.e
    && VPrime.ValidWidths(z.e, z.rA, z.v)
    && z.lengthRA >= 7
    && Pow(2, z.lengthRA - 7) <= Pow256(z.rA)
  }

  /** A credential the card can prove with: every index 0..size has a base and an attribute. */
  predicate ValidCredential(c: Credential, z: Sizes)
  {
    && 0 < c.issuerKey.n <= Pow256(z.n)
    && |c.issuerKey.R| > c.size
    && |c.m| > c.size
    && |c.signature.e| == z.e
    && |c.signature.v| == z.v
  }

  /** The indices 0..size that are not disclosed: the ones proved in zero knowledge. */
  function Hidden(size: nat, disclosed: nat -> bool): set<nat>
  {
    set i: nat | i <= size && !disclosed(i)
  }

  /** What the random source is asked for. */
  datatype Draw = MTilde(i: nat) | ETilde | VTilde | RA

  /** `crypto_generate_random(buffer, bits)`: a number of `bits` random bits. */
  function Random(raw: nat, bits: nat): (r: nat)
    ensures r < Pow(2, bits)
  {
    raw % Pow(2, bits)
  }

  /** The blindings of one proof. */
  datatype Blindings = Blindings(mTilde: map<nat, nat>, eTilde: nat, vTilde: nat, rA: seq<byte>)

  /** The m~ blindings the proof needs: one fresh draw for each hidden index, and no others. */
  function MTildeDraws(size: nat, disclosed: nat -> bool, rng: Draw -> nat, bits: nat): map<nat, nat>
  {
    map i | i in Hidden(size, disclosed) :: Random(rng(MTilde(i)), bits)
  }

  /**
   Lines 62-75: draw m~[i] for i = 0..size when i is not disclosed, then
   e~, v~, and rA with LENGTH_R_A - 7 bits into its SIZE_R_A-byte buffer.
   */
  method GenerateBlindings(size: nat, disclosed: nat -> bool, rng: Draw -> nat, z: Sizes)
    returns (b: Blindings)
    requires ValidSizes(z)
    ensures b.mTilde == MTildeDraws(size, disclosed, rng, z.lengthMTilde)
    ensures b.mTilde.Keys == Hidden(size, disclosed)
    ensures forall i :: i in b.mTilde ==> b.mTilde[i] < Pow(2, z.lengthMTilde)
    ensures b.eTilde == Random(rng(ETilde), z.lengthETilde)
    ensures b.vTilde == Random(rng(VTilde), z.lengthVTilde)
    ensures |b.rA| == z.rA && Value(b.rA) == Random(rng(RA), z.lengthRA - 7)
    ensures Value(b.rA) < Pow(2, z.lengthRA - 7)
  {
    var mTilde: map<nat, nat> := map[];
    var i: nat := 0;
    while i <= size
      invariant i <= size + 1
      invariant mTilde.Keys == set j: nat | j < i && !disclosed(j)
      invariant forall j :: j in mTilde ==> mTilde[j] == Random(rng(MTilde(j)), z.lengthMTilde)
    {
      if !disclosed(i) {
        mTilde := mTilde[i := Random(rng(MTilde(i)), z.lengthMTilde)];
      }
      i := i + 1;
    }
    assert mTilde.Keys == Hidden(size, disclosed);
    var eTilde := Random(rng(ETilde), z.lengthETilde);
    var vTilde := Random(rng(VTilde), z.lengthVTilde);
    var raw := Random(rng(RA), z.lengthRA - 7);
    ValueFromNatSmall(raw, z.rA);
    b := Blindings(mTilde, eTilde, vTilde, FromNat(raw, z.rA));
  }

  /**
   Lines 77-82: A' = S^rA mod n, then A' = A' * A mod n. The result is the
   randomized signature value S^rA * A reduced modulo n.
   */
  function RandomizeSignature(key: IssuerKey, A: nat, rA: nat): (aPrime: nat)
    requires key.n > 0
    ensures aPrime < key.n
    ensures aPrime == (Pow(key.S, rA) * A) % key.n
  {
    ModMulMod(Pow(key.S, rA), A, key.n);
    ModMul(ModExp(key.S, rA, key.n), A, key.n)
  }

  /** The product of R[j]^m~[j] over the hidden indices j < k (the reference for the Z~ loop). */
  function HiddenProduct(R: seq<nat>, mTilde: map<nat, nat>, disclosed: nat -> bool, k: nat): nat
    requires k <= |R|
    requires forall j :: 0 <= j < k && !disclosed(j) ==> j in mTilde
  {
    if k == 0 then 1
    else HiddenProduct(R, mTilde, disclosed, k - 1)
         * (if disclosed(k - 1) then 1 else Pow(R[k - 1], mTilde[k - 1]))
  }

  /**
   The commitment only reads the bases and blindings of hidden indices: two
   inputs that agree there give the same product.
   */
  lemma {:induction false} HiddenProductReadsOnlyHidden(R1: seq<nat>, R2: seq<nat>, m1: map<nat, nat>,
                                                        m2: map<nat, nat>, disclosed: nat -> bool, k: nat)
    requires k <= |R1| && k <= |R2|
    requires forall j :: 0 <= j < k && !disclosed(j) ==> j in m1 && j in m2
    requires forall j :: 0 <= j < k && !disclosed(j) ==> m1[j] == m2[j] && R1[j] == R2[j]
    ensures HiddenProduct(R1, m1, disclosed, k) == HiddenProduct(R2, m2, disclosed, k)
    decreases k
  {
    if k > 0 {
      HiddenProductReadsOnlyHidden(R1, R2, m1, m2, disclosed, k - 1);
    }
  }

  /**
   Lines 84-103: Z~ = S^v~ mod n, times A'^e~ mod n, then for i = 0..size
   times R[i]^m~[i] mod n when i is hidden.
   */
  method ComputeZTilde(key: IssuerKey, aPrime: nat, b: Blindings, size: nat, disclosed: nat -> bool)
    returns (zTilde: nat)
    requires key.n > 0 && |key.R| > size
    requires Hidden(size, disclosed) <= b.mTilde.Keys
    ensures zTilde < key.n
    ensures zTilde == (Pow(key.S, b.vTilde) * Pow(aPrime, b.eTilde)
                       * HiddenProduct(key.R, b.mTilde, disclosed, size + 1)) % key.n
  {
    var n := key.n;
    ghost var base := Pow(key.S, b.vTilde) * Pow(aPrime, b.eTilde);
    assert forall j :: 0 <= j < size + 1 && !disclosed(j) ==> j in Hidden(size, disclosed);
    zTilde := ModExp(key.S, b.vTilde, n);
    var buffer := ModExp(aPrime, b.eTilde, n);
    zTilde := ModMul(zTilde, buffer, n);
    ModMulBoth(Pow(key.S, b.vTilde), Pow(aPrime, b.eTilde), n);
    assert base * HiddenProduct(key.R, b.mTilde, disclosed, 0) == base;
    var i: nat := 0;
    while i <= size
      invariant i <= size + 1
      invariant zTilde < n
      invariant zTilde == (base * HiddenProduct(key.R, b.mTilde, disclosed, i)) % n
    {
      ghost var p := HiddenProduct(key.R, b.mTilde, disclosed, i);
      if !disclosed(i) {
        buffer := ModExp(key.R[i], b.mTilde[i], n);
        zTilde := ModMul(zTilde, buffer, n);
        AccumulateStep(base, p, Pow(key.R[i], b.mTilde[i]), n);
      } else {
        assert p * 1 == p;
      }
      i := i + 1;
    }
  }

  /** One step of the Z~ loop: multiplying reduced values and reducing again. */
  lemma AccumulateStep(base: nat, p: nat, f: nat, n: nat)
    requires n > 0
    ensures ((base * p) % n * (f % n)) % n == (base * (p * f)) % n
  {
    ModMulBoth(base * p, f, n);
    assert (base * p) * f == base * (p * f);
  }

  /** One entry of the hash input list: a buffer and the number of bytes to hash. */
  datatype HashEntry = HashEntry(data: seq<byte>, size: nat)

  /**
   Lines 105-117: the challenge is hashed over exactly four entries, in
   order: the context (SIZE_H), A' and Z~ (SIZE_N each) and the verifier's
   nonce (SIZE_STATZK).
   */
  function ChallengeInput(context: seq<byte>, aPrime: nat, zTilde: nat, nonce: seq<byte>, z: Sizes)
    : (list: seq<HashEntry>)
    requires |context| == z.h && |nonce| == z.statZK
    requires aPrime < Pow256(z.n) && zTilde < Pow256(z.n)
    ensures |list| == 4
    ensures forall k :: 0 <= k < 4 ==> |list[k].data| == list[k].size
    ensures list[0] == HashEntry(context, z.h) && list[3] == HashEntry(nonce, z.statZK)
    ensures list[1].size == z.n && Value(list[1].data) == aPrime
    ensures list[2].size == z.n && Value(list[2].data) == zTilde
  {
    ValueFromNatSmall(aPrime, z.n);
    ValueFromNatSmall(zTilde, z.n);
    [HashEntry(context, z.h), HashEntry(FromNat(aPrime, z.n), z.n),
     HashEntry(FromNat(zTilde, z.n), z.n), HashEntry(nonce, z.statZK)]
  }

  /**
   Lines 122-124: e' is read as the trailing SIZE_EPRIME bytes of e, so it is
   e modulo 256^SIZE_EPRIME.
   */
  function EPrime(e: seq<byte>, ePrime: nat): (r: seq<byte>)
    requires ePrime <= |e|
    ensures |r| == ePrime
    ensures Value(r) == Value(e) % Pow256(ePrime)
  {
    ValueSuffix(e, |e| - ePrime);
    e[|e| - ePrime..]
  }

  /**
   Reading the trailing bytes computes e' = e - 2^(l_e - 1) when e lies in
   the signature's interval [2^(l_e - 1), 2^(l_e - 1) + 256^SIZE_EPRIME) and
   the offset is a whole number of bytes above e'.
   */
  lemma EPrimeDropsOffset(e: seq<byte>, ePrime: nat, lengthE: nat)
    requires ePrime <= |e| && 1 <= lengthE && 8 * ePrime <= lengthE - 1
    requires Pow(2, lengthE - 1) <= Value(e) < Pow(2, lengthE - 1) + Pow256(ePrime)
    ensures Value(EPrime(e, ePrime)) == Value(e) - Pow(2, lengthE - 1)
  {
    var q := Pow(2, lengthE - 1 - 8 * ePrime);
    PowAdd(2, 8 * ePrime, lengthE - 1 - 8 * ePrime);
    PowBytesAreBits(ePrime);
    assert Pow(2, lengthE - 1) == Pow256(ePrime) * q;
    ModUnique(Value(e), Pow256(ePrime), q, Value(e) - Pow(2, lengthE - 1));
  }

  /** The card's answer: challenge, randomized signature and responses. */
  datatype Proof = Proof(challenge: seq<byte>, aPrime: nat, eHat: int, vHat: int, mHat: map<nat, int>)

  /**
   Lines 138-143: m^[i] = m~[i] + c*m[i], computed for the hidden indices
   only; a disclosed attribute gets no response.
   */
  function AttributeResponses(mTilde: map<nat, nat>, c: nat, m: seq<nat>): (mHat: map<nat, int>)
    requires forall i :: i in mTilde ==> i < |m|
    ensures mHat.Keys == mTilde.Keys
    ensures forall i :: i in mHat ==> mHat[i] - c * m[i] == mTilde[i]
  {
    map i | i in mTilde :: mTilde[i] + c * m[i]
  }

  /**
   `constructProof` (lines 59-147). `scratch` is what the card's shared
   buffer holds when `crypto_compute_vPrime` starts; the result does not
   depend on it.
   */
  method ConstructProof(cred: Credential, z: Sizes, disclosed: nat -> bool, rng: Draw -> nat,
                        context: seq<byte>, nonce: seq<byte>, hash: seq<HashEntry> -> seq<byte>,
                        scratch: seq<byte>)
    returns (proof: Proof)
    requires ValidSizes(z) && ValidCredential(cred, z)
    requires |context| == z.h && |nonce| == z.statZK && |scratch| == z.v
    requires forall list :: |hash(list)| == z.h
    ensures |proof.challenge| == z.h && Value(proof.challenge) < Pow256(z.h)
    ensures proof.mHat.Keys == Hidden(cred.size, disclosed)
    ensures var rA := Random(rng(RA), z.lengthRA - 7);
            proof.aPrime == (Pow(cred.issuerKey.S, rA) * cred.signature.A) % cred.issuerKey.n
    ensures var key, rA := cred.issuerKey, Random(rng(RA), z.lengthRA - 7);
            var mTilde := MTildeDraws(cred.size, disclosed, rng, z.lengthMTilde);
            var zTilde := (Pow(key.S, Random(rng(VTilde), z.lengthVTilde))
                           * Pow(proof.aPrime, Random(rng(ETilde), z.lengthETilde))
                           * HiddenProduct(key.R, mTilde, disclosed, cred.size + 1)) % key.n;
            && proof.aPrime < Pow256(z.n) && zTilde < Pow256(z.n)
            && proof.challenge == hash(ChallengeInput(context, proof.aPrime, zTilde, nonce, z))
    ensures var c, e, rA := Value(proof.challenge), Value(cred.signature.e), Random(rng(RA), z.lengthRA - 7);
            && proof.eHat == Random(rng(ETilde), z.lengthETilde) + c * (e % Pow256(z.ePrime))
            && proof.vHat == Random(rng(VTilde), z.lengthVTilde)
                             + c * ((Value(cred.signature.v) - e * rA) % Pow256(z.v))
    ensures forall i :: i in proof.mHat ==>
              i <= cred.size && proof.mHat[i] == Random(rng(MTilde(i)), z.lengthMTilde) + Value(proof.challenge) * cred.m[i]
  {
    var key, sig := cred.issuerKey, cred.signature;
    var b := GenerateBlindings(cred.size, disclosed, rng, z);
    var aPrime := RandomizeSignature(key, sig.A, Value(b.rA));
    var zTilde := ComputeZTilde(key, aPrime, b, cred.size, disclosed);
    var challenge := hash(ChallengeInput(context, aPrime, zTilde, nonce, z));
    ValueBound(challenge);
    var eHat, vHat, mHat := Respond(cred, z, b, Value(challenge), scratch);
    proof := Proof(challenge, aPrime, eHat, vHat, mHat);
  }

  /**
   Lines 122-143: the responses to the challenge c. e^ uses only the low
   SIZE_E' bytes of e, v^ uses v' = v - e*rA at the width of v, and each
   hidden attribute gets m~[i] + c*m[i].
   */
  method Respond(cred: Credential, z: Sizes, b: Blindings, c: nat, scratch: seq<byte>)
    returns (eHat: int, vHat: int, mHat: map<nat, int>)
    requires ValidSizes(z) && ValidCredential(cred, z)
    requires |scratch| == z.v && |b.rA| == z.rA
    requires forall i :: i in b.mTilde ==> i < |cred.m|
    ensures eHat == b.eTilde + c * (Value(cred.signature.e) % Pow256(z.ePrime))
    ensures vHat == b.vTilde + c * ((Value(cred.signature.v) - Value(cred.signature.e) * Value(b.rA)) % Pow256(z.v))
    ensures mHat.Keys == b.mTilde.Keys
    ensures forall i :: i in mHat ==> mHat[i] == b.mTilde[i] + c * cred.m[i]
  {
    var sig := cred.signature;
    var ePrime := EPrime(sig.e, z.ePrime);
    eHat := b.eTilde + c * Value(ePrime);
    var vPrime := VPrime.ComputeVPrime(sig.e, b.rA, sig.v, scratch);
    vHat := b.vTilde + c * Value(vPrime);
    mHat := AttributeResponses(b.mTilde, c, cred.m);
  }

  lemma {:induction false} PowMulBase(a: nat, b: nat, x: nat)
    ensures Pow(a * b, x) == Pow(a, x) * Pow(b, x)
    decreases x
  {
    if x > 0 {
      PowMulBase(a, b, x - 1);
      Rearrange(a, b, Pow(a, x - 1), Pow(b, x - 1));
    }
  }

  lemma Rearrange(a: int, b: int, p: int, q: int)
    ensures (a * b) * (p * q) == (a * p) * (b * q)
  {
  }

  lemma {:induction false} PowMulExp(a: nat, x: nat, y: nat)
    ensures Pow(Pow(a, x), y) == Pow(a, x * y)
    decreases y
  {
    if y > 0 {
      PowMulExp(a, x, y - 1);
      PowAdd(a, x, x * (y - 1));
      assert x + x * (y - 1) == x * y;
    }
  }

  lemma {:induction false} PowMod(a: nat, x: nat, n: nat)
    requires n > 0
    ensures Pow(a % n, x) % n == Pow(a, x) % n
    decreases x
  {
    if x > 0 {
      PowMod(a, x - 1, n);
      ModMulBoth(a % n, Pow(a % n, x - 1), n);
      ModMulBoth(a, Pow(a, x - 1), n);
      assert (a % n) % n == a % n by { ModSmall(a % n, n); }
    }
  }

  /**
   The randomized signature verifies like the original: with
   A' = S^rA * A mod n and v' = v - e*rA,
   A'^e * S^v' == A^e * S^v (mod n). This is why v' is computed exactly
   and why rA is drawn short enough that v - e*rA cannot go negative.
   */
  lemma RandomizedSignatureVerifies(n: nat, S: nat, A: nat, e: nat, v: nat, rA: nat)
    requires n > 0 && v >= e * rA
    ensures (Pow((Pow(S, rA) * A) % n, e) * Pow(S, v - e * rA)) % n == (Pow(A, e) * Pow(S, v)) % n
  {
    var t := Pow(S, rA);
    var rest := Pow(S, v - e * rA);
    assert Pow((t * A) % n, e) % n == (Pow(S, rA * e) * Pow(A, e)) % n by {
      PowMod(t * A, e, n);
      PowMulBase(t, A, e);
      PowMulExp(S, rA, e);
    }
    ModMulMod(Pow((t * A) % n, e), rest, n);
    ModMulMod(Pow(S, rA * e) * Pow(A, e), rest, n);
    assert Pow(S, rA * e) * rest == Pow(S, v) by {
      PowAdd(S, rA * e, v - e * rA);
      assert rA * e + (v - e * rA) == v;
    }
    Rearrange3(Pow(S, rA * e), Pow(A, e), rest);
  }

  lemma Rearrange3(p: int, q: int, r: int)
    ensures (p * q) * r == q * (p * r)
  {
  }

  /**
   The card's randomized signature (A', e, v') with v' from the fixed-width
   routine verifies like (A, e, v) whenever v >= e*rA.
   */
  lemma ProvedSignatureVerifies(key: IssuerKey, sig: Signature, rA: seq<byte>, scratch: seq<byte>)
    requires key.n > 0 && |scratch| == |sig.v| && VPrime.ValidWidths(|sig.e|, |rA|, |sig.v|)
    requires Value(sig.v) >= Value(sig.e) * Value(rA)
    ensures var aPrime := RandomizeSignature(key, sig.A, Value(rA));
            var vPrime := VPrime.ComputeVPrime(sig.e, rA, sig.v, scratch);
            (Pow(aPrime, Value(sig.e)) * Pow(key.S, Value(vPrime))) % key.n
              == (Pow(sig.A, Value(sig.e)) * Pow(key.S, Value(sig.v))) % key.n
  {
    VPrime.VPrimeExact(sig.e, rA, sig.v, scratch);
    RandomizedSignatureVerifies(key.n, key.S, sig.A, Value(sig.e), Value(sig.v), Value(rA));
  }
}
