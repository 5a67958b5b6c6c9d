# IRMA card proving core in Dafny

This project models the proving path of the IRMA smart card (MULTOS C code):

- **Attribute selection** (`selectAttributes`). The verifier's 16-bit
  disclosure mask is checked and recorded. The check is modelled as the C
  compiler reads it, next to the check it was evidently meant to be.
- **Proof construction** (`constructProof`). This covers:
  - the blindings for the hidden attributes;
  - the randomized signature A' = S^rA * A mod n;
  - the commitment Z~ = S^v~ * A'^e~ * prod R[i]^m~[i] mod n and its loop
    invariant;
  - the four-entry Fiat-Shamir hash input;
  - e' as the trailing bytes of e;
  - the responses e^, v^ and m^[i].
- **The fixed-width v' = v - e*rA** (`crypto_compute_vPrime`). This works on
  big-endian byte buffers: two half-width products are added at a byte
  offset, then subtracted from v in two windows with one explicit borrow.
  The model proves that the buffer the routine leaves behind holds
  (v - e*rA) mod 256^SIZE_V. It holds exactly v - e*rA when v >= e*rA.
  Together with the randomization of A, this gives the CL relation
  A'^e * S^v' == A^e * S^v (mod n).
- **Terminal authentication** (`authentication.c`). This covers the three-tag
  walk over a card-verifiable certificate (BSI TR-03110 Part 3, Appendix C:
  tags 0x7F21, 0x7F4E, 0x5F37), the choice of the bytes handed to RSASSA-PSS
  (section 8.1 of RFC 3447), and the error codes. It also covers the
  challenge, the nonce under RSAES-OAEP (section 7.1 of RFC 3447), and the
  byte-equality check of the terminal's response.

The files and their modules:

| file | module | contents |
|---|---|---|
| `modarith.dfy` | `ModArith` | `Pow`, modular exponentiation and multiplication as mathematical functions, facts about `%` |
| `bytes.dfy` | `Bytes` | bytes, the big-endian `Value` of a buffer, `FromNat`, splitting and concatenation lemmas |
| `status.dfy` | `Status` | the ISO/IEC 7816-4 status words and the `Outcome` / `Result` of a command |
| `selection.dfy` | `Selection` | `selectAttributes` as written and as intended |
| `vprime.dfy` | `VPrime` | the MULTOS block primitives and `crypto_compute_vPrime` |
| `proving.dfy` | `Proving` | `constructProof` |
| `authentication.dfy` | `Authentication` | certificate walk, challenge and response |

Aborting a command with a status word (`ReturnSW`, `APDU_ReturnSW`) is
modelled as an error value, `Fail(sw)` or `Failure(sw)`. Primitives whose
code is not part of this model are parameters of the operations that use
them:

- the random source;
- the hash;
- the `disclosed` test;
- the TLV decoder;
- RSA-PSS verification;
- RSA-OAEP encryption;
- the entropy source.

The build-time sizes (`SIZE_*`, `LENGTH_*`) are not part of this model
either. They are fields of `Proving.Sizes`, constrained only as far as the
code relies on them.

## Model

| member | source | states |
|---|---|---|
| `Selection.SelectAttributes` | src/crypto_proving.c:42-54 | as written: the loop tests 2^0, 2^1, ... in order (all fifteen values 1..0x4000 on success) and never 0, so the `i == 0` disjunct is unreachable; it rejects at the first value failing the line-46 test, which happens iff bit 0 of the mask is set and size < 0x4000; on success the recorded mask is exactly `selection`; on rejection the status is WRONG DATA and the previous mask is kept |
| `Selection.PowTwoBelowTop` | src/crypto_proving.c:45 | the loop guard `i < 0x8000` holds for 2^k exactly when k < 15 |
| `Selection.LiteralTestMeaning` | src/crypto_proving.c:46 | with C precedence the test fails iff i != 0, bit 0 of the mask is set and i > size: no other bit of the mask is read |
| `Selection.LiteralRejectsIff` | src/crypto_proving.c:45-46 | some visited power of two fails the literal test iff bit 0 is set and size < 0x4000 |
| `Selection.SelectAttributesIntended` | src/crypto_proving.c:39-52 | corrected check: passes iff every set bit has index in 1..size; records exactly `selection` on success, WRONG DATA and no change on failure |
| `Selection.IntendedValidPassesLiteral` | src/crypto_proving.c:46 | every mask the intended rule accepts is also accepted by the literal test |
| `Selection.LiteralAcceptsOutOfRange` | src/crypto_proving.c:46 | with 4 attributes the mask 0x0020 (attribute 5) passes the literal test but breaks the intended rule |
| `Selection.LiteralDisclosesMasterSecret` | src/crypto_proving.c:46 | once size >= 0x4000 the mask 0x0001 (the master secret) passes the literal test; the intended rule refuses it |
| `Selection.IntendedHidesMasterSecret` | src/crypto_proving.c:46 | under the intended rule bit 0 is never set in an accepted mask |
| `Proving.Random` | src/crypto_proving.c:69-74 | a draw of `bits` random bits is below 2^bits; for rA that is 2^(LENGTH_R_A - 7) |
| `Proving.GenerateBlindings` | src/crypto_proving.c:62-75 | m~ is drawn for exactly the indices 0..size that are not disclosed; e~ and v~ are drawn at their lengths; the rA buffer holds a LENGTH_R_A - 7 bit draw, below 2^(LENGTH_R_A - 7) |
| `Proving.RandomizeSignature` | src/crypto_proving.c:77-82 | A' == (S^rA * A) mod n, and A' < n |
| `Proving.ComputeZTilde` | src/crypto_proving.c:84-103 | the loop keeps the accumulator equal to (S^v~ * A'^e~ * product of R[j]^m~[j] over hidden j < i) mod n and below n; the result is the full product reduced mod n |
| `Proving.HiddenProductReadsOnlyHidden` | src/crypto_proving.c:94-103 | the commitment reads only the bases and blindings of hidden indices: inputs agreeing there give the same product |
| `Proving.ChallengeInput` | src/crypto_proving.c:105-119 | the hash list is exactly four entries, each with its buffer's size: context (SIZE_H), A' and Z~ as SIZE_N-byte big-endian numbers, and the nonce (SIZE_STATZK) |
| `Proving.EPrime` | src/crypto_proving.c:122-124 | e' is the trailing SIZE_EPRIME bytes of e, whose value is e mod 256^SIZE_EPRIME |
| `Proving.EPrimeDropsOffset` | src/crypto_proving.c:122-124 | for e in [2^(l_e - 1), 2^(l_e - 1) + 256^SIZE_EPRIME), with l_e the bit length of e, those bytes are e - 2^(l_e - 1): the subtraction "ignore the first bit of e" describes, reading the comment's l_e' as l_e |
| `Proving.AttributeResponses` | src/crypto_proving.c:138-143 | responses exist exactly for the blinded (hidden) indices, each satisfying m^[i] - c*m[i] == m~[i] |
| `Proving.Respond` | src/crypto_proving.c:126-143 | e^ = e~ + c*e' with e' = e mod 256^SIZE_EPRIME; v^ = v~ + c*v' with v' = (v - e*rA) mod 256^SIZE_V; m^[i] = m~[i] + c*m[i] for exactly the blinded indices |
| `Proving.ConstructProof` | src/crypto_proving.c:59-147 | the responses cover exactly the hidden indices 0..size; A' is S^rA * A mod n; the challenge is the hash of (context, A', Z~, nonce) with Z~ the committed product below 256^SIZE_N, and is SIZE_H bytes (so c < 256^SIZE_H) given a hash with SIZE_H-byte output as the `apdu.challenge` buffer holds (lines 118-120); e^, v^ and m^[i] follow the commented equations from the same draws |
| `Proving.RandomizedSignatureVerifies` | src/crypto_proving.c:73-82 | with A' = S^rA * A mod n and v' = v - e*rA >= 0, A'^e * S^v' == A^e * S^v (mod n) |
| `Proving.ProvedSignatureVerifies` | src/crypto_proving.c:130-131 | the card's A' and the v' buffer of `crypto_compute_vPrime` satisfy the same verification equation as (A, e, v) whenever v >= e*rA |
| `VPrime.Widen` | src/crypto_proving.c:157-158 | PUSHZ then a push of e gives a half-width operand with the value of e |
| `VPrime.MultiplyValue` | src/crypto_proving.c:160 | PRIM_MULTIPLY on two equal-width operands gives the exact product in double width |
| `VPrime.StoreLowProduct` | src/crypto_proving.c:154-161 | after CLEARN and STORE the buffer is zeros above the bottom SIZE_R_A bytes, which hold e * (low half of rA), whatever the buffer held before |
| `VPrime.HighProduct` | src/crypto_proving.c:163-167 | the second product is SIZE_R_A bytes holding e * (high half of rA) |
| `VPrime.AddNValue` | src/crypto_proving.c:170 | ADDN adds the operand into the block modulo 256^(block width) |
| `VPrime.ProductBuffer` | src/crypto_proving.c:154-171 | after both products and the add, the buffer holds (e * rA) mod 256^SIZE_V, using rA = hi * 256^(SIZE_R_A/2) + lo |
| `VPrime.ProductBufferExact` | src/crypto_proving.c:154-171 | when SIZE_E + SIZE_R_A <= SIZE_V the buffer holds e * rA exactly |
| `VPrime.SubN` | src/crypto_proving.c:174-176 | SUBN with CFlag reports a borrow iff the minuend is below the subtrahend, and the difference left behind is a - b, plus 256^width exactly when it borrowed |
| `VPrime.SubNValue` | src/crypto_proving.c:174-175 | SUBN leaves the difference modulo 256^(width) |
| `VPrime.IncNValue` | src/crypto_proving.c:179 | INCN adds one modulo 256^(width) |
| `VPrime.LowWindow` | src/crypto_proving.c:174-176 | the low window is SIZE_V/2 + 1 bytes holding the windowed difference mod its width, with a borrow iff that window of v is below that window of the product |
| `VPrime.HighSubtrahend` | src/crypto_proving.c:176-180 | the high subtrahend is the product's high SIZE_V/2 bytes plus one exactly when the low window borrowed |
| `VPrime.SubtractWithBorrow` | src/crypto_proving.c:173-182 | the two windows with one borrow compute (v - buf) mod 256^SIZE_V |
| `VPrime.ComputeVPrime` | src/crypto_proving.c:152-183 | the buffer left behind holds (v - e*rA) mod 256^SIZE_V |
| `VPrime.VPrimeExact` | src/crypto_proving.c:152-183 | when v >= e*rA the buffer holds exactly v - e*rA |
| `VPrime.VPrimeIgnoresScratch` | src/crypto_proving.c:153-154 | the earlier contents of the shared buffer never reach v' |
| `VPrime.WindowsTileIffOdd` | src/crypto_proving.c:174-182 | windows of SIZE_V/2 + 1 and SIZE_V/2 bytes tile SIZE_V bytes iff SIZE_V is odd |
| `Authentication.VerifyCertificate` | src/authentication.c:34-65 | WRONG DATA iff the tags at offset 0, at the outer value and right after the body element are not 0x7F21, 0x7F4E, 0x5F37; SECURITY STATUS NOT SATISFIED iff they are and PSS rejects the body element span (outer value to end of body element) with the signature value and its declared length; success returns the outer value's offset |
| `Authentication.OuterMismatchStops` | src/authentication.c:40-43 | a wrong outer tag gives WRONG DATA whatever the later decodes and the signature check would say |
| `Authentication.BodyMismatchStops` | src/authentication.c:44-50 | a wrong body tag gives WRONG DATA whatever the signature element and the signature check would say |
| `Authentication.SignatureMismatchStops` | src/authentication.c:51-56 | a wrong signature tag gives WRONG DATA before the signature check runs |
| `Authentication.EncodedCertificateAccepted` | src/authentication.c:44-64 | for 0x7F21 { 0x7F4E {body} 0x5F37 {sig} } read by a correct decoder, the result is exactly the PSS verdict on the whole encoded body element and the signature bytes, and success points at the body element |
| `Status.CodesDistinct` | src/authentication.c:60-62 | the signature failure is reported with a code different from the tag failure |
| `Authentication.GenerateChallenge` | src/authentication.c:72-75 | the nonce is exactly AUTH_CHALLENGE_BYTES bytes taken from the random source, and the challenge is its OAEP encryption under the terminal key with an empty label |
| `Authentication.Differs` | src/authentication.c:78 | the meaning taken for `NotEqual` (called at line 78, code not part of this model): a difference is reported iff the first k bytes of the two buffers are not equal |
| `Authentication.AuthenticateTerminal` | src/authentication.c:77-81 | passes iff response and nonce agree on all AUTH_CHALLENGE_BYTES bytes, else WRONG DATA |
| `Authentication.ChallengeResponseRoundTrip` | src/authentication.c:72-81 | a terminal whose private key undoes the OAEP encryption answers the challenge with the nonce and is accepted |

## Left out

- `include/debug.h` and every `debug*` call: diagnostics only, compiled away outside the simulator.
- The internals of `crypto_modexp`, `crypto_modexp_special`, `crypto_modmul`, `crypto_compute_hash` and `crypto_generate_random` are not part of this model: they are `Pow(b, x) % n`, `b * c % n`, a hash parameter and a random-source parameter.
- The bodies of `crypto_compute_eHat`, `crypto_compute_vHat` and `crypto_compute_mHat` are not part of this model. The equations in the comments at lines 126, 134 and 138 are stated over unbounded integers, with e' taken from the debug expression at lines 123-124 and v' from `crypto_compute_vPrime`.
- Proving.Respond: e' = e mod 256^SIZE_EPRIME (the trailing SIZE_EPRIME bytes of e) comes from the argument of the `debugValue` call at lines 123-124, which is compiled away; it is assumed to be the e' that `crypto_compute_eHat` uses.
- Proving.ConstructProof: the hash is taken to read Z~ intact, as a pure function of the four entries, although its work buffer `public.prove.buffer.data` (line 119) shares the `public.prove.buffer` storage where Z~ sits (`buffer.number[0]`, line 114). How `crypto_compute_hash` uses that buffer is not part of this model.
- Proving.Respond: the widths of the e^, v^ and m^[i] buffers (SIZE_E_, SIZE_V_, SIZE_M_) are not modelled, because the routines that fill them are not part of this model.
- Proving.GenerateBlindings: the draws come from a random source indexed by what is drawn (`Draw`), not from an ordered stream. It is the values drawn that matter, not the order in which they are taken.
- Proving.ChallengeInput: A' and Z~ are taken to sit in their SIZE_N-byte buffers as big-endian numbers. How the modular routines write them is not part of this model.
- The `SIMULATOR` switch choosing where the context comes from (src/crypto_proving.c:106-110): both choices are the same SIZE_H-byte context parameter.
- `authentication_parseCertificate` (src/authentication.c:67-70): an empty stub.
- `ASN1_decode_tlv`, `RSA_PSS_verify`, `RSA_OAEP_encrypt` and `RandomBytes` are parameters.
- Authentication.Differs: `NotEqual` is not part of this model; it is assumed to report a difference exactly when the first AUTH_CHALLENGE_BYTES bytes of its two buffers differ, and `Authentication.AuthenticateTerminal`'s iff rests on that assumption. Whether it compares in constant time is not stated.
- Authentication.VerifyCertificate: the decoder is a total function, so a malformed encoding reaches the card only through the tags and offsets the decoder reports. What the real decoder does on malformed input is not part of this model.
- Constant-time comparison, zero knowledge, unforgeability, erasure of the blindings and side channels are not functional properties and are not stated.
- MULTOS stack opcodes (`__code`, `__push`, `PRIM_MULTIPLY`, `CFlag`): only their arithmetic effect on big-endian buffers is modelled.
- VPrime.AddN: ADDN at line 170 adds into a block of SIZE_V - SIZE_R_A/2 bytes while only the SIZE_R_A-byte product was pushed; the stack bytes below the product are taken to read as zero (the operand is zero-extended), which matters whenever SIZE_V > 3 * SIZE_R_A / 2.
- Selection.SelectAttributes: the mask is a 16-bit `bv16` and `credential->size` an unbounded natural number. The source's declared type for `size` is not part of this model.

## Where the code departs from its own comments and names

The model follows the code.

- Line 48 reports "invalid attribute index", and the test at line 46 compares with `credential->size`: the check is meant to refuse a mask with a bit outside 1..size. The code refuses only when bit 0 is set and size < 0x4000 (see Findings).
- The TODO at line 47 ("clear already stored things") admits that a rejected selection leaves earlier state behind. The code returns before line 52, so the previously recorded mask stays in place (`Selection.SelectAttributes`: `next == session` on failure).
- Index 0 holds the master secret (the attribute vector m[0..size]). The loops at lines 63, 94 and 139 run over i = 0..size, so the master secret is blinded, committed to and answered whenever it is not disclosed. `Proving.Hidden` includes it.
- The comment at line 122 says e' = e - 2^(l_e' - 1). Read literally with l_e' this fails: for e = [0x80, 0x05], SIZE_EPRIME = 1 and l_e' = 8 the trailing byte is 5, while e - 2^7 = 32645. The expression at lines 123-124 reads the trailing SIZE_EPRIME bytes of e, which is e mod 256^SIZE_EPRIME (`Proving.EPrime`); that equals e - 2^(l_e - 1) with l_e the bit length of e, for e in the signature's interval (`Proving.EPrimeDropsOffset`), so l_e' reads as a slip for l_e.

## Findings

| source | as written | input that shows it | evidently intended | confidence | as-written member | corrected member |
|---|---|---|---|---|---|---|
| src/crypto_proving.c:46 | `selection & i != 0` parses as `selection & (i != 0)`, i.e. `selection & 1`, so only bit 0 is tested and an out-of-range attribute bit is never refused | size 4, mask 0x0020 (attribute 5) is accepted; size >= 0x4000, mask 0x0001 (the master secret) is accepted | refuse any mask with a set bit whose index is 0 or above size | high (not executed) | `Selection.SelectAttributes`, shown by `Selection.LiteralAcceptsOutOfRange` and `Selection.LiteralDisclosesMasterSecret` | `Selection.SelectAttributesIntended` |

Adding the parentheses, `(selection & i) != 0`, would not give the intended
check either. The range test would then compare the power of two `i` with
`size`, not the bit index. The loop would also still stop before bit 15.
The corrected member therefore tests bit indices 0..15 against 1..size.
