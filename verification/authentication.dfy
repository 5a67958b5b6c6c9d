/**
 Terminal authentication (`authentication.c`).

 A terminal proves its authority with a card-verifiable certificate in the
 layout of BSI TR-03110 Part 3, Appendix C: a CV certificate element (tag
 0x7F21) whose value starts with the certificate body (tag 0x7F4E) followed
 directly by the signature (tag 0x5F37). The card walks these three
 elements, verifies the RSASSA-PSS signature (section 8.1 of RFC 3447) over
 the encoded body element and hands back where the body starts. Afterwards
 it challenges the terminal with a random nonce encrypted under RSAES-OAEP
 (section 7.1 of RFC 3447) and accepts the terminal if it answers with the
 same nonce.

 The TLV decoder, RSA operations and random source are parameters.
 */
module Authentication {
  import opened Bytes
  import opened Status

  /** The tags of the CV certificate, its body and its signature. */
  const TagCertificate: nat := 0x7F21
  const TagCertificateBody: nat := 0x7F4E
  const TagSignature: nat := 0x5F37

  /**
   What `ASN1_decode_tlv` reports for the element at an offset: its tag,
   its declared length, the offset of its value, and the offset just past
   the element (where the decoder leaves `offset`).
   */
  datatype Tlv = Tlv(tag: nat, length: nat, value: nat, next: nat)

  /** A run of certificate bytes handed to the signature check: start offset and byte count. */
  datatype Span = Span(start: nat, length: int)

  /**
   `authentication_verifyCertificate` (lines 34-65): decode the outer
   element at offset 0; decode the body at the start of the outer value;
   decode the signature right after the body; verify the signature over
   the bytes from the outer value to the end of the body element. A tag
   mismatch aborts with WRONG DATA, a failed signature check with SECURITY
   STATUS NOT SATISFIED; success yields the offset of the body.
   */
  function VerifyCertificate<K>(key: K, cert: seq<byte>, decode: (seq<byte>, nat) -> Tlv,
                                pssVerify: (K, seq<byte>, Span, Span) -> int): (r: Result<nat>)
    ensures var outer := decode(cert, 0);
            var body := decode(cert, outer.value);
            var sig := decode(cert, body.next);
            var tagsInOrder := outer.tag == TagCertificate && body.tag == TagCertificateBody
                               && sig.tag == TagSignature;
            var signed := Span(outer.value, body.next - outer.value);
            && (r == Failure(WrongData) <==> !tagsInOrder)
            && (r == Failure(SecurityStatusNotSatisfied) <==>
                  tagsInOrder && pssVerify(key, cert, signed, Span(sig.value, sig.length)) < 0)
            && (r.Success? ==> r.value == outer.value)
  {
    var outer := decode(cert, 0);
    if outer.tag != TagCertificate then Failure(WrongData)
    else
      var bodyStart := outer.value;
      var body := decode(cert, bodyStart);
      if body.tag != TagCertificateBody then Failure(WrongData)
      else
        var bodyBytes := body.next - bodyStart;
        var sig := decode(cert, body.next);
        if sig.tag != TagSignature then Failure(WrongData)
        else if pssVerify(key, cert, Span(bodyStart, bodyBytes), Span(sig.value, sig.length)) < 0 then
          Failure(SecurityStatusNotSatisfied)
        else
          Success(bodyStart)
  }

  /** A wrong outer tag ends the walk: nothing after the first decode is consulted. */
  lemma OuterMismatchStops<K>(key: K, cert: seq<byte>, d1: (seq<byte>, nat) -> Tlv, d2: (seq<byte>, nat) -> Tlv,
                              p1: (K, seq<byte>, Span, Span) -> int, p2: (K, seq<byte>, Span, Span) -> int)
    requires d1(cert, 0) == d2(cert, 0) && d1(cert, 0).tag != TagCertificate
    ensures VerifyCertificate(key, cert, d1, p1) == VerifyCertificate(key, cert, d2, p2) == Failure(WrongData)
  {
  }

  /** A wrong body tag ends the walk: the signature element and the signature check are not consulted. */
  lemma BodyMismatchStops<K>(key: K, cert: seq<byte>, d1: (seq<byte>, nat) -> Tlv, d2: (seq<byte>, nat) -> Tlv,
                             p1: (K, seq<byte>, Span, Span) -> int, p2: (K, seq<byte>, Span, Span) -> int)
    requires d1(cert, 0) == d2(cert, 0) && d1(cert, 0).tag == TagCertificate
    requires d1(cert, d1(cert, 0).value) == d2(cert, d1(cert, 0).value)
    requires d1(cert, d1(cert, 0).value).tag != TagCertificateBody
    ensures VerifyCertificate(key, cert, d1, p1) == VerifyCertificate(key, cert, d2, p2) == Failure(WrongData)
  {
  }

  /** A wrong signature tag ends the walk before the signature check. */
  lemma SignatureMismatchStops<K>(key: K, cert: seq<byte>, d: (seq<byte>, nat) -> Tlv,
                                  p1: (K, seq<byte>, Span, Span) -> int, p2: (K, seq<byte>, Span, Span) -> int)
    requires d(cert, d(cert, d(cert, 0).value).next).tag != TagSignature
    ensures VerifyCertificate(key, cert, d, p1) == VerifyCertificate(key, cert, d, p2) == Failure(WrongData)
  {
  }

  /** The two header bytes of a two-byte tag. */
  predicate ValidTag(tag: nat)
  {
    0x100 <= tag < 0x1_0000
  }

  /**
   The BER length field of a value of `n` bytes: one byte below 0x80, else
   0x81 or 0x82 followed by one or two length bytes.
   */
  function LengthField(n: nat): (f: seq<byte>)
    requires n < 0x1_0000
    ensures 1 <= |f| <= 3
  {
    if n < 0x80 then [n]
    else if n < 0x100 then [0x81, n]
    else [0x82, n / 0x100, n % 0x100]
  }

  /** Tag bytes and length field of an element. */
  function Header(tag: nat, n: nat): (h: seq<byte>)
    requires ValidTag(tag) && n < 0x1_0000
    ensures 3 <= |h| <= 5
  {
    [tag / 0x100, tag % 0x100] + LengthField(n)
  }

  /** The encoding of a two-byte-tag element. */
  function Encode(tag: nat, value: seq<byte>): (e: seq<byte>)
    requires ValidTag(tag) && |value| < 0x1_0000
    ensures |e| == |Header(tag, |value|)| + |value|
  {
    Header(tag, |value|) + value
  }

  /**
   A decoder that reads every well-formed element correctly, wherever it
   sits: at offset |p| it reports the element's tag, length, value offset
   and end.
   */
  ghost predicate DecodesEncodings(decode: (seq<byte>, nat) -> Tlv)
  {
    forall p: seq<byte>, tag: nat, value: seq<byte>, s: seq<byte> ::
      ValidTag(tag) && |value| < 0x1_0000 ==>
        decode(p + Encode(tag, value) + s, |p|)
          == Tlv(tag, |value|, |p| + |Header(tag, |value|)|, |p| + |Encode(tag, value)|)
  }

  /** One use of `DecodesEncodings`: the element encoded after a prefix `p`. */
  lemma DecodeAt(decode: (seq<byte>, nat) -> Tlv, cert: seq<byte>, p: seq<byte>, tag: nat, value: seq<byte>,
                 s: seq<byte>)
    requires DecodesEncodings(decode) && ValidTag(tag) && |value| < 0x1_0000
    requires cert == p + Encode(tag, value) + s
    ensures decode(cert, |p|) == Tlv(tag, |value|, |p| + |Header(tag, |value|)|, |p| + |Encode(tag, value)|)
  {
  }

  /**
   The certificate 0x7F21 { 0x7F4E {body} 0x5F37 {signature} }, with the
   offset of the outer value (where the body element starts).
   */
  function EncodeCertificate(body: seq<byte>, signature: seq<byte>): (r: (seq<byte>, nat))
    requires |body| + |signature| + 10 < 0x1_0000
    ensures var (cert, start) := r;
            var bodyElement := Encode(TagCertificateBody, body);
            && |cert| == start + |bodyElement| + |Header(TagSignature, |signature|)| + |signature|
            && cert[start..start + |bodyElement|] == bodyElement
            && cert[start + |bodyElement| + |Header(TagSignature, |signature|)|..] == signature
  {
    var bodyElement := Encode(TagCertificateBody, body);
    var sigElement := Encode(TagSignature, signature);
    var outerHeader := Header(TagCertificate, |bodyElement + sigElement|);
    var cert := Encode(TagCertificate, bodyElement + sigElement);
    assert cert == outerHeader + bodyElement + (Header(TagSignature, |signature|) + signature);
    (cert, |outerHeader|)
  }

  /**
   An encoded certificate is accepted exactly when the signature check
   accepts. The check is handed the whole encoded body element (tag,
   length and value, as laid out by `EncodeCertificate`) and the signature
   value, and success points at the body element.
   */
  lemma EncodedCertificateAccepted<K>(key: K, body: seq<byte>, signature: seq<byte>,
                                      decode: (seq<byte>, nat) -> Tlv,
                                      pssVerify: (K, seq<byte>, Span, Span) -> int)
    requires DecodesEncodings(decode)
    requires |body| + |signature| + 10 < 0x1_0000
    ensures var (cert, start) := EncodeCertificate(body, signature);
            var bodyLength := |Encode(TagCertificateBody, body)|;
            var signed := Span(start, bodyLength);
            var sig := Span(start + bodyLength + |Header(TagSignature, |signature|)|, |signature|);
            VerifyCertificate(key, cert, decode, pssVerify)
              == if pssVerify(key, cert, signed, sig) < 0 then Failure(SecurityStatusNotSatisfied)
                 else Success(start)
  {
    var bodyElement := Encode(TagCertificateBody, body);
    var sigElement := Encode(TagSignature, signature);
    var outerValue := bodyElement + sigElement;
    var outerHeader := Header(TagCertificate, |outerValue|);
    var (cert, start) := EncodeCertificate(body, signature);
    assert cert == Encode(TagCertificate, outerValue) && start == |outerHeader|;
    DecodeAt(decode, cert, [], TagCertificate, outerValue, []);
    DecodeAt(decode, cert, outerHeader, TagCertificateBody, body, sigElement);
    DecodeAt(decode, cert, outerHeader + bodyElement, TagSignature, signature, []);
  }

  /**
   `authentication_generateChallenge` (lines 72-75): the nonce is the first
   AUTH_CHALLENGE_BYTES bytes of the random source, and the challenge is
   its OAEP encryption under the terminal's key with an empty label.
   */
  function GenerateChallenge<K>(key: K, entropy: seq<byte>, challengeBytes: nat,
                                oaepEncrypt: (K, seq<byte>, seq<byte>) -> seq<byte>)
    : (r: (seq<byte>, seq<byte>))
    requires |entropy| >= challengeBytes
    ensures |r.0| == challengeBytes
    ensures r.0 == entropy[..challengeBytes]
    ensures r.1 == oaepEncrypt(key, r.0, [])
  {
    var nonce := entropy[..challengeBytes];
    (nonce, oaepEncrypt(key, nonce, []))
  }

  /**
   The meaning taken for `NotEqual`, whose code is not part of this model:
   whether the first `k` bytes of two buffers differ.
   */
  function Differs(a: seq<byte>, b: seq<byte>, k: nat): (d: bool)
    requires k <= |a| && k <= |b|
    ensures d <==> a[..k] != b[..k]
  {
    if k == 0 then false
    else
      var earlier := Differs(a, b, k - 1);
      assert a[..k] == a[..k - 1] + [a[k - 1]] && b[..k] == b[..k - 1] + [b[k - 1]];
      assert a[..k] == b[..k] ==> a[..k][k - 1] == b[..k][k - 1] && a[..k][..k - 1] == b[..k][..k - 1];
      earlier || a[k - 1] != b[k - 1]
  }

  /**
   `authentication_authenticateTerminal` (lines 77-81): the terminal passes
   iff its response matches the nonce on all AUTH_CHALLENGE_BYTES bytes;
   otherwise the command aborts with WRONG DATA.
   */
  function AuthenticateTerminal(response: seq<byte>, nonce: seq<byte>, challengeBytes: nat): (r: Outcome)
    requires |response| >= challengeBytes && |nonce| >= challengeBytes
    ensures r == Pass <==> response[..challengeBytes] == nonce[..challengeBytes]
    ensures r != Pass ==> r == Fail(WrongData)
  {
    if Differs(response, nonce, challengeBytes) then Fail(WrongData) else Pass
  }

  /**
   A terminal holding the private key that undoes OAEP encryption answers
   the challenge with the nonce and is accepted.
   */
  lemma ChallengeResponseRoundTrip<K, P>(key: K, privateKey: P, entropy: seq<byte>, challengeBytes: nat,
                                         oaepEncrypt: (K, seq<byte>, seq<byte>) -> seq<byte>,
                                         oaepDecrypt: (P, seq<byte>) -> seq<byte>)
    requires |entropy| >= challengeBytes
    requires forall m :: |m| == challengeBytes ==> oaepDecrypt(privateKey, oaepEncrypt(key, m, [])) == m
    ensures var (nonce, challenge) := GenerateChallenge(key, entropy, challengeBytes, oaepEncrypt);
            var response := oaepDecrypt(privateKey, challenge);
            |response| == challengeBytes && AuthenticateTerminal(response, nonce, challengeBytes) == Pass
  {
    var (nonce, challenge) := GenerateChallenge(key, entropy, challengeBytes, oaepEncrypt);
    assert oaepDecrypt(privateKey, challenge) == nonce;
  }
}
