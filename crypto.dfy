/**
  The cryptographic crates the serial key manager calls into: SHA-256
  (`sha2`), RSA key derivation, RSASSA-PKCS1-v1_5 signing and verification
  (`rsa`), and standard Base64 (`base64`). None of them is implemented
  here. `Primitives` holds them as uninterpreted functions, and `Laws`
  collects the properties of them that the orchestration relies on; the
  lemmas that need a law take it as a hypothesis. `Reference` is one
  instance that satisfies every law, so the laws are consistent.
*/
module Crypto {
  import opened Wrappers
  import opened Strings
  import opened ProductKey

  /** SHA-256 digests are 32 bytes long (FIPS 180-4). */
  const DigestLength: nat := 32

  type Digest = d: seq<byte> | |d| == DigestLength witness seq(32, _ => 0)

  /** The `SHA2_256` identifier of `rsa::Hash`, the one the library embeds. */
  datatype Hash = SHA2_256

  /** The `PKCS1v15Sign` variant of `rsa::PaddingScheme`: the hash identifier to embed, if any. */
  datatype PaddingScheme = PKCS1v15Sign(hash: Option<Hash>)

  /** Key material is opaque to the serial key manager. */
  datatype RsaPrivateKey = RsaPrivateKey(material: seq<byte>)
  datatype RsaPublicKey = RsaPublicKey(material: seq<byte>)

  datatype Primitives = Primitives(
    /** `Sha256::new()`, one `update(bytes)`, `finalize()` */
    sha256: seq<byte> -> Digest,
    /** `RsaPublicKey::from(&private_key)` */
    publicFrom: RsaPrivateKey -> RsaPublicKey,
    /** `private_key.sign(padding, hashed)`: `None` is the `Err` case */
    sign: (RsaPrivateKey, PaddingScheme, seq<byte>) -> Option<seq<byte>>,
    /** `public_key.verify(padding, hashed, signature).is_ok()` */
    verify: (RsaPublicKey, PaddingScheme, seq<byte>, seq<byte>) -> bool,
    /** `base64::encode` */
    encode: seq<byte> -> string,
    /** `base64::decode`: `None` is the `Err(DecodeError)` case */
    decode: string -> Option<seq<byte>>)

  // ---------------------------------------------------------------------
  // Laws
  // ---------------------------------------------------------------------

  /** Base64 decoding inverts encoding (section 4 of RFC 4648). */
  ghost predicate Base64RoundTrip(p: Primitives) {
    forall bytes :: p.decode(p.encode(bytes)) == Some(bytes)
  }

  /** A signature the private key makes verifies under its own public key (section 8.2 of RFC 8017). */
  ghost predicate SignaturesVerify(p: Primitives) {
    forall key, padding, hashed :: p.sign(key, padding, hashed).Some? ==>
      p.verify(p.publicFrom(key), padding, hashed, p.sign(key, padding, hashed).value)
  }

  /**
    A PKCS#1 v1.5 signature verifies only for the message it was made for:
    verification compares the signature, opened with the public exponent,
    with the encoding of the message, and that encoding is injective.
  */
  ghost predicate SignatureBindsMessage(p: Primitives) {
    forall key, padding, hashed, other ::
      (p.sign(key, padding, hashed).Some? && p.verify(p.publicFrom(key), padding, other, p.sign(key, padding, hashed).value))
      ==> other == hashed
  }

  /** A signature verifies only under the public key of the private key that made it. */
  ghost predicate SignatureBindsKey(p: Primitives) {
    forall key, public, padding, hashed ::
      (p.sign(key, padding, hashed).Some? && p.verify(public, padding, hashed, p.sign(key, padding, hashed).value))
      ==> public == p.publicFrom(key)
  }

  /**
    Distinct product keys have distinct SHA-256 digests. (No function from all byte
    strings to 32-byte digests is injective; the 36^20 product keys are far
    fewer than the 2^256 digests.)
  */
  ghost predicate ProductKeysDoNotCollide(p: Primitives) {
    forall k1, k2 :: IsProductKey(k1) && IsProductKey(k2) && k1 != k2 ==>
      p.sha256(AsBytes(k1)) != p.sha256(AsBytes(k2))
  }

  ghost predicate Laws(p: Primitives) {
    && Base64RoundTrip(p)
    && SignaturesVerify(p)
    && SignatureBindsMessage(p)
    && SignatureBindsKey(p)
    && ProductKeysDoNotCollide(p)
  }

  // ---------------------------------------------------------------------
  // A reference instance
  // ---------------------------------------------------------------------

  /** Pads short inputs with zero bytes to 32 bytes; longer inputs all map to zeros. */
  function PadDigest(bytes: seq<byte>): Digest {
    if |bytes| <= DigestLength then bytes + seq(DigestLength - |bytes|, _ => 0) else seq(DigestLength, _ => 0)
  }

  /** Bytes as the characters with those scalar values. */
  function LatinEncode(bytes: seq<byte>): string {
    if |bytes| == 0 then "" else [bytes[0] as char] + LatinEncode(bytes[1..])
  }

  /** The inverse of `LatinEncode`; fails on characters above U+00FF. */
  function LatinDecode(text: string): Option<seq<byte>> {
    if |text| == 0 then Some([])
    else if text[0] as int >= 256 then None
    else match LatinDecode(text[1..])
      case None => None
      case Some(rest) => Some([text[0] as int] + rest)
  }

  /** A signature is the key material followed by the message; verification checks exactly that. */
  function Reference(): Primitives {
    Primitives(
      PadDigest,
      (key: RsaPrivateKey) => RsaPublicKey(key.material),
      (key: RsaPrivateKey, padding: PaddingScheme, hashed: seq<byte>) => Some(key.material + hashed),
      (public: RsaPublicKey, padding: PaddingScheme, hashed: seq<byte>, signature: seq<byte>) =>
        signature == public.material + hashed,
      LatinEncode,
      LatinDecode)
  }

  lemma {:induction false} LatinRoundTrip(bytes: seq<byte>)
    ensures LatinDecode(LatinEncode(bytes)) == Some(bytes)
  {
    if |bytes| > 0 {
      var text := LatinEncode(bytes);
      assert text == [bytes[0] as char] + LatinEncode(bytes[1..]);
      assert text[0] as int == bytes[0];
      assert text[1..] == LatinEncode(bytes[1..]);
      LatinRoundTrip(bytes[1..]);
      assert LatinDecode(text) == Some([bytes[0]] + bytes[1..]);
      assert [bytes[0]] + bytes[1..] == bytes;
    }
  }

  lemma SuffixCancels(a: seq<byte>, b: seq<byte>, s: seq<byte>)
    requires a + s == b + s
    ensures a == b
  {
    assert a == (a + s)[..|a|];
    assert b == (b + s)[..|b|];
  }

  lemma PrefixCancels(s: seq<byte>, a: seq<byte>, b: seq<byte>)
    requires s + a == s + b
    ensures a == b
  {
    assert a == (s + a)[|s|..];
    assert b == (s + b)[|s|..];
  }

  /** The laws are consistent: the reference instance satisfies all of them. */
  lemma ReferenceSatisfiesLaws()
    ensures Laws(Reference())
  {
    var p := Reference();
    forall bytes ensures p.decode(p.encode(bytes)) == Some(bytes) {
      LatinRoundTrip(bytes);
    }
    forall key, padding, hashed, other | p.sign(key, padding, hashed).Some? &&
      p.verify(p.publicFrom(key), padding, other, p.sign(key, padding, hashed).value)
      ensures other == hashed
    {
      PrefixCancels(key.material, hashed, other);
    }
    forall key, public, padding, hashed | p.sign(key, padding, hashed).Some? &&
      p.verify(public, padding, hashed, p.sign(key, padding, hashed).value)
      ensures public == p.publicFrom(key)
    {
      SuffixCancels(key.material, public.material, hashed);
    }
    forall k1, k2 | IsProductKey(k1) && IsProductKey(k2) && k1 != k2
      ensures p.sha256(AsBytes(k1)) != p.sha256(AsBytes(k2))
    {
      ProductKeyBytes(k1);
      ProductKeyBytes(k2);
      AsBytesInjectiveOnAscii(k1, k2);
      var a, b := AsBytes(k1), AsBytes(k2);
      assert a == PadDigest(a)[..|a|];
      assert b == PadDigest(b)[..|b|];
    }
  }
}
