/**
  The public operations of the serial key manager: `sign_key` and
  `verify_key`, composed from the primitives of `Crypto`. A Rust function
  that can panic returns an `Outcome`: the value, or the panic with the
  message of the `expect` that failed.
*/
module SerialKeyManager {
  import opened Wrappers
  import opened Strings
  import opened Crypto
  import opened ProductKey

  datatype Outcome<T> = Returns(value: T) | Panics(message: string)

  /** The scheme signer and verifier must agree on: RSASSA-PKCS1-v1_5 with the SHA-256 identifier. */
  const Scheme: PaddingScheme := PKCS1v15Sign(Some(SHA2_256))

  /** The digest signer and verifier must agree on: SHA-256 of the key's UTF-8 bytes. */
  function KeyDigest(p: Primitives, productKey: string): Digest {
    p.sha256(AsBytes(productKey))
  }

  /**
    `sign_key`: hash the key's bytes, sign the digest under PKCS#1 v1.5 with
    the SHA-256 identifier, and Base64-encode the signature. A signing
    error panics ("failed to sign").
  */
  function SignKey(p: Primitives, privateKey: RsaPrivateKey, productKey: string): (r: Outcome<string>)
    ensures r.Panics? <==> p.sign(privateKey, Scheme, KeyDigest(p, productKey)).None?
    ensures r.Returns? ==> r.value == p.encode(p.sign(privateKey, Scheme, KeyDigest(p, productKey)).value)
  {
    var padding := PKCS1v15Sign(Some(SHA2_256));
    var hashed := p.sha256(AsBytes(productKey));
    match p.sign(privateKey, padding, hashed)
    case None => Panics("failed to sign")
    case Some(signature) => Returns(p.encode(signature))
  }

  /**
    `verify_key`: hash the key's bytes the same way, Base64-decode the
    signature text and check it. Text that does not decode panics ("failed
    to decode base64 signature"): it is never reported as `false`.
  */
  function VerifyKey(p: Primitives, publicKey: RsaPublicKey, productKey: string, signature: string): (r: Outcome<bool>)
    ensures r.Panics? <==> p.decode(signature).None?
    ensures r.Returns? ==> r.value == p.verify(publicKey, Scheme, KeyDigest(p, productKey), p.decode(signature).value)
  {
    var padding := PKCS1v15Sign(Some(SHA2_256));
    var hashed := p.sha256(AsBytes(productKey));
    match p.decode(signature)
    case None => Panics("failed to decode base64 signature")
    case Some(decoded) => Returns(p.verify(publicKey, padding, hashed, decoded))
  }

  /** A successfully issued signature verifies for its key under the matching public key. */
  lemma SignThenVerify(p: Primitives, privateKey: RsaPrivateKey, productKey: string)
    requires Base64RoundTrip(p) && SignaturesVerify(p)
    requires SignKey(p, privateKey, productKey).Returns?
    ensures VerifyKey(p, p.publicFrom(privateKey), productKey, SignKey(p, privateKey, productKey).value) == Returns(true)
  {
  }

  /** A signature issued for one product key does not verify for another. */
  lemma WrongKeyRejected(p: Primitives, privateKey: RsaPrivateKey, k1: string, k2: string)
    requires Base64RoundTrip(p) && SignatureBindsMessage(p) && ProductKeysDoNotCollide(p)
    requires IsProductKey(k1) && IsProductKey(k2) && k1 != k2
    requires SignKey(p, privateKey, k1).Returns?
    ensures VerifyKey(p, p.publicFrom(privateKey), k2, SignKey(p, privateKey, k1).value) == Returns(false)
  {
  }

  /** A signature does not verify under a public key other than the signer's. */
  lemma ForeignKeyRejected(p: Primitives, privateKey: RsaPrivateKey, publicKey: RsaPublicKey, productKey: string)
    requires Base64RoundTrip(p) && SignatureBindsKey(p)
    requires publicKey != p.publicFrom(privateKey)
    requires SignKey(p, privateKey, productKey).Returns?
    ensures VerifyKey(p, publicKey, productKey, SignKey(p, privateKey, productKey).value) == Returns(false)
  {
  }

  /**
    The unit test of signing and verifying: a generated key verifies with
    its signature; a second generated key (`wrong`) that is not the same
    key up to case fails with it; and the key fails with the signature of
    the second key.
  */
  lemma SignAndVerifyScenario(p: Primitives, privateKey: RsaPrivateKey, draws: seq<byte>, wrongDraws: seq<byte>)
    requires Base64RoundTrip(p) && SignaturesVerify(p) && SignatureBindsMessage(p) && ProductKeysDoNotCollide(p)
    requires ValidDraws(draws) && ValidDraws(wrongDraws) && !SameUpToCase(draws, wrongDraws)
    requires SignKey(p, privateKey, GenerateKey(draws)).Returns?
    requires SignKey(p, privateKey, GenerateKey(wrongDraws)).Returns?
    ensures var key, wrong := GenerateKey(draws), GenerateKey(wrongDraws);
      var publicKey := p.publicFrom(privateKey);
      && VerifyKey(p, publicKey, key, SignKey(p, privateKey, key).value) == Returns(true)
      && VerifyKey(p, publicKey, wrong, SignKey(p, privateKey, key).value) == Returns(false)
      && VerifyKey(p, publicKey, key, SignKey(p, privateKey, wrong).value) == Returns(false)
  {
    var key, wrong := GenerateKey(draws), GenerateKey(wrongDraws);
    GenerateKeyCaseCollapse(draws, wrongDraws);
    SignThenVerify(p, privateKey, key);
    WrongKeyRejected(p, privateKey, key, wrong);
    WrongKeyRejected(p, privateKey, wrong, key);
  }
}
