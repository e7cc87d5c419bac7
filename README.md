# Serial key manager, modelled in Dafny

A model of the Rust library `SerialKeyManager` (`src/lib.rs`), which issues
product keys and binds them to an RSA key pair:

- `generate_key` draws twenty characters from the 62-symbol alphanumeric
  alphabet, groups them into four segments of five, joins the segments with
  `-` and upper-cases the result (`XXXXX-XXXXX-XXXXX-XXXXX`);
- `sign_key` hashes the key's bytes with SHA-256, signs the digest with
  RSASSA-PKCS1-v1_5 carrying the SHA-256 identifier, and Base64-encodes the
  signature;
- `verify_key` hashes the key the same way, Base64-decodes the signature
  text and checks it with the public key.

Files:

- `strings.dfy` (module `Strings`): the Rust string operations the library
  uses: `as_bytes` (UTF-8), `to_uppercase`, `join`, `split(char)`, with the
  laws that tie `split` and `join` together.
- `product_key.dfy` (module `ProductKey`): `generate_key`, with the random
  source as an input, the product-key format `IsProductKey`, and what the
  format promises.
- `crypto.dfy` (module `Crypto`): SHA-256, RSA signing and verification and
  Base64 as uninterpreted functions (`Primitives`), the laws the library
  relies on (`Laws`), and a reference instance showing the laws are
  consistent.
- `serial_key_manager.dfy` (module `SerialKeyManager`): `sign_key` and
  `verify_key` and the sign/verify properties of the unit test.
- `wrappers.dfy` (module `Wrappers`): `Option`.

Design decisions:

- The random source is a parameter. `draws` is the sequence of twenty bytes
  the generator yields. Each segment is built from `rng.clone()`; clones of
  the thread-local generator share one state, so the four segments are
  successive draws (segment `i` is draws `5 i` to `5 i + 4`).
- A Rust panic is an outcome, not a precondition: `SignKey` and `VerifyKey`
  return `Returns(value)` or `Panics(message)`.
- The cryptographic laws are hypotheses of the lemmas that need them: each
  lemma names only the laws it uses. `Crypto.ReferenceSatisfiesLaws` shows
  they can all hold at once.
- Collision freedom of SHA-256 cannot hold for all inputs, since no function
  from all byte strings to 32-byte digests is injective. The model assumes only that distinct product
  keys have distinct digests (`ProductKeysDoNotCollide`). There are 36^20
  product keys, far fewer than the 2^256 digests.
- An undecodable signature text is not folded into a negative result. The
  code calls `expect` on the decode result (src/lib.rs:42), so such text
  panics. `VerifyKey` panics exactly when decoding fails, so it never
  returns `false` for such text.

## Model

| member | source | states |
|---|---|---|
| Strings.Utf8 | src/lib.rs:29 | one character encodes to 1 to 4 bytes; exactly ASCII characters take one byte, equal to their code; other characters start with a lead byte followed by continuation bytes |
| Strings.AsBytes | src/lib.rs:29 | `as_bytes` has between `n` and `4n` bytes for `n` characters; on ASCII text it has the same length and each byte is its character's code |
| Strings.AsBytesInjectiveOnAscii | src/lib.rs:40 | two ASCII strings have the same bytes if and only if they are equal, so the digest input determines the key |
| Strings.AsciiUpperChar | src/lib.rs:21 | ASCII upper-casing maps `a`-`z` 32 code points down, leaves every other character alone, and never yields a lower-case letter |
| Strings.ToUppercase | src/lib.rs:21 | `to_uppercase` on ASCII text keeps the length, stays ASCII and upper-cases each character in place |
| Strings.ToUppercaseIdempotent | src/lib.rs:21 | upper-casing twice equals upper-casing once |
| Strings.Join | src/lib.rs:20 | the joined length is the parts' total length plus one separator between each two parts; joining ASCII parts with an ASCII separator gives ASCII text |
| Strings.JoinPartAt | src/lib.rs:20 | in a join of equal-width parts, column `j` of part `i` sits at index `i (width + |sep|) + j` |
| Strings.JoinSeparatorAt | src/lib.rs:20 | in a join of equal-width parts, the separator after part `i` sits at index `i (width + |sep|) + width` |
| Strings.Split | src/lib.rs:56 | `split(sep)` yields at least one piece and no piece contains the separator |
| Strings.SplitWithoutSeparator | src/lib.rs:56 | text without the separator splits into the single piece that is the whole text |
| Strings.SplitAfterPiece | src/lib.rs:56 | splitting a separator-free piece, a separator and a rest yields the piece followed by the pieces of the rest |
| Strings.SplitJoin | src/lib.rs:56 | splitting on `sep` recovers exactly the parts that were joined with it, when no part contains `sep` |
| Strings.JoinSplit | src/lib.rs:56 | joining the pieces of a split with the separator gives back the original text |
| ProductKey.IsAlphanumeric | src/lib.rs:13 | defines the alphabet of `rand::distributions::Alphanumeric`: the 62 bytes `0`-`9`, `A`-`Z`, `a`-`z` |
| ProductKey.IsProductKey | src/lib.rs:53-58 | defines the key format: 23 characters, `-` at indexes 5, 11 and 17, and `A`-`Z` or `0`-`9` at every other index |
| ProductKey.ValidDraws | src/lib.rs:13-14 | defines what the generator yields for one key: twenty bytes of the `Alphanumeric` alphabet |
| ProductKey.CharFrom | src/lib.rs:15 | defines `char::from(u8)`: the character whose scalar value is the byte |
| ProductKey.CharsFrom | src/lib.rs:15-16 | defines `.map(char::from).collect()`: the characters of the bytes, in order |
| ProductKey.Segments | src/lib.rs:11-18 | the segment list has 4 segments of 5 characters, and column `r` of segment `q` is `char::from` of draw `5 q + r` |
| ProductKey.GenerateKey | src/lib.rs:9-22 | for twenty alphanumeric draws the key has the product-key format (length 23, `-` at 5, 11 and 17 only, `A`-`Z`/`0`-`9` elsewhere), and each non-hyphen index shows the upper-cased draw that lands there |
| ProductKey.UpperAlphanumeric | src/lib.rs:13-21 | upper-casing an alphanumeric byte gives one of the 36 key symbols |
| ProductKey.PositionsOfDraws | src/lib.rs:11-20 | the 20 draws and the 20 non-hyphen indexes of the key correspond one to one: draw `m` lands at `m + m / 5` |
| ProductKey.JoinLayout | src/lib.rs:20 | joining four five-character segments with `-` gives 23 characters with `-` at 5, 11, 17 and segment `i / 6`, column `i % 6`, elsewhere |
| ProductKey.SegmentsLayout | src/lib.rs:11-20 | before upper-casing, the joined segments are ASCII, 23 long, with `-` at the hyphen positions and each draw at its place |
| ProductKey.ProductKeySplit | src/lib.rs:56-58 | splitting any product key on `-` yields exactly its four segments, each of length 5 |
| ProductKey.GenerateKeySplit | src/lib.rs:52-58 | a generated key splits on `-` into 4 pieces of 5 characters and 5 bytes (`len`), and joining them back gives the key |
| ProductKey.ProductKeyBytes | src/lib.rs:55 | a product key is ASCII, its byte length (`len`) is 23 and its bytes are its characters' codes |
| ProductKey.ProductKeyIsUppercase | src/lib.rs:21 | upper-casing a product key leaves it unchanged |
| ProductKey.GenerateKeyIsUppercase | src/lib.rs:21 | upper-casing a generated key again leaves it unchanged |
| ProductKey.GenerateKeyCaseCollapse | src/lib.rs:13-21 | two draws give the same key if and only if they agree letter for letter up to case |
| ProductKey.GenerateKeyOnto | src/lib.rs:9-22 | every string in the product-key format is generated by some valid draw (its own symbols), so the possible outputs are exactly the product keys |
| Crypto.Primitives | src/lib.rs:28-43 | holds the crate calls as functions: SHA-256 of one `update`, `RsaPublicKey::from`, `sign` (None for `Err`), `verify(..).is_ok()`, Base64 `encode` and `decode` (None for `Err`) |
| Crypto.Base64RoundTrip | src/lib.rs:32 | assumes Base64 decoding returns exactly the bytes that were encoded |
| Crypto.SignaturesVerify | src/lib.rs:43 | assumes a signature made by a private key verifies under its public key, for the same padding and message |
| Crypto.SignatureBindsMessage | src/lib.rs:43 | assumes a signature verifies under the signer's public key only for the message it was made for |
| Crypto.SignatureBindsKey | src/lib.rs:43 | assumes a signature verifies only under the public key of the private key that made it |
| Crypto.ProductKeysDoNotCollide | src/lib.rs:39-41 | assumes distinct product keys have distinct SHA-256 digests of their bytes |
| Crypto.Laws | src/lib.rs:24-44 | gathers the five assumptions above about the crates |
| Crypto.ReferenceSatisfiesLaws | src/lib.rs:1-4 | the laws assumed of the SHA-256, RSA and Base64 crates hold together for one instance, so they are not contradictory |
| SerialKeyManager.Scheme | src/lib.rs:25-27 | defines the scheme both sides must use: `PKCS1v15Sign` with the `SHA2_256` identifier |
| SerialKeyManager.KeyDigest | src/lib.rs:28-30 | defines the digest both sides must use: SHA-256 of the key's UTF-8 bytes |
| SerialKeyManager.SignKey | src/lib.rs:24-33 | `sign_key` panics exactly when signing fails; otherwise it returns the Base64 text of the PKCS#1 v1.5/SHA-256 signature of the SHA-256 digest of the key's UTF-8 bytes |
| SerialKeyManager.VerifyKey | src/lib.rs:35-44 | `verify_key` panics exactly when the signature text does not decode, and so never reports such text as `false`; otherwise it returns the verification result for the same scheme and the same digest `SignKey` uses |
| SerialKeyManager.SignThenVerify | src/lib.rs:69-71 | given the Base64 round trip and that signatures verify, a signature returned by `sign_key` verifies for its key under the matching public key |
| SerialKeyManager.WrongKeyRejected | src/lib.rs:73-79 | given that a signature binds its message and that product keys do not collide, the signature of one product key does not verify for a different product key |
| SerialKeyManager.ForeignKeyRejected | src/lib.rs:43 | given that a signature binds its key, a signature does not verify under any public key but the signer's |
| SerialKeyManager.SignAndVerifyScenario | src/lib.rs:61-80 | the sign-and-verify unit test: the key verifies with its signature, a second key that differs beyond case fails with it, and the key fails with the second key's signature |

## Left out

- SHA-256, RSA key-pair generation, RSASSA-PKCS1-v1_5 signing and verification, and Base64 are calls into the `sha2`, `rsa` and `base64` crates. They are uninterpreted functions here, constrained only by the laws in `Crypto`.
- The random source (`thread_rng`, `sample_iter`): uniformity and freshness across calls are probabilistic, so the drawn bytes are an input. The claim that two calls give different keys is not modelled.
- The hasher object (`Sha256::new`, `update`, `finalize`) is one function of the bytes hashed, since the library makes exactly one `update` call.
- The signing panic ("failed to sign") is modelled only as the failure result of the abstract `sign`. When signing fails is a property of the `rsa` crate and is not modelled.
- `rsa::PaddingScheme` is modelled only by its `PKCS1v15Sign` variant, the one the library uses; the other schemes (encryption, OAEP, PSS) are not modelled. `rsa::Hash` is modelled only by `SHA2_256`, the identifier the library uses.
- Strings.ToUppercase: modelled on ASCII text only (its requires). Rust's full Unicode upper-casing, which can change a string's length, is not modelled. `generate_key` only upper-cases ASCII text.
- Crypto.SignatureBindsKey, SerialKeyManager.ForeignKeyRejected: the law is an idealisation. The `rsa` crate does not promise that only the signer's public key accepts a signature: public keys with other moduli and exponents that accept a given signature exist, and can even be constructed on purpose. The law stands for the negligible chance that an independently generated key pair is one of them, so `ForeignKeyRejected` holds with overwhelming probability for an independent key pair, not for every public key.
- Crypto.ProductKeysDoNotCollide: assumes SHA-256 has no collisions among the bytes of product keys. This is an assumption about a hash with 2^256 outputs over 36^20 inputs, not a property that can be proved.
- `Primitives.verify` returns the boolean of `is_ok()`. The `rsa` crate's error values, which say why verification failed, are not modelled.
- The key pairs of the unit test (`OsRng`, 2048-bit moduli) and the demonstration program `samples/main.rs` contain no logic of the library and are not modelled.
