/**
  `generate_key`: four segments of five characters drawn from the
  alphanumeric alphabet, joined with `-` and upper-cased. The random source
  is an input: `draws` holds, in order, the twenty bytes the generator
  yields (`rand::distributions::Alphanumeric` samples bytes).
*/
module ProductKey {
  import opened Strings

  const SegmentCount: nat := 4
  const SegmentLength: nat := 5
  const DrawCount: nat := SegmentCount * SegmentLength
  /** Four segments and the three hyphens between them. */
  const KeyLength: nat := SegmentCount * SegmentLength + SegmentCount - 1
  const Hyphen: char := '-'

  /** The 62 bytes `rand::distributions::Alphanumeric` draws from: `0-9`, `A-Z`, `a-z`. */
  predicate IsAlphanumeric(b: byte) {
    0x30 <= b <= 0x39 || 0x41 <= b <= 0x5A || 0x61 <= b <= 0x7A
  }

  /** The 36 symbols a key may use besides its hyphens. */
  predicate IsKeySymbol(c: char) {
    'A' <= c <= 'Z' || '0' <= c <= '9'
  }

  predicate IsHyphenPosition(i: int) {
    i == 5 || i == 11 || i == 17
  }

  /** The product-key format `XXXXX-XXXXX-XXXXX-XXXXX`. */
  predicate IsProductKey(key: string) {
    && |key| == KeyLength
    && forall i :: 0 <= i < |key| ==> if IsHyphenPosition(i) then key[i] == Hyphen else IsKeySymbol(key[i])
  }

  /** What the random source can yield for one key: twenty alphanumeric bytes. */
  predicate ValidDraws(draws: seq<byte>) {
    |draws| == DrawCount && forall m :: 0 <= m < |draws| ==> IsAlphanumeric(draws[m])
  }

  /** `char::from(u8)`: the character whose scalar value is the byte. */
  function CharFrom(b: byte): char {
    b as char
  }

  /** `.map(char::from).collect()`: the characters of the bytes, in order. */
  function CharsFrom(bs: seq<byte>): string {
    seq(|bs|, m requires 0 <= m < |bs| => CharFrom(bs[m]))
  }

  /**
    `(0..4).map(|_| ... .take(5).map(char::from).collect()).collect()`:
    segment `i` is made of draws `5 * i` to `5 * i + 4`. Every clone of the
    thread-local generator shares its state, so the segments are successive
    draws.
  */
  function Segments(draws: seq<byte>): (segments: seq<string>)
    requires |draws| == DrawCount
    ensures |segments| == SegmentCount
    ensures forall q :: 0 <= q < SegmentCount ==> |segments[q]| == SegmentLength
    ensures forall q, r :: 0 <= q < SegmentCount && 0 <= r < SegmentLength ==>
      segments[q][r] == CharFrom(draws[SegmentLength * q + r])
  {
    seq(SegmentCount, i requires 0 <= i < SegmentCount =>
      CharsFrom(draws[SegmentLength * i .. SegmentLength * i + SegmentLength]))
  }

  /** Where draw `m` lands in the key: after the hyphens of the `m / 5` segments before it. */
  function DrawPosition(m: nat): nat {
    m + m / SegmentLength
  }

  /** Which draw a non-hyphen index `i` of the key shows: `i` less the hyphens before it. */
  function DrawIndex(i: nat): nat {
    i - i / (SegmentLength + 1)
  }

  /** `segments.join("-").to_uppercase()` */
  function GenerateKey(draws: seq<byte>): (key: string)
    requires ValidDraws(draws)
    ensures IsProductKey(key)
    ensures forall i :: 0 <= i < KeyLength && !IsHyphenPosition(i) ==>
      key[i] == AsciiUpperChar(CharFrom(draws[DrawIndex(i)]))
  {
    var joined := Join(Segments(draws), [Hyphen]);
    SegmentsLayout(draws);
    var key := ToUppercase(joined);
    forall i | 0 <= i < KeyLength && !IsHyphenPosition(i) ensures IsKeySymbol(key[i]) {
      PositionsOfDraws(i);
      UpperAlphanumeric(draws[DrawIndex(i)]);
    }
    key
  }

  /** Upper-casing maps the 62-symbol alphabet onto the 36 key symbols. */
  lemma UpperAlphanumeric(b: byte)
    requires IsAlphanumeric(b)
    ensures IsKeySymbol(AsciiUpperChar(CharFrom(b)))
  {
  }

  /** `DrawPosition` and `DrawIndex` are inverse bijections between the 20 draws and the 20 non-hyphen indexes. */
  lemma PositionsOfDraws(i: nat)
    ensures i < DrawCount ==> DrawPosition(i) < KeyLength && !IsHyphenPosition(DrawPosition(i)) && DrawIndex(DrawPosition(i)) == i
    ensures i < KeyLength && !IsHyphenPosition(i) ==> DrawIndex(i) < DrawCount && DrawPosition(DrawIndex(i)) == i
  {
  }

  // ---------------------------------------------------------------------
  // Layout of a join of four five-character segments
  // ---------------------------------------------------------------------

  ghost predicate IsSegmentList(parts: seq<string>) {
    |parts| == SegmentCount && forall q :: 0 <= q < |parts| ==> |parts[q]| == SegmentLength
  }

  /** Joining four segments with `-` puts part `i / 6`, column `i % 6`, at each non-hyphen index `i`. */
  lemma JoinLayout(parts: seq<string>)
    requires IsSegmentList(parts)
    ensures |Join(parts, [Hyphen])| == KeyLength
    ensures forall i :: 0 <= i < KeyLength ==>
      Join(parts, [Hyphen])[i] == if IsHyphenPosition(i) then Hyphen else parts[i / 6][i % 6]
  {
    var joined := Join(parts, [Hyphen]);
    TotalLengthUniform(parts, SegmentLength);
    forall i | 0 <= i < KeyLength
      ensures joined[i] == if IsHyphenPosition(i) then Hyphen else parts[i / 6][i % 6]
    {
      var q, r := i / 6, i % 6;
      assert i == q * (SegmentLength + 1) + r;
      if IsHyphenPosition(i) {
        JoinSeparatorAt(parts, [Hyphen], SegmentLength, q, 0);
      } else {
        JoinPartAt(parts, [Hyphen], SegmentLength, q, r);
      }
    }
  }

  /** The joined draws, before upper-casing: each draw in its place, hyphens between segments. */
  lemma SegmentsLayout(draws: seq<byte>)
    requires ValidDraws(draws)
    ensures |Join(Segments(draws), [Hyphen])| == KeyLength
    ensures IsAscii(Join(Segments(draws), [Hyphen]))
    ensures forall i :: 0 <= i < KeyLength ==>
      Join(Segments(draws), [Hyphen])[i] == if IsHyphenPosition(i) then Hyphen else CharFrom(draws[DrawIndex(i)])
  {
    var parts := Segments(draws);
    var joined := Join(parts, [Hyphen]);
    JoinLayout(parts);
    forall i | 0 <= i < KeyLength && !IsHyphenPosition(i)
      ensures joined[i] == CharFrom(draws[DrawIndex(i)]) && IsAsciiChar(joined[i])
    {
      var q, r := i / 6, i % 6;
      assert 0 <= q < SegmentCount && 0 <= r < SegmentLength && i == 6 * q + r;
      var m := q * SegmentLength + r;
      assert DrawIndex(i) == m;
      var segment := draws[SegmentLength * q .. SegmentLength * q + SegmentLength];
      assert parts[q] == CharsFrom(segment);
      assert segment[r] == draws[m];
      assert parts[q][r] == CharFrom(draws[m]);
      assert IsAlphanumeric(draws[m]);
    }
  }

  // ---------------------------------------------------------------------
  // Properties of the generated key
  // ---------------------------------------------------------------------

  /** The four five-character segments of a key, read off at indexes `6 * q` to `6 * q + 4`. */
  function KeySegments(key: string): (parts: seq<string>)
    requires |key| == KeyLength
  {
    seq(SegmentCount, q requires 0 <= q < SegmentCount => key[6 * q .. 6 * q + SegmentLength])
  }

  /**
    `key.split('-')` on a product key yields exactly four pieces, its
    segments, each five characters long.
  */
  lemma ProductKeySplit(key: string)
    requires IsProductKey(key)
    ensures Split(key, Hyphen) == KeySegments(key)
    ensures |Split(key, Hyphen)| == SegmentCount
    ensures forall q :: 0 <= q < SegmentCount ==> |Split(key, Hyphen)[q]| == SegmentLength
  {
    var parts := KeySegments(key);
    JoinLayout(parts);
    var joined := Join(parts, [Hyphen]);
    forall i | 0 <= i < KeyLength ensures joined[i] == key[i] {
      if !IsHyphenPosition(i) {
        assert parts[i / 6][i % 6] == key[6 * (i / 6) + i % 6];
      }
    }
    assert joined == key;
    forall q | 0 <= q < SegmentCount ensures Hyphen !in parts[q] {
      forall r | 0 <= r < SegmentLength ensures parts[q][r] != Hyphen {
        assert parts[q][r] == key[6 * q + r];
        assert !IsHyphenPosition(6 * q + r);
      }
    }
    SplitJoin(parts, Hyphen);
  }

  /** Splitting a generated key on `-` gives four segments of five characters (the test of lib.rs). */
  lemma GenerateKeySplit(draws: seq<byte>)
    requires ValidDraws(draws)
    ensures |Split(GenerateKey(draws), Hyphen)| == SegmentCount
    ensures forall q :: 0 <= q < SegmentCount ==> |Split(GenerateKey(draws), Hyphen)[q]| == SegmentLength
    ensures forall q :: 0 <= q < SegmentCount ==> |AsBytes(Split(GenerateKey(draws), Hyphen)[q])| == SegmentLength
    ensures Join(Split(GenerateKey(draws), Hyphen), [Hyphen]) == GenerateKey(draws)
  {
    var key := GenerateKey(draws);
    ProductKeySplit(key);
    ProductKeyBytes(key);
    forall q | 0 <= q < SegmentCount ensures |AsBytes(Split(key, Hyphen)[q])| == SegmentLength {
      var piece := key[6 * q .. 6 * q + SegmentLength];
      assert Split(key, Hyphen)[q] == piece;
      assert IsAscii(piece) by {
        forall r | 0 <= r < |piece| ensures IsAsciiChar(piece[r]) {
          assert piece[r] == key[6 * q + r];
        }
      }
    }
    JoinSplit(key, Hyphen);
  }

  /** A product key is ASCII, so its byte length (Rust's `len`) is 23 and its bytes are its characters. */
  lemma ProductKeyBytes(key: string)
    requires IsProductKey(key)
    ensures IsAscii(key)
    ensures |AsBytes(key)| == KeyLength
    ensures forall i :: 0 <= i < KeyLength ==> AsBytes(key)[i] == key[i] as int
  {
    assert IsAscii(key) by {
      forall i | 0 <= i < |key| ensures IsAsciiChar(key[i]) {
        if !IsHyphenPosition(i) { assert IsKeySymbol(key[i]); }
      }
    }
  }

  /** Upper-casing a product key again changes nothing. */
  lemma ProductKeyIsUppercase(key: string)
    requires IsProductKey(key)
    ensures IsAscii(key) && ToUppercase(key) == key
  {
    ProductKeyBytes(key);
    var upper := ToUppercase(key);
    forall i | 0 <= i < |key| ensures upper[i] == key[i] {
      if !IsHyphenPosition(i) { assert IsKeySymbol(key[i]); }
    }
  }

  /** The generated key is already upper-case. */
  lemma GenerateKeyIsUppercase(draws: seq<byte>)
    requires ValidDraws(draws)
    ensures IsAscii(GenerateKey(draws)) && ToUppercase(GenerateKey(draws)) == GenerateKey(draws)
  {
    ProductKeyIsUppercase(GenerateKey(draws));
  }

  /** Two draw sequences that agree letter for letter once case is ignored. */
  ghost predicate SameUpToCase(d1: seq<byte>, d2: seq<byte>) {
    |d1| == |d2| && forall m :: 0 <= m < |d1| ==> AsciiUpperChar(CharFrom(d1[m])) == AsciiUpperChar(CharFrom(d2[m]))
  }

  /**
    Case collapse: two draws give the same key exactly when they differ only
    in the case of their letters.
  */
  lemma GenerateKeyCaseCollapse(d1: seq<byte>, d2: seq<byte>)
    requires ValidDraws(d1) && ValidDraws(d2)
    ensures GenerateKey(d1) == GenerateKey(d2) <==> SameUpToCase(d1, d2)
  {
    var k1, k2 := GenerateKey(d1), GenerateKey(d2);
    if SameUpToCase(d1, d2) {
      forall i | 0 <= i < KeyLength ensures k1[i] == k2[i] {
        if !IsHyphenPosition(i) { PositionsOfDraws(i); }
      }
      assert k1 == k2;
    }
    if k1 == k2 {
      forall m | 0 <= m < DrawCount ensures AsciiUpperChar(CharFrom(d1[m])) == AsciiUpperChar(CharFrom(d2[m])) {
        PositionsOfDraws(m);
        assert k1[DrawPosition(m)] == k2[DrawPosition(m)];
      }
    }
  }

  /** The twenty symbols of a key, hyphens removed, as bytes. */
  function KeyDraws(key: string): (draws: seq<byte>)
    requires IsProductKey(key)
  {
    seq(DrawCount, m requires 0 <= m < DrawCount =>
      PositionsOfDraws(m);
      assert IsKeySymbol(key[DrawPosition(m)]);
      key[DrawPosition(m)] as int)
  }

  /**
    Every product key is generated by some draw: its own symbols. So the keys
    `generate_key` can return are exactly the strings of the product-key format.
  */
  lemma GenerateKeyOnto(key: string)
    requires IsProductKey(key)
    ensures ValidDraws(KeyDraws(key))
    ensures GenerateKey(KeyDraws(key)) == key
  {
    var draws := KeyDraws(key);
    forall m | 0 <= m < DrawCount ensures IsAlphanumeric(draws[m]) {
      PositionsOfDraws(m);
      assert IsKeySymbol(key[DrawPosition(m)]);
    }
    var generated := GenerateKey(draws);
    forall i | 0 <= i < KeyLength ensures generated[i] == key[i] {
      if !IsHyphenPosition(i) {
        PositionsOfDraws(i);
        assert IsKeySymbol(key[i]);
      }
    }
    assert generated == key;
  }
}
