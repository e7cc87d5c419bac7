/**
  The parts of Rust's `str`/`String` API that the serial key manager uses:
  `as_bytes` (the UTF-8 encoding of the text), `to_uppercase`, `join` on a
  slice of strings and `split` on a character. Text is `seq<char>` (Unicode
  scalar values) and bytes are integers in 0..255.
*/
module Strings {

  type byte = b: int | 0 <= b < 256

  predicate IsAsciiChar(c: char) {
    c as int < 0x80
  }

  predicate IsAscii(s: string) {
    forall i :: 0 <= i < |s| ==> IsAsciiChar(s[i])
  }

  // ---------------------------------------------------------------------
  // `as_bytes`: a Rust string is stored as its UTF-8 encoding
  // ---------------------------------------------------------------------

  /** The UTF-8 encoding of one scalar value (RFC 3629, section 3). */
  function Utf8(c: char): (bs: seq<byte>)
    ensures 1 <= |bs| <= 4
    ensures |bs| == 1 <==> IsAsciiChar(c)
    ensures IsAsciiChar(c) ==> bs[0] == c as int
    ensures !IsAsciiChar(c) ==> 0xC0 <= bs[0] && forall k :: 1 <= k < |bs| ==> 0x80 <= bs[k] < 0xC0
  {
    var n := c as int;
    if n < 0x80 then [n]
    else if n < 0x800 then [0xC0 + n / 0x40, 0x80 + n % 0x40]
    else if n < 0x1_0000 then [0xE0 + n / 0x1000, 0x80 + (n / 0x40) % 0x40, 0x80 + n % 0x40]
    else [0xF0 + n / 0x4_0000, 0x80 + (n / 0x1000) % 0x40, 0x80 + (n / 0x40) % 0x40, 0x80 + n % 0x40]
  }

  /** `s.as_bytes()`: the UTF-8 bytes of `s`, character by character. */
  function AsBytes(s: string): (bs: seq<byte>)
    ensures |s| <= |bs| <= 4 * |s|
    ensures IsAscii(s) ==> |bs| == |s| && forall i :: 0 <= i < |s| ==> bs[i] == s[i] as int
  {
    if |s| == 0 then [] else Utf8(s[0]) + AsBytes(s[1..])
  }

  /** Two ASCII strings have the same bytes only if they are the same string. */
  lemma AsBytesInjectiveOnAscii(s: string, t: string)
    requires IsAscii(s) && IsAscii(t)
    ensures AsBytes(s) == AsBytes(t) <==> s == t
  {
    if AsBytes(s) == AsBytes(t) {
      forall i | 0 <= i < |s| ensures s[i] == t[i] {
        assert AsBytes(s)[i] == AsBytes(t)[i];
      }
    }
  }

  // ---------------------------------------------------------------------
  // `to_uppercase`
  // ---------------------------------------------------------------------

  /** The upper-case mapping of an ASCII character: `a`..`z` become `A`..`Z`. */
  function AsciiUpperChar(c: char): (u: char)
    ensures IsAsciiChar(c) ==> IsAsciiChar(u)
    ensures !('a' <= u <= 'z')
    ensures 'a' <= c <= 'z' ==> u as int == c as int - 32
    ensures !('a' <= c <= 'z') ==> u == c
  {
    if 'a' <= c <= 'z' then (c as int - 32) as char else c
  }

  /**
    `s.to_uppercase()`, for ASCII text: every character is replaced by its
    upper-case mapping and the length does not change.
  */
  function ToUppercase(s: string): (r: string)
    requires IsAscii(s)
    ensures |r| == |s| && IsAscii(r)
    ensures forall i :: 0 <= i < |s| ==> r[i] == AsciiUpperChar(s[i])
  {
    if |s| == 0 then [] else [AsciiUpperChar(s[0])] + ToUppercase(s[1..])
  }

  /** Upper-casing twice is upper-casing once. */
  lemma ToUppercaseIdempotent(s: string)
    requires IsAscii(s)
    ensures ToUppercase(ToUppercase(s)) == ToUppercase(s)
  {
  }

  // ---------------------------------------------------------------------
  // `[String]::join` and `str::split(char)`
  // ---------------------------------------------------------------------

  function TotalLength(parts: seq<string>): nat {
    if |parts| == 0 then 0 else |parts[0]| + TotalLength(parts[1..])
  }

  /** Parts that all have the same width have that width times their number as total length. */
  lemma {:induction false} TotalLengthUniform(parts: seq<string>, width: nat)
    requires forall k :: 0 <= k < |parts| ==> |parts[k]| == width
    ensures TotalLength(parts) == |parts| * width
  {
    if |parts| > 0 {
      TotalLengthUniform(parts[1..], width);
    }
  }

  /** `parts.join(sep)`: the parts in order, with `sep` between each two neighbours. */
  function Join(parts: seq<string>, sep: string): (r: string)
    ensures |parts| > 0 ==> |r| == TotalLength(parts) + (|parts| - 1) * |sep|
    ensures (IsAscii(sep) && forall k :: 0 <= k < |parts| ==> IsAscii(parts[k])) ==> IsAscii(r)
  {
    if |parts| == 0 then ""
    else if |parts| == 1 then parts[0]
    else
      var rest := Join(parts[1..], sep);
      assert (|parts| - 1) * |sep| == |sep| + (|parts| - 2) * |sep|;
      parts[0] + sep + rest
  }

  /**
    `s.split(sep)`: the maximal pieces of `s` between occurrences of `sep`.
    As in Rust, the empty string splits into one empty piece, and a
    separator at either end yields an empty piece there.
  */
  function Split(s: string, sep: char): (parts: seq<string>)
    ensures |parts| >= 1
    ensures forall k :: 0 <= k < |parts| ==> sep !in parts[k]
  {
    if |s| == 0 then [""]
    else
      var rest := Split(s[1..], sep);
      if s[0] == sep then [""] + rest
      else [[s[0]] + rest[0]] + rest[1..]
  }

  /** A string without the separator is a single piece. */
  lemma {:induction false} SplitWithoutSeparator(p: string, sep: char)
    requires sep !in p
    ensures Split(p, sep) == [p]
  {
    if |p| > 0 {
      SplitWithoutSeparator(p[1..], sep);
      assert [p[0]] + p[1..] == p;
    }
  }

  /** Splitting `p + [sep] + t`, where `p` has no separator, yields `p` and then the pieces of `t`. */
  lemma {:induction false} SplitAfterPiece(p: string, sep: char, t: string)
    requires sep !in p
    ensures Split(p + [sep] + t, sep) == [p] + Split(t, sep)
  {
    var s := p + [sep] + t;
    if |p| == 0 {
      assert s[1..] == t;
    } else {
      assert s[1..] == p[1..] + [sep] + t;
      SplitAfterPiece(p[1..], sep, t);
      assert [p[0]] + p[1..] == p;
    }
  }

  /** `split` undoes `join` when no part contains the separator. */
  lemma {:induction false} SplitJoin(parts: seq<string>, sep: char)
    requires |parts| >= 1
    requires forall k :: 0 <= k < |parts| ==> sep !in parts[k]
    ensures Split(Join(parts, [sep]), sep) == parts
  {
    if |parts| == 1 {
      SplitWithoutSeparator(parts[0], sep);
    } else {
      SplitJoin(parts[1..], sep);
      SplitAfterPiece(parts[0], sep, Join(parts[1..], [sep]));
      assert [parts[0]] + parts[1..] == parts;
    }
  }

  /** `join` undoes `split`: re-joining the pieces with the separator gives back the text. */
  lemma {:induction false} JoinSplit(s: string, sep: char)
    ensures Join(Split(s, sep), [sep]) == s
  {
    if |s| > 0 {
      var rest := Split(s[1..], sep);
      JoinSplit(s[1..], sep);
      var parts := Split(s, sep);
      if s[0] == sep {
        assert parts[1..] == rest;
        assert s == [sep] + s[1..];
      } else {
        assert parts[0] == [s[0]] + rest[0];
        assert parts[1..] == rest[1..];
        if |rest| > 1 {
          assert Join(rest, [sep]) == rest[0] + [sep] + Join(rest[1..], [sep]);
        }
        assert s == [s[0]] + s[1..];
      }
    }
  }

  /** `i` strides of `stride` each, counted one stride at a time. */
  function Offset(i: nat, stride: nat): (o: nat)
    ensures o == i * stride
  {
    if i == 0 then 0 else stride + Offset(i - 1, stride)
  }

  lemma {:induction false} JoinPartAtOffset(parts: seq<string>, sep: string, width: nat, i: nat, j: nat)
    requires forall k :: 0 <= k < |parts| ==> |parts[k]| == width
    requires i < |parts| && j < width
    ensures Offset(i, width + |sep|) + j < |Join(parts, sep)|
    ensures Join(parts, sep)[Offset(i, width + |sep|) + j] == parts[i][j]
  {
    if |parts| > 1 {
      var rest := Join(parts[1..], sep);
      assert Join(parts, sep) == parts[0] + sep + rest;
      if i > 0 {
        JoinPartAtOffset(parts[1..], sep, width, i - 1, j);
        var stride := width + |sep|;
        assert Offset(i, stride) == stride + Offset(i - 1, stride);
        assert (parts[0] + sep + rest)[stride + Offset(i - 1, stride) + j] == rest[Offset(i - 1, stride) + j];
      } else {
        assert (parts[0] + sep + rest)[j] == parts[0][j];
      }
    }
  }

  lemma {:induction false} JoinSeparatorAtOffset(parts: seq<string>, sep: string, width: nat, i: nat, j: nat)
    requires forall k :: 0 <= k < |parts| ==> |parts[k]| == width
    requires i + 1 < |parts| && j < |sep|
    ensures Offset(i, width + |sep|) + width + j < |Join(parts, sep)|
    ensures Join(parts, sep)[Offset(i, width + |sep|) + width + j] == sep[j]
  {
    var rest := Join(parts[1..], sep);
    assert Join(parts, sep) == parts[0] + sep + rest;
    if i > 0 {
      JoinSeparatorAtOffset(parts[1..], sep, width, i - 1, j);
      var stride := width + |sep|;
      assert Offset(i, stride) == stride + Offset(i - 1, stride);
      assert (parts[0] + sep + rest)[stride + Offset(i - 1, stride) + width + j] == rest[Offset(i - 1, stride) + width + j];
    } else {
      assert (parts[0] + sep + rest)[width + j] == sep[j];
    }
  }

  /**
    The character at column `j` of part `i` of a join of parts that all have
    the same `width`: it sits at `i * (width + |sep|) + j`.
  */
  lemma JoinPartAt(parts: seq<string>, sep: string, width: nat, i: nat, j: nat)
    requires forall k :: 0 <= k < |parts| ==> |parts[k]| == width
    requires i < |parts| && j < width
    ensures i * (width + |sep|) + j < |Join(parts, sep)|
    ensures Join(parts, sep)[i * (width + |sep|) + j] == parts[i][j]
  {
    JoinPartAtOffset(parts, sep, width, i, j);
  }

  /** Column `j` of the separator that follows part `i` sits at `i * (width + |sep|) + width + j`. */
  lemma JoinSeparatorAt(parts: seq<string>, sep: string, width: nat, i: nat, j: nat)
    requires forall k :: 0 <= k < |parts| ==> |parts[k]| == width
    requires i + 1 < |parts| && j < |sep|
    ensures i * (width + |sep|) + width + j < |Join(parts, sep)|
    ensures Join(parts, sep)[i * (width + |sep|) + width + j] == sep[j]
  {
    JoinSeparatorAtOffset(parts, sep, width, i, j);
  }
}
