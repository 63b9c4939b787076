/**
 * Bytes and .NET strings. A .NET string is a sequence of UTF-16 code units,
 * so it is modelled as `seq<WChar>` rather than Dafny's `string`.
 */
module Encodings {
  type byte = b: int | 0 <= b < 0x100
  type WChar = c: int | 0 <= c < 0x1_0000
  type NetString = seq<WChar>

  const Nul: WChar := 0
  const LineFeed: WChar := 0x0A
  const CarriageReturn: WChar := 0x0D
  const Tab: WChar := 0x09
  const Space: WChar := 0x20
  const QuestionMark: WChar := 0x3F
  const ReplacementChar: WChar := 0xFFFD

  /** A .NET string written as a Dafny ASCII literal. */
  function Ascii(s: string): NetString
    requires forall i :: 0 <= i < |s| ==> s[i] as int < 0x80
  {
    seq(|s|, i requires 0 <= i < |s| => s[i] as int)
  }

  /** Encoding.ASCII.GetString: bytes above 0x7F decode to '?'. */
  function AsciiDecode(bytes: seq<byte>): NetString
  {
    seq(|bytes|, i requires 0 <= i < |bytes| => if bytes[i] < 0x80 then bytes[i] else QuestionMark)
  }

  predicate IsHighSurrogate(c: WChar) { 0xD800 <= c < 0xDC00 }
  predicate IsLowSurrogate(c: WChar) { 0xDC00 <= c < 0xE000 }

  /** The code units of little-endian byte pairs; an odd trailing byte is not included. */
  function CodeUnits(bytes: seq<byte>): seq<WChar>
  {
    seq(|bytes| / 2, i requires 0 <= i < |bytes| / 2 => (bytes[2 * i] as int) + 0x100 * (bytes[2 * i + 1] as int))
  }

  /** Replaces every code unit of an ill-formed surrogate pair by U+FFFD. */
  function Sanitize(u: seq<WChar>): (r: seq<WChar>)
    ensures |r| == |u|
  {
    if u == [] then []
    else if IsHighSurrogate(u[0]) && |u| >= 2 && IsLowSurrogate(u[1]) then [u[0], u[1]] + Sanitize(u[2..])
    else if IsHighSurrogate(u[0]) || IsLowSurrogate(u[0]) then [ReplacementChar] + Sanitize(u[1..])
    else [u[0]] + Sanitize(u[1..])
  }

  /**
   * Encoding.Unicode.GetString: UTF-16LE with replacement of ill-formed
   * surrogates, and of an incomplete trailing byte, by U+FFFD.
   */
  function Utf16Decode(bytes: seq<byte>): NetString
  {
    Sanitize(CodeUnits(bytes)) + (if |bytes| % 2 == 1 then [ReplacementChar] else [])
  }

  /** UTF-16LE bytes of a sequence of code units. */
  function Utf16Encode(s: seq<WChar>): (r: seq<byte>)
    ensures |r| == 2 * |s|
  {
    if s == [] then [] else [s[0] % 0x100, s[0] / 0x100] + Utf16Encode(s[1..])
  }

  lemma {:induction false} CodeUnitsOfEncode(s: seq<WChar>)
    ensures CodeUnits(Utf16Encode(s)) == s
  {
    if s != [] {
      CodeUnitsOfEncode(s[1..]);
      var e := Utf16Encode(s);
      assert e == [s[0] % 0x100, s[0] / 0x100] + Utf16Encode(s[1..]);
      forall i | 0 <= i < |s| ensures CodeUnits(e)[i] == s[i] {
        if i > 0 {
          assert e[2 * i] == Utf16Encode(s[1..])[2 * (i - 1)];
          assert e[2 * i + 1] == Utf16Encode(s[1..])[2 * (i - 1) + 1];
          assert CodeUnits(Utf16Encode(s[1..]))[i - 1] == s[1..][i - 1];
        }
      }
    }
  }

  /** A sequence of code units without any surrogate. */
  predicate NoSurrogates(s: seq<WChar>)
  {
    forall i :: 0 <= i < |s| ==> !IsHighSurrogate(s[i]) && !IsLowSurrogate(s[i])
  }

  lemma {:induction false} SanitizeKeepsPlainUnits(s: seq<WChar>)
    requires NoSurrogates(s)
    ensures Sanitize(s) == s
  {
    if s != [] {
      assert NoSurrogates(s[1..]) by {
        forall i | 0 <= i < |s[1..]| ensures !IsHighSurrogate(s[1..][i]) && !IsLowSurrogate(s[1..][i]) {
          assert s[1..][i] == s[i + 1];
        }
      }
      SanitizeKeepsPlainUnits(s[1..]);
    }
  }

  /** Decoding the UTF-16LE encoding of surrogate-free text gives the text back. */
  lemma Utf16RoundTrip(s: seq<WChar>)
    requires NoSurrogates(s)
    ensures Utf16Decode(Utf16Encode(s)) == s
  {
    CodeUnitsOfEncode(s);
    SanitizeKeepsPlainUnits(s);
  }

  /**
   * String.Split with one separator character: the pieces between
   * separators, empty ones included.
   */
  function SplitOn(s: seq<WChar>, sep: WChar): (pieces: seq<seq<WChar>>)
    ensures |pieces| >= 1
    ensures forall p :: p in pieces ==> sep !in p
  {
    if s == [] then [[]]
    else
      var rest := SplitOn(s[1..], sep);
      if s[0] == sep then [[]] + rest else [[s[0]] + rest[0]] + rest[1..]
  }

  /** String.Join with one separator character. */
  function JoinWith(pieces: seq<seq<WChar>>, sep: WChar): seq<WChar>
    requires |pieces| >= 1
  {
    if |pieces| == 1 then pieces[0] else pieces[0] + [sep] + JoinWith(pieces[1..], sep)
  }

  lemma {:induction false} SplitOnPiece(p: seq<WChar>, sep: WChar, rest: seq<WChar>)
    requires sep !in p
    ensures SplitOn(p + [sep] + rest, sep) == [p] + SplitOn(rest, sep)
  {
    if p == [] {
      assert p + [sep] + rest == [sep] + rest;
      assert ([sep] + rest)[1..] == rest;
    } else {
      assert (p + [sep] + rest)[1..] == p[1..] + [sep] + rest;
      SplitOnPiece(p[1..], sep, rest);
      assert [p[0]] + p[1..] == p;
    }
  }

  lemma {:induction false} SplitOnPlain(p: seq<WChar>, sep: WChar)
    requires sep !in p
    ensures SplitOn(p, sep) == [p]
  {
    if p != [] {
      SplitOnPlain(p[1..], sep);
      assert [p[0]] + p[1..] == p;
    }
  }

  /** Splitting undoes joining when no piece contains the separator. */
  lemma {:induction false} SplitJoin(pieces: seq<seq<WChar>>, sep: WChar)
    requires |pieces| >= 1
    requires forall p :: p in pieces ==> sep !in p
    ensures SplitOn(JoinWith(pieces, sep), sep) == pieces
  {
    if |pieces| == 1 {
      SplitOnPlain(pieces[0], sep);
    } else {
      SplitJoin(pieces[1..], sep);
      SplitOnPiece(pieces[0], sep, JoinWith(pieces[1..], sep));
      assert [pieces[0]] + pieces[1..] == pieces;
    }
  }

  /** Joining undoes splitting. */
  lemma {:induction false} JoinSplit(s: seq<WChar>, sep: WChar)
    ensures JoinWith(SplitOn(s, sep), sep) == s
  {
    if s != [] {
      JoinSplit(s[1..], sep);
      var rest := SplitOn(s[1..], sep);
      if s[0] == sep {
        assert SplitOn(s, sep) == [[]] + rest;
        assert ([[]] + rest)[1..] == rest;
      } else {
        var pieces := [[s[0]] + rest[0]] + rest[1..];
        assert SplitOn(s, sep) == pieces;
        if |rest| == 1 {
          assert JoinWith(pieces, sep) == [s[0]] + rest[0];
        } else {
          assert pieces[1..] == rest[1..];
          assert JoinWith(rest, sep) == rest[0] + [sep] + JoinWith(rest[1..], sep);
        }
      }
    }
  }

  /** The pieces that are not empty, in order (StringSplitOptions.RemoveEmptyEntries). */
  function NonEmpty(pieces: seq<seq<WChar>>): (r: seq<seq<WChar>>)
    ensures forall p :: p in r ==> p != [] && p in pieces
  {
    if pieces == [] then []
    else if pieces[0] == [] then NonEmpty(pieces[1..])
    else [pieces[0]] + NonEmpty(pieces[1..])
  }

  /** Number of occurrences of `c` in `s`. */
  function Count(s: seq<WChar>, c: WChar): nat
  {
    if s == [] then 0 else (if s[0] == c then 1 else 0) + Count(s[1..], c)
  }

  lemma {:induction false} CountAppend(a: seq<WChar>, b: seq<WChar>, c: WChar)
    ensures Count(a + b, c) == Count(a, c) + Count(b, c)
  {
    if a == [] {
      assert a + b == b;
    } else {
      CountAppend(a[1..], b, c);
      assert (a + b)[1..] == a[1..] + b;
    }
  }

  lemma {:induction false} SplitCount(s: seq<WChar>, sep: WChar)
    ensures |SplitOn(s, sep)| == Count(s, sep) + 1
  {
    if s != [] { SplitCount(s[1..], sep); }
  }

  /** Char.IsWhiteSpace: the Unicode separators, U+0009 to U+000D, U+0085 and U+00A0. */
  predicate IsWhiteSpace(c: WChar)
  {
    || 0x09 <= c <= 0x0D || c == 0x20 || c == 0x85 || c == 0xA0 || c == 0x1680
    || 0x2000 <= c <= 0x200A || c == 0x2028 || c == 0x2029 || c == 0x202F || c == 0x205F || c == 0x3000
  }

  /** String.TrimStart(): drops leading white space. */
  function TrimStart(s: NetString): (r: NetString)
    ensures |r| <= |s| && r == s[|s| - |r|..]
    ensures r != [] ==> !IsWhiteSpace(r[0])
    ensures forall i :: 0 <= i < |s| - |r| ==> IsWhiteSpace(s[i])
  {
    if s == [] || !IsWhiteSpace(s[0]) then s
    else
      var r := TrimStart(s[1..]);
      assert forall i :: 1 <= i < |s| - |r| ==> s[i] == s[1..][i - 1];
      r
  }

  /** String.TrimEnd(): drops trailing white space. */
  function TrimEnd(s: NetString): (r: NetString)
    ensures |r| <= |s| && r == s[..|r|]
    ensures r != [] ==> !IsWhiteSpace(r[|r| - 1])
    ensures forall i :: |r| <= i < |s| ==> IsWhiteSpace(s[i])
  {
    if s == [] || !IsWhiteSpace(s[|s| - 1]) then s
    else TrimEnd(s[..|s| - 1])
  }

  /** String.Trim(). */
  function Trim(s: NetString): NetString
  {
    TrimEnd(TrimStart(s))
  }
}
