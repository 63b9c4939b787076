/**
 * Recognising a colour written as text: the functional rgb(...) and
 * rgba(...) forms, and the HTML names and #hex forms the framework's
 * colour translator understands.
 */
module ColorParser {
  import opened Wrappers
  import opened Encodings

  /** A colour with its alpha and three channels. */
  datatype Color = Color(a: byte, r: byte, g: byte, b: byte)

  /** default(Color): every channel 0, alpha included. */
  const DefaultColor := Color(0, 0, 0, 0)

  /**
   * Framework behaviour the parser relies on: the parse of the alpha
   * component as a float scaled to a byte, Unicode letter and letter-or-digit
   * classes, and the HTML colour translator, which may throw.
   */
  datatype ColorEnv = ColorEnv(
    parseAlpha: NetString -> Option<byte>,
    isLetter: WChar -> bool,
    isLetterOrDigit: WChar -> bool,
    fromHtml: NetString -> Result<Color>)

  const Comma: WChar := 0x2C
  const OpenParen: WChar := 0x28
  const CloseParen: WChar := 0x29
  const Hash: WChar := 0x23
  const Plus: WChar := 0x2B
  const Minus: WChar := 0x2D

  /** text.Replace(" ", ""). */
  function RemoveSpaces(text: NetString): (r: NetString)
    ensures Space !in r
    ensures |r| <= |text|
    ensures Space !in text ==> r == text
  {
    if text == [] then []
    else if text[0] == Space then RemoveSpaces(text[1..])
    else [text[0]] + RemoveSpaces(text[1..])
  }

  predicate IsDigit(c: WChar) { 0x30 <= c <= 0x39 }

  /** The value of a run of decimal digits, most significant first. */
  function DigitsValue(s: NetString): nat
    requires forall i :: 0 <= i < |s| ==> IsDigit(s[i])
  {
    if s == [] then 0
    else
      var last := s[|s| - 1];
      assert IsDigit(last);
      10 * DigitsValue(s[..|s| - 1]) + (last as int - 0x30)
  }

  /** White space the integer parser skips around a number. */
  predicate IsNumberWhite(c: WChar) { 0x09 <= c <= 0x0D || c == Space }

  function TrimNumberWhite(s: NetString): (r: NetString)
    ensures |r| <= |s|
  {
    if s != [] && IsNumberWhite(s[0]) then TrimNumberWhite(s[1..])
    else if s != [] && IsNumberWhite(s[|s| - 1]) then TrimNumberWhite(s[..|s| - 1])
    else s
  }

  /** The parser accepts NUL characters after the number. */
  function DropTrailingNuls(s: NetString): (r: NetString)
    ensures |r| <= |s|
  {
    if s != [] && s[|s| - 1] == Nul then DropTrailingNuls(s[..|s| - 1]) else s
  }

  /**
   * byte.TryParse with the integer number style: optional white space
   * around an optionally signed run of decimal digits whose value lies in
   * 0..255 ("-0" is accepted).
   */
  function ParseByte(s: NetString): (r: Option<byte>)
    ensures s == [] ==> r.None?
    ensures s != [] && (forall i :: 0 <= i < |s| ==> IsDigit(s[i])) ==>
              r == if DigitsValue(s) <= 255 then Some(DigitsValue(s)) else None
  {
    var t := TrimNumberWhite(DropTrailingNuls(s));
    var negative := t != [] && t[0] == Minus;
    var digits := if t != [] && (t[0] == Minus || t[0] == Plus) then t[1..] else t;
    if digits == [] || exists i :: 0 <= i < |digits| && !IsDigit(digits[i]) then None
    else
      var v := DigitsValue(digits);
      if negative then (if v == 0 then Some(0) else None)
      else if v <= 255 then Some(v)
      else None
  }

  /** The decimal digits of `n` without leading zeros. */
  function DecimalDigits(n: nat): (s: NetString)
    ensures s != [] && forall i :: 0 <= i < |s| ==> IsDigit(s[i])
  {
    if n < 10 then [0x30 + n] else DecimalDigits(n / 10) + [0x30 + n % 10]
  }

  lemma {:induction false} DigitsValueOfDecimal(n: nat)
    ensures DigitsValue(DecimalDigits(n)) == n
  {
    if n >= 10 {
      DigitsValueOfDecimal(n / 10);
      var s := DecimalDigits(n);
      assert s[..|s| - 1] == DecimalDigits(n / 10);
    }
  }

  /** A byte written in decimal parses back to itself. */
  lemma ParseByteOfDecimal(v: byte)
    ensures ParseByte(DecimalDigits(v)) == Some(v)
  {
    var s := DecimalDigits(v);
    assert s[|s| - 1] != Nul;
    assert DropTrailingNuls(s) == s;
    assert !IsNumberWhite(s[0]) && !IsNumberWhite(s[|s| - 1]);
    assert TrimNumberWhite(s) == s;
    DigitsValueOfDecimal(v);
  }

  function StartsWith(s: NetString, prefix: NetString): bool
  {
    |prefix| <= |s| && s[..|prefix|] == prefix
  }

  const RgbPrefix: NetString := [0x72, 0x67, 0x62, OpenParen]
  const RgbaPrefix: NetString := [0x72, 0x67, 0x62, 0x61, OpenParen]

  /** The form rgb(...) or rgba(...). */
  predicate IsFunctional(t: NetString)
  {
    t != [] && t[|t| - 1] == CloseParen && (StartsWith(t, RgbPrefix) || StartsWith(t, RgbaPrefix))
  }

  /** The form of a colour name, or of "#" followed by letters and digits. */
  predicate IsNamed(env: ColorEnv, t: NetString)
  {
    (forall i :: 0 <= i < |t| ==> env.isLetter(t[i]))
    || (StartsWith(t, [Hash]) && forall i :: 1 <= i < |t| ==> env.isLetterOrDigit(t[i]))
  }

  /** The comma-separated components between the first "(" and the final ")". */
  function Components(t: NetString): seq<NetString>
    requires IsFunctional(t)
  {
    var open := if StartsWith(t, RgbPrefix) then 3 else 4;
    SplitOn(t[open + 1..|t| - 1], Comma)
  }

  /** The colour the components describe: three bytes, or three bytes and an alpha. */
  function FromComponents(env: ColorEnv, values: seq<NetString>): Option<Color>
  {
    if |values| == 3 then
      match (ParseByte(values[0]), ParseByte(values[1]), ParseByte(values[2]))
      case (Some(r), Some(g), Some(b)) => Some(Color(0, r, g, b))
      case _ => None
    else if |values| == 4 then
      match (ParseByte(values[0]), ParseByte(values[1]), ParseByte(values[2]), env.parseAlpha(values[3]))
      case (Some(r), Some(g), Some(b), Some(a)) => Some(Color(a, r, g, b))
      case _ => None
    else None
  }

  /**
   * ColorParser.TryParse: the parsed colour, or None where it returns false
   * with the default colour. Spaces are removed first; the functional form
   * is decided by its prefix and closing parenthesis, then by its
   * components; the named form is handed to the colour translator, whose
   * exception is swallowed.
   */
  function TryParse(env: ColorEnv, text: NetString): (r: Option<Color>)
    ensures var t := RemoveSpaces(text);
            IsFunctional(t) && r.Some? ==> |Components(t)| == 3 || |Components(t)| == 4
    ensures var t := RemoveSpaces(text);
            IsFunctional(t) && r.Some? && |Components(t)| == 3 ==> r.value.a == 0
    ensures var t := RemoveSpaces(text);
            !IsFunctional(t) && IsNamed(env, t) ==> (r.Some? <==> env.fromHtml(t).Ok?) && (r.Some? ==> r.value == env.fromHtml(t).value)
    ensures var t := RemoveSpaces(text);
            !IsFunctional(t) && !IsNamed(env, t) ==> r.None?
  {
    var t := RemoveSpaces(text);
    if IsFunctional(t) then FromComponents(env, Components(t))
    else if IsNamed(env, t) then
      match env.fromHtml(t)
      case Ok(color) => Some(color)
      case Err(_) => None
    else None
  }

  /** Spaces anywhere in the text make no difference. */
  lemma {:induction false} RemoveSpacesIdempotent(text: NetString)
    ensures RemoveSpaces(RemoveSpaces(text)) == RemoveSpaces(text)
  {
  }

  lemma SpacesAreIgnored(env: ColorEnv, text: NetString)
    ensures TryParse(env, RemoveSpaces(text)) == TryParse(env, text)
  {
    RemoveSpacesIdempotent(text);
  }

  /** A character outside every piece and other than the separator is outside their join. */
  lemma {:induction false} JoinWithAvoids(pieces: seq<NetString>, sep: WChar, c: WChar)
    requires |pieces| >= 1 && c != sep
    requires forall p :: p in pieces ==> c !in p
    ensures c !in JoinWith(pieces, sep)
  {
    if |pieces| > 1 {
      JoinWithAvoids(pieces[1..], sep, c);
    }
  }

  /**
   * Text of the form rgb(...) or rgba(...) without spaces parses as its
   * comma-separated components say, whichever prefix it carries.
   */
  lemma FunctionalForm(env: ColorEnv, prefix: NetString, pieces: seq<NetString>)
    requires prefix == RgbPrefix || prefix == RgbaPrefix
    requires |pieces| >= 1
    requires forall p :: p in pieces ==> Comma !in p && Space !in p
    ensures TryParse(env, prefix + JoinWith(pieces, Comma) + [CloseParen]) == FromComponents(env, pieces)
  {
    var inner := JoinWith(pieces, Comma);
    var t := prefix + inner + [CloseParen];
    JoinWithAvoids(pieces, Comma, Space);
    FunctionalShape(prefix, inner);
    SplitJoin(pieces, Comma);
    FunctionalComponents(env, t);
  }

  /** The shape of a functional colour: recognised, spaces absent, the components where they were put. */
  lemma FunctionalShape(prefix: NetString, inner: NetString)
    requires prefix == RgbPrefix || prefix == RgbaPrefix
    requires Space !in inner
    ensures var t := prefix + inner + [CloseParen];
            Space !in t && IsFunctional(t) && Components(t) == SplitOn(inner, Comma)
  {
    var t := prefix + inner + [CloseParen];
    assert Space !in t by {
      forall i | 0 <= i < |t| ensures t[i] != Space {
        if |prefix| <= i < |t| - 1 {
          assert t[i] == inner[i - |prefix|];
        }
      }
    }
    assert t[..|prefix|] == prefix;
    assert t[3] == prefix[3];
    assert StartsWith(t, RgbPrefix) <==> prefix == RgbPrefix;
    assert t[|prefix|..|t| - 1] == inner;
  }

  /** Functional text without spaces is decided by its components alone. */
  lemma FunctionalComponents(env: ColorEnv, t: NetString)
    requires Space !in t && IsFunctional(t)
    ensures TryParse(env, t) == FromComponents(env, Components(t))
  {
    assert RemoveSpaces(t) == t;
  }

  /**
   * rgb(r,g,b) with three decimal bytes gives that colour with alpha 0, and
   * so does rgba(r,g,b): the prefix does not fix the number of components.
   */
  lemma RgbTriple(env: ColorEnv, prefix: NetString, r: byte, g: byte, b: byte)
    requires prefix == RgbPrefix || prefix == RgbaPrefix
    ensures TryParse(env, prefix + JoinWith([DecimalDigits(r), DecimalDigits(g), DecimalDigits(b)], Comma) + [CloseParen])
            == Some(Color(0, r, g, b))
  {
    FunctionalForm(env, prefix, [DecimalDigits(r), DecimalDigits(g), DecimalDigits(b)]);
    DecimalComponents(env, r, g, b);
  }

  lemma DecimalComponents(env: ColorEnv, r: byte, g: byte, b: byte)
    ensures FromComponents(env, [DecimalDigits(r), DecimalDigits(g), DecimalDigits(b)]) == Some(Color(0, r, g, b))
  {
    ParseByteOfDecimal(r);
    ParseByteOfDecimal(g);
    ParseByteOfDecimal(b);
  }

  /**
   * rgb(r,g,b,a) takes its alpha from the fourth component as well: the
   * colour comes out exactly when the alpha parses.
   */
  lemma RgbWithAlpha(env: ColorEnv, r: byte, g: byte, b: byte, alpha: NetString)
    requires Comma !in alpha && Space !in alpha
    ensures var text := RgbPrefix + JoinWith([DecimalDigits(r), DecimalDigits(g), DecimalDigits(b), alpha], Comma) + [CloseParen];
            TryParse(env, text) == if env.parseAlpha(alpha).Some? then Some(Color(env.parseAlpha(alpha).value, r, g, b)) else None
  {
    var pieces := [DecimalDigits(r), DecimalDigits(g), DecimalDigits(b), alpha];
    FunctionalForm(env, RgbPrefix, pieces);
    ParseByteOfDecimal(r);
    ParseByteOfDecimal(g);
    ParseByteOfDecimal(b);
    assert ParseByte(pieces[0]) == Some(r) && ParseByte(pieces[1]) == Some(g) && ParseByte(pieces[2]) == Some(b);
  }

  /** Anything but three or four components is no colour, even when each is a byte. */
  lemma WrongArity(env: ColorEnv, prefix: NetString, pieces: seq<NetString>)
    requires prefix == RgbPrefix || prefix == RgbaPrefix
    requires |pieces| >= 1 && |pieces| != 3 && |pieces| != 4
    requires forall p :: p in pieces ==> Comma !in p && Space !in p
    ensures TryParse(env, prefix + JoinWith(pieces, Comma) + [CloseParen]) == None
  {
    FunctionalForm(env, prefix, pieces);
  }

  /** Empty text takes the named-colour branch, since every one of its characters is a letter. */
  lemma EmptyTextIsNamed(env: ColorEnv)
    ensures TryParse(env, []) == match env.fromHtml([]) case Ok(color) => Some(color) case Err(_) => None
  {
  }
}
