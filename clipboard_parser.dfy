/**
 * Classifying clipboard items, choosing the one that best represents a
 * snapshot, comparing snapshots cheaply, and decoding item data as text,
 * bitmap or file list.
 */
module ClipboardParser {
  import opened Wrappers
  import opened Encodings
  import opened DataFormats
  import opened BlockCompression
  import opened ClipboardItems
  import opened ClipboardStates
  import DIBitmap

  /** Formats treated as text (OemText is left to the OS's conversion to UnicodeText). */
  const TextFormats: seq<DataFormat> := [DataFormat.Text, DataFormat.UnicodeText]
  /** Formats treated as images (Bitmap, DibV5 and Tiff are left to the OS's conversion to Dib). */
  const ImageFormats: seq<DataFormat> := [DataFormat.Dib]
  /** Formats treated as file lists (ShellIdList is not supported). */
  const FileDropFormats: seq<DataFormat> := [DataFormat.HDrop]
  /** The formats that can represent a snapshot, best first. */
  const FormatsByPreference: seq<DataFormat> := [DataFormat.Dib, DataFormat.HDrop, DataFormat.UnicodeText, DataFormat.Text]

  /** The kind of content a format holds, looked up in the three tables in turn. */
  function GetAbstractFormat(f: DataFormat): (r: AbstractDataFormat)
    ensures r == Image <==> f == DataFormat.Dib
    ensures r == FileDrop <==> f == DataFormat.HDrop
    ensures r == AbstractDataFormat.Text <==> f == DataFormat.Text || f == DataFormat.UnicodeText
    ensures r == Unknown <==> f !in {DataFormat.Dib, DataFormat.HDrop, DataFormat.Text, DataFormat.UnicodeText}
  {
    if f in ImageFormats then Image
    else if f in FileDropFormats then FileDrop
    else if f in TextFormats then AbstractDataFormat.Text
    else Unknown
  }

  /**
   * CanParse: the item's format is one the parser of `kind` reads: DIB for
   * images, HDROP for file lists, either text format for text, and any
   * other format for Unknown.
   */
  function CanParse(item: ClipboardItem, kind: AbstractDataFormat): (r: bool)
    ensures kind == Image ==> (r <==> item.format == DataFormat.Dib)
    ensures kind == FileDrop ==> (r <==> item.format == DataFormat.HDrop)
    ensures kind == AbstractDataFormat.Text ==> (r <==> item.format in {DataFormat.Text, DataFormat.UnicodeText})
    ensures kind == Unknown ==> (r <==> item.format !in {DataFormat.Dib, DataFormat.HDrop, DataFormat.Text, DataFormat.UnicodeText})
  {
    GetAbstractFormat(item.format) == kind
  }

  /** Only images and text can be sent to other machines. */
  predicate CanSerialize(kind: AbstractDataFormat)
  {
    kind == Image || kind == AbstractDataFormat.Text
  }

  /** The formats whose items can be sent to another machine. */
  lemma SerializableFormats(f: DataFormat)
    ensures CanSerialize(GetAbstractFormat(f)) <==> f in {DataFormat.Dib, DataFormat.Text, DataFormat.UnicodeText}
  {
  }

  /** Array.IndexOf: the first position of `f`, or -1. */
  function IndexIn(s: seq<DataFormat>, f: DataFormat): (r: int)
    ensures r == -1 <==> f !in s
    ensures r != -1 ==> 0 <= r < |s| && s[r] == f && f !in s[..r]
  {
    if s == [] then -1
    else if s[0] == f then 0
    else
      var k := IndexIn(s[1..], f);
      if k == -1 then -1 else k + 1
  }

  /** How well a format represents a snapshot: 4 for the best, 0 when it is not ranked. */
  function GetFormatPreference(f: DataFormat): (r: nat)
    ensures r == if f == DataFormat.Dib then 4
                 else if f == DataFormat.HDrop then 3
                 else if f == DataFormat.UnicodeText then 2
                 else if f == DataFormat.Text then 1
                 else 0
  {
    var index := IndexIn(FormatsByPreference, f);
    if index == -1 then 0 else |FormatsByPreference| - index
  }

  /** Whether an item takes part in the choice: with `serializable`, only items that can be sent. */
  predicate Eligible(x: ClipboardItem, serializable: bool)
  {
    !serializable || CanSerialize(GetAbstractFormat(x.format))
  }

  function Rank(x: ClipboardItem): nat { GetFormatPreference(x.format) }

  /**
   * Position `k` holds an eligible item of the highest rank, and no
   * eligible item before it has that rank.
   */
  predicate IsPreferredIndex(items: seq<ClipboardItem>, serializable: bool, k: nat)
  {
    && k < |items| && Eligible(items[k], serializable)
    && (forall j :: 0 <= j < |items| && Eligible(items[j], serializable) ==> Rank(items[j]) <= Rank(items[k]))
    && (forall j :: 0 <= j < k && Eligible(items[j], serializable) ==> Rank(items[j]) < Rank(items[k]))
  }

  /** The position a stable descending sort by rank brings to the front. */
  function PreferredIndex(items: seq<ClipboardItem>, serializable: bool): (r: Option<nat>)
    ensures r.Some? ==> r.value < |items|
  {
    if items == [] then None
    else
      var rest := PreferredIndex(items[1..], serializable);
      if !Eligible(items[0], serializable) then
        match rest
        case None => None
        case Some(k) => Some(k + 1)
      else
        match rest
        case None => Some(0)
        case Some(k) => if Rank(items[k + 1]) > Rank(items[0]) then Some(k + 1) else Some(0)
  }

  /** No position when nothing is eligible, otherwise the earliest eligible position of the highest rank. */
  lemma {:induction false} PreferredIndexSpec(items: seq<ClipboardItem>, serializable: bool)
    ensures PreferredIndex(items, serializable).None? <==> forall j :: 0 <= j < |items| ==> !Eligible(items[j], serializable)
    ensures PreferredIndex(items, serializable).Some? ==> IsPreferredIndex(items, serializable, PreferredIndex(items, serializable).value)
  {
    if items != [] {
      var tail := items[1..];
      PreferredIndexSpec(tail, serializable);
      assert forall j :: 1 <= j < |items| ==> items[j] == tail[j - 1];
      match PreferredIndex(tail, serializable) {
        case None =>
        case Some(k) =>
          if !Eligible(items[0], serializable) || Rank(tail[k]) > Rank(items[0]) {
            PreferredFromTail(items, serializable, k);
          } else {
            PreferredAtHead(items, serializable, k);
          }
      }
    }
  }

  lemma PreferredFromTail(items: seq<ClipboardItem>, serializable: bool, k: nat)
    requires |items| >= 1 && IsPreferredIndex(items[1..], serializable, k)
    requires !Eligible(items[0], serializable) || Rank(items[1..][k]) > Rank(items[0])
    ensures IsPreferredIndex(items, serializable, k + 1)
  {
    var tail := items[1..];
    forall j | 0 <= j < |items| && Eligible(items[j], serializable) ensures Rank(items[j]) <= Rank(items[k + 1]) {
      if j > 0 { assert items[j] == tail[j - 1]; }
    }
    forall j | 0 <= j < k + 1 && Eligible(items[j], serializable) ensures Rank(items[j]) < Rank(items[k + 1]) {
      if j > 0 { assert items[j] == tail[j - 1]; }
    }
  }

  lemma PreferredAtHead(items: seq<ClipboardItem>, serializable: bool, k: nat)
    requires |items| >= 1 && IsPreferredIndex(items[1..], serializable, k)
    requires Eligible(items[0], serializable) && Rank(items[1..][k]) <= Rank(items[0])
    ensures IsPreferredIndex(items, serializable, 0)
  {
    var tail := items[1..];
    forall j | 0 <= j < |items| && Eligible(items[j], serializable) ensures Rank(items[j]) <= Rank(items[0]) {
      if j > 0 { assert items[j] == tail[j - 1]; }
    }
  }

  /**
   * GetPreferredItem: nothing when no item is eligible, otherwise an
   * eligible item of the highest rank, the earliest among equals.
   */
  function GetPreferredItem(items: seq<ClipboardItem>, serializable: bool): (r: Option<ClipboardItem>)
    ensures r.None? <==> forall j :: 0 <= j < |items| ==> !Eligible(items[j], serializable)
    ensures r.Some? ==> exists k: nat :: IsPreferredIndex(items, serializable, k) && r.value == items[k]
  {
    PreferredIndexSpec(items, serializable);
    match PreferredIndex(items, serializable)
    case None => None
    case Some(k) => Some(items[k])
  }

  /** A serializable choice is never a file list. */
  lemma PreferredSerializableIsImageOrText(items: seq<ClipboardItem>)
    ensures GetPreferredItem(items, true).Some? ==>
              GetPreferredItem(items, true).value.format in {DataFormat.Dib, DataFormat.Text, DataFormat.UnicodeText}
  {
  }

  /** The preferred item is the first item of its format. */
  lemma {:induction false} PreferredIsFirstOfFormat(items: seq<ClipboardItem>, serializable: bool, k: nat)
    requires IsPreferredIndex(items, serializable, k)
    ensures FirstIndexWithFormat(items, items[k].format) == Some(k)
  {
    var i := FirstIndexWithFormat(items, items[k].format).value;
    assert Rank(items[i]) == Rank(items[k]);
  }

  /**
   * WeakEquals: an empty snapshot equals only an empty one; otherwise the
   * preferred serializable item of `a` must equal the first item of `b` in
   * its format; without such an item, the counts must agree and every
   * item of `a` must equal some item of `b`.
   */
  function WeakEquals(c: Codec, a: ClipboardState, b: ClipboardState): (r: bool)
    ensures a.items == [] ==> (r <==> b.items == [])
    ensures r && a.items != [] ==>
              exists i, j :: 0 <= i < |a.items| && 0 <= j < |b.items| && ItemEquals(c, a.items[i], b.items[j])
  {
    if |a.items| == 0 then |b.items| == 0
    else match GetPreferredItem(a.items, true)
      case Some(x) =>
        if MatchedIn(c, x, b.items) then
          MatchedHasPartner(c, x, b.items);
          true
        else false
      case None =>
        |a.items| == |b.items|
        && forall i :: 0 <= i < |a.items| ==> exists j :: 0 <= j < |b.items| && ItemEquals(c, a.items[i], b.items[j])
  }

  /** Every snapshot weakly equals itself, even one holding two items of a format. */
  lemma WeakEqualsReflexive(c: Codec, s: ClipboardState)
    ensures WeakEquals(c, s, s)
  {
    if |s.items| != 0 {
      PreferredIndexSpec(s.items, true);
      match PreferredIndex(s.items, true) {
        case Some(k) =>
          PreferredIsFirstOfFormat(s.items, true, k);
          ItemEqualsReflexive(c, s.items[k]);
        case None =>
          forall i | 0 <= i < |s.items|
            ensures exists j :: 0 <= j < |s.items| && ItemEquals(c, s.items[i], s.items[j])
          {
            ItemEqualsReflexive(c, s.items[i]);
          }
      }
    }
  }

  /** Weak equality is implied by full equality. */
  lemma StateEqualsImpliesWeakEquals(c: Codec, a: ClipboardState, b: ClipboardState)
    requires StateEquals(c, a, b)
    ensures WeakEquals(c, a, b)
  {
    if |a.items| != 0 {
      PreferredIndexSpec(a.items, true);
      match PreferredIndex(a.items, true) {
        case Some(k) =>
          assert MatchedIn(c, a.items[k], b.items);
        case None =>
          forall i | 0 <= i < |a.items|
            ensures exists j :: 0 <= j < |b.items| && ItemEquals(c, a.items[i], b.items[j])
          {
            assert MatchedIn(c, a.items[i], b.items);
            var j := FirstIndexWithFormat(b.items, a.items[i].format).value;
            assert ItemEquals(c, a.items[i], b.items[j]);
          }
      }
    }
  }

  /** Snapshots that differ outside their preferred item can still be weakly equal. */
  lemma WeakEqualsLooksAtPreferredOnly(c: Codec)
    ensures var a := ClipboardState(0, 0, [ClipboardItem(DataFormat.UnicodeText, [0x41, 0], 2, false),
                                          ClipboardItem(DataFormat.Locale, [9], 1, false)]);
            var b := ClipboardState(1, 1, [ClipboardItem(DataFormat.UnicodeText, [0x41, 0], 2, false)]);
            WeakEquals(c, a, b) && !StateEquals(c, a, b)
  {
    var a := ClipboardState(0, 0, [ClipboardItem(DataFormat.UnicodeText, [0x41, 0], 2, false),
                                  ClipboardItem(DataFormat.Locale, [9], 1, false)]);
    var b := ClipboardState(1, 1, [ClipboardItem(DataFormat.UnicodeText, [0x41, 0], 2, false)]);
    var tail := a.items[1..];
    assert tail[1..] == [];
    assert PreferredIndex(tail, true) == None;
    assert PreferredIndex(a.items, true) == Some(0);
    assert FirstIndexWithFormat(b.items, DataFormat.UnicodeText) == Some(0);
  }

  // Zero-terminated strings

  /** Number of bytes before the first zero byte (all of them when there is none). */
  function ZLength(bytes: seq<byte>): (n: nat)
    ensures n <= |bytes|
    ensures n < |bytes| ==> bytes[n] == 0
    ensures forall i :: 0 <= i < n ==> bytes[i] != 0
  {
    if bytes == [] || bytes[0] == 0 then 0 else 1 + ZLength(bytes[1..])
  }

  /** The text of a possibly zero-terminated ANSI buffer. */
  function AnsiText(bytes: seq<byte>): NetString
  {
    AsciiDecode(bytes[..ZLength(bytes)])
  }

  /** ParseStringAZ: scans for the terminator and decodes what precedes it as ASCII. */
  method ParseStringAZ(bytes: seq<byte>) returns (s: NetString)
    ensures s == AnsiText(bytes)
  {
    var length := 0;
    while length < |bytes| && bytes[length] != 0
      invariant length <= |bytes|
      invariant forall i :: 0 <= i < length ==> bytes[i] != 0
    {
      length := length + 1;
    }
    s := AsciiDecode(bytes[..length]);
  }

  /**
   * Number of bytes before the first zero code unit at an even offset;
   * an odd trailing byte is never counted.
   */
  function WZLength(bytes: seq<byte>): (n: nat)
    ensures n % 2 == 0 && n <= |bytes|
    ensures n + 1 < |bytes| ==> bytes[n] == 0 && bytes[n + 1] == 0
    ensures forall i :: 0 <= i < n && i % 2 == 0 ==> bytes[i] != 0 || bytes[i + 1] != 0
  {
    if |bytes| < 2 || (bytes[0] == 0 && bytes[1] == 0) then 0
    else
      var rest := WZLength(bytes[2..]);
      2 + rest
  }

  /** The text of a possibly zero-terminated UTF-16LE buffer. */
  function UnicodeText(bytes: seq<byte>): NetString
  {
    Utf16Decode(bytes[..WZLength(bytes)])
  }

  /** ParseStringWZ: scans two bytes at a time for a zero code unit and decodes what precedes it. */
  method ParseStringWZ(bytes: seq<byte>) returns (s: NetString)
    ensures s == UnicodeText(bytes)
  {
    var length := 0;
    while length < |bytes| - 1 && (bytes[length] != 0 || bytes[length + 1] != 0)
      invariant length % 2 == 0 && length <= |bytes|
      invariant forall i :: 0 <= i < length && i % 2 == 0 ==> bytes[i] != 0 || bytes[i + 1] != 0
    {
      length := length + 2;
    }
    WZLengthUnique(bytes, length);
    s := Utf16Decode(bytes[..length]);
  }

  /** The scan length is determined by where the first zero code unit sits. */
  lemma WZLengthUnique(bytes: seq<byte>, n: nat)
    requires n % 2 == 0 && n <= |bytes|
    requires n + 1 < |bytes| ==> bytes[n] == 0 && bytes[n + 1] == 0
    requires forall i :: 0 <= i < n && i % 2 == 0 ==> bytes[i] != 0 || bytes[i + 1] != 0
    ensures WZLength(bytes) == n
  {
  }

  /** ASCII text followed by a terminator reads back unchanged. */
  lemma AnsiTextOfTerminated(text: seq<byte>, rest: seq<byte>)
    requires forall i :: 0 <= i < |text| ==> 0 < text[i] < 0x80
    ensures AnsiText(text + [0] + rest) == text
  {
    var b := text + [0] + rest;
    assert b[|text|] == 0;
    assert forall i :: 0 <= i < |text| ==> b[i] == text[i];
    assert b[..|text|] == text;
  }

  /** The UTF-16LE encoding of text without NUL has no zero code unit. */
  lemma EncodingHasNoZeroUnit(text: seq<WChar>)
    requires Nul !in text
    ensures forall i :: 0 <= i < |Utf16Encode(text)| && i % 2 == 0 ==> Utf16Encode(text)[i] != 0 || Utf16Encode(text)[i + 1] != 0
  {
    var e := Utf16Encode(text);
    CodeUnitsOfEncode(text);
    forall i | 0 <= i < |e| && i % 2 == 0 ensures e[i] != 0 || e[i + 1] != 0 {
      var k := i / 2;
      assert 2 * k == i;
      assert CodeUnits(e)[k] == text[k];
    }
  }

  /** Surrogate-free text without NUL, followed by a zero code unit, reads back unchanged. */
  lemma UnicodeTextOfTerminated(text: seq<WChar>, rest: seq<byte>)
    requires NoSurrogates(text) && Nul !in text
    ensures UnicodeText(Utf16Encode(text) + [0, 0] + rest) == text
  {
    var e := Utf16Encode(text);
    var b := e + [0, 0] + rest;
    EncodingHasNoZeroUnit(text);
    assert |e| % 2 == 0;
    forall i | 0 <= i < |e| && i % 2 == 0 ensures b[i] != 0 || b[i + 1] != 0 {
      assert b[i] == e[i] && b[i + 1] == e[i + 1];
      assert e[i] != 0 || e[i + 1] != 0;
    }
    assert b[|e|] == 0 && b[|e| + 1] == 0;
    WZLengthUnique(b, |e|);
    assert b[..|e|] == e;
    Utf16RoundTrip(text);
  }

  // Decoders of whole items

  /** What ParseText returns for an item. */
  function TextOf(c: Codec, item: ClipboardItem): (r: Result<NetString>)
    ensures r.Err? <==> !CanParse(item, AbstractDataFormat.Text)
    ensures r.Err? ==> r.error == Argument
  {
    if !CanParse(item, AbstractDataFormat.Text) then Err(Argument)
    else if item.format == DataFormat.Text then Ok(AnsiText(LogicalBytes(c, item)))
    else Ok(UnicodeText(LogicalBytes(c, item)))
  }

  /** Size of the DROPFILES header in front of the file names. */
  const DropFilesHeaderSize := 18

  /** The file names of an HDROP block: NUL-separated UTF-16LE after the header, empty names dropped. */
  function FileNames(bytes: seq<byte>): (r: Result<seq<NetString>>)
    ensures r.Err? <==> |bytes| < DropFilesHeaderSize
    ensures r.Err? ==> r.error == ArgumentOutOfRange
    ensures r.Ok? ==> forall name :: name in r.value ==> name != [] && Nul !in name
  {
    if |bytes| < DropFilesHeaderSize then Err(ArgumentOutOfRange)
    else Ok(NonEmpty(SplitOn(Utf16Decode(bytes[DropFilesHeaderSize..]), Nul)))
  }

  /** What ParseFileDrop returns for an item. */
  function FileDropOf(c: Codec, item: ClipboardItem): (r: Result<seq<NetString>>)
    ensures !CanParse(item, FileDrop) ==> r == Err(Argument)
  {
    if !CanParse(item, FileDrop) then Err(Argument)
    else FileNames(LogicalBytes(c, item))
  }

  /** What ParseImage hands to the image decoder for an item. */
  function ImageOf(c: Codec, item: ClipboardItem): (r: Result<seq<byte>>)
    ensures !CanParse(item, Image) ==> r == Err(Argument)
  {
    if !CanParse(item, Image) then Err(Argument)
    else DIBitmap.BitmapFileBytes(LogicalBytes(c, item))
  }

  /** ParseText: the item's data as text; only text formats are accepted. */
  method ParseText(item: ItemObject) returns (r: Result<NetString>)
    requires item.Valid()
    modifies item
    ensures item.Valid()
    ensures r == TextOf(item.codec, item.item)
    ensures item.inflatedCache == if r.Ok? && item.item.isDeflated then Some(LogicalBytes(item.codec, item.item))
                                  else old(item.inflatedCache)
  {
    if !CanParse(item.item, AbstractDataFormat.Text) {
      return Err(Argument);
    }
    var data := item.GetDataBuffer();
    var text;
    if item.item.format == DataFormat.Text {
      text := ParseStringAZ(data);
    } else {
      text := ParseStringWZ(data);
    }
    return Ok(text);
  }

  /** ParseImage: the .bmp file built from a Dib item. */
  method ParseImage(item: ItemObject) returns (r: Result<seq<byte>>)
    requires item.Valid()
    modifies item
    ensures item.Valid()
    ensures r == ImageOf(item.codec, item.item)
    ensures item.inflatedCache == if CanParse(item.item, Image) && item.item.isDeflated then Some(LogicalBytes(item.codec, item.item))
                                  else old(item.inflatedCache)
  {
    if !CanParse(item.item, Image) {
      return Err(Argument);
    }
    var data := item.GetDataBuffer();
    return DIBitmap.BitmapFileBytes(data);
  }

  /** ParseFileDrop: the file names of an HDrop item. */
  method ParseFileDrop(item: ItemObject) returns (r: Result<seq<NetString>>)
    requires item.Valid()
    modifies item
    ensures item.Valid()
    ensures r == FileDropOf(item.codec, item.item)
    ensures item.inflatedCache == if CanParse(item.item, FileDrop) && item.item.isDeflated then Some(LogicalBytes(item.codec, item.item))
                                  else old(item.inflatedCache)
  {
    if !CanParse(item.item, FileDrop) {
      return Err(Argument);
    }
    var data := item.GetDataBuffer();
    return FileNames(data);
  }

  lemma {:induction false} JoinAppend(pieces: seq<NetString>, last: NetString, sep: WChar)
    requires |pieces| >= 1
    ensures JoinWith(pieces + [last], sep) == JoinWith(pieces, sep) + [sep] + last
  {
    if |pieces| > 1 {
      assert (pieces + [last])[1..] == pieces[1..] + [last];
      JoinAppend(pieces[1..], last, sep);
    }
  }

  lemma JoinedWithEmpties(pieces: seq<NetString>, sep: WChar)
    requires |pieces| >= 1
    ensures JoinWith(pieces + [[], []], sep) == JoinWith(pieces, sep) + [sep, sep]
  {
    JoinAppend(pieces, [], sep);
    JoinAppend(pieces + [[]], [], sep);
    assert pieces + [[]] + [[]] == pieces + [[], []];
  }

  lemma {:induction false} NonEmptyDropsEmpties(pieces: seq<NetString>)
    requires forall p :: p in pieces ==> p != []
    ensures NonEmpty(pieces + [[], []]) == pieces
  {
    if pieces == [] {
      var e: seq<NetString> := [[], []];
      assert pieces + [[], []] == e;
      assert NonEmpty(e) == NonEmpty(e[1..]);
      var e1 := e[1..];
      assert e1[1..] == [];
      assert NonEmpty(e1) == NonEmpty(e1[1..]);
    } else {
      assert (pieces + [[], []])[1..] == pieces[1..] + [[], []];
      assert forall p :: p in pieces[1..] ==> p in pieces;
      assert pieces[0] in pieces;
      NonEmptyDropsEmpties(pieces[1..]);
      assert [pieces[0]] + pieces[1..] == pieces;
    }
  }

  lemma {:induction false} JoinHasNoSurrogates(pieces: seq<NetString>, sep: WChar)
    requires |pieces| >= 1 && !IsHighSurrogate(sep) && !IsLowSurrogate(sep)
    requires forall p :: p in pieces ==> NoSurrogates(p)
    ensures NoSurrogates(JoinWith(pieces, sep))
  {
    if |pieces| > 1 {
      assert forall p :: p in pieces[1..] ==> p in pieces;
      JoinHasNoSurrogates(pieces[1..], sep);
      assert pieces[0] in pieces;
      assert JoinWith(pieces, sep) == pieces[0] + [sep] + JoinWith(pieces[1..], sep);
      NoSurrogatesConcat(pieces[0], [sep]);
      NoSurrogatesConcat(pieces[0] + [sep], JoinWith(pieces[1..], sep));
    } else {
      assert pieces[0] in pieces;
    }
  }

  lemma NoSurrogatesConcat(a: seq<WChar>, b: seq<WChar>)
    requires NoSurrogates(a) && NoSurrogates(b)
    ensures NoSurrogates(a + b)
  {
    forall i | 0 <= i < |a + b| ensures !IsHighSurrogate((a + b)[i]) && !IsLowSurrogate((a + b)[i]) {
      if i >= |a| {
        assert (a + b)[i] == b[i - |a|];
      }
    }
  }

  lemma BlockDecodes(names: seq<NetString>)
    requires |names| >= 1
    requires forall name :: name in names ==> NoSurrogates(name)
    ensures Utf16Decode(Utf16Encode(JoinWith(names, Nul) + [Nul, Nul])) == JoinWith(names, Nul) + [Nul, Nul]
  {
    var joined := JoinWith(names, Nul);
    assert NoSurrogates(joined) by {
      JoinHasNoSurrogates(names, Nul);
    }
    var terminator: seq<WChar> := [Nul, Nul];
    assert NoSurrogates(terminator);
    RoundTripConcat(joined, terminator);
  }

  lemma RoundTripConcat(a: seq<WChar>, b: seq<WChar>)
    requires NoSurrogates(a) && NoSurrogates(b)
    ensures Utf16Decode(Utf16Encode(a + b)) == a + b
  {
    NoSurrogatesConcat(a, b);
    Utf16RoundTrip(a + b);
  }

  /**
   * The names in an HDROP block, each followed by NUL and the list by one
   * more NUL, are read back exactly.
   */
  lemma FileNamesRoundTrip(header: seq<byte>, names: seq<NetString>)
    requires |header| == DropFilesHeaderSize && |names| >= 1
    requires forall name :: name in names ==> name != [] && Nul !in name && NoSurrogates(name)
    ensures FileNames(header + Utf16Encode(JoinWith(names, Nul) + [Nul, Nul])) == Ok(names)
  {
    var block := JoinWith(names, Nul) + [Nul, Nul];
    var bytes := header + Utf16Encode(block);
    assert bytes[DropFilesHeaderSize..] == Utf16Encode(block);
    BlockDecodes(names);
    var padded := names + [[], []];
    JoinedWithEmpties(names, Nul);
    assert forall p :: p in padded ==> Nul !in p;
    SplitJoin(padded, Nul);
    NonEmptyDropsEmpties(names);
  }

  // Pattern search

  /** `pattern` occurs in `buffer` at position `i`. */
  predicate MatchAt(buffer: seq<byte>, pattern: seq<byte>, i: nat)
  {
    i + |pattern| <= |buffer| && buffer[i..i + |pattern|] == pattern
  }

  /**
   * IndexOf: the first position where `pattern` occurs, or -1. An empty
   * pattern makes the first comparison index outside an array.
   */
  method IndexOf(buffer: seq<byte>, pattern: seq<byte>) returns (r: Result<int>)
    ensures r.Err? <==> pattern == []
    ensures r.Err? ==> r.error == IndexOutOfRange
    ensures r.Ok? ==> -1 <= r.value
    ensures r.Ok? && r.value == -1 ==> forall i: nat :: !MatchAt(buffer, pattern, i)
    ensures r.Ok? && r.value >= 0 ==> MatchAt(buffer, pattern, r.value)
                                      && forall i :: 0 <= i < r.value ==> !MatchAt(buffer, pattern, i)
  {
    if pattern == [] {
      return Err(IndexOutOfRange);
    }
    var n := |buffer| - |pattern| + 1;
    var i: nat := 0;
    while i < n
      invariant 0 <= i && (n >= 0 ==> i <= n)
      invariant forall k :: 0 <= k < i ==> !MatchAt(buffer, pattern, k)
    {
      if buffer[i] == pattern[0] {
        var isMatch := true;
        var j := 1;
        while j < |pattern|
          invariant 1 <= j <= |pattern|
          invariant isMatch ==> forall t :: 0 <= t < j ==> buffer[i + t] == pattern[t]
          invariant !isMatch ==> !MatchAt(buffer, pattern, i)
        {
          if buffer[i + j] != pattern[j] {
            assert buffer[i..i + |pattern|][j] == buffer[i + j];
            isMatch := false;
            break;
          }
          j := j + 1;
        }
        if isMatch {
          assert buffer[i..i + |pattern|] == pattern;
          return Ok(i);
        }
      } else {
        assert buffer[i..i + |pattern|][0] == buffer[i];
      }
      i := i + 1;
    }
    return Ok(-1);
  }
}
