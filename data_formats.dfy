/**
 * Windows clipboard format identifiers, the conversions the OS synthesizes
 * between them, and the filter that decides which formats of a clipboard
 * snapshot are worth storing.
 */
module DataFormats {
  /** A clipboard format identifier (an unsigned 32-bit value). */
  newtype DataFormat = f: int | 0 <= f < 0x1_0000_0000 {
    static const Text: DataFormat := 1
    static const Bitmap: DataFormat := 2
    static const MetaFilePict: DataFormat := 3
    static const Sylk: DataFormat := 4
    static const Dif: DataFormat := 5
    static const Tiff: DataFormat := 6
    static const OemText: DataFormat := 7
    static const Dib: DataFormat := 8
    static const Palette: DataFormat := 9
    static const PenData: DataFormat := 10
    static const Riff: DataFormat := 11
    static const Wave: DataFormat := 12
    static const UnicodeText: DataFormat := 13
    static const EnhMetaFile: DataFormat := 14
    static const HDrop: DataFormat := 15
    static const Locale: DataFormat := 16
    static const DibV5: DataFormat := 17
    static const ShellIdList: DataFormat := 49382
  }

  /** The kinds of content the application distinguishes. */
  datatype AbstractDataFormat = Unknown | Text | Image | FileDrop

  /** An automatic conversion; equality is component-wise. */
  datatype DataConversion = DataConversion(source: DataFormat, target: DataFormat)

  /** The conversions Windows synthesizes on its own. */
  const DefaultConversions: seq<DataConversion> := [
    DataConversion(DataFormat.Bitmap, DataFormat.Dib),
    DataConversion(DataFormat.Bitmap, DataFormat.DibV5),
    DataConversion(DataFormat.Dib, DataFormat.Bitmap),
    DataConversion(DataFormat.Dib, DataFormat.Palette),
    DataConversion(DataFormat.Dib, DataFormat.DibV5),
    DataConversion(DataFormat.DibV5, DataFormat.Bitmap),
    DataConversion(DataFormat.DibV5, DataFormat.Dib),
    DataConversion(DataFormat.DibV5, DataFormat.Palette),
    DataConversion(DataFormat.EnhMetaFile, DataFormat.MetaFilePict),
    DataConversion(DataFormat.MetaFilePict, DataFormat.EnhMetaFile),
    DataConversion(DataFormat.OemText, DataFormat.Text),
    DataConversion(DataFormat.OemText, DataFormat.UnicodeText),
    DataConversion(DataFormat.Text, DataFormat.OemText),
    DataConversion(DataFormat.Text, DataFormat.UnicodeText),
    DataConversion(DataFormat.UnicodeText, DataFormat.OemText),
    DataConversion(DataFormat.UnicodeText, DataFormat.Text)
  ]

  /**
   * The table lists 16 distinct conversions, none of which converts a
   * format to itself, so no format ever substitutes for itself.
   */
  lemma DefaultConversionsProper(f: DataFormat)
    ensures |DefaultConversions| == 16
    ensures forall k :: 0 <= k < |DefaultConversions| ==> DefaultConversions[k].source != DefaultConversions[k].target
    ensures forall j, k :: 0 <= j < k < |DefaultConversions| ==> DefaultConversions[j] != DefaultConversions[k]
    ensures !Converts(f, f)
  {
  }

  /** Formats that are stored even when another stored format converts to them. */
  const InexpendableFormats: seq<DataFormat> := [DataFormat.Dib, DataFormat.UnicodeText, DataFormat.EnhMetaFile]

  predicate IsInexpendable(f: DataFormat) { f in InexpendableFormats }

  predicate Converts(source: DataFormat, target: DataFormat)
  {
    DataConversion(source, target) in DefaultConversions
  }

  /** Some already-kept format converts to `f`. */
  predicate Substitutable(kept: seq<DataFormat>, f: DataFormat)
  {
    exists k :: 0 <= k < |kept| && Converts(kept[k], f)
  }

  /** Whether the filter keeps `f`, given the formats it has kept so far. */
  predicate Keeps(kept: seq<DataFormat>, f: DataFormat)
  {
    IsInexpendable(f) || !Substitutable(kept, f)
  }

  /** The formats the filter keeps from `source`, in their original order. */
  function Filtered(source: seq<DataFormat>): seq<DataFormat>
  {
    if source == [] then []
    else
      var kept := Filtered(source[..|source| - 1]);
      if Keeps(kept, source[|source| - 1]) then kept + [source[|source| - 1]] else kept
  }

  /** `r` can be obtained from `s` by deleting elements. */
  predicate IsSubsequence(r: seq<DataFormat>, s: seq<DataFormat>)
    decreases |s|
  {
    if r == [] then true
    else if s == [] then false
    else if r[|r| - 1] == s[|s| - 1] then IsSubsequence(r[..|r| - 1], s[..|s| - 1])
    else IsSubsequence(r, s[..|s| - 1])
  }

  /**
   * The formats of a clipboard snapshot worth storing: inexpendable formats
   * always, any other format only when none of the formats kept before it
   * converts to it.
   */
  method FilterInexpendable(source: seq<DataFormat>) returns (result: seq<DataFormat>)
    ensures result == Filtered(source)
    ensures IsSubsequence(result, source)
    ensures forall f :: IsInexpendable(f) ==> multiset(result)[f] == multiset(source)[f]
  {
    result := [];
    for i := 0 to |source|
      invariant result == Filtered(source[..i])
    {
      var format := source[i];
      assert source[..i + 1][..i] == source[..i];
      if format in InexpendableFormats {
        result := result + [format];
      } else if !(exists k :: 0 <= k < |result| && Converts(result[k], format)) {
        result := result + [format];
      }
    }
    assert source[..|source|] == source;
    FilteredIsSubsequence(source);
    forall f | IsInexpendable(f) ensures multiset(result)[f] == multiset(source)[f] {
      FilteredKeepsEveryCopy(source, f);
    }
  }

  lemma {:induction false} SubsequenceExtend(r: seq<DataFormat>, s: seq<DataFormat>, x: DataFormat)
    requires IsSubsequence(r, s)
    ensures IsSubsequence(r, s + [x])
    decreases |s|, 1
  {
    assert (s + [x])[..|s|] == s;
    if r != [] && r[|r| - 1] == x {
      SubsequenceDropLast(r, s);
    }
  }

  lemma {:induction false} SubsequenceDropLast(r: seq<DataFormat>, s: seq<DataFormat>)
    requires r != [] && IsSubsequence(r, s)
    ensures IsSubsequence(r[..|r| - 1], s)
    decreases |s|, 0
  {
    var s' := s[..|s| - 1];
    assert s' + [s[|s| - 1]] == s;
    if r[|r| - 1] == s[|s| - 1] {
      SubsequenceExtend(r[..|r| - 1], s', s[|s| - 1]);
    } else {
      SubsequenceDropLast(r, s');
      SubsequenceExtend(r[..|r| - 1], s', s[|s| - 1]);
    }
  }

  /** The filter only deletes formats; it never reorders or invents them. */
  lemma {:induction false} FilteredIsSubsequence(s: seq<DataFormat>)
    ensures IsSubsequence(Filtered(s), s)
  {
    if s != [] {
      var p := s[..|s| - 1];
      assert p + [s[|s| - 1]] == s;
      FilteredIsSubsequence(p);
      var kept := Filtered(p);
      if Keeps(kept, s[|s| - 1]) {
        assert (kept + [s[|s| - 1]])[..|kept|] == kept;
      } else {
        SubsequenceExtend(kept, p, s[|s| - 1]);
      }
    }
  }

  /**
   * A format that is inexpendable, or that no conversion produces (HDrop,
   * for instance), keeps every one of its occurrences.
   */
  lemma {:induction false} FilteredKeepsEveryCopy(s: seq<DataFormat>, f: DataFormat)
    requires IsInexpendable(f) || forall k :: 0 <= k < |DefaultConversions| ==> DefaultConversions[k].target != f
    ensures multiset(Filtered(s))[f] == multiset(s)[f]
  {
    if s != [] {
      var p := s[..|s| - 1];
      assert p + [s[|s| - 1]] == s;
      FilteredKeepsEveryCopy(p, f);
    }
  }

  /** HDrop has no synthesized source, so file lists are never dropped. */
  lemma HDropNeverDropped(s: seq<DataFormat>)
    ensures multiset(Filtered(s))[DataFormat.HDrop] == multiset(s)[DataFormat.HDrop]
  {
    FilteredKeepsEveryCopy(s, DataFormat.HDrop);
  }

  /** Filtering a longer snapshot only appends to what was kept for its prefix. */
  lemma {:induction false} FilteredPrefix(s: seq<DataFormat>, i: nat)
    requires i <= |s|
    ensures |Filtered(s[..i])| <= |Filtered(s)|
    ensures Filtered(s[..i]) == Filtered(s)[..|Filtered(s[..i])|]
    decreases |s| - i
  {
    if i < |s| {
      var p := s[..|s| - 1];
      assert p[..i] == s[..i];
      FilteredPrefix(p, i);
    } else {
      assert s[..i] == s;
    }
  }

  /**
   * Coverage: every format of the snapshot is either kept or can be
   * regenerated by Windows from a kept format.
   */
  lemma {:induction false} FilteredCovers(s: seq<DataFormat>, i: nat)
    requires i < |s|
    ensures s[i] in Filtered(s) || Substitutable(Filtered(s), s[i])
    decreases |s|
  {
    var p := s[..|s| - 1];
    assert p + [s[|s| - 1]] == s;
    var kept := Filtered(p);
    assert kept == Filtered(s)[..|kept|] by { FilteredPrefix(s, |s| - 1); }
    if i < |s| - 1 {
      FilteredCovers(p, i);
      assert p[i] == s[i];
      if s[i] in kept {
        assert s[i] in Filtered(s);
      } else {
        var k :| 0 <= k < |kept| && Converts(kept[k], s[i]);
        assert Filtered(s)[k] == kept[k];
      }
    } else if !Keeps(kept, s[i]) {
      var k :| 0 <= k < |kept| && Converts(kept[k], s[i]);
      assert Filtered(s)[k] == kept[k];
    }
  }

  /**
   * Minimality: no kept format other than an inexpendable one can be
   * regenerated from a format kept before it.
   */
  lemma {:induction false} FilteredHasNoEarlierSource(s: seq<DataFormat>, i: nat, j: nat)
    requires i < j < |Filtered(s)|
    requires !IsInexpendable(Filtered(s)[j])
    ensures !Converts(Filtered(s)[i], Filtered(s)[j])
  {
    var p := s[..|s| - 1];
    var kept := Filtered(p);
    if j < |kept| {
      FilteredHasNoEarlierSource(p, i, j);
    } else {
      assert Filtered(s) == kept + [s[|s| - 1]];
      assert Filtered(s)[i] == kept[i];
    }
  }

  /** Filtering an already filtered list changes nothing. */
  lemma {:induction false} FilteredIdempotent(s: seq<DataFormat>)
    ensures Filtered(Filtered(s)) == Filtered(s)
  {
    if s != [] {
      var p := s[..|s| - 1];
      var kept := Filtered(p);
      FilteredIdempotent(p);
      if Keeps(kept, s[|s| - 1]) {
        assert (kept + [s[|s| - 1]])[..|kept|] == kept;
      }
    }
  }

  /** The outcome depends on the order in which the source lists its formats. */
  lemma FilterDependsOnOrder()
    ensures Filtered([DataFormat.Bitmap, DataFormat.Dib]) == [DataFormat.Bitmap, DataFormat.Dib]
    ensures Filtered([DataFormat.Dib, DataFormat.Bitmap]) == [DataFormat.Dib]
    ensures Filtered([DataFormat.Bitmap, DataFormat.Dib, DataFormat.UnicodeText, DataFormat.OemText])
         == [DataFormat.Bitmap, DataFormat.Dib, DataFormat.UnicodeText]
  {
    var a := [DataFormat.Bitmap, DataFormat.Dib];
    assert a[..1] == [DataFormat.Bitmap];
    assert Filtered([DataFormat.Bitmap]) == [DataFormat.Bitmap];
    var b := [DataFormat.Dib, DataFormat.Bitmap];
    assert b[..1] == [DataFormat.Dib];
    assert Filtered([DataFormat.Dib]) == [DataFormat.Dib];
    assert Converts(DataFormat.Dib, DataFormat.Bitmap);
    var c := [DataFormat.Bitmap, DataFormat.Dib, DataFormat.UnicodeText, DataFormat.OemText];
    assert c[..3][..2] == a;
    assert c[..3] == a + [DataFormat.UnicodeText];
    assert Filtered(c[..3]) == [DataFormat.Bitmap, DataFormat.Dib, DataFormat.UnicodeText];
    assert Converts(DataFormat.UnicodeText, DataFormat.OemText);
    assert Filtered(c)[2] == DataFormat.UnicodeText;
  }
}
