/**
 * The main window's history: trimming the list of local snapshots to the
 * user's maximum, inserting a new snapshot with its view, marking the
 * current view, deleting an entry, and choosing how a snapshot is shown.
 */
module MainWindow {
  import opened Wrappers
  import opened Encodings
  import opened DataFormats
  import opened BlockCompression
  import opened ClipboardItems
  import opened ClipboardStates
  import opened ClipboardParser
  import opened ColorParser

  // ---------------------------------------------------------------------
  // Text as the history shows it
  // ---------------------------------------------------------------------

  /** White space the display normalises to one space: everything but CR and LF. */
  predicate Blank(c: WChar)
  {
    IsWhiteSpace(c) && c != CarriageReturn && c != LineFeed
  }

  /** text.Replace("\t", "  "). */
  function ExpandTabs(s: NetString): (r: NetString)
    ensures Tab !in r
    ensures Count(r, LineFeed) == Count(s, LineFeed)
  {
    if s == [] then []
    else
      var head: NetString := if s[0] == Tab then [Space, Space] else [s[0]];
      var rest := ExpandTabs(s[1..]);
      CountAppend(head, rest, LineFeed);
      head + rest
  }

  /** The replacement of every match of [^\S\r\n] by a space. */
  function BlanksToSpaces(s: NetString): (r: NetString)
    ensures |r| == |s|
    ensures forall i :: 0 <= i < |s| ==> (r[i] == LineFeed <==> s[i] == LineFeed)
    ensures forall i :: 0 <= i < |s| ==> r[i] == Space || !Blank(r[i])
    ensures forall i :: 0 <= i < |s| && Blank(s[i]) ==> r[i] == Space
    ensures forall i :: 0 <= i < |s| && !Blank(s[i]) ==> r[i] == s[i]
  {
    seq(|s|, i requires 0 <= i < |s| => if Blank(s[i]) then Space else s[i])
  }

  /** Sequences that agree on where `c` occurs have as many of it. */
  lemma {:induction false} CountSamePositions(s: NetString, t: NetString, c: WChar)
    requires |s| == |t|
    requires forall i :: 0 <= i < |s| ==> (s[i] == c <==> t[i] == c)
    ensures Count(s, c) == Count(t, c)
  {
    if s != [] {
      CountSamePositions(s[1..], t[1..], c);
    }
  }

  /** The lines of the normalised text. */
  function Lines(text: NetString): seq<NetString>
  {
    SplitOn(BlanksToSpaces(ExpandTabs(text)), LineFeed)
  }

  /** The number of spaces a line starts with (what CountLeadingWhitespace counts). */
  function LeadingSpaces(line: NetString): (n: nat)
    ensures n <= |line|
    ensures forall j :: 0 <= j < n ==> line[j] == Space
    ensures n < |line| ==> line[n] != Space
  {
    if line != [] && line[0] == Space then 1 + LeadingSpaces(line[1..]) else 0
  }

  /** CountLeadingWhitespace: counts spaces from the start and stops at the first other character. */
  method CountLeadingWhitespace(text: NetString) returns (count: nat)
    ensures count == LeadingSpaces(text)
  {
    count := 0;
    var k := 0;
    while k < |text|
      invariant 0 <= k <= |text| && count == k
      invariant forall j :: 0 <= j < k ==> text[j] == Space
    {
      if text[k] == Space {
        count := count + 1;
      } else {
        break;
      }
      k := k + 1;
    }
  }

  /** lines.Min(CountLeadingWhitespace). */
  function MinLeading(lines: seq<NetString>): (m: nat)
    requires |lines| >= 1
    ensures forall i :: 0 <= i < |lines| ==> m <= LeadingSpaces(lines[i])
    ensures exists i :: 0 <= i < |lines| && m == LeadingSpaces(lines[i])
  {
    if |lines| == 1 then LeadingSpaces(lines[0])
    else
      var rest := MinLeading(lines[1..]);
      assert forall i :: 1 <= i < |lines| ==> lines[i] == lines[1..][i - 1];
      if LeadingSpaces(lines[0]) <= rest then LeadingSpaces(lines[0]) else rest
  }

  /** Every line without its first `ws` characters. */
  function Dedent(lines: seq<NetString>, ws: nat): (r: seq<NetString>)
    requires forall i :: 0 <= i < |lines| ==> ws <= |lines[i]|
  {
    seq(|lines|, i requires 0 <= i < |lines| => lines[i][ws..])
  }

  /**
   * PostProcessText: tabs become two spaces, other white space but line
   * breaks becomes one space, and every line loses the indentation all
   * lines share. The result has as many lines as the original; each is
   * the normalised line without exactly the shared indentation; and at
   * least one of them starts without a space.
   */
  function PostProcessText(text: NetString): (r: NetString)
    ensures var lines := Lines(text);
            var out := SplitOn(r, LineFeed);
            && |out| == |lines| == Count(text, LineFeed) + 1
            && (forall i :: 0 <= i < |out| ==> lines[i] == Spaces(MinLeading(lines)) + out[i])
            && (exists i :: 0 <= i < |out| && LeadingSpaces(out[i]) == 0)
  {
    var lines := Lines(text);
    var ws := MinLeading(lines);
    var pieces := Dedent(lines, ws);
    DedentHasNoBreaks(lines, ws);
    SplitJoin(pieces, LineFeed);
    LinesCount(text);
    DedentDropsSpaces(lines, ws);
    JoinWith(pieces, LineFeed)
  }

  /** A run of spaces. */
  function Spaces(n: nat): (r: NetString)
    ensures |r| == n && forall j :: 0 <= j < n ==> r[j] == Space
  {
    seq(n, _ => Space)
  }

  /** The normalised text has one more line than the original has line feeds. */
  lemma LinesCount(text: NetString)
    ensures |Lines(text)| == Count(text, LineFeed) + 1
  {
    var expanded := ExpandTabs(text);
    var normal := BlanksToSpaces(expanded);
    SplitCount(normal, LineFeed);
    CountSamePositions(normal, expanded, LineFeed);
  }

  /** Suffixes of lines hold no line feed. */
  lemma DedentHasNoBreaks(lines: seq<NetString>, ws: nat)
    requires forall p :: p in lines ==> LineFeed !in p
    requires forall i :: 0 <= i < |lines| ==> ws <= |lines[i]|
    ensures forall p :: p in Dedent(lines, ws) ==> LineFeed !in p
  {
    var pieces := Dedent(lines, ws);
    forall p | p in pieces ensures LineFeed !in p {
      var i :| 0 <= i < |pieces| && pieces[i] == p;
      assert LineFeed !in lines[i];
      assert forall j :: 0 <= j < |p| ==> p[j] == lines[i][ws + j];
    }
  }

  /** Removing the shared indentation removes only spaces, and leaves some line unindented. */
  lemma DedentDropsSpaces(lines: seq<NetString>, ws: nat)
    requires |lines| >= 1 && ws == MinLeading(lines)
    ensures var pieces := Dedent(lines, ws);
            && (forall i :: 0 <= i < |pieces| ==> lines[i] == Spaces(ws) + pieces[i])
            && (exists i :: 0 <= i < |pieces| && LeadingSpaces(pieces[i]) == 0)
  {
    var pieces := Dedent(lines, ws);
    forall i | 0 <= i < |pieces| ensures lines[i] == Spaces(ws) + pieces[i] {
      assert lines[i] == lines[i][..ws] + lines[i][ws..];
      assert lines[i][..ws] == Spaces(ws);
    }
    var k :| 0 <= k < |lines| && ws == LeadingSpaces(lines[k]);
    if pieces[k] != [] {
      assert pieces[k][0] == lines[k][ws];
    }
    assert LeadingSpaces(pieces[k]) == 0;
  }

  // ---------------------------------------------------------------------
  // Choosing the view
  // ---------------------------------------------------------------------

  /** What a history entry shows. */
  datatype ViewKind =
    | UnknownView
    | ImageView(bitmap: seq<byte>)
    | ColorView(color: Color, text: NetString, blackText: bool)
    | TextView(text: NetString)
    | FileDropView(items: seq<NetString>)

  /** Colour samples longer than this are shown as text. */
  const MaxColorTextLength := 50

  /**
   * Black text on a bright sample: the mean channel scaled by alpha is at
   * least 127, that is (R + G + B) * A / 255 / 3 >= 127.
   */
  function IsBright(color: Color): (bright: bool)
    ensures bright ==> color.a >= 127 && color.r as int + color.g as int + color.b as int >= 381
    ensures color.a == 255 ==> (bright <==> color.r as int + color.g as int + color.b as int >= 381)
  {
    BrightBounds(color.r as int + color.g as int + color.b as int, color.a as int);
    (color.r as int + color.g as int + color.b as int) * (color.a as int) >= 127 * 255 * 3
  }

  /** A channel sum of at most 765 and an alpha of at most 255 reach the threshold only if both are large. */
  lemma BrightBounds(sum: int, alpha: int)
    requires 0 <= sum <= 765 && 0 <= alpha <= 255
    ensures sum * alpha >= 127 * 255 * 3 ==> alpha >= 127 && sum >= 381
  {
    if alpha < 127 {
      assert sum * alpha <= 765 * alpha;
    }
    if sum < 381 {
      assert sum * alpha <= sum * 255;
    }
  }

  /** The dropped paths that still exist on disk, in order (the Where filter). */
  function Existing(names: seq<NetString>, pathExists: NetString -> bool): (r: seq<NetString>)
    ensures |r| <= |names|
    ensures forall p :: p in r <==> p in names && pathExists(p)
  {
    if names == [] then []
    else if pathExists(names[0]) then [names[0]] + Existing(names[1..], pathExists)
    else Existing(names[1..], pathExists)
  }

  /**
   * The view of a text item: the trimmed text as a colour sample when it is
   * short and the colour parser accepts it, else the processed text.
   */
  function TextualView(env: ColorEnv, text: NetString): (r: ViewKind)
    ensures r.ColorView? || r.TextView?
    ensures r.ColorView? <==> |Trim(text)| < MaxColorTextLength && TryParse(env, Trim(text)).Some?
    ensures r.ColorView? ==> r.text == Trim(text) && TryParse(env, r.text) == Some(r.color)
                             && (r.blackText <==> IsBright(r.color))
    ensures r.TextView? ==> r.text == PostProcessText(text)
  {
    var source := Trim(text);
    if |source| < MaxColorTextLength && TryParse(env, source).Some? then
      var color := TryParse(env, source).value;
      ColorView(color, source, IsBright(color))
    else
      TextView(PostProcessText(text))
  }

  /**
   * CreateClipboardViewModel: the view follows the abstract format of the
   * preferred item; short text the colour parser accepts is shown as a
   * colour sample, other text after PostProcessText. Decoding errors
   * propagate.
   */
  function CreateView(c: Codec, env: ColorEnv, pathExists: NetString -> bool, state: ClipboardState): (r: Result<ViewKind>)
    ensures r.Ok? && r.value.ColorView? ==>
              |r.value.text| < MaxColorTextLength && TryParse(env, r.value.text) == Some(r.value.color)
              && (r.value.blackText <==> IsBright(r.value.color))
    ensures r.Ok? && r.value.FileDropView? ==> forall p :: p in r.value.items ==> pathExists(p)
  {
    match GetPreferredItem(state.items, false)
    case None => Ok(UnknownView)
    case Some(item) =>
      match GetAbstractFormat(item.format)
      case Image =>
        (match ImageOf(c, item)
         case Ok(bitmap) => Ok(ImageView(bitmap))
         case Err(e) => Err(e))
      case Text => Ok(TextualView(env, TextOf(c, item).value))
      case FileDrop =>
        (match FileDropOf(c, item)
         case Ok(names) => Ok(FileDropView(Existing(names, pathExists)))
         case Err(e) => Err(e))
      case Unknown => Ok(UnknownView)
  }

  predicate HasFormat(items: seq<ClipboardItem>, f: DataFormat)
  {
    exists i :: 0 <= i < |items| && items[i].format == f
  }

  /**
   * The format of the item a snapshot is shown by, in terms of what it
   * holds: a DIB if there is one, else HDROP, else Unicode text, else ANSI
   * text, else one the parser does not know.
   */
  lemma ShownFormat(items: seq<ClipboardItem>)
    requires items != []
    ensures GetPreferredItem(items, false).Some?
    ensures var f := GetPreferredItem(items, false).value.format;
            if HasFormat(items, DataFormat.Dib) then f == DataFormat.Dib
            else if HasFormat(items, DataFormat.HDrop) then f == DataFormat.HDrop
            else if HasFormat(items, DataFormat.UnicodeText) then f == DataFormat.UnicodeText
            else if HasFormat(items, DataFormat.Text) then f == DataFormat.Text
            else GetAbstractFormat(f) == Unknown
  {
    PreferredRanksHighest(items);
    var p := GetPreferredItem(items, false).value;
    var i: int := -1;
    if HasFormat(items, DataFormat.Dib) {
      i :| 0 <= i < |items| && items[i].format == DataFormat.Dib;
    } else if HasFormat(items, DataFormat.HDrop) {
      i :| 0 <= i < |items| && items[i].format == DataFormat.HDrop;
    } else if HasFormat(items, DataFormat.UnicodeText) {
      i :| 0 <= i < |items| && items[i].format == DataFormat.UnicodeText;
    } else if HasFormat(items, DataFormat.Text) {
      i :| 0 <= i < |items| && items[i].format == DataFormat.Text;
    }
    if i >= 0 {
      assert Rank(items[i]) <= Rank(p);
    }
    assert p in items;
  }

  /** A snapshot holding a DIB is shown as an image, unless the DIB is too short to decode. */
  lemma DibIsShownAsImage(c: Codec, env: ColorEnv, pathExists: NetString -> bool, state: ClipboardState)
    requires HasFormat(state.items, DataFormat.Dib)
    ensures var r := CreateView(c, env, pathExists, state);
            r.Err? || r.value.ImageView?
  {
    ShownFormat(state.items);
  }

  /** Without a DIB, a snapshot holding HDROP is shown as a file list, unless the block is too short. */
  lemma HDropIsShownAsFiles(c: Codec, env: ColorEnv, pathExists: NetString -> bool, state: ClipboardState)
    requires !HasFormat(state.items, DataFormat.Dib) && HasFormat(state.items, DataFormat.HDrop)
    ensures var r := CreateView(c, env, pathExists, state);
            r.Err? || r.value.FileDropView?
  {
    ShownFormat(state.items);
  }

  /** Otherwise a snapshot holding text is always shown, as a colour sample or as text. */
  lemma TextIsShownAsText(c: Codec, env: ColorEnv, pathExists: NetString -> bool, state: ClipboardState)
    requires !HasFormat(state.items, DataFormat.Dib) && !HasFormat(state.items, DataFormat.HDrop)
    requires HasFormat(state.items, DataFormat.UnicodeText) || HasFormat(state.items, DataFormat.Text)
    ensures var r := CreateView(c, env, pathExists, state);
            r.Ok? && (r.value.ColorView? || r.value.TextView?)
  {
    ShownFormat(state.items);
    TextNeverFails(c, env, pathExists, state);
  }

  /** A snapshot with none of the four formats is an unknown entry, never an error. */
  lemma OtherIsUnknown(c: Codec, env: ColorEnv, pathExists: NetString -> bool, state: ClipboardState)
    requires !HasFormat(state.items, DataFormat.Dib) && !HasFormat(state.items, DataFormat.HDrop)
    requires !HasFormat(state.items, DataFormat.UnicodeText) && !HasFormat(state.items, DataFormat.Text)
    ensures CreateView(c, env, pathExists, state) == Ok(UnknownView)
  {
    if state.items != [] {
      ShownFormat(state.items);
    }
  }

  /** With every item eligible, the preferred item exists for any non-empty list and ranks highest. */
  lemma PreferredRanksHighest(items: seq<ClipboardItem>)
    ensures GetPreferredItem(items, false).None? <==> items == []
    ensures GetPreferredItem(items, false).Some? ==>
              forall i :: 0 <= i < |items| ==> Rank(items[i]) <= Rank(GetPreferredItem(items, false).value)
  {
    var p := GetPreferredItem(items, false);
    if items != [] {
      assert Eligible(items[0], false);
    }
    if p.Some? {
      var k: nat :| IsPreferredIndex(items, false, k) && p.value == items[k];
      forall i | 0 <= i < |items| ensures Rank(items[i]) <= Rank(p.value) {
        assert Eligible(items[i], false);
      }
    }
  }

  /** A text item always yields a colour sample or a text view. */
  lemma TextNeverFails(c: Codec, env: ColorEnv, pathExists: NetString -> bool, state: ClipboardState)
    requires GetPreferredItem(state.items, false).Some?
    requires GetAbstractFormat(GetPreferredItem(state.items, false).value.format) == AbstractDataFormat.Text
    ensures CreateView(c, env, pathExists, state).Ok?
    ensures CreateView(c, env, pathExists, state).value.ColorView? || CreateView(c, env, pathExists, state).value.TextView?
  {
  }

  // ---------------------------------------------------------------------
  // The history
  // ---------------------------------------------------------------------

  /**
   * How many entries CollectStates removes from `n` entries under the cap
   * `m`: the loop index and the shrinking count meet halfway, so an
   * excess of e = n - m + 1 loses ⌈e / 2⌉ entries.
   */
  function RemovedCount(n: nat, m: int): nat
    requires m >= 1
  {
    if n >= m then (n - m + 2) / 2 else 0
  }

  /** The history after CollectStates: one block removed at position m - 1. */
  function Collected(s: seq<ClipboardState>, m: int): (r: seq<ClipboardState>)
    requires m >= 1
    ensures |r| == |s| - RemovedCount(|s|, m)
    ensures |s| >= m ==> r[..m - 1] == s[..m - 1]
  {
    if |s| < m then s else s[..m - 1] + s[m - 1 + RemovedCount(|s|, m)..]
  }

  /** Trimming a history of at most m entries leaves room for the next one. */
  lemma CollectedLeavesRoom(s: seq<ClipboardState>, m: int)
    requires m >= 1 && |s| <= m
    ensures |Collected(s, m)| + 1 <= m
  {
  }

  /** A history two or more over the cap keeps an excess after trimming and inserting. */
  lemma CollectedIsPartial(s: seq<ClipboardState>, m: int)
    requires m >= 1 && |s| >= m + 2
    ensures |Collected(s, m)| + 1 > m
  {
  }

  /** One pass of the loop in CollectStates: the entry at m - 1 is the next one of the block. */
  lemma RemoveStep(s0: seq<ClipboardState>, m: int, i: int)
    requires 1 <= m && m - 1 <= i < |s0|
    ensures var states := s0[..m - 1] + s0[i..];
            states[..m - 1] + states[m..] == s0[..m - 1] + s0[i + 1..]
  {
    var states := s0[..m - 1] + s0[i..];
    assert states[..m - 1] == s0[..m - 1];
    assert states[m..] == s0[i + 1..];
  }

  /** Where the loop in CollectStates stops, the block removed is the one Collected describes. */
  lemma CollectedAtExit(s0: seq<ClipboardState>, m: int, i: int)
    requires 1 <= m && m - 1 <= i <= |s0| && 2 * i <= |s0| + m
    requires i >= |s0[..m - 1] + s0[i..]|
    ensures s0[..m - 1] + s0[i..] == Collected(s0, m)
  {
    var n := |s0|;
    assert n + m - 1 <= 2 * i;
    if n >= m {
      assert i == (n + m) / 2;
      assert m - 1 + RemovedCount(n, m) == i;
    } else {
      assert i == m - 1;
      assert s0[..m - 1] + s0[i..] == s0;
    }
  }

  /** One entry of the history list. */
  class ViewModel {
    const state: ClipboardState
    const kind: ViewKind
    var isCurrent: bool

    constructor (state: ClipboardState, kind: ViewKind)
      ensures this.state == state && this.kind == kind && !isCurrent
    {
      this.state := state;
      this.kind := kind;
      isCurrent := false;
    }
  }

  /** Collection.IndexOf on view models: reference equality. */
  function IndexOfView(views: seq<ViewModel>, vm: ViewModel): (r: int)
    ensures -1 <= r < |views|
    ensures r == -1 <==> vm !in views
    ensures r >= 0 ==> views[r] == vm && vm !in views[..r]
  {
    if views == [] then -1
    else if views[0] == vm then 0
    else
      var k := IndexOfView(views[1..], vm);
      assert views[1..][..(if k < 0 then 0 else k)] == views[1..(if k < 0 then 1 else k + 1)];
      if k == -1 then -1 else k + 1
  }

  /** No snapshot before position `k` Equals `s`. */
  predicate NoneEquals(c: Codec, states: seq<ClipboardState>, s: ClipboardState, k: int)
    requires k <= |states|
  {
    forall i :: 0 <= i < k ==> !StateEquals(c, states[i], s)
  }

  /** Collection.IndexOf on snapshots: the first entry that Equals the one sought, as the receiver. */
  function IndexOfState(c: Codec, states: seq<ClipboardState>, s: ClipboardState): (r: int)
    ensures -1 <= r < |states|
    ensures r == -1 <==> NoneEquals(c, states, s, |states|)
    ensures r >= 0 ==> StateEquals(c, states[r], s) && NoneEquals(c, states, s, r)
  {
    if states == [] then -1
    else if StateEquals(c, states[0], s) then 0
    else
      var k := IndexOfState(c, states[1..], s);
      assert forall i :: 1 <= i < |states| ==> states[i] == states[1..][i - 1];
      if k == -1 then -1 else k + 1
  }

  /** List.RemoveAt, and nothing when the index is -1 (what Remove does after IndexOf). */
  function RemoveAt<T>(s: seq<T>, i: int): (r: seq<T>)
    requires -1 <= i < |s|
    ensures i == -1 ==> r == s
    ensures i >= 0 ==> |r| == |s| - 1 && r[..i] == s[..i] && r[i..] == s[i + 1..]
  {
    if i == -1 then s else s[..i] + s[i + 1..]
  }

  /** Snapshots with different ids but the same content are the same entry to Remove. */
  lemma DeleteMayRemoveAnother(c: Codec)
    ensures var a := ClipboardState(1, 0, []);
            var b := ClipboardState(2, 0, []);
            a != b && IndexOfState(c, [a, b], b) == 0
  {
    assert StateEquals(c, ClipboardState(1, 0, []), ClipboardState(2, 0, []));
  }

  /**
   * The window's share of the application state: the local snapshots,
   * newest first, the list of views, and the user's maximum.
   */
  class History {
    const codec: Codec
    var maxItems: int
    var states: seq<ClipboardState>
    var views: seq<ViewModel>

    constructor (codec: Codec, maxItems: int)
      ensures this.codec == codec && this.maxItems == maxItems && states == [] && views == []
    {
      this.codec := codec;
      this.maxItems := maxItems;
      states := [];
      views := [];
    }

    /**
     * CollectStates: removes at position maxItems - 1 while the loop index,
     * starting there, is below the shrinking count. A cap below 1 makes
     * the first removal fail.
     */
    method CollectStates() returns (r: Outcome)
      modifies this
      ensures views == old(views) && maxItems == old(maxItems)
      ensures maxItems < 1 ==> r == Fail(ArgumentOutOfRange) && states == old(states)
      ensures maxItems >= 1 ==> r == Pass && states == Collected(old(states), maxItems)
    {
      var m := maxItems;
      var i := m - 1;
      if i < 0 {
        // i < 0 <= |states|: the loop is entered and RemoveAt rejects the negative index
        return Fail(ArgumentOutOfRange);
      }
      ghost var s0 := states;
      while i < |states|
        invariant m - 1 <= i
        invariant views == old(views) && maxItems == m
        invariant |s0| >= m - 1 ==> i <= |s0| && 2 * i <= |s0| + m && states == s0[..m - 1] + s0[i..]
        invariant |s0| < m - 1 ==> states == s0 && i == m - 1
        decreases |states| - i
      {
        RemoveStep(s0, m, i);
        states := states[..m - 1] + states[m..];
        i := i + 1;
      }
      if |s0| >= m - 1 {
        CollectedAtExit(s0, m, i);
      }
      return Pass;
    }

    /**
     * MarkCurrentViewModel: every listed view is cleared, then the given
     * one, listed or not, is marked.
     */
    method MarkCurrentViewModel(current: Option<ViewModel>)
      modifies set v | v in views
      modifies if current.Some? then {current.value} else {}
      ensures forall v :: v in views ==> v.isCurrent == (current == Some(v))
      ensures current.Some? ==> current.value.isCurrent
    {
      for k := 0 to |views|
        invariant forall j :: 0 <= j < k ==> !views[j].isCurrent
      {
        views[k].isCurrent := false;
      }
      if current.Some? {
        current.value.isCurrent := true;
      }
    }

    /**
     * OnClipboardStateChanged: trims the history, builds the new view,
     * inserts snapshot and view at the front and marks the view current.
     * A failure ends the handler where it happens; trimming is not undone.
     */
    method OnClipboardStateChanged(newState: ClipboardState, env: ColorEnv, pathExists: NetString -> bool)
      returns (r: Outcome)
      modifies this, set v | v in views
      ensures maxItems == old(maxItems)
      ensures old(maxItems) < 1 ==>
                r == Fail(ArgumentOutOfRange) && states == old(states) && views == old(views)
                && forall v :: v in views ==> v.isCurrent == old(v.isCurrent)
      ensures old(maxItems) >= 1 && CreateView(codec, env, pathExists, newState).Err? ==>
                r == Fail(CreateView(codec, env, pathExists, newState).error)
                && states == Collected(old(states), old(maxItems)) && views == old(views)
                && forall v :: v in views ==> v.isCurrent == old(v.isCurrent)
      ensures old(maxItems) >= 1 && CreateView(codec, env, pathExists, newState).Ok? ==>
                r == Pass && states == [newState] + Collected(old(states), old(maxItems))
                && |views| == |old(views)| + 1 && views[1..] == old(views)
                && fresh(views[0]) && views[0].state == newState
                && views[0].kind == CreateView(codec, env, pathExists, newState).value
                && forall v :: v in views ==> v.isCurrent == (v == views[0])
    {
      r := CollectStates();
      if r.Fail? {
        return;
      }
      var kind := CreateView(codec, env, pathExists, newState);
      if kind.Err? {
        return Fail(kind.error);
      }
      var vm := new ViewModel(newState, kind.value);
      states := [newState] + states;
      views := [vm] + views;
      MarkCurrentViewModel(Some(vm));
    }

    /**
     * OnDeleteStateClicked: when the view is in the list, removes it and
     * then the first snapshot that Equals its snapshot.
     */
    method OnDeleteStateClicked(vm: ViewModel) returns (removed: bool)
      modifies this
      ensures maxItems == old(maxItems)
      ensures removed <==> vm in old(views)
      ensures !removed ==> views == old(views) && states == old(states)
      ensures removed ==> views == RemoveAt(old(views), IndexOfView(old(views), vm))
      ensures removed ==> states == RemoveAt(old(states), IndexOfState(codec, old(states), vm.state))
    {
      var vi := IndexOfView(views, vm);
      if vi == -1 {
        return false;
      }
      var remaining := RemoveAt(views, vi);
      var si := IndexOfState(codec, states, vm.state);
      var kept := RemoveAt(states, si);
      views, states := remaining, kept;
      return true;
    }
  }
}
