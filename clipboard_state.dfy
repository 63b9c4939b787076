/** A past or present clipboard snapshot: an identity, a time and its items. */
module ClipboardStates {
  import opened Wrappers
  import opened SystemTypes
  import opened DataFormats
  import opened BlockCompression
  import opened ClipboardItems

  datatype ClipboardState = ClipboardState(id: Guid, dateTime: DateTime, items: seq<ClipboardItem>)

  /**
   * Both constructors: the one without an id is called with a fresh Guid
   * and the current time, the other with the values it is given. A missing
   * item list is rejected.
   */
  function NewState(id: Guid, dateTime: DateTime, items: Option<seq<ClipboardItem>>): (r: Result<ClipboardState>)
    ensures r.Err? <==> items.None?
    ensures r.Err? ==> r.error == ArgumentNull
    ensures r.Ok? ==> r.value.id == id && r.value.dateTime == dateTime && r.value.items == items.value
  {
    match items
    case None => Err(ArgumentNull)
    case Some(list) => Ok(ClipboardState(id, dateTime, list))
  }

  /** The position of the first item with format `f`. */
  function FirstIndexWithFormat(items: seq<ClipboardItem>, f: DataFormat): (r: Option<nat>)
    ensures r.None? <==> forall i :: 0 <= i < |items| ==> items[i].format != f
    ensures r.Some? ==> r.value < |items| && items[r.value].format == f
                        && forall i :: 0 <= i < r.value ==> items[i].format != f
  {
    if items == [] then None
    else if items[0].format == f then Some(0)
    else match FirstIndexWithFormat(items[1..], f)
      case None => None
      case Some(i) => Some(i + 1)
  }

  /** items.FirstOrDefault(item => item.Format == f). */
  function FirstWithFormat(items: seq<ClipboardItem>, f: DataFormat): Option<ClipboardItem>
  {
    match FirstIndexWithFormat(items, f)
    case None => None
    case Some(i) => Some(items[i])
  }

  /** `x` equals the first item of `others` with the same format; false when there is none. */
  predicate MatchedIn(c: Codec, x: ClipboardItem, others: seq<ClipboardItem>)
  {
    match FirstWithFormat(others, x.format)
    case None => false
    case Some(y) => ItemEquals(c, x, y)
  }

  /** An item matched in a list has an equal item of its format there. */
  lemma MatchedHasPartner(c: Codec, x: ClipboardItem, others: seq<ClipboardItem>)
    requires MatchedIn(c, x, others)
    ensures exists j :: 0 <= j < |others| && others[j].format == x.format && ItemEquals(c, x, others[j])
  {
    var j := FirstIndexWithFormat(others, x.format).value;
    assert others[j].format == x.format && ItemEquals(c, x, others[j]);
  }

  /**
   * ClipboardState.Equals: equal item counts, and every item of `a` equals
   * the first item of `b` with its format. Ids and times do not matter.
   * Equal snapshots have as many items, and each item of `a` has an equal
   * item of its format in `b`; an empty snapshot equals only an empty one.
   */
  function StateEquals(c: Codec, a: ClipboardState, b: ClipboardState): (r: bool)
    ensures r ==> |a.items| == |b.items|
    ensures r ==> forall i :: 0 <= i < |a.items| ==>
                    exists j :: 0 <= j < |b.items| && b.items[j].format == a.items[i].format && ItemEquals(c, a.items[i], b.items[j])
    ensures a.items == [] ==> (r <==> b.items == [])
  {
    if |a.items| == |b.items| && forall i :: 0 <= i < |a.items| ==> MatchedIn(c, a.items[i], b.items) then
      AllMatchedHavePartners(c, a.items, b.items);
      true
    else false
  }

  /** Every item matched in a list has an equal item of its format there. */
  lemma AllMatchedHavePartners(c: Codec, items: seq<ClipboardItem>, others: seq<ClipboardItem>)
    requires forall i :: 0 <= i < |items| ==> MatchedIn(c, items[i], others)
    ensures forall i :: 0 <= i < |items| ==>
              exists j :: 0 <= j < |others| && others[j].format == items[i].format && ItemEquals(c, items[i], others[j])
  {
    forall i | 0 <= i < |items|
      ensures exists j :: 0 <= j < |others| && others[j].format == items[i].format && ItemEquals(c, items[i], others[j])
    {
      MatchedHasPartner(c, items[i], others);
    }
    assert forall i :: 0 <= i < |items| ==>
              exists j :: 0 <= j < |others| && others[j].format == items[i].format && ItemEquals(c, items[i], others[j]);
  }

  predicate DistinctFormats(items: seq<ClipboardItem>)
  {
    forall i, j :: 0 <= i < j < |items| ==> items[i].format != items[j].format
  }

  /** With distinct formats, the first item of a format is the only one. */
  lemma FirstWithFormatUnique(items: seq<ClipboardItem>, y: ClipboardItem)
    requires DistinctFormats(items) && y in items
    ensures FirstWithFormat(items, y.format) == Some(y)
  {
    var k :| 0 <= k < |items| && items[k] == y;
  }

  /** Reordering keeps the length and the members. */
  lemma PermutationMembers(s: seq<ClipboardItem>, t: seq<ClipboardItem>)
    requires multiset(s) == multiset(t)
    ensures |s| == |t| && forall x :: x in s <==> x in t
  {
    assert |s| == |multiset(s)| == |t|;
    forall x ensures x in s <==> x in t {
      assert x in s <==> x in multiset(s);
      assert x in t <==> x in multiset(t);
    }
  }

  /** With distinct formats, reordering does not change which item a format finds. */
  lemma FirstWithFormatOfPermutation(b: seq<ClipboardItem>, b': seq<ClipboardItem>, f: DataFormat)
    requires DistinctFormats(b) && DistinctFormats(b') && multiset(b) == multiset(b')
    ensures FirstWithFormat(b, f) == FirstWithFormat(b', f)
  {
    PermutationMembers(b, b');
    if FirstIndexWithFormat(b, f).Some? {
      var y := b[FirstIndexWithFormat(b, f).value];
      FirstWithFormatUnique(b, y);
      FirstWithFormatUnique(b', y);
    } else if FirstIndexWithFormat(b', f).Some? {
      var y := b'[FirstIndexWithFormat(b', f).value];
      FirstWithFormatUnique(b', y);
      FirstWithFormatUnique(b, y);
    }
  }

  /**
   * Equality does not depend on the order of the items when neither state
   * holds two items of the same format.
   */
  lemma StateEqualsIgnoresOrder(c: Codec, a: ClipboardState, b: ClipboardState, a': ClipboardState, b': ClipboardState)
    requires DistinctFormats(a.items) && DistinctFormats(b.items) && DistinctFormats(a'.items) && DistinctFormats(b'.items)
    requires multiset(a.items) == multiset(a'.items) && multiset(b.items) == multiset(b'.items)
    ensures StateEquals(c, a, b) <==> StateEquals(c, a', b')
  {
    PermutationMembers(a.items, a'.items);
    PermutationMembers(b.items, b'.items);
    forall x ensures MatchedIn(c, x, b.items) <==> MatchedIn(c, x, b'.items) {
      FirstWithFormatOfPermutation(b.items, b'.items, x.format);
    }
    if StateEquals(c, a, b) {
      forall i | 0 <= i < |a'.items| ensures MatchedIn(c, a'.items[i], b'.items) {
        assert a'.items[i] in a.items;
      }
    }
    if StateEquals(c, a', b') {
      forall i | 0 <= i < |a.items| ensures MatchedIn(c, a.items[i], b.items) {
        assert a.items[i] in a'.items;
      }
    }
  }

  /** A state whose formats are distinct equals itself. */
  lemma StateEqualsReflexive(c: Codec, s: ClipboardState)
    requires DistinctFormats(s.items)
    ensures StateEquals(c, s, s)
  {
    forall i | 0 <= i < |s.items| ensures MatchedIn(c, s.items[i], s.items) {
      FirstWithFormatUnique(s.items, s.items[i]);
      ItemEqualsReflexive(c, s.items[i]);
    }
  }

  /**
   * Only the first item of each format is looked up, so a state holding two
   * different items of one format does not equal itself.
   */
  lemma DuplicateFormatBreaksReflexivity(c: Codec)
    ensures var s := ClipboardState(0, 0, [ClipboardItem(DataFormat.Text, [1], 1, false), ClipboardItem(DataFormat.Text, [2], 1, false)]);
            !StateEquals(c, s, s)
  {
    var s := ClipboardState(0, 0, [ClipboardItem(DataFormat.Text, [1], 1, false), ClipboardItem(DataFormat.Text, [2], 1, false)]);
    assert FirstIndexWithFormat(s.items, DataFormat.Text) == Some(0);
    assert !MatchedIn(c, s.items[1], s.items);
  }
}
