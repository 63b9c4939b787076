/** Sequence operations in the style of LINQ queries, shared by the message handlers and the scanner. */
module Sequences {
  import opened Wrappers

  /** The values `f` gives for the elements of `s` that have one, in order (LINQ Select then Where). */
  function Collect<A, B>(f: A -> Option<B>, s: seq<A>): (r: seq<B>)
    ensures |r| <= |s|
  {
    if s == [] then []
    else (if f(s[0]).Some? then [f(s[0]).value] else []) + Collect(f, s[1..])
  }

  /** Every position moved one place on. */
  function Shift(idx: seq<nat>): (r: seq<nat>)
    ensures |r| == |idx| && forall k :: 0 <= k < |idx| ==> r[k] == idx[k] + 1
  {
    seq(|idx|, k requires 0 <= k < |idx| => idx[k] + 1)
  }

  /** The positions of the elements of `s` that `f` gives a value for, in increasing order. */
  function Sources<A, B>(f: A -> Option<B>, s: seq<A>): seq<nat>
  {
    if s == [] then []
    else (if f(s[0]).Some? then [0] else []) + Shift(Sources(f, s[1..]))
  }

  /** `idx` lists, in increasing order, the positions of `s` the values in `r` come from, and every position that has one. */
  ghost predicate CollectedFrom<A, B>(f: A -> Option<B>, s: seq<A>, r: seq<B>, idx: seq<nat>)
  {
    && |idx| == |r|
    && (forall k :: 0 <= k < |idx| ==> idx[k] < |s| && f(s[idx[k]]) == Some(r[k]))
    && (forall k, l :: 0 <= k < l < |idx| ==> idx[k] < idx[l])
    && (forall i :: 0 <= i < |s| && f(s[i]).Some? ==> i in idx)
  }

  lemma {:induction false} SourcesMatch<A, B>(f: A -> Option<B>, s: seq<A>)
    ensures var idx := Sources(f, s);
            var r := Collect(f, s);
            |idx| == |r| && forall k :: 0 <= k < |idx| ==> idx[k] < |s| && f(s[idx[k]]) == Some(r[k])
  {
    if s != [] {
      SourcesMatch(f, s[1..]);
      var tail := Sources(f, s[1..]);
      var rest := Collect(f, s[1..]);
      var idx := Sources(f, s);
      var r := Collect(f, s);
      var d := if f(s[0]).Some? then 1 else 0;
      forall k | d <= k < |idx|
        ensures idx[k] < |s| && f(s[idx[k]]) == Some(r[k])
      {
        assert idx[k] == tail[k - d] + 1;
        assert r[k] == rest[k - d];
        assert s[idx[k]] == s[1..][tail[k - d]];
      }
    }
  }

  lemma {:induction false} SourcesIncrease<A, B>(f: A -> Option<B>, s: seq<A>)
    ensures forall k, l :: 0 <= k < l < |Sources(f, s)| ==> Sources(f, s)[k] < Sources(f, s)[l]
  {
    if s != [] {
      SourcesIncrease(f, s[1..]);
      var tail := Sources(f, s[1..]);
      var idx := Sources(f, s);
      var d := if f(s[0]).Some? then 1 else 0;
      forall k, l | 0 <= k < l < |idx|
        ensures idx[k] < idx[l]
      {
        assert idx[l] == tail[l - d] + 1;
        if k >= d {
          assert idx[k] == tail[k - d] + 1;
          assert tail[k - d] < tail[l - d];
        } else {
          assert idx[k] == 0;
        }
      }
    }
  }

  lemma {:induction false} SourcesComplete<A, B>(f: A -> Option<B>, s: seq<A>)
    ensures forall i :: 0 <= i < |s| && f(s[i]).Some? ==> i in Sources(f, s)
  {
    if s != [] {
      SourcesComplete(f, s[1..]);
      var tail := Sources(f, s[1..]);
      var idx := Sources(f, s);
      var d := if f(s[0]).Some? then 1 else 0;
      forall i | 1 <= i < |s| && f(s[i]).Some?
        ensures i in idx
      {
        assert s[1..][i - 1] == s[i];
        var k :| 0 <= k < |tail| && tail[k] == i - 1;
        assert idx[k + d] == i;
      }
    }
  }

  /** Collect keeps exactly the elements that have a value, in order. */
  lemma CollectExact<A, B>(f: A -> Option<B>, s: seq<A>) returns (idx: seq<nat>)
    ensures CollectedFrom(f, s, Collect(f, s), idx)
  {
    idx := Sources(f, s);
    SourcesMatch(f, s);
    SourcesIncrease(f, s);
    SourcesComplete(f, s);
  }

  /** Collecting the parts of a sequence one after the other collects the whole. */
  lemma {:induction false} CollectAppend<A, B>(f: A -> Option<B>, a: seq<A>, b: seq<A>)
    ensures Collect(f, a + b) == Collect(f, a) + Collect(f, b)
  {
    if a != [] {
      assert (a + b)[1..] == a[1..] + b;
      CollectAppend(f, a[1..], b);
    } else {
      assert a + b == b;
    }
  }

  /** A value is collected exactly when some element gives it. */
  lemma CollectMember<A, B>(f: A -> Option<B>, s: seq<A>, y: B)
    ensures y in Collect(f, s) <==> exists i :: 0 <= i < |s| && f(s[i]) == Some(y)
  {
    var idx := CollectExact(f, s);
    if y in Collect(f, s) {
      var k :| 0 <= k < |idx| && Collect(f, s)[k] == y;
    }
    if i :| 0 <= i < |s| && f(s[i]) == Some(y) {
      var k :| 0 <= k < |idx| && idx[k] == i;
    }
  }

  /** Two selectors that agree on the elements of `s` collect the same values from it. */
  lemma {:induction false} CollectCongruent<A, B>(f: A -> Option<B>, g: A -> Option<B>, s: seq<A>)
    requires forall i :: 0 <= i < |s| ==> f(s[i]) == g(s[i])
    ensures Collect(f, s) == Collect(g, s)
  {
    if s != [] {
      assert f(s[0]) == g(s[0]);
      CollectCongruent(f, g, s[1..]);
    }
  }
}
