/** Byte-array comparison on top of the C runtime's memcmp. */
module Stdlib {
  import opened Wrappers
  import opened Encodings

  /** memcmp(a + index, b + index, count) == 0, on memory that lies inside both arrays. */
  predicate RegionsEqual(a: seq<byte>, b: seq<byte>, index: nat, count: nat)
    requires index + count <= |a| && index + count <= |b|
  {
    forall k :: index <= k < index + count ==> a[k] == b[k]
  }

  /** Equal lengths and equal bytes. */
  function MemCmp(a: seq<byte>, b: seq<byte>): (r: bool)
    ensures r <==> a == b
  {
    |a| == |b| && RegionsEqual(a, b, 0, |a|)
  }

  /**
   * Compares the first `count` bytes, but answers false whenever the lengths
   * differ, and rejects a count longer than either array.
   */
  function MemCmpPrefix(a: seq<byte>, b: seq<byte>, count: nat): (r: Result<bool>)
    ensures r.Err? <==> count > |a| || count > |b|
    ensures r.Err? ==> r.error == ArgumentOutOfRange
    ensures r.Ok? ==> (r.value <==> |a| == |b| && a[..count] == b[..count])
  {
    if count > |a| || count > |b| then Err(ArgumentOutOfRange)
    else if |a| != |b| then Ok(false)
    else Ok(RegionsEqual(a, b, 0, count))
  }

  /**
   * Compares `count` bytes starting at `index`, with the same guards as
   * MemCmpPrefix. The index itself is not checked, so the caller must keep
   * the compared range inside the arrays.
   */
  function MemCmpRange(a: seq<byte>, b: seq<byte>, index: nat, count: nat): (r: Result<bool>)
    requires count <= |a| && count <= |b| && |a| == |b| ==> index + count <= |a|
    ensures r.Err? <==> count > |a| || count > |b|
    ensures r.Err? ==> r.error == ArgumentOutOfRange
    ensures r.Ok? ==> (r.value <==> |a| == |b| && a[index..index + count] == b[index..index + count])
  {
    if count > |a| || count > |b| then Err(ArgumentOutOfRange)
    else if |a| != |b| then Ok(false)
    else
      assert RegionsEqual(a, b, index, count) <==> a[index..index + count] == b[index..index + count] by {
        var sa, sb := a[index..index + count], b[index..index + count];
        if RegionsEqual(a, b, index, count) {
          forall k | 0 <= k < count ensures sa[k] == sb[k] {
            assert sa[k] == a[index + k] && sb[k] == b[index + k];
          }
        }
      }
      Ok(RegionsEqual(a, b, index, count))
  }

  /** The three overloads agree: a full-length prefix or range compares whole arrays. */
  lemma OverloadsAgree(a: seq<byte>, b: seq<byte>, count: nat)
    requires |a| == |b| && count <= |a|
    ensures MemCmpRange(a, b, 0, count) == MemCmpPrefix(a, b, count)
    ensures MemCmpPrefix(a, b, |a|) == Ok(MemCmp(a, b))
  {
    assert a[0..count] == a[..count] && b[0..count] == b[..count];
    assert a[..|a|] == a && b[..|b|] == b;
  }
}
