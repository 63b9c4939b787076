/**
 * One format of a clipboard snapshot: its identifier and its bytes, kept
 * compressed when that pays off.
 */
module ClipboardItems {
  import opened Wrappers
  import opened Encodings
  import opened DataFormats
  import opened BlockCompression
  import Stdlib

  /** Buffers handed over by the network are compressed from this size on. */
  const LongTermThreshold := 5 * 1024 * 1024
  /** Memory read from the OS clipboard is compressed above this size. */
  const PointerThreshold := 4096

  /**
   * The stored state of an item: `buffer` holds `size` bytes of data,
   * compressed when `isDeflated`.
   */
  datatype ClipboardItem = ClipboardItem(format: DataFormat, buffer: seq<byte>, size: nat, isDeflated: bool)

  /** Bytes the item occupies in memory. */
  function SizeInMemory(item: ClipboardItem): nat { |item.buffer| }

  /**
   * A compression ratio above 1.5, stated on integers. The float quotient
   * can round to 1.5 once the original length exceeds 2^24, where this test
   * and the float one can disagree.
   */
  predicate WorthDeflating(original: nat, deflated: nat) { 2 * original > 3 * deflated }

  /** The item's data: what GetDataBuffer returns. */
  function LogicalBytes(c: Codec, item: ClipboardItem): seq<byte>
  {
    if item.isDeflated then c.inflate(item.buffer, item.size) else item.buffer
  }

  /** An item as the factories build it. */
  ghost predicate Canonical(c: Codec, item: ClipboardItem)
  {
    if item.isDeflated then item.buffer == c.deflate(LogicalBytes(c, item)) else |item.buffer| == item.size
  }

  /** The private constructor, which rejects a missing buffer. */
  function Construct(format: DataFormat, buffer: Option<seq<byte>>, finalSize: nat, isDeflated: bool): (r: Result<ClipboardItem>)
    ensures r.Err? <==> buffer.None?
    ensures r.Err? ==> r.error == ArgumentNull
    ensures r.Ok? ==> r.value.buffer == buffer.value && r.value.size == finalSize
                      && r.value.format == format && r.value.isDeflated == isDeflated
  {
    match buffer
    case None => Err(ArgumentNull)
    case Some(b) => Ok(ClipboardItem(format, b, finalSize, isDeflated))
  }

  /**
   * An item for a managed buffer. With `optimizeLongTerm`, a buffer of at
   * least 5 MiB is stored compressed when compression shrinks it by a ratio
   * above 1.5. The clone flag only decides whether the item shares the
   * caller's array.
   */
  function FromBuffer(c: Codec, format: DataFormat, buffer: seq<byte>, cloneBuffer: bool, optimizeLongTerm: bool): (r: ClipboardItem)
    ensures r.format == format && r.size == |buffer|
    ensures r.isDeflated <==> optimizeLongTerm && |buffer| >= LongTermThreshold && WorthDeflating(|buffer|, |c.deflate(buffer)|)
    ensures r.isDeflated ==> r.buffer == c.deflate(buffer) && 3 * SizeInMemory(r) < 2 * r.size
    ensures !r.isDeflated ==> r.buffer == buffer
  {
    if optimizeLongTerm && |buffer| >= LongTermThreshold && WorthDeflating(|buffer|, |c.deflate(buffer)|) then
      Construct(format, Some(c.deflate(buffer)), |buffer|, true).value
    else
      Construct(format, Some(buffer), |buffer|, false).value
  }

  /**
   * An item for `memory`, the bytes the OS clipboard hands out: more than
   * 4096 bytes are stored compressed when compression shrinks them by a
   * ratio above 1.5, anything else as a copy.
   */
  function FromPointer(c: Codec, format: DataFormat, memory: seq<byte>): (r: ClipboardItem)
    ensures r.format == format && r.size == |memory|
    ensures r.isDeflated <==> |memory| > PointerThreshold && WorthDeflating(|memory|, |c.deflate(memory)|)
    ensures r.isDeflated ==> r.buffer == c.deflate(memory) && 3 * SizeInMemory(r) < 2 * r.size
    ensures !r.isDeflated ==> r.buffer == memory
  {
    if |memory| > PointerThreshold && WorthDeflating(|memory|, |c.deflate(memory)|) then
      Construct(format, Some(c.deflate(memory)), |memory|, true).value
    else
      Construct(format, Some(memory), |memory|, false).value
  }

  /** Both factories store the data they were given: it comes back unchanged, with its size. */
  lemma FactoriesKeepData(c: Codec, format: DataFormat, data: seq<byte>, cloneBuffer: bool, optimizeLongTerm: bool)
    requires Lawful(c)
    ensures var r := FromBuffer(c, format, data, cloneBuffer, optimizeLongTerm);
            LogicalBytes(c, r) == data && Canonical(c, r) && SizeInMemory(r) <= r.size
    ensures var r := FromPointer(c, format, data);
            LogicalBytes(c, r) == data && Canonical(c, r) && SizeInMemory(r) <= r.size
  {
  }

  /** A compressed item always answers with exactly `size` bytes. */
  lemma LogicalSize(c: Codec, item: ClipboardItem)
    requires Lawful(c) && Canonical(c, item)
    ensures |LogicalBytes(c, item)| == item.size
  {
  }

  /**
   * ClipboardItem.Equals: same format, and then the compressed buffers when
   * both items are compressed, the data otherwise. Items of different
   * formats never compare equal, and an item compressed and one that is
   * not are compared on their data.
   */
  function ItemEquals(c: Codec, a: ClipboardItem, b: ClipboardItem): (r: bool)
    ensures r ==> a.format == b.format
    ensures a.isDeflated && b.isDeflated ==> (r <==> a.format == b.format && a.buffer == b.buffer)
    ensures !(a.isDeflated && b.isDeflated) ==> (r <==> a.format == b.format && LogicalBytes(c, a) == LogicalBytes(c, b))
  {
    a.format == b.format &&
    if a.isDeflated && b.isDeflated then Stdlib.MemCmp(a.buffer, b.buffer)
    else Stdlib.MemCmp(LogicalBytes(c, a), LogicalBytes(c, b))
  }

  /**
   * For items built by the factories, equality means equal formats and
   * equal data, whichever of them happen to be stored compressed.
   */
  lemma ItemEqualsMeansSameData(c: Codec, a: ClipboardItem, b: ClipboardItem)
    requires Lawful(c) && Canonical(c, a) && Canonical(c, b)
    ensures ItemEquals(c, a, b) <==> a.format == b.format && LogicalBytes(c, a) == LogicalBytes(c, b)
  {
    if a.isDeflated && b.isDeflated && a.buffer == b.buffer {
      assert c.deflate(LogicalBytes(c, a)) == c.deflate(LogicalBytes(c, b));
    }
  }

  /** Every item equals itself. */
  lemma ItemEqualsReflexive(c: Codec, a: ClipboardItem)
    ensures ItemEquals(c, a, a)
  {
  }

  /**
   * A ClipboardItem object: the stored state plus the weak reference that
   * may still hold the decompressed data of a compressed item.
   */
  class ItemObject {
    const codec: Codec
    const item: ClipboardItem
    /** The target of the weak reference, while the collector has not reclaimed it. */
    var inflatedCache: Option<seq<byte>>

    ghost predicate Valid()
      reads this
    {
      && |LogicalBytes(codec, item)| == item.size
      && (inflatedCache.Some? ==> item.isDeflated && inflatedCache.value == LogicalBytes(codec, item))
    }

    constructor (codec: Codec, item: ClipboardItem)
      requires Lawful(codec) && Canonical(codec, item)
      ensures Valid() && this.codec == codec && this.item == item && inflatedCache == None
    {
      this.codec := codec;
      this.item := item;
      inflatedCache := None;
    }

    /**
     * The item's data. A compressed item decompresses once and remembers
     * the result until the collector reclaims it.
     */
    method GetDataBuffer() returns (data: seq<byte>)
      requires Valid()
      modifies this
      ensures Valid()
      ensures data == LogicalBytes(codec, item) && |data| == item.size
      ensures inflatedCache == if item.isDeflated then Some(data) else old(inflatedCache)
    {
      if item.isDeflated {
        match inflatedCache {
          case Some(cached) =>
            data := cached;
          case None =>
            data := codec.inflate(item.buffer, item.size);
            inflatedCache := Some(data);
        }
      } else {
        data := item.buffer;
      }
    }

    /**
     * Writes the item's `size` bytes of data to the start of `destination`,
     * from the cached copy, by decompressing, or from the raw buffer.
     */
    method CopyTo(destination: array<byte>)
      requires Valid() && item.size <= destination.Length
      modifies destination
      ensures destination[..item.size] == LogicalBytes(codec, item)
      ensures destination[item.size..] == old(destination[item.size..])
    {
      var source: seq<byte>;
      if item.isDeflated {
        match inflatedCache {
          case Some(cached) => source := cached;
          case None => source := codec.inflate(item.buffer, item.size);
        }
      } else {
        source := item.buffer;
      }
      assert source == LogicalBytes(codec, item);
      assert |source| == item.size;
      forall i | 0 <= i < item.size {
        destination[i] := source[i];
      }
      assert destination[..item.size] == source;
    }

    /** The collector reclaims the decompressed copy. */
    method Reclaim()
      requires Valid()
      modifies this
      ensures Valid() && inflatedCache == None
    {
      inflatedCache := None;
    }
  }
}
