/**
 * Big-endian 32-bit integers and the length-prefixed reads and writes on a
 * TCP stream.
 */
module NetUtils {
  import opened Wrappers
  import opened Encodings

  /** A C# `int`. */
  type Int32 = x: int | -0x8000_0000 <= x < 0x8000_0000

  /** The result of 32-bit two's-complement (unchecked) arithmetic. */
  function Wrap32(x: int): (r: Int32)
    ensures (r - x) % 0x1_0000_0000 == 0
    ensures -0x8000_0000 <= x < 0x8000_0000 ==> r == x
  {
    var m := (x + 0x8000_0000) % 0x1_0000_0000;
    m - 0x8000_0000
  }

  /** The two's-complement bit pattern of `v` as an unsigned number. */
  function Unsigned(v: Int32): (u: nat)
    ensures u < 0x1_0000_0000
    ensures u >= 0x8000_0000 <==> v < 0
  {
    if v < 0 then v + 0x1_0000_0000 else v
  }

  /** The signed number with the bit pattern `u`. */
  function Signed(u: nat): (v: Int32)
    requires u < 0x1_0000_0000
    ensures Unsigned(v) == u
  {
    if u >= 0x8000_0000 then u - 0x1_0000_0000 else u
  }

  /** The value of four bytes, most significant first. */
  function Horner(b0: byte, b1: byte, b2: byte, b3: byte): (u: nat)
    ensures u < 0x1_0000_0000
  {
    (((b0 as int) * 0x100 + b1 as int) * 0x100 + b2 as int) * 0x100 + b3 as int
  }

  /** The four bytes of an unsigned 32-bit number, most significant first. */
  function BytesOf(u: nat): (r: seq<byte>)
    requires u < 0x1_0000_0000
    ensures |r| == 4
  {
    var q1 := u / 0x100;
    var q2 := q1 / 0x100;
    [q2 / 0x100, q2 % 0x100, q1 % 0x100, u % 0x100]
  }

  lemma BytesOfValue(u: nat)
    requires u < 0x1_0000_0000
    ensures var r := BytesOf(u); Horner(r[0], r[1], r[2], r[3]) == u
  {
    var q1 := u / 0x100;
    var q2 := q1 / 0x100;
    var r := BytesOf(u);
    assert q2 == (r[0] as int) * 0x100 + r[1] as int;
    assert q1 == q2 * 0x100 + r[2] as int;
  }

  lemma ValueBytesOf(b0: byte, b1: byte, b2: byte, b3: byte)
    ensures BytesOf(Horner(b0, b1, b2, b3)) == [b0, b1, b2, b3]
  {
    var q2 := (b0 as int) * 0x100 + b1 as int;
    var q1 := q2 * 0x100 + b2 as int;
    var u := q1 * 0x100 + b3 as int;
    DivideByte(u, q1, b3 as int);
    DivideByte(q1, q2, b2 as int);
    DivideByte(q2, b0 as int, b1 as int);
  }

  /** The signed value of four bytes read most significant first. */
  function FromBigEndian(b: seq<byte>): Int32
    requires |b| >= 4
  {
    Signed(Horner(b[0], b[1], b[2], b[3]))
  }

  /** Network byte order: most significant byte first. */
  function GetBytes(v: Int32): (r: seq<byte>)
    ensures |r| == 4
  {
    BytesOf(Unsigned(v))
  }

  /**
   * Decodes the first four bytes. BitConverter rejects an empty array with
   * ArgumentOutOfRangeException and one of one to three bytes with
   * ArgumentException.
   */
  function ToInt32(b: seq<byte>): (r: Result<Int32>)
    ensures r.Err? <==> |b| < 4
    ensures |b| == 0 ==> r == Err(ArgumentOutOfRange)
    ensures 0 < |b| < 4 ==> r == Err(Argument)
  {
    if |b| == 0 then Err(ArgumentOutOfRange)
    else if |b| < 4 then Err(Argument)
    else Ok(FromBigEndian(b))
  }

  /** Only the first four bytes are decoded. */
  lemma ToInt32ReadsFourBytes(b: seq<byte>, rest: seq<byte>)
    requires |b| == 4
    ensures ToInt32(b + rest) == ToInt32(b)
  {
    var c := b + rest;
    assert c[0] == b[0] && c[1] == b[1] && c[2] == b[2] && c[3] == b[3];
  }

  /** Decoding an encoded integer gives it back. */
  lemma DecodeEncode(v: Int32)
    ensures ToInt32(GetBytes(v)) == Ok(v)
  {
    BytesOfValue(Unsigned(v));
  }

  /** Encoding the decoded value of four bytes gives the bytes back. */
  lemma EncodeDecode(b: seq<byte>)
    requires |b| == 4
    ensures ToInt32(b).Ok? && GetBytes(ToInt32(b).value) == b
  {
    ValueBytesOf(b[0], b[1], b[2], b[3]);
    assert b == [b[0], b[1], b[2], b[3]];
  }

  lemma DivideByte(x: int, q: int, r: int)
    requires 0 <= r < 0x100 && x == q * 0x100 + r
    ensures x / 0x100 == q && x % 0x100 == r
  {
  }

  /** The bytes still to be read, in order. */
  function Pending(chunks: seq<seq<byte>>): seq<byte>
  {
    if chunks == [] then [] else chunks[0] + Pending(chunks[1..])
  }

  /**
   * What one Read of `count` bytes delivers when the peer's unread data
   * arrives in `chunks`: at most the rest of the first chunk, the remainder
   * of the caller's buffer left zero, and no data at all once the peer has
   * closed the connection.
   */
  function Receive(chunks: seq<seq<byte>>, count: nat): (r: (seq<byte>, seq<seq<byte>>))
    ensures |r.0| == count
    ensures (forall k :: 0 <= k < |chunks| ==> chunks[k] != []) ==> forall k :: 0 <= k < |r.1| ==> r.1[k] != []
    ensures count == 0 || chunks == [] ==> r.1 == chunks && forall k :: 0 <= k < count ==> r.0[k] == 0
    ensures count > 0 && chunks != [] ==>
              var n := if count < |chunks[0]| then count else |chunks[0]|;
              && r.0[..n] + Pending(r.1) == Pending(chunks)
              && forall k :: n <= k < count ==> r.0[k] == 0
  {
    if count == 0 || chunks == [] then (seq(count, _ => 0), chunks)
    else
      var n := if count < |chunks[0]| then count else |chunks[0]|;
      var rest := chunks[0][n..];
      assert forall k :: 0 <= k < |chunks| - 1 ==> chunks[1..][k] == chunks[k + 1];
      assert Pending([rest] + chunks[1..]) == rest + Pending(chunks[1..]) by {
        assert ([rest] + chunks[1..])[1..] == chunks[1..];
      }
      assert chunks[0][..n] + rest == chunks[0];
      (chunks[0][..n] + seq(count - n, _ => 0), if rest == [] then chunks[1..] else [rest] + chunks[1..])
  }

  /** When the data is already there, a read delivers exactly the bytes that were sent. */
  lemma ReceiveSent(sent: seq<byte>, rest: seq<byte>, later: seq<seq<byte>>)
    requires sent != []
    ensures Receive([sent + rest] + later, |sent|) == (sent, if rest == [] then later else [rest] + later)
  {
    var c := [sent + rest] + later;
    assert c[0][..|sent|] == sent && c[0][|sent|..] == rest;
    assert c[1..] == later;
    var pad: seq<byte> := seq(0, _ => 0);
    assert pad == [];
    assert Receive(c, |sent|).0 == sent + pad;
    assert sent + pad == sent;
    assert Receive(c, |sent|).1 == if rest == [] then later else [rest] + later;
  }

  /** A TCP connection as this end sees it. */
  class NetworkStream {
    /** Data the peer has sent that was not read yet, in the chunks successive reads can deliver. */
    var incoming: seq<seq<byte>>
    /** Every byte written to the peer so far. */
    var outgoing: seq<byte>

    ghost predicate Valid()
      reads this
    {
      forall k :: 0 <= k < |incoming| ==> incoming[k] != []
    }

    constructor (chunks: seq<seq<byte>>)
      requires forall k :: 0 <= k < |chunks| ==> chunks[k] != []
      ensures Valid() && incoming == chunks && outgoing == []
    {
      incoming := chunks;
      outgoing := [];
    }

    /** stream.Read into a fresh buffer of `count` bytes. */
    method Read(count: nat) returns (data: seq<byte>)
      requires Valid()
      modifies this
      ensures Valid()
      ensures (data, incoming) == Receive(old(incoming), count)
      ensures outgoing == old(outgoing)
    {
      data, incoming := Receive(incoming, count).0, Receive(incoming, count).1;
    }

    method Write(bytes: seq<byte>)
      modifies this
      ensures outgoing == old(outgoing) + bytes
      ensures incoming == old(incoming)
    {
      outgoing := outgoing + bytes;
    }
  }

  /** The length prefix of the next message (ReadInt32 and ReadInt32Async). */
  method ReadInt32(stream: NetworkStream) returns (v: Int32)
    requires stream.Valid()
    modifies stream
    ensures stream.Valid() && stream.outgoing == old(stream.outgoing)
    ensures stream.incoming == Receive(old(stream.incoming), 4).1
    ensures v == FromBigEndian(Receive(old(stream.incoming), 4).0)
  {
    var bytes := stream.Read(4);
    var r := ToInt32(bytes);
    v := r.value;
  }

  /** Writes a length prefix (WriteInt32 and WriteInt32Async). */
  method WriteInt32(stream: NetworkStream, v: Int32)
    modifies stream
    ensures stream.outgoing == old(stream.outgoing) + GetBytes(v)
    ensures stream.incoming == old(stream.incoming)
  {
    stream.Write(GetBytes(v));
  }

  /**
   * Reads into a fresh buffer of `count` bytes (Read and ReadAsync); a
   * negative count fails to allocate the buffer.
   */
  method Read(stream: NetworkStream, count: Int32) returns (r: Result<seq<byte>>)
    requires stream.Valid()
    modifies stream
    ensures stream.Valid() && stream.outgoing == old(stream.outgoing)
    ensures count < 0 ==> r == Err(Overflow) && stream.incoming == old(stream.incoming)
    ensures count >= 0 ==> (r == Ok(Receive(old(stream.incoming), count).0)
                            && stream.incoming == Receive(old(stream.incoming), count).1)
  {
    if count < 0 {
      return Err(Overflow);
    }
    var bytes := stream.Read(count);
    return Ok(bytes);
  }

  /** Writes a whole buffer (Write and WriteAsync). */
  method Write(stream: NetworkStream, bytes: seq<byte>)
    modifies stream
    ensures stream.outgoing == old(stream.outgoing) + bytes
    ensures stream.incoming == old(stream.incoming)
  {
    stream.Write(bytes);
  }
}
