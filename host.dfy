/**
 * A network instance of the application: its identity, the machine it
 * runs on, and the client side of one request/response exchange.
 */
module Hosts {
  import opened Wrappers
  import opened SystemTypes
  import opened Encodings
  import opened NetConfig
  import opened NetUtils
  import opened Requests

  /** The facts about this machine the application reads from its settings and environment. */
  datatype LocalMachine = LocalMachine(machineGuid: Guid, userName: NetString, machineName: NetString, version: NetString)

  /** An instance of the application on some machine. */
  datatype Host = Host(machineGuid: Guid, endPoint: IPEndPoint, userName: NetString, machineName: NetString)

  /** The constructor, which refuses a missing endpoint, user name or machine name. */
  function NewHost(instanceId: Guid, endPoint: Option<IPEndPoint>, userName: Option<NetString>, machineName: Option<NetString>): (r: Result<Host>)
    ensures r.Err? <==> endPoint.None? || userName.None? || machineName.None?
    ensures r.Err? ==> r.error == ArgumentNull
    ensures r.Ok? ==> r.value.machineGuid == instanceId && Some(r.value.endPoint) == endPoint
                      && Some(r.value.userName) == userName && Some(r.value.machineName) == machineName
  {
    if endPoint.None? || userName.None? || machineName.None? then Err(ArgumentNull)
    else Ok(Host(instanceId, endPoint.value, userName.value, machineName.value))
  }

  /** Host.Equals: two hosts are the same instance when their machine identifiers agree. */
  function SameHost(a: Host, b: Host): (r: bool)
    ensures r <==> a.machineGuid == b.machineGuid
    ensures r ==> forall guidHash: Guid -> int :: HashCode(guidHash, a) == HashCode(guidHash, b)
    ensures a.machineGuid == b.machineGuid && a.endPoint != b.endPoint ==> r
  {
    a.machineGuid == b.machineGuid
  }

  /** Host.GetHashCode: the hash of the machine identifier, under the runtime's Guid hash. */
  function HashCode(guidHash: Guid -> int, h: Host): int
  {
    guidHash(h.machineGuid)
  }

  /**
   * Identity is the machine identifier alone: hosts that agree on it are
   * equal and hash alike whatever their endpoints and names, and equality
   * is an equivalence.
   */
  lemma IdentityIsMachineGuid(guidHash: Guid -> int, a: Host, b: Host, c: Host)
    ensures SameHost(a, b) <==> a.machineGuid == b.machineGuid
    ensures SameHost(a, b) ==> HashCode(guidHash, a) == HashCode(guidHash, b)
    ensures SameHost(a, a)
    ensures SameHost(a, b) ==> SameHost(b, a)
    ensures SameHost(a, b) && SameHost(b, c) ==> SameHost(a, c)
  {
  }

  /** Host.Loopback: this machine's instance at 127.0.0.1 on the application port. */
  function Loopback(local: LocalMachine): (h: Host)
    ensures h.endPoint.address == [127, 0, 0, 1] && h.endPoint.port == Port
    ensures h.machineGuid == local.machineGuid
  {
    Host(local.machineGuid, NetConfig.Loopback, local.userName, local.machineName)
  }

  /**
   * What the client makes of the reply on the connection: a length, read
   * as four big-endian bytes, and then that many bytes read as the
   * expected response type. A length whose top bit is set is negative and
   * cannot be allocated; a connection the peer closed without a reply
   * reads as a zero length and decodes an empty body.
   */
  function ReadReply<Q, K>(chunks: seq<seq<byte>>, bson: Serializer<Q, K>, expected: K): (r: Result<Q>)
    ensures |chunks| > 0 && |chunks[0]| >= 4 && chunks[0][0] >= 0x80 ==> r == Err(Overflow)
    ensures chunks == [] ==> r == bson.deserialize([], expected)
  {
    assert |chunks| > 0 && |chunks[0]| >= 4 ==> Receive(chunks, 4).0 == chunks[0][..4];
    var size := FromBigEndian(Receive(chunks, 4).0);
    if size < 0 then Err(Overflow)
    else bson.deserialize(Receive(Receive(chunks, 4).1, size).0, expected)
  }

  /**
   * Host.SendAsync on an open connection: a missing request is refused
   * before anything is sent; otherwise the request's length, its bytes,
   * and then the framed reply is read and decoded.
   */
  method SendAsync<P, Q, K>(stream: NetworkStream, requestBson: Serializer<P, RequestType>, descriptor: Int32,
                            request: Option<Request<P>>, responseBson: Serializer<Q, K>, expected: K)
    returns (r: Result<Q>)
    requires stream.Valid()
    requires request.Some? ==> |RequestBytes(requestBson, descriptor, request.value)| < 0x8000_0000
    modifies stream
    ensures stream.Valid()
    ensures request.None? ==> r == Err(ArgumentNull) && stream.incoming == old(stream.incoming)
                              && stream.outgoing == old(stream.outgoing)
    ensures request.Some? ==>
              var bytes := RequestBytes(requestBson, descriptor, request.value);
              && stream.outgoing == old(stream.outgoing) + GetBytes(|bytes|) + bytes
              && r == ReadReply(old(stream.incoming), responseBson, expected)
  {
    if request.None? {
      return Err(ArgumentNull);
    }
    var bytes := RequestBytes(requestBson, descriptor, request.value);
    WriteInt32(stream, |bytes|);
    Write(stream, bytes);
    var size := ReadInt32(stream);
    var body := Read(stream, size);
    if body.Err? {
      return Err(body.error);
    }
    r := responseBson.deserialize(body.value, expected);
  }

  /**
   * A reply framed the way the server frames it (its length, then its
   * bytes) is read back exactly, whatever the peer sends after it.
   */
  lemma FramedReplyReadBack<Q, K>(reply: seq<byte>, later: seq<seq<byte>>, bson: Serializer<Q, K>, expected: K)
    requires |reply| < 0x8000_0000
    ensures ReadReply([GetBytes(|reply|) + reply] + later, bson, expected) == bson.deserialize(reply, expected)
  {
    var chunks := [GetBytes(|reply|) + reply] + later;
    var rest := if reply == [] then later else [reply] + later;
    ReceiveSent(GetBytes(|reply|), reply, later);
    DecodeEncode(|reply|);
    assert Receive(chunks, 4).0 == GetBytes(|reply|);
    assert FromBigEndian(Receive(chunks, 4).0) == |reply|;
    if reply == [] {
      assert Receive(rest, 0).0 == [];
    } else {
      ReceiveSent(reply, [], later);
      assert [reply + []] + later == rest;
    }
  }
}
