/**
 * The local server: its start/stop lifecycle and the processing of the
 * single request each accepted connection carries.
 */
module Servers {
  import opened Wrappers
  import opened SystemTypes
  import opened Encodings
  import opened NetConfig
  import opened NetUtils
  import opened Requests
  import opened Hosts

  /**
   * A request decoded from the wire is answered by its type's handler,
   * given the peer's address, with the response's bytes or a failure.
   */
  type Handler<!P> = (Request<P>, IPAddress) -> Result<seq<byte>>

  /** The length prefix of the next request on the connection. */
  function RequestSize(chunks: seq<seq<byte>>): Int32
  {
    FromBigEndian(Receive(chunks, 4).0)
  }

  /**
   * The bytes Process writes in answer to the data `chunks` the client
   * sent: four zero bytes for an empty request; otherwise the response's
   * length and bytes, or nothing at all when reading, decoding or
   * answering the request fails. A response of 2^31 bytes or more cannot
   * be built as an array and counts as a failure.
   */
  function Answer<P>(chunks: seq<seq<byte>>, types: Registrations, bson: Serializer<P, RequestType>,
                     respond: Handler<P>, remote: IPAddress): (r: seq<byte>)
    ensures RequestSize(chunks) == 0 ==> r == [0, 0, 0, 0]
    ensures RequestSize(chunks) < 0 ==> r == []
    ensures r != [] && RequestSize(chunks) != 0 ==> |r| >= 4 && FromBigEndian(r) == |r| - 4
  {
    var size := RequestSize(chunks);
    if size == 0 then [0, 0, 0, 0]
    else if size < 0 then []
    else
      var body := Receive(Receive(chunks, 4).1, size).0;
      match FromBytes(types, bson, body)
      case Err(_) => []
      case Ok(req) =>
        match respond(req, remote)
        case Err(_) => []
        case Ok(res) =>
          if |res| >= 0x8000_0000 then []
          else
            DecodeEncode(|res|);
            ToInt32ReadsFourBytes(GetBytes(|res|), res);
            GetBytes(|res|) + res
  }

  /** What Process leaves unread on the connection. */
  function Unread(chunks: seq<seq<byte>>): seq<seq<byte>>
  {
    var size := RequestSize(chunks);
    if size <= 0 then Receive(chunks, 4).1 else Receive(Receive(chunks, 4).1, size).1
  }

  /**
   * Server.Process: reads the length prefix and the request, decodes and
   * answers it. Every failure is swallowed, so the client then gets no
   * bytes beyond those already written.
   */
  method Process<P>(remote: IPAddress, stream: NetworkStream, types: Registrations,
                    bson: Serializer<P, RequestType>, respond: Handler<P>)
    requires stream.Valid()
    modifies stream
    ensures stream.Valid()
    ensures stream.outgoing == old(stream.outgoing) + Answer(old(stream.incoming), types, bson, respond, remote)
    ensures stream.incoming == Unread(old(stream.incoming))
  {
    ghost var chunks := stream.incoming;
    var reqSize := ReadInt32(stream);
    assert reqSize == RequestSize(chunks);
    if reqSize == 0 {
      Write(stream, [0, 0, 0, 0]);
      return;
    }
    var reqBytes := Read(stream, reqSize);
    if reqBytes.Err? {
      return;
    }
    assert reqBytes.value == Receive(Receive(chunks, 4).1, reqSize).0;
    var req := FromBytes(types, bson, reqBytes.value);
    if req.Err? {
      return;
    }
    var res := respond(req.value, remote);
    if res.Err? || |res.value| >= 0x8000_0000 {
      return;
    }
    var resHeaderBytes := GetBytes(|res.value|);
    assert Answer(chunks, types, bson, respond, remote) == resHeaderBytes + res.value;
    Write(stream, resHeaderBytes);
    Write(stream, res.value);
    assert stream.outgoing == old(stream.outgoing) + (resHeaderBytes + res.value);
  }

  /** The connections are pairwise different objects. */
  predicate Distinct(connections: seq<(IPAddress, NetworkStream)>)
  {
    forall i, j :: 0 <= i < j < |connections| ==> connections[i].1 != connections[j].1
  }

  /** The connection's stream holds what Process leaves after starting from `before` (its unread data and what it had sent). */
  ghost predicate Served<P>(conn: (IPAddress, NetworkStream), before: (seq<seq<byte>>, seq<byte>), types: Registrations,
                            bson: Serializer<P, RequestType>, respond: Handler<P>)
    reads conn.1
  {
    && conn.1.outgoing == before.1 + Answer(before.0, types, bson, respond, conn.0)
    && conn.1.incoming == Unread(before.0)
  }

  /**
   * The listening loop over the connections accepted while the server
   * runs, in the order they were accepted: each carries exactly one
   * request, which is processed before the next connection is taken.
   */
  method ProcessingLoop<P>(connections: seq<(IPAddress, NetworkStream)>, types: Registrations,
                           bson: Serializer<P, RequestType>, respond: Handler<P>)
    requires Distinct(connections)
    requires forall k :: 0 <= k < |connections| ==> connections[k].1.Valid()
    modifies set k | 0 <= k < |connections| :: connections[k].1
    ensures forall k :: 0 <= k < |connections| ==>
              Served(connections[k], (old(connections[k].1.incoming), old(connections[k].1.outgoing)), types, bson, respond)
  {
    for i := 0 to |connections|
      invariant forall k :: 0 <= k < |connections| ==> connections[k].1.Valid()
      invariant forall k :: 0 <= k < i ==>
                  Served(connections[k], (old(connections[k].1.incoming), old(connections[k].1.outgoing)), types, bson, respond)
      invariant forall k :: i <= k < |connections| ==>
                  connections[k].1.incoming == old(connections[k].1.incoming)
                  && connections[k].1.outgoing == old(connections[k].1.outgoing)
    {
      var stream := connections[i].1;
      assert forall k :: 0 <= k < |connections| && k != i ==> connections[k].1 != stream;
      Process(connections[i].0, stream, types, bson, respond);
    }
  }

  /** A request of length zero is answered with four zero bytes, whatever follows it. */
  lemma EmptyRequestAnsweredWithZeros<P>(rest: seq<byte>, later: seq<seq<byte>>, types: Registrations,
                                        bson: Serializer<P, RequestType>, respond: Handler<P>, remote: IPAddress)
    ensures Answer([GetBytes(0) + rest] + later, types, bson, respond, remote) == [0, 0, 0, 0]
  {
    ReceiveSent(GetBytes(0), rest, later);
    DecodeEncode(0);
  }

  /** The framed request of a request object, as a client sends it. */
  function Framed<P>(bson: Serializer<P, RequestType>, descriptor: Int32, req: Request<P>): seq<byte>
    requires |RequestBytes(bson, descriptor, req)| < 0x8000_0000
  {
    GetBytes(|RequestBytes(bson, descriptor, req)|) + RequestBytes(bson, descriptor, req)
  }

  /** The body of a framed request is read back whole. */
  lemma FramedRequestReadBack<P>(bson: Serializer<P, RequestType>, descriptor: Int32, req: Request<P>, later: seq<seq<byte>>)
    requires |RequestBytes(bson, descriptor, req)| < 0x8000_0000
    ensures var chunks := [Framed(bson, descriptor, req)] + later;
            var bytes := RequestBytes(bson, descriptor, req);
            RequestSize(chunks) == |bytes| && Receive(Receive(chunks, 4).1, |bytes|).0 == bytes
  {
    var bytes := RequestBytes(bson, descriptor, req);
    ReceiveSent(GetBytes(|bytes|), bytes, later);
    DecodeEncode(|bytes|);
    ReceiveSent(bytes, [], later);
    assert [bytes + []] + later == [bytes] + later;
  }

  /**
   * A request of a registered type, framed as the client frames it, is
   * answered with the framed bytes of its handler's response to the
   * request as decoded, sender identifier lost, when the handler succeeds,
   * and with nothing when it fails.
   */
  lemma RegisteredRequestAnswered<P(!new)>(types: Registrations, bson: Serializer<P, RequestType>, typeOf: P -> RequestType,
                                          respond: Handler<P>, remote: IPAddress, req: Request<P>, later: seq<seq<byte>>)
    requires RoundTrips(bson, typeOf) && Registered(types, typeOf(req.payload))
    requires |RequestBytes(bson, typeOf(req.payload).descriptorField.value, req)| < 0x8000_0000
    ensures var descriptor := typeOf(req.payload).descriptorField.value;
            var answer := Answer([Framed(bson, descriptor, req)] + later, types, bson, respond, remote);
            match respond(Request(req.payload, EmptyGuid), remote)
            case Ok(res) => answer == (if |res| < 0x8000_0000 then GetBytes(|res|) + res else [])
            case Err(_) => answer == []
  {
    var descriptor := typeOf(req.payload).descriptorField.value;
    FramedRequestReadBack(bson, descriptor, req, later);
    RequestRoundTrip(types, bson, typeOf, req);
  }

  /**
   * The whole exchange: the client that framed a registered request reads
   * back exactly the response its handler produced.
   */
  lemma ExchangeDeliversResponse<P(!new), Q, K>(types: Registrations, bson: Serializer<P, RequestType>, typeOf: P -> RequestType,
                                                respond: Handler<P>, remote: IPAddress, req: Request<P>,
                                                responseBson: Serializer<Q, K>, expected: K, res: seq<byte>)
    requires RoundTrips(bson, typeOf) && Registered(types, typeOf(req.payload))
    requires |RequestBytes(bson, typeOf(req.payload).descriptorField.value, req)| < 0x8000_0000
    requires respond(Request(req.payload, EmptyGuid), remote) == Ok(res) && |res| < 0x8000_0000
    ensures var descriptor := typeOf(req.payload).descriptorField.value;
            var answer := Answer([Framed(bson, descriptor, req)], types, bson, respond, remote);
            ReadReply([answer], responseBson, expected) == responseBson.deserialize(res, expected)
  {
    var descriptor := typeOf(req.payload).descriptorField.value;
    RegisteredRequestAnswered(types, bson, typeOf, respond, remote, req, []);
    var answer := Answer([Framed(bson, descriptor, req)], types, bson, respond, remote);
    assert [Framed(bson, descriptor, req)] + [] == [Framed(bson, descriptor, req)];
    assert answer == GetBytes(|res|) + res;
    FramedReplyReadBack(res, [], responseBson, expected);
    assert [answer] == [GetBytes(|res|) + res] + [];
  }

  /** A request whose descriptor has no registered type gets no answer. */
  lemma UnknownRequestUnanswered<P>(types: Registrations, bson: Serializer<P, RequestType>, respond: Handler<P>,
                                   remote: IPAddress, descriptor: Int32, req: Request<P>, later: seq<seq<byte>>)
    requires descriptor !in types
    requires |RequestBytes(bson, descriptor, req)| < 0x8000_0000
    ensures Answer([Framed(bson, descriptor, req)] + later, types, bson, respond, remote) == []
  {
    FramedRequestReadBack(bson, descriptor, req, later);
    UnknownDescriptorRefused(types, bson, descriptor, req);
  }

  /**
   * The server object. It may be started only when it is not already in
   * use (dirty), and stopping joins the listening thread, so stopping a
   * server that has none fails.
   */
  class Server {
    var isRunning: bool
    var isDirty: bool
    /** Whether the listening thread and listener exist. */
    var hasThread: bool

    ghost predicate Valid()
      reads this
    {
      isDirty == hasThread && (isRunning ==> isDirty)
    }

    constructor ()
      ensures Valid() && !isRunning && !isDirty && !hasThread
    {
      isRunning := false;
      isDirty := false;
      hasThread := false;
    }

    /** Server.Start: refused while the server is in use, else marks it used and running and starts the thread. */
    method Start() returns (r: Outcome)
      requires Valid()
      modifies this
      ensures Valid()
      ensures old(isDirty) ==> r == Fail(InvalidOperation) && unchanged(this)
      ensures !old(isDirty) ==> r == Pass && isDirty && isRunning && hasThread
    {
      if isDirty {
        return Fail(InvalidOperation);
      }
      isDirty := true;
      isRunning := true;
      hasThread := true;
      return Pass;
    }

    /**
     * Server.Stop: clears the running flag, then joins the listening
     * thread, and only then drops the thread, stops the listener and marks
     * the server unused. The thread is blocked accepting a connection and
     * reads the cleared flag only after it has served one, so the join
     * ends only if another client connects (`clientConnects`); otherwise
     * Stop never returns (None) and the server stays in use. Without a
     * thread the join fails after the running flag has been cleared.
     */
    method Stop(clientConnects: bool) returns (r: Option<Outcome>)
      requires Valid()
      modifies this
      ensures Valid() && !isRunning
      ensures !old(hasThread) ==> r == Some(Fail(NullReference)) && !hasThread && !isDirty
      ensures old(hasThread) && clientConnects ==> r == Some(Pass) && !hasThread && !isDirty
      ensures old(hasThread) && !clientConnects ==> r == None && hasThread && isDirty
    {
      isRunning := false;
      if !hasThread {
        return Some(Fail(NullReference));
      }
      if !clientConnects {
        return None;
      }
      hasThread := false;
      isDirty := false;
      return Some(Pass);
    }
  }

  /**
   * The lifecycle of one server: stopping before starting fails, a second
   * start is refused, a stop returns once a client connects, and after it
   * the server can be started again. A stop that no client follows never
   * returns, and meanwhile (from another thread) the server cannot be
   * started again.
   */
  method Lifecycle() returns (early: Option<Outcome>, first: Outcome, second: Outcome, stopped: Option<Outcome>,
                              restarted: Outcome, hung: Option<Outcome>, refused: Outcome)
    ensures early == Some(Fail(NullReference))
    ensures first == Pass && second == Fail(InvalidOperation)
    ensures stopped == Some(Pass) && restarted == Pass
    ensures hung == None && refused == Fail(InvalidOperation)
  {
    var server := new Server();
    early := server.Stop(true);
    first := server.Start();
    second := server.Start();
    stopped := server.Stop(true);
    restarted := server.Start();
    hung := server.Stop(false);
    refused := server.Start();
  }
}
