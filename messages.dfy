/**
 * The four request types an instance understands, their registration, and
 * the dispatch of each request to its own response: what the server's
 * handler does with a decoded request.
 */
module Messages {
  import opened Wrappers
  import opened SystemTypes
  import opened NetConfig
  import opened NetUtils
  import opened BlockCompression
  import opened ClipboardStates
  import opened Requests
  import opened Hosts
  import opened Servers
  import opened PingMessages
  import opened ClipboardMessages

  /** A request payload of one of the four request types. */
  datatype Message =
    | Ping(ping: PingRequest)
    | Info(info: InfoRequest)
    | StateQuery(state: StateRequest)
    | Notify(notify: NotifyRequest)

  /** A response payload of one of the four response types. */
  datatype Reply =
    | PingReply(ping: PingResponse)
    | InfoReply(info: InfoResponse)
    | StateReply(state: StateResponse)
    | NotifyReply(notify: NotifyResponse)

  /** The response types, as the client names the type it expects to read. */
  datatype ReplyKind = PingKind | InfoKind | StateKind | NotifyKind

  /** The request type of a payload. */
  function TypeOf(m: Message): RequestType
  {
    match m
    case Ping(_) => PingRequestType
    case Info(_) => InfoRequestType
    case StateQuery(_) => StateRequestType
    case Notify(_) => NotifyRequestType
  }

  /** The response type of a reply. */
  function KindOf(r: Reply): ReplyKind
  {
    match r
    case PingReply(_) => PingKind
    case InfoReply(_) => InfoKind
    case StateReply(_) => StateKind
    case NotifyReply(_) => NotifyKind
  }

  /** The response type a client reads after sending a request of this type. */
  function Expected(m: Message): ReplyKind
  {
    match m
    case Ping(_) => PingKind
    case Info(_) => InfoKind
    case StateQuery(_) => StateKind
    case Notify(_) => NotifyKind
  }

  /** The four request types, in the order the application first touches them. */
  const MessageTypes: seq<RequestType> := [PingRequestType, InfoRequestType, StateRequestType, NotifyRequestType]

  /**
   * The four descriptors are pairwise distinct, so once the four types
   * are initialised each is registered under its own descriptor, and a
   * second initialisation of any of them changes nothing.
   */
  lemma AllTypesRegistered(m: Message)
    ensures PingDescriptor != InfoDescriptor && PingDescriptor != StateDescriptor && PingDescriptor != NotifyDescriptor
    ensures InfoDescriptor != StateDescriptor && InfoDescriptor != NotifyDescriptor && StateDescriptor != NotifyDescriptor
    ensures Registered(Bindings(MessageTypes), TypeOf(m))
    ensures Bind(Bindings(MessageTypes), TypeOf(m)) == Bindings(MessageTypes)
  {
    var ts := MessageTypes;
    assert ts[..1][..0] == [] && ts[..2][..1] == ts[..1] && ts[..3][..2] == ts[..2] && ts[..4][..3] == ts[..3];
    assert Bindings(ts[..1]) == map[PingDescriptor := PingRequestType];
    assert Bindings(ts[..2]) == map[PingDescriptor := PingRequestType, InfoDescriptor := InfoRequestType];
    assert Bindings(ts[..3]) == map[PingDescriptor := PingRequestType, InfoDescriptor := InfoRequestType,
                                    StateDescriptor := StateRequestType];
    assert ts[..4] == ts;
    assert Bindings(ts) == map[PingDescriptor := PingRequestType, InfoDescriptor := InfoRequestType,
                               StateDescriptor := StateRequestType, NotifyDescriptor := NotifyRequestType];
  }

  /** What an instance answers from: its own identity, its snapshot history and its compression codec. */
  datatype Machine = Machine(local: LocalMachine, states: seq<ClipboardState>, codec: Codec)

  /**
   * The response a request gets (each request type's GetResponse). Only a
   * state request can fail, when no snapshot has the identifier asked for.
   */
  function GetResponse(env: Machine, m: Message, remote: IPAddress): (r: Result<Reply>)
    ensures r.Err? <==> m.StateQuery? && forall i :: 0 <= i < |env.states| ==> env.states[i].id != m.state.stateGuid
    ensures r.Err? ==> r.error == NullReference
    ensures r.Ok? ==> KindOf(r.value) == Expected(m)
    ensures r.Ok? && m.Ping? ==> r.value.ping.machineGuid == env.local.machineGuid
    ensures r.Ok? && m.Info? ==> r.value.info.states == InfoEntries(env.states, m.info.knownStateGuids)
    ensures r.Ok? && m.StateQuery? ==> r.value.state.stateGuid == m.state.stateGuid
  {
    match m
    case Ping(p) => Ok(PingReply(GetPingResponse(env.local, remote, p)))
    case Info(q) => Ok(InfoReply(GetInfoResponse(env.states, q)))
    case StateQuery(q) =>
      (match GetStateResponse(env.codec, env.states, q.stateGuid)
       case Ok(s) => Ok(StateReply(s))
       case Err(e) => Err(e))
    case Notify(q) => Ok(NotifyReply(GetNotifyResponse(remote, q.stateGuid)))
  }

  /** The server's handler: the serialized response, or the failure that leaves the request unanswered. */
  function Respond(env: Machine, replyBson: Serializer<Reply, ReplyKind>): (h: Handler<Message>)
    ensures forall req: Request<Message>, remote: IPAddress ::
              h(req, remote).Err? <==> GetResponse(env, req.payload, remote).Err?
    ensures forall req: Request<Message>, remote: IPAddress ::
              h(req, remote).Err? ==> h(req, remote).error == NullReference
    ensures RoundTrips(replyBson, KindOf) ==>
              forall req: Request<Message>, remote: IPAddress :: h(req, remote).Ok? ==>
                replyBson.deserialize(h(req, remote).value, Expected(req.payload)) == GetResponse(env, req.payload, remote)
  {
    (req: Request<Message>, remote: IPAddress) =>
      match GetResponse(env, req.payload, remote)
      case Ok(reply) => Ok(replyBson.serialize(reply))
      case Err(e) => Err(e)
  }

  /**
   * End to end: a client that frames any of the four requests and sends it
   * to a server with the four types registered reads back exactly the
   * response that request gets on the server.
   */
  lemma ClientReadsResponse(env: Machine, bson: Serializer<Message, RequestType>, replyBson: Serializer<Reply, ReplyKind>,
                            remote: IPAddress, req: Request<Message>)
    requires RoundTrips(bson, TypeOf) && RoundTrips(replyBson, KindOf)
    requires |RequestBytes(bson, TypeOf(req.payload).descriptorField.value, req)| < 0x8000_0000
    requires GetResponse(env, req.payload, remote).Ok?
    requires |replyBson.serialize(GetResponse(env, req.payload, remote).value)| < 0x8000_0000
    ensures var descriptor := TypeOf(req.payload).descriptorField.value;
            var answer := Answer([Framed(bson, descriptor, req)], Bindings(MessageTypes), bson, Respond(env, replyBson), remote);
            ReadReply([answer], replyBson, Expected(req.payload)) == GetResponse(env, req.payload, remote)
  {
    var reply := GetResponse(env, req.payload, remote).value;
    AllTypesRegistered(req.payload);
    assert Respond(env, replyBson)(Request(req.payload, EmptyGuid), remote) == Ok(replyBson.serialize(reply));
    ExchangeDeliversResponse(Bindings(MessageTypes), bson, TypeOf, Respond(env, replyBson), remote, req,
                             replyBson, Expected(req.payload), replyBson.serialize(reply));
  }

  /** A state request for a snapshot the server does not have gets no answer at all. */
  lemma UnknownStateUnanswered(env: Machine, bson: Serializer<Message, RequestType>, replyBson: Serializer<Reply, ReplyKind>,
                               remote: IPAddress, id: Guid, sender: Guid)
    requires RoundTrips(bson, TypeOf)
    requires forall i :: 0 <= i < |env.states| ==> env.states[i].id != id
    requires |RequestBytes(bson, StateDescriptor, Request(StateQuery(StateRequest(id)), sender))| < 0x8000_0000
    ensures Answer([Framed(bson, StateDescriptor, Request(StateQuery(StateRequest(id)), sender))], Bindings(MessageTypes),
                   bson, Respond(env, replyBson), remote) == []
  {
    var req := Request(StateQuery(StateRequest(id)), sender);
    AllTypesRegistered(req.payload);
    assert GetResponse(env, req.payload, remote) == Err(NullReference);
    assert Respond(env, replyBson)(Request(req.payload, EmptyGuid), remote) == Err(NullReference);
    RegisteredRequestAnswered(Bindings(MessageTypes), bson, TypeOf, Respond(env, replyBson), remote, req, []);
    assert [Framed(bson, StateDescriptor, req)] + [] == [Framed(bson, StateDescriptor, req)];
  }
}
