/**
 * Request and response messages on the wire. A request is the 4-byte
 * big-endian descriptor of its type followed by its serialized payload; a
 * response is its serialized payload alone. A registry maps descriptors to
 * request types and refuses two types with the same descriptor.
 */
module Requests {
  import opened Wrappers
  import opened Encodings
  import opened NetUtils
  import opened SystemTypes

  /**
   * A request class as the registry sees it: its name and, when it
   * declares a `const int Descriptor` field, that field's value.
   */
  datatype RequestType = RequestType(name: string, descriptorField: Option<Int32>)

  /**
   * The BSON serializer: payloads of type T to bytes, and bytes back to a
   * payload of the type named by a tag of type K (a request type, or the
   * response type the caller expects).
   */
  datatype Serializer<!T, -K> = Serializer(serialize: T -> seq<byte>, deserialize: (seq<byte>, K) -> Result<T>)

  /**
   * Reading serialized bytes as the payload's own type gives the payload
   * back. This is an idealisation of the BSON serializer: time stamps lose
   * their sub-millisecond part on the wire.
   */
  ghost predicate RoundTrips<T(!new), K>(bson: Serializer<T, K>, typeOf: T -> K)
  {
    forall x: T :: bson.deserialize(bson.serialize(x), typeOf(x)) == Ok(x)
  }

  /**
   * A request object: its serialized payload and the sender's identifier,
   * which is excluded from serialization.
   */
  datatype Request<P> = Request(payload: P, senderGuid: Guid)

  /** The descriptors that have a request type, and that type. */
  type Registrations = map<Int32, RequestType>

  /** The binding a type's static initialisation leaves: a descriptor already taken keeps its type. */
  function Bind(types: Registrations, t: RequestType): (r: Registrations)
    ensures types.Keys <= r.Keys
    ensures forall d :: d in types ==> r[d] == types[d]
    ensures t.descriptorField.Some? ==> t.descriptorField.value in r
    ensures r.Keys <= types.Keys + (if t.descriptorField.Some? then {t.descriptorField.value} else {})
  {
    match t.descriptorField
    case None => types
    case Some(d) => if d in types then types else types[d := t]
  }

  /** The registrations left by initialising the types `ts` in this order. */
  function Bindings(ts: seq<RequestType>): Registrations
  {
    if ts == [] then map[] else Bind(Bindings(ts[..|ts| - 1]), ts[|ts| - 1])
  }

  /** The type is registered under its own descriptor. */
  predicate Registered(types: Registrations, t: RequestType)
  {
    t.descriptorField.Some? && t.descriptorField.value in types && types[t.descriptorField.value] == t
  }

  /**
   * Whoever is initialised first owns a descriptor: after the types `ts`
   * have been initialised, each descriptor any of them declares belongs to
   * the first of them that declares it.
   */
  lemma {:induction false} FirstDeclarationWins(ts: seq<RequestType>, i: nat)
    requires i < |ts| && ts[i].descriptorField.Some?
    ensures var d := ts[i].descriptorField.value;
            d in Bindings(ts) &&
            exists k :: 0 <= k <= i && ts[k].descriptorField == Some(d) && Bindings(ts)[d] == ts[k]
                        && forall j :: 0 <= j < k ==> ts[j].descriptorField != Some(d)
    decreases |ts|, 0
  {
    var d := ts[i].descriptorField.value;
    var init := ts[..|ts| - 1];
    var last := ts[|ts| - 1];
    if i == |ts| - 1 {
      if d in Bindings(init) {
        DeclaredBound(init, d);
        var k :| 0 <= k < |init| && init[k].descriptorField == Some(d) && Bindings(init)[d] == init[k]
                 && forall j :: 0 <= j < k ==> init[j].descriptorField != Some(d);
        assert ts[k] == init[k];
      } else {
        forall j | 0 <= j < i
          ensures ts[j].descriptorField != Some(d)
        {
          if ts[j].descriptorField == Some(d) {
            assert init[j] == ts[j];
            FirstDeclarationWins(init, j);
          }
        }
      }
    } else {
      assert init[i] == ts[i];
      FirstDeclarationWins(init, i);
      var k :| 0 <= k <= i && init[k].descriptorField == Some(d) && Bindings(init)[d] == init[k]
               && forall j :: 0 <= j < k ==> init[j].descriptorField != Some(d);
      assert ts[k] == init[k];
      forall j | 0 <= j < k
        ensures ts[j].descriptorField != Some(d)
      {
        assert ts[j] == init[j];
      }
    }
  }

  /** A bound descriptor was declared by some type, the first of which owns it. */
  lemma DeclaredBound(ts: seq<RequestType>, d: Int32)
    requires d in Bindings(ts)
    ensures d in Bindings(ts)
    ensures exists k :: 0 <= k < |ts| && ts[k].descriptorField == Some(d) && Bindings(ts)[d] == ts[k]
                        && forall j :: 0 <= j < k ==> ts[j].descriptorField != Some(d)
    decreases |ts|, 1
  {
    var init := ts[..|ts| - 1];
    if d in Bindings(init) {
      DeclaredBound(init, d);
      var k :| 0 <= k < |init| && init[k].descriptorField == Some(d) && Bindings(init)[d] == init[k]
               && forall j :: 0 <= j < k ==> init[j].descriptorField != Some(d);
      assert ts[k] == init[k];
      forall j | 0 <= j < k
        ensures ts[j].descriptorField != Some(d)
      {
        assert ts[j] == init[j];
      }
    } else {
      FirstDeclarationWins(ts, |ts| - 1);
    }
  }

  /** The process-wide table of request types, filled by the types' static initialisation. */
  class Registry {
    var types: Registrations

    constructor ()
      ensures types == map[]
    {
      types := map[];
    }

    /**
     * The static initialisation of request type `t`: a type without a
     * constant integer descriptor field fails, the descriptor is bound to
     * `t` unless it is taken, and a descriptor taken by another type fails.
     * Either failure is an InvalidProgramException thrown by the static
     * constructor, so the code that first touches the type sees it wrapped
     * in a TypeInitializationException.
     */
    method Register(t: RequestType) returns (r: Result<Int32>)
      modifies this
      ensures types == Bind(old(types), t)
      ensures r.Ok? <==> Registered(types, t)
      ensures r.Ok? ==> Some(r.value) == t.descriptorField
      ensures r.Err? ==> r.error == InvalidProgram
    {
      if t.descriptorField.None? {
        return Err(InvalidProgram);
      }
      var d := t.descriptorField.value;
      if d !in types {
        types := types[d := t];
      }
      if types[d] != t {
        return Err(InvalidProgram);
      }
      return Ok(d);
    }
  }

  /**
   * The GetOrAdd binding is idempotent: binding the same type again changes
   * nothing, and the type is bound exactly when its descriptor was free or
   * already its own. (The runtime runs a type's static initialisation only
   * once; this is about the table operation alone.)
   */
  lemma BindTwice(types: Registrations, t: RequestType)
    ensures Bind(Bind(types, t), t) == Bind(types, t)
    ensures Registered(Bind(types, t), t) <==> t.descriptorField.Some? && (t.descriptorField.value !in types || types[t.descriptorField.value] == t)
  {
  }

  /** The bytes of a request: its type's descriptor, most significant byte first, then the payload. */
  function RequestBytes<P>(bson: Serializer<P, RequestType>, descriptor: Int32, req: Request<P>): (r: seq<byte>)
    ensures |r| == 4 + |bson.serialize(req.payload)|
    ensures r[..4] == GetBytes(descriptor) && r[4..] == bson.serialize(req.payload)
  {
    GetBytes(descriptor) + bson.serialize(req.payload)
  }

  /**
   * Request.FromBytes: the descriptor from the first four bytes, then the
   * rest read as the registered type. Too few bytes fail as BitConverter
   * does, and a descriptor without a type is an ArgumentException. The
   * sender identifier is not on the wire and comes back empty.
   */
  function FromBytes<P>(types: Registrations, bson: Serializer<P, RequestType>, bytes: seq<byte>): (r: Result<Request<P>>)
    ensures |bytes| == 0 ==> r == Err(ArgumentOutOfRange)
    ensures 0 < |bytes| < 4 ==> r == Err(Argument)
    ensures |bytes| >= 4 && FromBigEndian(bytes) !in types ==> r == Err(Argument)
    ensures |bytes| >= 4 && FromBigEndian(bytes) in types ==>
              match bson.deserialize(bytes[4..], types[FromBigEndian(bytes)])
              case Ok(p) => r == Ok(Request(p, EmptyGuid))
              case Err(e) => r == Err(e)
  {
    var head := if |bytes| < 4 then bytes else bytes[..4];
    match ToInt32(head)
    case Err(e) => Err(e)
    case Ok(descriptor) =>
      if descriptor !in types then Err(Argument)
      else
        match bson.deserialize(bytes[4..], types[descriptor])
        case Ok(p) => Ok(Request(p, EmptyGuid))
        case Err(e) => Err(e)
  }

  /**
   * A request of a registered type survives the trip through its bytes,
   * except for the sender identifier, which is not carried.
   */
  lemma RequestRoundTrip<P(!new)>(types: Registrations, bson: Serializer<P, RequestType>, typeOf: P -> RequestType, req: Request<P>)
    requires RoundTrips(bson, typeOf) && Registered(types, typeOf(req.payload))
    ensures FromBytes(types, bson, RequestBytes(bson, typeOf(req.payload).descriptorField.value, req))
            == Ok(Request(req.payload, EmptyGuid))
  {
    var d := typeOf(req.payload).descriptorField.value;
    var bytes := RequestBytes(bson, d, req);
    DecodeEncode(d);
    ToInt32ReadsFourBytes(GetBytes(d), bson.serialize(req.payload));
    assert bytes[..4] == GetBytes(d);
    assert FromBigEndian(bytes) == d;
    assert bson.deserialize(bytes[4..], types[d]) == Ok(req.payload);
  }

  /** A request whose descriptor has no registered type is refused whatever its payload. */
  lemma UnknownDescriptorRefused<P>(types: Registrations, bson: Serializer<P, RequestType>, descriptor: Int32, req: Request<P>)
    requires descriptor !in types
    ensures FromBytes(types, bson, RequestBytes(bson, descriptor, req)) == Err(Argument)
  {
    var bytes := RequestBytes(bson, descriptor, req);
    DecodeEncode(descriptor);
    ToInt32ReadsFourBytes(GetBytes(descriptor), bson.serialize(req.payload));
    assert FromBigEndian(bytes) == descriptor;
  }
}
