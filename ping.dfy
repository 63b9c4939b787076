/**
 * The ping exchange, by which instances find each other: the request
 * carries who is asking, the response who answers.
 */
module PingMessages {
  import opened Wrappers
  import opened SystemTypes
  import opened Encodings
  import opened NetConfig
  import opened NetUtils
  import opened Requests
  import opened Hosts

  const PingDescriptor: Int32 := 682111482

  const PingRequestType := RequestType("PingRequest", Some(PingDescriptor))

  datatype PingRequest = PingRequest(userName: NetString, machineName: NetString, version: NetString)

  datatype PingResponse = PingResponse(machineGuid: Guid, userName: NetString, machineName: NetString, version: NetString)

  /** A new ping request names the logged-in user, this machine and the application version. */
  function NewPingRequest(local: LocalMachine): (r: PingRequest)
    ensures r.userName == local.userName && r.machineName == local.machineName && r.version == local.version
  {
    PingRequest(local.userName, local.machineName, local.version)
  }

  /**
   * The answer to a ping: this instance's identifier, user, machine name
   * and version. Neither the caller's address nor the request's fields
   * are consulted.
   */
  function GetPingResponse(local: LocalMachine, remote: IPAddress, req: PingRequest): (r: PingResponse)
    ensures r.machineGuid == local.machineGuid && r.version == local.version
    ensures r.userName == local.userName && r.machineName == local.machineName
  {
    PingResponse(local.machineGuid, local.userName, local.machineName, local.version)
  }

  /** Whoever asks and whatever they say, a machine always answers a ping the same way. */
  lemma PingAnswerIgnoresCaller(local: LocalMachine, a: IPAddress, b: IPAddress, p: PingRequest, q: PingRequest)
    ensures GetPingResponse(local, a, p) == GetPingResponse(local, b, q)
  {
  }

  /**
   * The process-wide cache of a ping request's bytes: filled by the first
   * request serialized, then handed out as a copy.
   */
  class PingCache {
    var cached: Option<seq<byte>>

    constructor ()
      ensures cached == None
    {
      cached := None;
    }

    /**
     * PingRequest.GetBytes: serializes on the first call only, and returns
     * a fresh array each time, so that a caller writing into it cannot
     * alter what later calls return.
     */
    method GetBytes<P>(bson: Serializer<P, RequestType>, req: Request<P>) returns (bytes: array<byte>)
      modifies this
      ensures cached == if old(cached).Some? then old(cached) else Some(RequestBytes(bson, PingDescriptor, req))
      ensures fresh(bytes) && bytes[..] == cached.value
    {
      if cached.None? {
        cached := Some(RequestBytes(bson, PingDescriptor, req));
      }
      var data := cached.value;
      bytes := new byte[|data|](i requires 0 <= i < |data| => data[i]);
    }
  }

  /**
   * Two requests through one cache: the second gets the first one's bytes,
   * even after the caller has overwritten the array it received.
   */
  method CopiesAreIndependent<P>(bson: Serializer<P, RequestType>, first: Request<P>, second: Request<P>)
    returns (a: seq<byte>, b: seq<byte>)
    ensures a == b == RequestBytes(bson, PingDescriptor, first)
  {
    var cache := new PingCache();
    var bytesA := cache.GetBytes(bson, first);
    a := bytesA[..];
    bytesA[0] := 0xFF;
    var bytesB := cache.GetBytes(bson, second);
    b := bytesB[..];
  }
}
