/**
 * The clipboard exchange between instances: a peer asks which snapshots
 * exist, fetches one, or is told that a new one is available and then
 * fetches it.
 */
module ClipboardMessages {
  import opened Wrappers
  import opened SystemTypes
  import opened Encodings
  import opened NetConfig
  import opened NetUtils
  import opened DataFormats
  import opened BlockCompression
  import opened ClipboardItems
  import opened ClipboardStates
  import opened ClipboardParser
  import opened Requests
  import opened Hosts
  import opened Sequences

  const InfoDescriptor: Int32 := 782511482
  const StateDescriptor: Int32 := 13352312
  const NotifyDescriptor: Int32 := 1654312

  const InfoRequestType := RequestType("ClipboardInfoRequest", Some(InfoDescriptor))
  const StateRequestType := RequestType("ClipboardStateRequest", Some(StateDescriptor))
  const NotifyRequestType := RequestType("ClipboardNotifyChangedRequest", Some(NotifyDescriptor))

  /** A summary of one snapshot: its identity, the size and kind of its preferred data, and its time. */
  datatype ClipboardStateInfo = ClipboardStateInfo(id: Guid, size: nat, format: AbstractDataFormat, dateTime: DateTime)

  /** Asks for the snapshots the sender does not know yet, or for all of them without a list. */
  datatype InfoRequest = InfoRequest(knownStateGuids: Option<seq<Guid>>)

  datatype InfoResponse = InfoResponse(states: seq<ClipboardStateInfo>)

  /** The peer asked about the snapshot: all are wanted without a list, else those not in it. */
  predicate Wanted(known: Option<seq<Guid>>, s: ClipboardState)
  {
    known.None? || s.id !in known.value
  }

  /**
   * The summary of a snapshot, taken from its preferred serializable item,
   * so always of an image or of text; none when it has no such item.
   */
  function Describe(s: ClipboardState): (r: Option<ClipboardStateInfo>)
    ensures r.None? <==> forall j :: 0 <= j < |s.items| ==> !Eligible(s.items[j], true)
    ensures r.Some? ==> r.value.id == s.id && r.value.dateTime == s.dateTime
    ensures r.Some? ==> r.value.format == Image || r.value.format == AbstractDataFormat.Text
    ensures r.Some? ==> exists k: nat :: IsPreferredIndex(s.items, true, k)
                          && r.value.size == s.items[k].size && r.value.format == GetAbstractFormat(s.items[k].format)
  {
    PreferredSerializableIsImageOrText(s.items);
    match GetPreferredItem(s.items, true)
    case None => None
    case Some(item) => Some(ClipboardStateInfo(s.id, item.size, GetAbstractFormat(item.format), s.dateTime))
  }

  /** The entry of a snapshot in the info response, if it has one. */
  function Entry(known: Option<seq<Guid>>, s: ClipboardState): Option<ClipboardStateInfo>
  {
    if Wanted(known, s) then Describe(s) else None
  }

  /** The summaries of the wanted snapshots that have one, in the order of `local`. */
  function InfoEntries(local: seq<ClipboardState>, known: Option<seq<Guid>>): seq<ClipboardStateInfo>
  {
    Collect(s => Entry(known, s), local)
  }

  /**
   * ClipboardInfoResponse.GetResponse over this machine's snapshots `local`:
   * at most one summary per snapshot, each the summary of a wanted one, so
   * of an image or of text and never of a snapshot the peer listed.
   */
  function GetInfoResponse(local: seq<ClipboardState>, req: InfoRequest): (r: InfoResponse)
    ensures |r.states| <= |local|
    ensures forall info :: info in r.states <==>
              exists i :: 0 <= i < |local| && Wanted(req.knownStateGuids, local[i]) && Describe(local[i]) == Some(info)
    ensures forall info :: info in r.states ==>
              (info.format == Image || info.format == AbstractDataFormat.Text)
              && (req.knownStateGuids.Some? ==> info.id !in req.knownStateGuids.value)
  {
    InfoEntriesMembers(local, req.knownStateGuids);
    InfoResponse(InfoEntries(local, req.knownStateGuids))
  }

  /** The summaries are those of the wanted snapshots that have one. */
  lemma InfoEntriesMembers(local: seq<ClipboardState>, known: Option<seq<Guid>>)
    ensures forall info :: info in InfoEntries(local, known) <==>
              exists i :: 0 <= i < |local| && Wanted(known, local[i]) && Describe(local[i]) == Some(info)
  {
    forall info
      ensures info in InfoEntries(local, known) <==>
              exists i :: 0 <= i < |local| && Wanted(known, local[i]) && Describe(local[i]) == Some(info)
    {
      CollectMember(s => Entry(known, s), local, info);
    }
  }

  /**
   * The info response is exact and ordered: it holds one summary for each
   * wanted snapshot that has a serializable item, and nothing else, in the
   * order of the local history.
   */
  lemma InfoResponseExact(local: seq<ClipboardState>, known: Option<seq<Guid>>) returns (idx: seq<nat>)
    ensures |idx| == |InfoEntries(local, known)|
    ensures forall k :: 0 <= k < |idx| ==> idx[k] < |local| && Wanted(known, local[idx[k]])
                                           && Describe(local[idx[k]]) == Some(InfoEntries(local, known)[k])
    ensures forall k, l :: 0 <= k < l < |idx| ==> idx[k] < idx[l]
    ensures forall i :: 0 <= i < |local| && Wanted(known, local[i]) && Describe(local[i]).Some? ==> i in idx
  {
    idx := CollectExact(s => Entry(known, s), local);
  }

  /** Without a list of known snapshots, every snapshot with a serializable item is summarised. */
  lemma AllSummarisedWithoutList(local: seq<ClipboardState>, i: nat)
    requires i < |local| && Describe(local[i]).Some?
    ensures Describe(local[i]).value in InfoEntries(local, None)
  {
    var idx := InfoResponseExact(local, None);
    var k :| 0 <= k < |idx| && idx[k] == i;
  }

  /** A snapshot the peer listed as known is never summarised. */
  lemma KnownNeverSummarised(local: seq<ClipboardState>, known: seq<Guid>, info: ClipboardStateInfo)
    requires info in InfoEntries(local, Some(known))
    ensures info.id !in known
  {
    var idx := InfoResponseExact(local, Some(known));
    var k :| 0 <= k < |idx| && InfoEntries(local, Some(known))[k] == info;
  }

  /** Asks for the data of one snapshot. */
  datatype StateRequest = StateRequest(stateGuid: Guid)

  /** The data of a snapshot, or an error flag with no data. */
  datatype StateResponse = StateResponse(stateGuid: Guid, buffer: Option<seq<byte>>, format: DataFormat, dateTime: DateTime, isError: bool)

  /** The position of the first snapshot with the identifier. */
  function FirstWithId(local: seq<ClipboardState>, id: Guid): (r: Option<nat>)
    ensures r.None? <==> forall i :: 0 <= i < |local| ==> local[i].id != id
    ensures r.Some? ==> r.value < |local| && local[r.value].id == id
                        && forall i :: 0 <= i < r.value ==> local[i].id != id
  {
    if local == [] then None
    else if local[0].id == id then Some(0)
    else match FirstWithId(local[1..], id)
      case None => None
      case Some(i) => Some(i + 1)
  }

  /** The item can be sent to another machine. */
  predicate Serializable(item: ClipboardItem)
  {
    CanSerialize(GetAbstractFormat(item.format))
  }

  /** The position of the first item that can be sent to another machine. */
  function FirstSerializable(items: seq<ClipboardItem>): (r: Option<nat>)
    ensures r.None? <==> forall i :: 0 <= i < |items| ==> !Serializable(items[i])
    ensures r.Some? ==> r.value < |items| && Serializable(items[r.value])
                        && forall i :: 0 <= i < r.value ==> !Serializable(items[i])
  {
    if items == [] then None
    else if Serializable(items[0]) then Some(0)
    else match FirstSerializable(items[1..])
      case None => None
      case Some(i) => Some(i + 1)
  }

  /**
   * ClipboardStateResponse.GetResponse: the first snapshot with the
   * identifier answers with the data and format of its first serializable
   * item; one without such an item answers with the error flag and no
   * data. An unknown identifier dereferences a missing snapshot.
   */
  function GetStateResponse(c: Codec, local: seq<ClipboardState>, id: Guid): (r: Result<StateResponse>)
    ensures r.Err? <==> forall i :: 0 <= i < |local| ==> local[i].id != id
    ensures r.Err? ==> r.error == NullReference
    ensures r.Ok? ==> r.value.stateGuid == id
                      && r.value.dateTime == local[FirstWithId(local, id).value].dateTime
    ensures r.Ok? ==> (r.value.isError <==> r.value.buffer.None?)
    ensures r.Ok? && r.value.isError ==> r.value.format == 0
                                         && forall j :: 0 <= j < |local[FirstWithId(local, id).value].items| ==>
                                              !Serializable(local[FirstWithId(local, id).value].items[j])
    ensures r.Ok? && !r.value.isError ==>
              var items := local[FirstWithId(local, id).value].items;
              exists k :: 0 <= k < |items| && Serializable(items[k]) && (forall j :: 0 <= j < k ==> !Serializable(items[j]))
                          && r.value.buffer == Some(LogicalBytes(c, items[k])) && r.value.format == items[k].format
  {
    match FirstWithId(local, id)
    case None => Err(NullReference)
    case Some(i) =>
      var state := local[i];
      match FirstSerializable(state.items)
      case Some(k) =>
        var item := state.items[k];
        Ok(StateResponse(id, Some(LogicalBytes(c, item)), item.format, state.dateTime, false))
      case None => Ok(StateResponse(id, None, 0, state.dateTime, true))
  }

  /**
   * The state response sends the first serializable item, not the
   * preferred one: a snapshot holding text before an image is described
   * as an image but fetched as text.
   */
  lemma StateResponseTakesFirstNotPreferred(c: Codec, id: Guid, when: DateTime, text: ClipboardItem, image: ClipboardItem)
    requires text.format == DataFormat.Text && image.format == DataFormat.Dib
    ensures var s := ClipboardState(id, when, [text, image]);
            && Describe(s).value.format == Image
            && GetStateResponse(c, [s], id).value.format == DataFormat.Text
  {
    var s := ClipboardState(id, when, [text, image]);
    assert Eligible(text, true) && Rank(image) > Rank(text);
    assert s.items[1..] == [image];
    assert PreferredIndex(s.items, true) == Some(1);
    assert FirstSerializable(s.items) == Some(0);
  }

  /** Tells the peer that a snapshot is available. */
  datatype NotifyRequest = NotifyRequest(stateGuid: Guid)

  datatype NotifyResponse = NotifyResponse

  /** The answer to a notification is always empty; the snapshot is fetched in the background. */
  function GetNotifyResponse(remote: IPAddress, id: Guid): NotifyResponse
  {
    NotifyResponse
  }

  /** What this machine knows of another instance: the host and the snapshots fetched from it. */
  class RemoteClipboardState {
    const identity: Host
    var states: seq<ClipboardState>

    constructor (identity: Host, states: seq<ClipboardState>)
      ensures this.identity == identity && this.states == states
    {
      this.identity := identity;
      this.states := states;
    }
  }

  /** The position of the first known instance at the address. */
  function FirstHostAt(remotes: seq<RemoteClipboardState>, address: IPAddress): (r: int)
    ensures -1 <= r < |remotes|
    ensures r == -1 <==> forall i :: 0 <= i < |remotes| ==> remotes[i].identity.endPoint.address != address
    ensures r >= 0 ==> remotes[r].identity.endPoint.address == address
                       && forall i :: 0 <= i < r ==> remotes[i].identity.endPoint.address != address
  {
    if remotes == [] then -1
    else if remotes[0].identity.endPoint.address == address then 0
    else
      var i := FirstHostAt(remotes[1..], address);
      if i == -1 then -1 else i + 1
  }

  /**
   * The snapshot a successful fetch yields: one item of the received
   * format over the received bytes, not copied. An error answer yields
   * nothing, and so does a failed exchange or an answer without data,
   * whose exception ends the background task.
   */
  function Fetched(c: Codec, reply: Result<StateResponse>): (r: Option<ClipboardState>)
    ensures r.Some? <==> reply.Ok? && !reply.value.isError && reply.value.buffer.Some?
    ensures r.Some? ==> r.value.id == reply.value.stateGuid && r.value.dateTime == reply.value.dateTime
                        && |r.value.items| == 1 && r.value.items[0].format == reply.value.format
                        && r.value.items[0].size == |reply.value.buffer.value|
  {
    match reply
    case Err(_) => None
    case Ok(res) =>
      if res.isError || res.buffer.None? then None
      else Some(ClipboardState(res.stateGuid, res.dateTime, [FromBuffer(c, res.format, res.buffer.value, false, true)]))
  }

  /**
   * The background part of the notification: the first known instance at
   * the notifier's address is asked for the snapshot (`reply` is what that
   * exchange gives), and the fetched snapshot is appended to that
   * instance's list. Nothing else changes.
   */
  method PullNotified(c: Codec, remotes: seq<RemoteClipboardState>, remoteIP: IPAddress, reply: Result<StateResponse>)
    modifies set r | r in remotes
    ensures forall r :: r in remotes ==>
              r.states == (if FirstHostAt(remotes, remoteIP) >= 0 && r == remotes[FirstHostAt(remotes, remoteIP)]
                              && Fetched(c, reply).Some?
                           then old(r.states) + [Fetched(c, reply).value]
                           else old(r.states))
  {
    var i := FirstHostAt(remotes, remoteIP);
    if i < 0 {
      return;
    }
    var host := remotes[i];
    var state := Fetched(c, reply);
    if state.Some? {
      host.states := host.states + [state.value];
    }
  }

  /**
   * A notification carries the snapshot across: when the notifier answers
   * the fetch from its own history, the snapshot appended here has the
   * requested identifier and time and holds the data of the notifier's
   * first serializable item, in its format.
   */
  lemma NotifiedSnapshotArrives(c: Codec, local: seq<ClipboardState>, id: Guid)
    requires Lawful(c)
    requires GetStateResponse(c, local, id).Ok? && !GetStateResponse(c, local, id).value.isError
    ensures var s := local[FirstWithId(local, id).value];
            var k := FirstSerializable(s.items).value;
            var pulled := Fetched(c, GetStateResponse(c, local, id));
            && pulled.Some? && pulled.value.id == id && pulled.value.dateTime == s.dateTime
            && pulled.value.items[0].format == s.items[k].format
            && LogicalBytes(c, pulled.value.items[0]) == LogicalBytes(c, s.items[k])
  {
    var res := GetStateResponse(c, local, id).value;
    FactoriesKeepData(c, res.format, res.buffer.value, false, true);
  }
}
