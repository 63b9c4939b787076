/**
 * The list of application instances on the local networks: which devices
 * run the application, and how the list shown to the user is brought up
 * to date after each scan.
 */
module Scanners {
  import opened Wrappers
  import opened SystemTypes
  import opened NetConfig
  import opened Encodings
  import opened NetUtils
  import opened Requests
  import opened Sequences
  import opened Hosts
  import opened PingMessages
  import opened Lan

  /**
   * What sending the ping request to one device gives: its answer; a
   * SocketException or TimeoutException (the connection was refused or
   * nothing came in time), which the probe catches; or any other
   * exception, which escapes the probe and faults the whole search.
   */
  datatype ProbeOutcome = Answered(response: PingResponse) | Unreachable | Faulted(error: Exception)

  /**
   * A probe whose connection was accepted: the reply as the client reads
   * it. Reading the reply never raises one of the exceptions the probe
   * catches, so a reply that cannot be read is a fault.
   */
  function Replied(reply: Result<PingResponse>): (o: ProbeOutcome)
    ensures o.Unreachable? == false
    ensures o.Answered? <==> reply.Ok?
    ensures reply.Ok? ==> o.response == reply.value
    ensures reply.Err? ==> o.error == reply.error
  {
    match reply
    case Ok(res) => Answered(res)
    case Err(e) => Faulted(e)
  }

  /**
   * The instance a device's probe describes, at the application port. A
   * device that was unreachable gives none, and so does this machine's own
   * answer; a faulted probe gives none here, but `FindAppHosts` never gets
   * that far.
   */
  function AppHost(address: IPv4, outcome: ProbeOutcome, localGuid: Guid): (r: Option<Host>)
    ensures r.Some? <==> outcome.Answered? && outcome.response.machineGuid != localGuid
    ensures r.Some? ==> && r.value.machineGuid == outcome.response.machineGuid
                        && r.value.endPoint == IPEndPoint(address, Port)
                        && r.value.userName == outcome.response.userName
                        && r.value.machineName == outcome.response.machineName
  {
    match outcome
    case Answered(res) =>
      if res.machineGuid == localGuid then None
      else Some(Host(res.machineGuid, IPEndPoint(address, Port), res.userName, res.machineName))
    case _ => None
  }

  /** Probes a device: `ping` is what the exchange with that device gives. */
  function Probe(ping: IPv4 -> ProbeOutcome, localGuid: Guid): IPv4 -> Option<Host>
  {
    (a: IPv4) => AppHost(a, ping(a), localGuid)
  }

  /** Some host in the list has the machine identifier. */
  predicate HasGuid(hosts: seq<Host>, g: Guid)
  {
    exists i :: 0 <= i < |hosts| && hosts[i].machineGuid == g
  }

  /** The machine identifiers of the hosts. */
  function Guids(hosts: seq<Host>): set<Guid>
  {
    set i | 0 <= i < |hosts| :: hosts[i].machineGuid
  }

  /** No two hosts in the list share a machine identifier. */
  predicate DistinctGuids(hosts: seq<Host>)
  {
    forall i, j :: 0 <= i < j < |hosts| ==> hosts[i].machineGuid != hosts[j].machineGuid
  }

  /** Appends the host unless one with its machine identifier is already listed. */
  function AddNew(hosts: seq<Host>, h: Host): seq<Host>
  {
    if HasGuid(hosts, h.machineGuid) then hosts else hosts + [h]
  }

  /** The hosts of `hs` added one after the other, each unless its identifier is already listed. */
  function AddAll(hosts: seq<Host>, hs: seq<Host>): seq<Host>
  {
    if hs == [] then hosts else AddNew(AddAll(hosts, hs[..|hs| - 1]), hs[|hs| - 1])
  }

  /**
   * GroupBy on the machine identifier, then the first of each group, in
   * order of first appearance: one host per identifier, each the first
   * one with its identifier.
   */
  function DistinctByGuid(hs: seq<Host>): (r: seq<Host>)
    ensures DistinctGuids(r)
    ensures Guids(r) == Guids(hs)
    ensures forall k :: 0 <= k < |r| ==> FirstFrom(hs, r[k])
  {
    FirstKept(hs);
    AddAllFacts([], hs);
    AddAll([], hs)
  }

  /** The first exception a probe of the devices raised, in device order, if any did. */
  function FirstFault(devices: seq<IPv4>, ping: IPv4 -> ProbeOutcome): (r: Option<Exception>)
    ensures r.None? <==> forall i :: 0 <= i < |devices| ==> !ping(devices[i]).Faulted?
    ensures r.Some? ==> exists i :: 0 <= i < |devices| && ping(devices[i]) == Faulted(r.value)
  {
    if devices == [] then None
    else if ping(devices[0]).Faulted? then Some(ping(devices[0]).error)
    else
      var rest := FirstFault(devices[1..], ping);
      assert forall i :: 1 <= i < |devices| ==> devices[i] == devices[1..][i - 1];
      rest
  }

  /** The identifiers the devices answered with. */
  function AnsweredGuids(devices: seq<IPv4>, ping: IPv4 -> ProbeOutcome): set<Guid>
  {
    set i | 0 <= i < |devices| && ping(devices[i]).Answered? :: ping(devices[i]).response.machineGuid
  }

  /**
   * FindAppHostsAsync: every device is probed and the search awaits all
   * the probes. A probe that raised an exception other than the caught
   * ones faults the whole search; otherwise the devices that answered as
   * another instance, one host per machine identifier.
   */
  function FindAppHosts(devices: seq<IPv4>, ping: IPv4 -> ProbeOutcome, localGuid: Guid): (r: Result<seq<Host>>)
    ensures r.Err? <==> exists i :: 0 <= i < |devices| && ping(devices[i]).Faulted?
    ensures r.Ok? ==> DistinctGuids(r.value) && Guids(r.value) == AnsweredGuids(devices, ping) - {localGuid}
  {
    match FirstFault(devices, ping)
    case Some(e) => Err(e)
    case None =>
      ProbedGuids(devices, ping, localGuid);
      Ok(DistinctByGuid(Collect(Probe(ping, localGuid), devices)))
  }

  /** The identifiers of the probed hosts are those answered, without this machine's. */
  lemma ProbedGuids(devices: seq<IPv4>, ping: IPv4 -> ProbeOutcome, localGuid: Guid)
    ensures Guids(Collect(Probe(ping, localGuid), devices)) == AnsweredGuids(devices, ping) - {localGuid}
  {
    var f := Probe(ping, localGuid);
    var hs := Collect(f, devices);
    forall g | g in Guids(hs) ensures g in AnsweredGuids(devices, ping) - {localGuid} {
      var k :| 0 <= k < |hs| && hs[k].machineGuid == g;
      CollectMember(f, devices, hs[k]);
      var i :| 0 <= i < |devices| && f(devices[i]) == Some(hs[k]);
    }
    forall g | g in AnsweredGuids(devices, ping) - {localGuid} ensures g in Guids(hs) {
      var i :| 0 <= i < |devices| && ping(devices[i]).Answered? && ping(devices[i]).response.machineGuid == g;
      var h := f(devices[i]).value;
      CollectMember(f, devices, h);
      var k :| 0 <= k < |hs| && hs[k] == h;
    }
  }

  /** Appending a host adds its identifier to the identifiers of the list. */
  lemma GuidsSnoc(s: seq<Host>, h: Host)
    ensures Guids(s + [h]) == Guids(s) + {h.machineGuid}
  {
    var r := s + [h];
    forall g | g in Guids(r) ensures g in Guids(s) + {h.machineGuid} {
      var i :| 0 <= i < |r| && r[i].machineGuid == g;
      if i < |s| {
        assert r[i] == s[i];
      }
    }
    forall g | g in Guids(s) ensures g in Guids(r) {
      var i :| 0 <= i < |s| && s[i].machineGuid == g;
      assert r[i] == s[i];
    }
    assert r[|s|] == h;
  }

  /**
   * Adding hosts one by one keeps the list as its prefix, yields the union
   * of the identifiers, and appends only hosts of `hs` whose identifier was
   * not listed before.
   */
  lemma {:induction false} AddAllFacts(hosts: seq<Host>, hs: seq<Host>)
    ensures var r := AddAll(hosts, hs);
            && |hosts| <= |r| && r[..|hosts|] == hosts
            && Guids(r) == Guids(hosts) + Guids(hs)
            && (forall k :: |hosts| <= k < |r| ==> r[k] in hs && !HasGuid(hosts, r[k].machineGuid))
            && (DistinctGuids(hosts) ==> DistinctGuids(r))
  {
    if hs != [] {
      var init := hs[..|hs| - 1];
      var h := hs[|hs| - 1];
      AddAllFacts(hosts, init);
      var before := AddAll(hosts, init);
      assert hs == init + [h];
      GuidsSnoc(init, h);
      forall k | |hosts| <= k < |before| ensures before[k] in hs {
        assert before[k] in init;
      }
      if HasGuid(before, h.machineGuid) {
        var i :| 0 <= i < |before| && before[i].machineGuid == h.machineGuid;
        assert h.machineGuid in Guids(before);
      } else {
        var r := before + [h];
        assert r[..|hosts|] == before[..|hosts|];
        GuidsSnoc(before, h);
        forall k | |hosts| <= k < |r| ensures !HasGuid(hosts, r[k].machineGuid) {
          if k < |before| {
            assert r[k] == before[k];
          }
        }
        if DistinctGuids(before) {
          forall i, j | 0 <= i < j < |r| ensures r[i].machineGuid != r[j].machineGuid {
            if j == |before| {
              assert r[i] == before[i];
            } else {
              assert r[i] == before[i] && r[j] == before[j];
            }
          }
        }
      }
    }
  }

  /** No host before position i has the identifier of the host at i. */
  predicate FirstOfItsGuid(hs: seq<Host>, i: int)
    requires 0 <= i < |hs|
  {
    forall j :: 0 <= j < i ==> hs[j].machineGuid != hs[i].machineGuid
  }

  /** The host is the first of the list with its identifier. */
  predicate FirstFrom(hs: seq<Host>, h: Host)
  {
    exists i :: 0 <= i < |hs| && hs[i] == h && FirstOfItsGuid(hs, i)
  }

  lemma {:induction false} FirstKept(hs: seq<Host>)
    ensures forall k :: 0 <= k < |AddAll([], hs)| ==> FirstFrom(hs, AddAll([], hs)[k])
  {
    if hs != [] {
      var init := hs[..|hs| - 1];
      var h := hs[|hs| - 1];
      FirstKept(init);
      var before := AddAll([], init);
      var r := AddAll([], hs);
      forall k | 0 <= k < |r|
        ensures FirstFrom(hs, r[k])
      {
        if k < |before| {
          assert r[k] == before[k];
          assert FirstFrom(init, before[k]);
          var i :| 0 <= i < |init| && init[i] == before[k] && FirstOfItsGuid(init, i);
          assert hs[i] == init[i];
          forall j | 0 <= j < i ensures hs[j].machineGuid != hs[i].machineGuid {
            assert hs[j] == init[j];
          }
          assert hs[i] == r[k] && FirstOfItsGuid(hs, i);
        } else {
          AddAllFacts([], init);
          assert !HasGuid(before, h.machineGuid) && r[k] == h;
          forall j | 0 <= j < |hs| - 1 ensures hs[j].machineGuid != h.machineGuid {
            assert init[j] == hs[j];
            assert hs[j].machineGuid in Guids(before);
          }
          assert hs[|hs| - 1] == r[k] && FirstOfItsGuid(hs, |hs| - 1);
        }
      }
    }
  }

  /**
   * The instances found when no probe faulted: never this machine, one
   * per identifier, each the first device to answer with that identifier.
   */
  lemma AppHostsFound(devices: seq<IPv4>, ping: IPv4 -> ProbeOutcome, localGuid: Guid, h: Host)
    requires FindAppHosts(devices, ping, localGuid).Ok?
    requires h in FindAppHosts(devices, ping, localGuid).value
    ensures h.machineGuid != localGuid
    ensures exists d :: 0 <= d < |devices| && Probe(ping, localGuid)(devices[d]) == Some(h)
  {
    var answered := Collect(Probe(ping, localGuid), devices);
    var k :| 0 <= k < |DistinctByGuid(answered)| && DistinctByGuid(answered)[k] == h;
    assert FirstFrom(answered, h);
    var i :| 0 <= i < |answered| && answered[i] == h && FirstOfItsGuid(answered, i);
    CollectMember(Probe(ping, localGuid), devices, h);
  }

  /**
   * A device that accepts the connection and replies with the length
   * FF FF FF FF: the client cannot allocate a buffer of length -1, the
   * OverflowException is not one the probe catches, and the whole search
   * fails, whatever the other devices answered.
   */
  lemma NegativeReplyLengthFaults<K>(devices: seq<IPv4>, ping: IPv4 -> ProbeOutcome, localGuid: Guid, d: nat,
                                     body: seq<byte>, later: seq<seq<byte>>, bson: Serializer<PingResponse, K>, expected: K)
    requires d < |devices|
    requires ping(devices[d]) == Replied(ReadReply([[0xFF, 0xFF, 0xFF, 0xFF] + body] + later, bson, expected))
    ensures ping(devices[d]) == Faulted(Overflow)
    ensures FindAppHosts(devices, ping, localGuid).Err?
  {
    var chunks := [[0xFF, 0xFF, 0xFF, 0xFF] + body] + later;
    assert chunks[0][0] == 0xFF;
  }

  /** A fault among the devices is a fault of an answering candidate. */
  lemma FaultAmongDevices(candidates: seq<IPv4>, pingOk: IPv4 -> bool, ping: IPv4 -> ProbeOutcome)
    ensures var devices := Collect(Answering(pingOk), candidates);
            (exists i :: 0 <= i < |devices| && ping(devices[i]).Faulted?)
            <==> (exists i :: 0 <= i < |candidates| && candidates[i] != Zeros && pingOk(candidates[i]) && ping(candidates[i]).Faulted?)
  {
    var devices := Collect(Answering(pingOk), candidates);
    if i :| 0 <= i < |devices| && ping(devices[i]).Faulted? {
      CollectMember(Answering(pingOk), candidates, devices[i]);
      var j :| 0 <= j < |candidates| && Answering(pingOk)(candidates[j]) == Some(devices[i]);
    }
    if j :| 0 <= j < |candidates| && candidates[j] != Zeros && pingOk(candidates[j]) && ping(candidates[j]).Faulted? {
      assert Answering(pingOk)(candidates[j]) == Some(candidates[j]);
      CollectMember(Answering(pingOk), candidates, candidates[j]);
      var i :| 0 <= i < |devices| && devices[i] == candidates[j];
    }
  }

  /**
   * How one discovery ends: with the instances found; with an exception
   * that UpdateHosts' catch block logs; or with the stack overflow of an
   * address enumeration that never ends, which no catch block sees and
   * which ends the process.
   */
  datatype Scan = Found(hosts: seq<Host>) | Failed | Crashed

  /**
   * One discovery (the body of UpdateHosts' try block): the devices that
   * answer a ping, then the instances among them. The process crashes when
   * the address enumeration does not end. The scan fails when the probe of
   * some candidate that answered the ICMP ping raised an exception other
   * than the caught ones. Otherwise it yields other instances only, one per
   * machine identifier.
   */
  function Discover(interfaces: seq<NetworkInterface>, pingOk: IPv4 -> bool, ping: IPv4 -> ProbeOutcome,
                    localGuid: Guid, fuel: nat): (r: Scan)
    ensures r.Crashed? <==> PossibleHosts(interfaces, fuel).None?
    ensures r.Failed? <==> && PossibleHosts(interfaces, fuel).Some?
                           && var candidates := PossibleHosts(interfaces, fuel).value;
                              exists i :: 0 <= i < |candidates| && candidates[i] != Zeros && pingOk(candidates[i])
                                          && ping(candidates[i]).Faulted?
    ensures r.Found? ==> DistinctGuids(r.hosts) && localGuid !in Guids(r.hosts)
  {
    match FindNetworkDevices(interfaces, pingOk, fuel)
    case None => Crashed
    case Some(devices) =>
      FaultAmongDevices(PossibleHosts(interfaces, fuel).value, pingOk, ping);
      match FindAppHosts(devices, ping, localGuid)
      case Err(_) => Failed
      case Ok(hosts) => Found(hosts)
  }

  /**
   * Every instance a discovery reports is another machine, reached at the
   * application port of a candidate address of the local networks that
   * answered both the ICMP ping and the application's ping request.
   */
  lemma DiscoveredHostsAnswered(interfaces: seq<NetworkInterface>, pingOk: IPv4 -> bool,
                                ping: IPv4 -> ProbeOutcome, localGuid: Guid, fuel: nat, h: Host)
    requires Discover(interfaces, pingOk, ping, localGuid, fuel).Found?
    requires h in Discover(interfaces, pingOk, ping, localGuid, fuel).hosts
    ensures PossibleHosts(interfaces, fuel).Some?
    ensures h.machineGuid != localGuid
    ensures var candidates := PossibleHosts(interfaces, fuel).value;
            exists i :: 0 <= i < |candidates| && candidates[i] != Zeros && pingOk(candidates[i])
                        && ping(candidates[i]).Answered? && ping(candidates[i]).response.machineGuid == h.machineGuid
                        && h.endPoint == IPEndPoint(candidates[i], Port)
  {
    var candidates := PossibleHosts(interfaces, fuel).value;
    var devices := FindNetworkDevices(interfaces, pingOk, fuel).value;
    AppHostsFound(devices, ping, localGuid, h);
    var d :| 0 <= d < |devices| && Probe(ping, localGuid)(devices[d]) == Some(h);
    CollectMember(Answering(pingOk), candidates, devices[d]);
    var i :| 0 <= i < |candidates| && Answering(pingOk)(candidates[i]) == Some(devices[d]);
  }

  /** Keeps a listed host while some active host has its identifier. */
  function StillActive(activeHosts: seq<Host>): Host -> Option<Host>
  {
    (h: Host) => if HasGuid(activeHosts, h.machineGuid) then Some(h) else None
  }

  /** Keeps a listed host while no missing host has its identifier. */
  function NotMissing(missingHosts: seq<Host>): Host -> Option<Host>
  {
    (h: Host) => if HasGuid(missingHosts, h.machineGuid) then None else Some(h)
  }

  /** Keeps a listed host that no active host has the identifier of. */
  function Missing(activeHosts: seq<Host>): Host -> Option<Host>
  {
    (h: Host) => if HasGuid(activeHosts, h.machineGuid) then None else Some(h)
  }

  /**
   * The list after a scan: the listed hosts still active, in their order,
   * then the new active hosts. The listed identifiers become exactly the
   * active ones; the hosts that stay are the listed objects themselves,
   * not refreshed, ahead of the new ones, and every host added is one
   * whose identifier was not listed.
   */
  function Reconciled(currentHosts: seq<Host>, activeHosts: seq<Host>): (r: seq<Host>)
    ensures var kept := Collect(StillActive(activeHosts), currentHosts);
            && Guids(r) == Guids(activeHosts)
            && |kept| <= |r| && r[..|kept|] == kept
            && (forall k :: 0 <= k < |kept| ==> r[k] in currentHosts)
            && (forall k :: |kept| <= k < |r| ==> r[k] in activeHosts && !HasGuid(currentHosts, r[k].machineGuid))
  {
    ReconciledHosts(currentHosts, activeHosts);
    AddAll(Collect(StillActive(activeHosts), currentHosts), activeHosts)
  }

  /** The position of the first host with the identifier, or -1 (IndexOf under Host.Equals). */
  function IndexOfGuid(hosts: seq<Host>, g: Guid): (i: int)
    ensures -1 <= i < |hosts|
    ensures i == -1 <==> !HasGuid(hosts, g)
    ensures i >= 0 ==> hosts[i].machineGuid == g && forall j :: 0 <= j < i ==> hosts[j].machineGuid != g
  {
    if hosts == [] then -1
    else if hosts[0].machineGuid == g then 0
    else
      var i := IndexOfGuid(hosts[1..], g);
      assert forall j :: 1 <= j < |hosts| ==> hosts[j] == hosts[1..][j - 1];
      if i == -1 then -1 else i + 1
  }

  /**
   * ObservableCollection.Remove: drops the first host equal to `h`, that
   * is, with its identifier, and leaves a list without one unchanged.
   */
  function Remove(hosts: seq<Host>, h: Host): (r: seq<Host>)
    ensures var i := IndexOfGuid(hosts, h.machineGuid);
            && (i == -1 ==> r == hosts)
            && (i >= 0 ==> r == hosts[..i] + hosts[i + 1..])
  {
    if hosts == [] then []
    else if hosts[0].machineGuid == h.machineGuid then
      RemoveHead(hosts, h.machineGuid);
      hosts[1..]
    else
      var rest := Remove(hosts[1..], h);
      RemoveBehindHead(hosts, h.machineGuid, rest);
      [hosts[0]] + rest
  }

  /** A host with the identifier at the head is the one removed. */
  lemma RemoveHead(hosts: seq<Host>, g: Guid)
    requires hosts != [] && hosts[0].machineGuid == g
    ensures IndexOfGuid(hosts, g) == 0 && hosts[..0] + hosts[1..] == hosts[1..]
  {
  }

  /** Removing from the tail and putting the head back removes from the whole list. */
  lemma RemoveBehindHead(hosts: seq<Host>, g: Guid, rest: seq<Host>)
    requires hosts != [] && hosts[0].machineGuid != g
    requires var j := IndexOfGuid(hosts[1..], g);
             && (j == -1 ==> rest == hosts[1..])
             && (j >= 0 ==> rest == hosts[1..][..j] + hosts[1..][j + 1..])
    ensures var i := IndexOfGuid(hosts, g);
            && (i == -1 ==> [hosts[0]] + rest == hosts)
            && (i >= 0 ==> [hosts[0]] + rest == hosts[..i] + hosts[i + 1..])
  {
    var j := IndexOfGuid(hosts[1..], g);
    assert IndexOfGuid(hosts, g) == if j == -1 then -1 else j + 1;
    if j >= 0 {
      ConsWithout(hosts, j);
    } else {
      assert [hosts[0]] + hosts[1..] == hosts;
    }
  }

  /** Putting the head back in front of the tail without its j-th element. */
  lemma ConsWithout(hosts: seq<Host>, j: nat)
    requires j + 1 < |hosts|
    ensures [hosts[0]] + (hosts[1..][..j] + hosts[1..][j + 1..]) == hosts[..j + 1] + hosts[j + 2..]
  {
    var lhs := [hosts[0]] + (hosts[1..][..j] + hosts[1..][j + 1..]);
    var rhs := hosts[..j + 1] + hosts[j + 2..];
    assert |lhs| == |rhs|;
    forall k | 0 <= k < |lhs| ensures lhs[k] == rhs[k] {
      if k == 0 {
      } else if k <= j {
        assert lhs[k] == hosts[1..][k - 1];
      } else {
        assert lhs[k] == hosts[1..][k];
      }
    }
  }

  /** In a list without repeated identifiers, removing one host drops every host with its identifier. */
  lemma {:induction false} RemoveDropsAll(hosts: seq<Host>, missing: seq<Host>, h: Host)
    requires DistinctGuids(hosts)
    ensures Remove(Collect(NotMissing(missing), hosts), h) == Collect(NotMissing(missing + [h]), hosts)
  {
    if hosts != [] {
      var x := hosts[0];
      var rest := hosts[1..];
      assert DistinctGuids(rest) by {
        forall i, j | 0 <= i < j < |rest| ensures rest[i].machineGuid != rest[j].machineGuid {
          assert rest[i] == hosts[i + 1] && rest[j] == hosts[j + 1];
        }
      }
      RemoveDropsAll(rest, missing, h);
      assert HasGuid(missing + [h], x.machineGuid) <==> HasGuid(missing, x.machineGuid) || x.machineGuid == h.machineGuid by {
        if HasGuid(missing + [h], x.machineGuid) {
          var i :| 0 <= i < |missing + [h]| && (missing + [h])[i].machineGuid == x.machineGuid;
          if i < |missing| {
            assert (missing + [h])[i] == missing[i];
          }
        }
        if HasGuid(missing, x.machineGuid) {
          var i :| 0 <= i < |missing| && missing[i].machineGuid == x.machineGuid;
          assert (missing + [h])[i] == missing[i];
        }
        if x.machineGuid == h.machineGuid {
          assert (missing + [h])[|missing|] == h;
        }
      }
      var kept := Collect(NotMissing(missing), rest);
      if !HasGuid(missing, x.machineGuid) {
        assert Collect(NotMissing(missing), hosts) == [x] + kept;
        assert ([x] + kept)[0] == x && ([x] + kept)[1..] == kept;
        if x.machineGuid == h.machineGuid {
          forall i | 0 <= i < |rest| ensures rest[i].machineGuid != h.machineGuid {
            assert rest[i] == hosts[i + 1];
          }
          NoneLeft(rest, missing, h);
          assert Collect(NotMissing(missing + [h]), hosts) == Collect(NotMissing(missing + [h]), rest);
        } else {
          assert Collect(NotMissing(missing + [h]), hosts) == [x] + Collect(NotMissing(missing + [h]), rest);
        }
      } else {
        assert Collect(NotMissing(missing), hosts) == kept;
        assert Collect(NotMissing(missing + [h]), hosts) == Collect(NotMissing(missing + [h]), rest);
      }
    }
  }

  /** No host after the first one has its identifier, so none is left to drop. */
  lemma {:induction false} NoneLeft(rest: seq<Host>, missing: seq<Host>, h: Host)
    requires forall i :: 0 <= i < |rest| ==> rest[i].machineGuid != h.machineGuid
    ensures Collect(NotMissing(missing), rest) == Collect(NotMissing(missing + [h]), rest)
  {
    forall i | 0 <= i < |rest|
      ensures NotMissing(missing)(rest[i]) == NotMissing(missing + [h])(rest[i])
    {
      if HasGuid(missing + [h], rest[i].machineGuid) {
        var j :| 0 <= j < |missing + [h]| && (missing + [h])[j].machineGuid == rest[i].machineGuid;
        assert (missing + [h])[j] == missing[j];
      }
      if HasGuid(missing, rest[i].machineGuid) {
        var j :| 0 <= j < |missing| && missing[j].machineGuid == rest[i].machineGuid;
        assert (missing + [h])[j] == missing[j];
      }
    }
    CollectCongruent(NotMissing(missing), NotMissing(missing + [h]), rest);
  }

  /** Nothing listed as missing leaves the list as it is. */
  lemma {:induction false} NothingMissing(hosts: seq<Host>)
    ensures Collect(NotMissing([]), hosts) == hosts
  {
    if hosts != [] {
      NothingMissing(hosts[1..]);
      assert NotMissing([])(hosts[0]) == Some(hosts[0]);
      assert [hosts[0]] + hosts[1..] == hosts;
    }
  }

  /** Dropping the hosts listed as missing is keeping those still active. */
  lemma MissingIsNotActive(hosts: seq<Host>, activeHosts: seq<Host>)
    ensures Collect(NotMissing(Collect(Missing(activeHosts), hosts)), hosts) == Collect(StillActive(activeHosts), hosts)
  {
    var missing := Collect(Missing(activeHosts), hosts);
    forall i | 0 <= i < |hosts|
      ensures NotMissing(missing)(hosts[i]) == StillActive(activeHosts)(hosts[i])
    {
      var g := hosts[i].machineGuid;
      if HasGuid(missing, g) {
        var j :| 0 <= j < |missing| && missing[j].machineGuid == g;
        CollectMember(Missing(activeHosts), hosts, missing[j]);
        var k :| 0 <= k < |hosts| && Missing(activeHosts)(hosts[k]) == Some(missing[j]);
      }
      if !HasGuid(activeHosts, g) {
        assert Missing(activeHosts)(hosts[i]) == Some(hosts[i]);
        CollectMember(Missing(activeHosts), hosts, hosts[i]);
        var j :| 0 <= j < |missing| && missing[j] == hosts[i];
      }
    }
    CollectCongruent(NotMissing(missing), StillActive(activeHosts), hosts);
  }

  /** What the scanner shows: the instances last found, and whether a background thread scans. */
  class LanScanner {
    var backgroundScanningEnabled: bool
    var hasScanningThread: bool
    var currentHosts: seq<Host>

    /** The scanning thread runs exactly when scanning is enabled, and no instance is listed twice. */
    ghost predicate Valid()
      reads this
    {
      hasScanningThread == backgroundScanningEnabled && DistinctGuids(currentHosts)
    }

    constructor (enableBackgroundScanning: bool)
      ensures Valid()
      ensures backgroundScanningEnabled == enableBackgroundScanning && currentHosts == []
    {
      backgroundScanningEnabled := enableBackgroundScanning;
      hasScanningThread := enableBackgroundScanning;
      currentHosts := [];
    }

    /**
     * SetBackgroundScanning: setting the current value changes nothing;
     * otherwise the thread is started or joined and dropped.
     */
    method SetBackgroundScanning(value: bool)
      requires Valid()
      modifies this
      ensures Valid()
      ensures backgroundScanningEnabled == value && currentHosts == old(currentHosts)
      ensures old(backgroundScanningEnabled) == value ==> unchanged(this)
    {
      if value == backgroundScanningEnabled {
        return;
      }
      if value {
        hasScanningThread := true;
      } else {
        hasScanningThread := false;
      }
      backgroundScanningEnabled := value;
    }

    /**
     * UpdateHosts, given how the discovery ended. After a crash the process
     * is gone (alive is false) and nothing more happens; after a caught
     * failure the method returns at once. Otherwise the listed hosts no
     * active host has the identifier of are removed one by one, then each
     * active host whose identifier is not listed is added.
     */
    method UpdateHosts(discovery: Scan) returns (alive: bool)
      requires Valid()
      modifies this
      ensures Valid()
      ensures alive <==> !discovery.Crashed?
      ensures !discovery.Found? ==> unchanged(this)
      ensures discovery.Found? ==> currentHosts == Reconciled(old(currentHosts), discovery.hosts)
      ensures backgroundScanningEnabled == old(backgroundScanningEnabled) && hasScanningThread == old(hasScanningThread)
    {
      if discovery.Crashed? {
        return false;
      }
      if discovery.Failed? {
        return true;
      }
      alive := true;
      var activeHosts := discovery.hosts;
      var missingHosts := Collect(Missing(activeHosts), currentHosts);
      ghost var listed := currentHosts;
      RemoveHosts(missingHosts);
      MissingIsNotActive(listed, activeHosts);
      KeptDistinct(listed, activeHosts);
      AddHosts(activeHosts);
    }

    /** The removal loop: each missing host is removed from the list in turn. */
    method RemoveHosts(missingHosts: seq<Host>)
      requires DistinctGuids(currentHosts)
      modifies this
      ensures currentHosts == Collect(NotMissing(missingHosts), old(currentHosts))
      ensures backgroundScanningEnabled == old(backgroundScanningEnabled) && hasScanningThread == old(hasScanningThread)
    {
      ghost var listed := currentHosts;
      NothingMissing(listed);
      assert missingHosts[..0] == [];
      for i := 0 to |missingHosts|
        invariant currentHosts == Collect(NotMissing(missingHosts[..i]), listed)
        invariant backgroundScanningEnabled == old(backgroundScanningEnabled) && hasScanningThread == old(hasScanningThread)
      {
        RemoveDropsAll(listed, missingHosts[..i], missingHosts[i]);
        assert missingHosts[..i + 1] == missingHosts[..i] + [missingHosts[i]];
        currentHosts := Remove(currentHosts, missingHosts[i]);
      }
      assert missingHosts[..|missingHosts|] == missingHosts;
    }

    /** The adding loop: each active host is appended unless its identifier is listed. */
    method AddHosts(activeHosts: seq<Host>)
      modifies this
      ensures currentHosts == AddAll(old(currentHosts), activeHosts)
      ensures DistinctGuids(old(currentHosts)) ==> DistinctGuids(currentHosts)
      ensures backgroundScanningEnabled == old(backgroundScanningEnabled) && hasScanningThread == old(hasScanningThread)
    {
      ghost var kept := currentHosts;
      assert activeHosts[..0] == [];
      for i := 0 to |activeHosts|
        invariant currentHosts == AddAll(kept, activeHosts[..i])
        invariant backgroundScanningEnabled == old(backgroundScanningEnabled) && hasScanningThread == old(hasScanningThread)
      {
        assert activeHosts[..i + 1][..i] == activeHosts[..i];
        var host := activeHosts[i];
        if !HasGuid(currentHosts, host.machineGuid) {
          currentHosts := currentHosts + [host];
        }
      }
      assert activeHosts[..|activeHosts|] == activeHosts;
      AddAllFacts(kept, activeHosts);
    }
  }

  /** Keeping some of the hosts of a list without repeated identifiers repeats none either. */
  lemma {:induction false} KeptDistinct(hosts: seq<Host>, activeHosts: seq<Host>)
    requires DistinctGuids(hosts)
    ensures DistinctGuids(Collect(StillActive(activeHosts), hosts))
  {
    if hosts != [] {
      var rest := hosts[1..];
      assert DistinctGuids(rest) by {
        forall i, j | 0 <= i < j < |rest| ensures rest[i].machineGuid != rest[j].machineGuid {
          assert rest[i] == hosts[i + 1] && rest[j] == hosts[j + 1];
        }
      }
      KeptDistinct(rest, activeHosts);
      var tail := Collect(StillActive(activeHosts), rest);
      forall k | 0 <= k < |tail| ensures tail[k].machineGuid != hosts[0].machineGuid {
        CollectMember(StillActive(activeHosts), rest, tail[k]);
        var i :| 0 <= i < |rest| && StillActive(activeHosts)(rest[i]) == Some(tail[k]);
        assert rest[i] == hosts[i + 1];
      }
    }
  }

  /**
   * Adding the active hosts to the listed ones still active gives the
   * active identifiers, the kept hosts in front and only unlisted
   * identifiers after them.
   */
  lemma ReconciledHosts(currentHosts: seq<Host>, activeHosts: seq<Host>)
    ensures var kept := Collect(StillActive(activeHosts), currentHosts);
            var r := AddAll(kept, activeHosts);
            && Guids(r) == Guids(activeHosts)
            && |kept| <= |r| && r[..|kept|] == kept
            && (forall k :: 0 <= k < |kept| ==> r[k] in currentHosts)
            && (forall k :: |kept| <= k < |r| ==> r[k] in activeHosts && !HasGuid(currentHosts, r[k].machineGuid))
  {
    var kept := Collect(StillActive(activeHosts), currentHosts);
    var r := AddAll(kept, activeHosts);
    AddAllFacts(kept, activeHosts);
    assert Guids(kept) <= Guids(activeHosts) by {
      forall g | g in Guids(kept) ensures g in Guids(activeHosts) {
        var k :| 0 <= k < |kept| && kept[k].machineGuid == g;
        CollectMember(StillActive(activeHosts), currentHosts, kept[k]);
        var i :| 0 <= i < |currentHosts| && StillActive(activeHosts)(currentHosts[i]) == Some(kept[k]);
        var j :| 0 <= j < |activeHosts| && activeHosts[j].machineGuid == g;
      }
    }
    assert Guids(currentHosts) * Guids(activeHosts) <= Guids(kept) by {
      forall g | g in Guids(currentHosts) * Guids(activeHosts) ensures g in Guids(kept) {
        var i :| 0 <= i < |currentHosts| && currentHosts[i].machineGuid == g;
        var j :| 0 <= j < |activeHosts| && activeHosts[j].machineGuid == g;
        assert StillActive(activeHosts)(currentHosts[i]) == Some(currentHosts[i]);
        CollectMember(StillActive(activeHosts), currentHosts, currentHosts[i]);
        var m :| 0 <= m < |kept| && kept[m] == currentHosts[i];
      }
    }
    forall k | 0 <= k < |kept| ensures r[k] in currentHosts {
      assert r[k] == kept[k];
      CollectMember(StillActive(activeHosts), currentHosts, kept[k]);
    }
    forall k | |kept| <= k < |r| ensures !HasGuid(currentHosts, r[k].machineGuid) {
      var j :| 0 <= j < |activeHosts| && activeHosts[j] == r[k];
      assert r[k].machineGuid in Guids(activeHosts);
      assert r[k].machineGuid !in Guids(kept);
    }
  }
}
