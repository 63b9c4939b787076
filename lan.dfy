/**
 * Discovery of the machines on the local networks: the range of addresses
 * a gateway and subnet mask describe, the enumeration of that range, the
 * interfaces and gateways that are scanned, and the devices that answer a
 * ping.
 */
module Lan {
  import opened Wrappers
  import opened Encodings
  import opened Sequences
  import opened NetConfig

  /** The address 0.0.0.0, and a freshly allocated 4-byte buffer. */
  const Zeros: IPv4 := [0, 0, 0, 0]

  datatype InterfaceKind = Wireless80211 | Ethernet | Loopback | Tunnel | OtherKind

  datatype OperationalStatus = Up | Down

  /** A unicast address of an interface and its IPv4 subnet mask (0.0.0.0 for an IPv6 address). */
  datatype UnicastAddress = UnicastAddress(address: IPAddress, ipv4Mask: IPv4)

  /** A network interface, with its gateways in the order the system reports them. */
  datatype NetworkInterface = NetworkInterface(status: OperationalStatus, kind: InterfaceKind,
                                               gatewayAddresses: seq<IPAddress>, unicastAddresses: seq<UnicastAddress>)

  /** 2 to the power `n`. */
  function Pow2(n: nat): (p: nat)
    ensures p >= 1
  {
    if n == 0 then 1 else 2 * Pow2(n - 1)
  }

  /** `a & b` on the low `n` bits, taken one bit at a time from the least significant. */
  function AndBits(a: nat, b: nat, n: nat): nat
  {
    if n == 0 then 0
    else 2 * AndBits(a / 2, b / 2, n - 1) + (if a % 2 == 1 && b % 2 == 1 then 1 else 0)
  }

  /** `a | ~b` on the low `n` bits: a bit is set where `a` has it or `b` lacks it. */
  function OrNotBits(a: nat, b: nat, n: nat): nat
  {
    if n == 0 then 0
    else 2 * OrNotBits(a / 2, b / 2, n - 1) + (if a % 2 == 1 || b % 2 == 0 then 1 else 0)
  }

  /**
   * On `n`-bit values, masking can only lower a value and or-ing in the
   * complement can only raise it; a full mask keeps the value on both
   * sides and an empty one spans 0 to 2^n - 1.
   */
  lemma {:induction false} BitsBounds(g: nat, m: nat, n: nat)
    requires g < Pow2(n) && m < Pow2(n)
    ensures AndBits(g, m, n) <= g <= OrNotBits(g, m, n) < Pow2(n)
    ensures m == Pow2(n) - 1 ==> AndBits(g, m, n) == g == OrNotBits(g, m, n)
    ensures m == 0 ==> AndBits(g, m, n) == 0 && OrNotBits(g, m, n) == Pow2(n) - 1
  {
    if n > 0 {
      BitsBounds(g / 2, m / 2, n - 1);
    }
  }

  /** Bitwise and of two bytes. */
  function And(a: byte, b: byte): byte
  {
    assert Pow2(8) == 0x100;
    BitsBounds(a, b, 8);
    AndBits(a, b, 8)
  }

  /** `(byte)(a | ~b)`: the complement is taken on the promoted int and truncated back to 8 bits. */
  function OrNot(a: byte, b: byte): byte
  {
    assert Pow2(8) == 0x100;
    BitsBounds(a, b, 8);
    OrNotBits(a, b, 8)
  }

  /**
   * Masking a byte can only lower it and the complement can only raise
   * it; a full mask byte keeps the gateway's byte and an empty one spans
   * 0 to 255.
   */
  lemma MaskBounds(g: byte, m: byte)
    ensures And(g, m) <= g <= OrNot(g, m)
    ensures m == 255 ==> And(g, m) == g == OrNot(g, m)
    ensures m == 0 ==> And(g, m) == 0 && OrNot(g, m) == 255
  {
    assert Pow2(8) == 0x100;
    BitsBounds(g, m, 8);
  }

  /** IsValidGateway: an address whose first three bytes are all zero is reserved. */
  function IsValidGateway(ip: IPv4): (r: bool)
    ensures !r <==> ip[0] == 0 && ip[1] == 0 && ip[2] == 0
  {
    ip[..3] != [0, 0, 0]
  }

  /** IPAddress.MapToIPv4: an IPv4 address is itself, an IPv6 address gives its last four bytes. */
  function MapToIPv4(a: IPAddress): (r: IPv4)
    ensures |a| == 4 ==> r == a
  {
    a[|a| - 4..]
  }

  /** The address prints as "0.0.0.0"; no IPv6 address does. */
  predicate PrintsAsZeros(a: IPAddress)
  {
    a == Zeros
  }

  /**
   * IsValidInterface: up, wireless or wired, and with a first gateway that
   * is not 0.0.0.0. An IPv6 first gateway always passes the address test.
   */
  function IsValidInterface(ni: NetworkInterface): (r: bool)
    ensures r ==> ni.status == Up && ni.kind in {Wireless80211, Ethernet}
    ensures r ==> |ni.gatewayAddresses| > 0 && ni.gatewayAddresses[0] != [0, 0, 0, 0]
    ensures (&& ni.status == Up && ni.kind in {Wireless80211, Ethernet} && |ni.gatewayAddresses| > 0
             && (|ni.gatewayAddresses[0]| == 16 || ni.gatewayAddresses[0][0] != 0)) ==> r
  {
    && |ni.gatewayAddresses| > 0
    && !PrintsAsZeros(ni.gatewayAddresses[0])
    && ni.status == Up
    && (ni.kind == Wireless80211 || ni.kind == Ethernet)
  }

  /** The first address of the subnet: the gateway masked bytewise. */
  function RangeStart(gateway: IPv4, mask: IPv4): (r: IPv4)
    ensures forall i :: 0 <= i < 4 ==> r[i] == And(gateway[i], mask[i])
  {
    seq(4, i requires 0 <= i < 4 => And(gateway[i], mask[i]))
  }

  /** The last address of the subnet: the gateway with every bit outside the mask set. */
  function RangeEnd(gateway: IPv4, mask: IPv4): (r: IPv4)
    ensures forall i :: 0 <= i < 4 ==> r[i] == OrNot(gateway[i], mask[i])
  {
    seq(4, i requires 0 <= i < 4 => OrNot(gateway[i], mask[i]))
  }

  /** The gateway lies in its own range, byte by byte, and the range is fixed where the mask byte is full. */
  lemma GatewayInRange(gateway: IPv4, mask: IPv4, i: nat)
    requires i < 4
    ensures RangeStart(gateway, mask)[i] <= gateway[i] <= RangeEnd(gateway, mask)[i]
    ensures mask[i] == 255 ==> RangeStart(gateway, mask)[i] == gateway[i] == RangeEnd(gateway, mask)[i]
    ensures mask[i] == 0 ==> RangeStart(gateway, mask)[i] == 0 && RangeEnd(gateway, mask)[i] == 255
  {
    MaskBounds(gateway[i], mask[i]);
  }

  /** The first index from `i` on where the two addresses differ, or -1. */
  function FirstDifferenceFrom(a: IPv4, b: IPv4, i: nat): (t: int)
    requires i <= 4
    ensures t == -1 || i <= t < 4
    ensures t == -1 <==> forall j :: i <= j < 4 ==> a[j] == b[j]
    ensures t >= 0 ==> a[t] != b[t] && forall j :: i <= j < t ==> a[j] == b[j]
    decreases 4 - i
  {
    if i == 4 then -1
    else if a[i] != b[i] then i
    else FirstDifferenceFrom(a, b, i + 1)
  }

  /** The index of the first byte where the two addresses differ, or -1 when they are equal. */
  function FirstDifference(a: IPv4, b: IPv4): (t: int)
    ensures -1 <= t < 4
    ensures t == -1 <==> a == b
    ensures t >= 0 ==> a[t] != b[t] && forall j :: 0 <= j < t ==> a[j] == b[j]
  {
    var t := FirstDifferenceFrom(a, b, 0);
    assert t == -1 ==> a == b by {
      if t == -1 {
        assert forall j :: 0 <= j < 4 ==> a[j] == b[j];
      }
    }
    t
  }

  /** The `count` addresses `start` with byte `t` set to `lo`, `lo + 1`, and so on. */
  function Sweep(start: IPv4, t: nat, lo: byte, count: nat): (r: seq<IPv4>)
    requires t < 4 && lo + count <= 256
    ensures |r| == count
    ensures forall k :: 0 <= k < count ==> r[k] == start[t := lo + k]
  {
    seq(count, k requires 0 <= k < count => start[t := lo + k])
  }

  /** The number of values from `lo` to `hi`. */
  function Span(lo: byte, hi: byte): (n: nat)
    ensures lo + n <= 256
  {
    if lo <= hi then hi - lo + 1 else 0
  }

  /**
   * Where the enumeration goes on from: the last address written, with
   * byte `t` set to 255. When `start[t]` exceeds `stop[t]` nothing was
   * written and the buffer still holds zeros.
   */
  function Next(start: IPv4, stop: IPv4, t: nat): (r: IPv4)
    requires t < 4
    ensures r[t] == 255
    ensures start[t] <= stop[t] ==> r == start[t := 255]
    ensures start[t] > stop[t] ==> r == Zeros[t := 255]
  {
    if start[t] <= stop[t] then start[t := 255] else Zeros[t := 255]
  }

  /**
   * GetAddressesBetween, given `fuel` recursive calls: nothing when the
   * bounds are equal; otherwise the sweep of the first differing byte
   * followed by the enumeration from the next start. None means the fuel
   * ran out, where the code's recursion goes on until the stack is
   * exhausted.
   */
  function AddressesBetween(start: IPv4, stop: IPv4, fuel: nat): (r: Option<seq<IPv4>>)
    ensures start == stop ==> r == Some([])
    ensures start != stop && fuel == 0 ==> r == None
    decreases fuel
  {
    var t := FirstDifference(start, stop);
    if t < 0 then Some([])
    else if fuel == 0 then None
    else
      match AddressesBetween(Next(start, stop, t), stop, fuel - 1)
      case None => None
      case Some(rest) => Some(Sweep(start, t, start[t], Span(start[t], stop[t])) + rest)
  }

  /** One step of the recursion: the sweep of the first differing byte, then the rest from the next address. */
  lemma AddressesBetweenStep(start: IPv4, stop: IPv4, fuel: nat)
    requires FirstDifference(start, stop) >= 0 && fuel > 0
    ensures var t := FirstDifference(start, stop);
            AddressesBetween(start, stop, fuel)
            == Then(Sweep(start, t, start[t], Span(start[t], stop[t])), AddressesBetween(Next(start, stop, t), stop, fuel - 1))
  {
  }

  /** `done` followed by what `more` gives, when it gives anything. */
  function Then(done: seq<IPv4>, more: Option<seq<IPv4>>): Option<seq<IPv4>>
  {
    match more
    case None => None
    case Some(m) => Some(done + m)
  }

  lemma ThenThen(done: seq<IPv4>, swept: seq<IPv4>, more: Option<seq<IPv4>>)
    ensures Then(done, Then(swept, more)) == Then(done + swept, more)
  {
    if more.Some? {
      assert done + (swept + more.value) == (done + swept) + more.value;
    }
  }

  /** The loop that looks for the first byte where the bounds differ. */
  method FindTargetByte(start: IPv4, stop: IPv4) returns (t: int)
    ensures t == FirstDifference(start, stop)
  {
    t := -1;
    var i := 0;
    while i < 4 && t == -1
      invariant 0 <= i <= 4
      invariant t == -1 ==> forall j :: 0 <= j < i ==> start[j] == stop[j]
      invariant t != -1 ==> t == FirstDifference(start, stop)
    {
      if start[i] != stop[i] {
        t := i;
      }
      i := i + 1;
    }
    if t == -1 {
      assert start == stop;
    }
  }

  /**
   * One level of GetAddressesBetween: a zeroed buffer is filled with
   * `start` and byte `t` set to each value from `start[t]` to `stop[t]`,
   * each filling added to the results; then byte `t` of the buffer is set
   * to 255.
   */
  method SweepTargetByte(start: IPv4, stop: IPv4, t: nat) returns (addresses: seq<IPv4>, next: IPv4)
    requires t < 4
    ensures addresses == Sweep(start, t, start[t], Span(start[t], stop[t]))
    ensures next == Next(start, stop, t)
  {
    var lo, hi := start[t], stop[t];
    var newIPBytes := new byte[4](_ => 0);
    var value: int := lo;
    addresses := [];
    while value <= hi
      invariant lo <= value <= if lo <= hi then hi + 1 else lo
      invariant addresses == Sweep(start, t, lo, value - lo)
      invariant newIPBytes[..] == if value == lo then Zeros else start[t := value - 1]
      decreases hi - value
    {
      forall j | 0 <= j < 4 {
        newIPBytes[j] := start[j];
      }
      newIPBytes[t] := value;
      assert newIPBytes[..] == start[t := value];
      assert addresses + [newIPBytes[..]] == Sweep(start, t, lo, value + 1 - lo);
      addresses := addresses + [newIPBytes[..]];
      value := value + 1;
    }
    newIPBytes[t] := 255;
    next := newIPBytes[..];
  }

  /**
   * GetAddressesBetween as written, with the recursion on the remainder
   * turned into the outer loop: at most `fuel` levels are enumerated.
   */
  method GetAddressesBetween(startIP: IPv4, endIP: IPv4, fuel: nat) returns (r: Option<seq<IPv4>>)
    ensures r == AddressesBetween(startIP, endIP, fuel)
  {
    var results: seq<IPv4> := [];
    var start := startIP;
    var f := fuel;
    ThenNothing(AddressesBetween(start, endIP, f));
    while true
      invariant Then(results, AddressesBetween(start, endIP, f)) == AddressesBetween(startIP, endIP, fuel)
      decreases f
    {
      var t := FindTargetByte(start, endIP);
      if t == -1 {
        assert results + [] == results;
        return Some(results);
      }
      if f == 0 {
        return None;
      }
      var addresses, next := SweepTargetByte(start, endIP, t);
      AddressesBetweenStep(start, endIP, f);
      ThenThen(results, addresses, AddressesBetween(next, endIP, f - 1));
      results := results + addresses;
      start := next;
      f := f - 1;
    }
  }

  /** Some byte is 255 where the end address's byte is lower: the end can no longer be reached. */
  predicate Doomed(s: IPv4, stop: IPv4)
  {
    exists j :: 0 <= j < 4 && s[j] == 255 && stop[j] < 255
  }

  lemma NextStaysDoomed(s: IPv4, stop: IPv4)
    requires Doomed(s, stop)
    ensures FirstDifference(s, stop) >= 0 && Doomed(Next(s, stop, FirstDifference(s, stop)), stop)
  {
    var j :| 0 <= j < 4 && s[j] == 255 && stop[j] < 255;
    var t := FirstDifference(s, stop);
    assert t >= 0 && t <= j;
    var next := Next(s, stop, t);
    if s[t] <= stop[t] {
      assert next[j] == 255;
    } else {
      assert next[t] == 255 && stop[t] < 255;
    }
  }

  /** From a doomed address the enumeration never finishes, whatever the fuel. */
  lemma {:induction false} DoomedNeverEnds(s: IPv4, stop: IPv4, fuel: nat)
    requires Doomed(s, stop)
    ensures AddressesBetween(s, stop, fuel) == None
    decreases fuel
  {
    NextStaysDoomed(s, stop);
    if fuel > 0 {
      DoomedNeverEnds(Next(s, stop, FirstDifference(s, stop)), stop, fuel - 1);
    }
  }

  /**
   * The enumeration finishes only if the end address's first differing
   * byte is 255: otherwise it comes back to the same arguments forever.
   */
  lemma EndsOnlyAtFullByte(start: IPv4, stop: IPv4, fuel: nat)
    ensures AddressesBetween(start, stop, fuel).Some? ==> start == stop || stop[FirstDifference(start, stop)] == 255
  {
    var t := FirstDifference(start, stop);
    if t >= 0 && stop[t] < 255 && fuel > 0 {
      var next := Next(start, stop, t);
      assert next[t] == 255;
      DoomedNeverEnds(next, stop, fuel - 1);
    }
  }

  /** The bounds agree before byte `p`; from `p` on, `start` is all zeros and `stop` all 255s. */
  predicate AlignedBlock(start: IPv4, stop: IPv4, p: nat)
  {
    && p <= 4
    && (forall i :: 0 <= i < p ==> start[i] == stop[i])
    && (forall i :: p <= i < 4 ==> start[i] == 0 && stop[i] == 255)
  }

  /**
   * A block whose mask ends on a byte boundary is enumerated in one sweep
   * of 256 addresses per free byte, all inside the block.
   */
  lemma {:induction false} AlignedBlockEnds(start: IPv4, stop: IPv4, p: nat, fuel: nat)
    requires AlignedBlock(start, stop, p) && fuel >= 4 - p
    ensures AddressesBetween(start, stop, fuel).Some?
    ensures |AddressesBetween(start, stop, fuel).value| == 256 * (4 - p)
    ensures forall k :: 0 <= k < |AddressesBetween(start, stop, fuel).value| ==>
              AddressesBetween(start, stop, fuel).value[k][..p] == start[..p]
    decreases 4 - p
  {
    if p == 4 {
      assert start == stop;
    } else {
      assert start[p] != stop[p];
      assert FirstDifference(start, stop) == p;
      var next := start[p := 255];
      assert Next(start, stop, p) == next;
      assert AlignedBlock(next, stop, p + 1);
      AlignedBlockEnds(next, stop, p + 1, fuel - 1);
      var swept := Sweep(start, p, 0, 256);
      var rest := AddressesBetween(next, stop, fuel - 1).value;
      assert AddressesBetween(start, stop, fuel).value == swept + rest;
      forall k | 0 <= k < |swept + rest|
        ensures (swept + rest)[k][..p] == start[..p]
      {
        if k < 256 {
          assert swept[k] == start[p := k];
        } else {
          assert (swept + rest)[k] == rest[k - 256];
          assert rest[k - 256][..p + 1][..p] == rest[k - 256][..p];
        }
      }
    }
  }

  /** A /24 network lists each of its 256 addresses once, in order. */
  lemma SlashTwentyFour(a: byte, b: byte, c: byte, fuel: nat)
    requires fuel >= 1
    ensures AddressesBetween([a, b, c, 0], [a, b, c, 255], fuel) == Some(seq(256, v requires 0 <= v < 256 => [a, b, c, v]))
  {
    var start: IPv4 := [a, b, c, 0];
    var stop: IPv4 := [a, b, c, 255];
    assert FirstDifference(start, stop) == 3;
    assert Next(start, stop, 3) == stop;
    forall v | 0 <= v < 256
      ensures Sweep(start, 3, 0, 256)[v] == [a, b, c, v]
    {
      assert start[3 := v] == [a, b, c, v];
    }
    assert Sweep(start, 3, 0, 256) == seq(256, v requires 0 <= v < 256 => [a, b, c, v]);
    assert Sweep(start, 3, 0, 256) + [] == Sweep(start, 3, 0, 256);
  }

  /**
   * A /16 network lists a.b.0.0 to a.b.255.0 and then a.b.255.0 to
   * a.b.255.255: 512 entries, a.b.255.0 twice, and most hosts missing.
   */
  lemma SlashSixteen(a: byte, b: byte, fuel: nat)
    requires fuel >= 2
    ensures var r := AddressesBetween([a, b, 0, 0], [a, b, 255, 255], fuel);
            && r == Some(seq(256, v requires 0 <= v < 256 => [a, b, v, 0]) + seq(256, v requires 0 <= v < 256 => [a, b, 255, v]))
            && |r.value| == 512 && r.value[255] == r.value[256] == [a, b, 255, 0]
            && [a, b, 1, 1] !in r.value
  {
    var start: IPv4 := [a, b, 0, 0];
    var mid: IPv4 := [a, b, 255, 0];
    var stop: IPv4 := [a, b, 255, 255];
    assert FirstDifference(start, stop) == 2;
    assert Next(start, stop, 2) == mid;
    SlashTwentyFour(a, b, 255, fuel - 1);
    var first := seq(256, v requires 0 <= v < 256 => [a, b, v, 0]);
    var second := seq(256, v requires 0 <= v < 256 => [a, b, 255, v]);
    forall v | 0 <= v < 256
      ensures Sweep(start, 2, 0, 256)[v] == first[v]
    {
      assert start[2 := v] == [a, b, v, 0];
    }
    assert Sweep(start, 2, 0, 256) == first;
    var r := first + second;
    assert r[255] == first[255] && r[256] == second[0];
    forall k | 0 <= k < 512
      ensures r[k] != [a, b, 1, 1]
    {
      if k < 256 {
        assert r[k] == first[k];
      } else {
        assert r[k] == second[k - 256];
      }
    }
  }

  /** The third byte of a /20 mask, 240, leaves the low four bits free: 0 | ~240 is 15. */
  lemma OrNotTwoForty()
    ensures OrNot(0, 240) == 15
  {
    assert OrNotBits(0, 1, 1) == 0;
    assert OrNotBits(0, 3, 2) == 0;
    assert OrNotBits(0, 7, 3) == 0;
    assert OrNotBits(0, 15, 4) == 0;
    assert OrNotBits(0, 30, 5) == 1;
    assert OrNotBits(0, 60, 6) == 3;
    assert OrNotBits(0, 120, 7) == 7;
  }

  /** The two ends of a range, byte by byte. */
  lemma RangeBytes(gateway: IPv4, mask: IPv4)
    ensures RangeStart(gateway, mask)
            == [And(gateway[0], mask[0]), And(gateway[1], mask[1]), And(gateway[2], mask[2]), And(gateway[3], mask[3])]
    ensures RangeEnd(gateway, mask)
            == [OrNot(gateway[0], mask[0]), OrNot(gateway[1], mask[1]), OrNot(gateway[2], mask[2]), OrNot(gateway[3], mask[3])]
  {
  }

  /** Gateway 10.0.0.1 with mask 255.255.240.0 spans 10.0.0.0 to 10.0.15.255. */
  lemma SlashTwentyRange()
    ensures RangeStart([10, 0, 0, 1], [255, 255, 240, 0]) == [10, 0, 0, 0]
    ensures RangeEnd([10, 0, 0, 1], [255, 255, 240, 0]) == [10, 0, 15, 255]
  {
    RangeBytes([10, 0, 0, 1], [255, 255, 240, 0]);
    MaskBounds(10, 255);
    MaskBounds(0, 255);
    MaskBounds(0, 240);
    MaskBounds(1, 0);
    OrNotTwoForty();
  }

  /** A /20 network, such as gateway 10.0.0.1 with mask 255.255.240.0, is never enumerated to the end. */
  lemma SlashTwentyNeverEnds(fuel: nat)
    ensures AddressesBetween(RangeStart([10, 0, 0, 1], [255, 255, 240, 0]), RangeEnd([10, 0, 0, 1], [255, 255, 240, 0]), fuel) == None
  {
    SlashTwentyRange();
    var start: IPv4 := [10, 0, 0, 0];
    var stop: IPv4 := [10, 0, 15, 255];
    assert FirstDifference(start, stop) == 2;
    EndsOnlyAtFullByte(start, stop, fuel);
  }

  /**
   * GetValidAddresses: the range is computed byte by byte into two
   * buffers, then enumerated.
   */
  method GetValidAddresses(gateway: IPv4, subnetMask: IPv4, fuel: nat) returns (r: Option<seq<IPv4>>)
    ensures r == AddressesBetween(RangeStart(gateway, subnetMask), RangeEnd(gateway, subnetMask), fuel)
  {
    var startIPBytes := new byte[4](_ => 0);
    var endIPBytes := new byte[4](_ => 0);
    for i := 0 to 4
      invariant forall j :: 0 <= j < i ==> startIPBytes[j] == And(gateway[j], subnetMask[j])
      invariant forall j :: 0 <= j < i ==> endIPBytes[j] == OrNot(gateway[j], subnetMask[j])
    {
      startIPBytes[i] := And(gateway[i], subnetMask[i]);
      endIPBytes[i] := OrNot(gateway[i], subnetMask[i]);
    }
    assert startIPBytes[..] == RangeStart(gateway, subnetMask);
    assert endIPBytes[..] == RangeEnd(gateway, subnetMask);
    r := GetAddressesBetween(startIPBytes[..], endIPBytes[..], fuel);
  }

  /** A gateway address as the scan uses it: mapped to IPv4, and kept only if valid. */
  function AsValidGateway(a: IPAddress): (r: Option<IPv4>)
    ensures r.Some? <==> IsValidGateway(MapToIPv4(a))
    ensures r.Some? ==> r.value == MapToIPv4(a)
  {
    if IsValidGateway(MapToIPv4(a)) then Some(MapToIPv4(a)) else None
  }

  /** The valid IPv4 gateways of an interface, in the order reported. */
  function ValidGateways(raw: seq<IPAddress>): seq<IPv4>
  {
    Collect(AsValidGateway, raw)
  }

  lemma ThenNothing(more: Option<seq<IPv4>>)
    ensures Then([], more) == more
  {
    if more.Some? {
      assert [] + more.value == more.value;
    }
  }

  /** Keeps an address unless it is one of the gateways (compared by value). */
  function Excluding(gateways: seq<IPv4>): IPv4 -> Option<IPv4>
  {
    (a: IPv4) => if a in gateways then None else Some(a)
  }

  /** The addresses kept by the gateway filter are the others. */
  lemma ExcludingMembers(gateways: seq<IPv4>, all: seq<IPv4>)
    ensures forall a :: a in Collect(Excluding(gateways), all) <==> a in all && a !in gateways
  {
    forall a ensures a in Collect(Excluding(gateways), all) <==> a in all && a !in gateways {
      CollectMember(Excluding(gateways), all, a);
      if a in all && a !in gateways {
        var i :| 0 <= i < |all| && all[i] == a;
        assert Excluding(gateways)(all[i]) == Some(a);
      }
    }
  }

  /**
   * The candidates one (gateway, mask) pair contributes: none when the
   * mask's first or second byte is 0; otherwise exactly the enumerated
   * addresses that are not gateways, and no list at all when the
   * enumeration does not end. The test against the interface's own
   * address compares references and removes nothing.
   */
  function Candidates(gateway: IPv4, mask: IPv4, gateways: seq<IPv4>, fuel: nat): (r: Option<seq<IPv4>>)
    ensures mask[0] == 0 || mask[1] == 0 ==> r == Some([])
    ensures mask[0] != 0 && mask[1] != 0 ==>
              var all := AddressesBetween(RangeStart(gateway, mask), RangeEnd(gateway, mask), fuel);
              && (r.None? <==> all.None?)
              && (r.Some? ==> forall a :: a in r.value <==> a in all.value && a !in gateways)
  {
    if mask[0] == 0 || mask[1] == 0 then Some([])
    else
      match AddressesBetween(RangeStart(gateway, mask), RangeEnd(gateway, mask), fuel)
      case None => None
      case Some(all) =>
        ExcludingMembers(gateways, all);
        Some(Collect(Excluding(gateways), all))
  }

  /** The results of `f` on each element of `xs`, concatenated; none as soon as one has none. */
  function ConcatMap<A>(f: A -> Option<seq<IPv4>>, xs: seq<A>): Option<seq<IPv4>>
  {
    if xs == [] then Some([])
    else
      match ConcatMap(f, xs[..|xs| - 1])
      case None => None
      case Some(done) => Then(done, f(xs[|xs| - 1]))
  }

  /** Once a prefix has failed, the whole fails. */
  lemma {:induction false} ConcatMapFails<A>(f: A -> Option<seq<IPv4>>, xs: seq<A>, i: nat)
    requires i <= |xs| && ConcatMap(f, xs[..i]) == None
    ensures ConcatMap(f, xs) == None
    decreases |xs| - i
  {
    if i < |xs| {
      assert xs[..i + 1][..i] == xs[..i];
      ConcatMapFails(f, xs, i + 1);
    } else {
      assert xs[..i] == xs;
    }
  }

  /** One more element: what it gives is appended to what came before, or the whole fails. */
  lemma ConcatMapStep<A>(f: A -> Option<seq<IPv4>>, xs: seq<A>, i: nat, prefix: seq<IPv4>, acc: seq<IPv4>)
    requires i < |xs| && Then(prefix, ConcatMap(f, xs[..i])) == Some(acc)
    ensures Then(prefix, ConcatMap(f, xs[..i + 1])) == Then(acc, f(xs[i]))
  {
    assert xs[..i + 1][..i] == xs[..i];
    ThenThen(prefix, ConcatMap(f, xs[..i]).value, f(xs[i]));
  }

  /** The candidates of one unicast address, over the interface's gateways. */
  function GatewayStep(mask: IPv4, gateways: seq<IPv4>, fuel: nat): IPv4 -> Option<seq<IPv4>>
  {
    (gateway: IPv4) => Candidates(gateway, mask, gateways, fuel)
  }

  /** The candidates of one interface, over its unicast addresses. */
  function UnicastStep(gateways: seq<IPv4>, fuel: nat): UnicastAddress -> Option<seq<IPv4>>
  {
    (ua: UnicastAddress) => ConcatMap(GatewayStep(ua.ipv4Mask, gateways, fuel), gateways)
  }

  /** The candidates of one interface: none unless it is valid. */
  function InterfaceStep(fuel: nat): NetworkInterface -> Option<seq<IPv4>>
  {
    (ni: NetworkInterface) => if IsValidInterface(ni) then ConcatMap(UnicastStep(ValidGateways(ni.gatewayAddresses), fuel), ni.unicastAddresses)
          else Some([])
  }

  /** The address is a candidate of some unicast address and valid gateway of the interface. */
  predicate CandidateOf(ni: NetworkInterface, fuel: nat, a: IPv4)
  {
    var gateways := ValidGateways(ni.gatewayAddresses);
    exists j, k :: 0 <= j < |ni.unicastAddresses| && 0 <= k < |gateways|
                   && var c := Candidates(gateways[k], ni.unicastAddresses[j].ipv4Mask, gateways, fuel);
                      c.Some? && a in c.value
  }

  /** What a concatenation holds comes from one of its parts. */
  lemma {:induction false} ConcatMapMember<A>(f: A -> Option<seq<IPv4>>, xs: seq<A>, a: IPv4)
    requires ConcatMap(f, xs).Some? && a in ConcatMap(f, xs).value
    ensures exists i :: 0 <= i < |xs| && f(xs[i]).Some? && a in f(xs[i]).value
  {
    var init := xs[..|xs| - 1];
    var done := ConcatMap(f, init).value;
    var last := f(xs[|xs| - 1]).value;
    assert ConcatMap(f, xs).value == done + last;
    if a in done {
      ConcatMapMember(f, init, a);
      var i :| 0 <= i < |init| && f(init[i]).Some? && a in f(init[i]).value;
      assert init[i] == xs[i];
    }
  }

  /** When the concatenation exists, every part exists and all it holds is in the concatenation. */
  lemma {:induction false} ConcatMapHolds<A>(f: A -> Option<seq<IPv4>>, xs: seq<A>, i: nat, a: IPv4)
    requires ConcatMap(f, xs).Some? && i < |xs|
    ensures f(xs[i]).Some?
    ensures a in f(xs[i]).value ==> a in ConcatMap(f, xs).value
  {
    var init := xs[..|xs| - 1];
    var done := ConcatMap(f, init).value;
    var last := f(xs[|xs| - 1]).value;
    assert ConcatMap(f, xs).value == done + last;
    if i < |xs| - 1 {
      ConcatMapHolds(f, init, i, a);
      assert init[i] == xs[i];
    }
  }

  /** Parts that are all empty concatenate to nothing. */
  lemma {:induction false} ConcatMapEmpty<A>(f: A -> Option<seq<IPv4>>, xs: seq<A>)
    requires forall i :: 0 <= i < |xs| ==> f(xs[i]) == Some([])
    ensures ConcatMap(f, xs) == Some([])
  {
    if xs != [] {
      var init := xs[..|xs| - 1];
      assert forall i :: 0 <= i < |init| ==> init[i] == xs[i];
      ConcatMapEmpty(f, init);
      var none: seq<IPv4> := [];
      assert none + none == none;
    }
  }

  /** Every candidate of the interfaces is a candidate of one valid interface. */
  lemma PossibleHostsMembers(interfaces: seq<NetworkInterface>, fuel: nat)
    ensures ConcatMap(InterfaceStep(fuel), interfaces).Some? ==>
              forall a :: a in ConcatMap(InterfaceStep(fuel), interfaces).value ==>
                exists i :: 0 <= i < |interfaces| && IsValidInterface(interfaces[i]) && CandidateOf(interfaces[i], fuel, a)
  {
    forall a | ConcatMap(InterfaceStep(fuel), interfaces).Some? && a in ConcatMap(InterfaceStep(fuel), interfaces).value
      ensures exists i :: 0 <= i < |interfaces| && IsValidInterface(interfaces[i]) && CandidateOf(interfaces[i], fuel, a)
    {
      ConcatMapMember(InterfaceStep(fuel), interfaces, a);
      var i :| 0 <= i < |interfaces| && InterfaceStep(fuel)(interfaces[i]).Some? && a in InterfaceStep(fuel)(interfaces[i]).value;
      InterfaceCandidate(interfaces[i], fuel, a);
    }
  }

  /** What one interface contributes are candidates of that interface, which is valid. */
  lemma InterfaceCandidate(ni: NetworkInterface, fuel: nat, a: IPv4)
    requires InterfaceStep(fuel)(ni).Some? && a in InterfaceStep(fuel)(ni).value
    ensures IsValidInterface(ni) && CandidateOf(ni, fuel, a)
  {
    var gateways := ValidGateways(ni.gatewayAddresses);
    ConcatMapMember(UnicastStep(gateways, fuel), ni.unicastAddresses, a);
    var j :| 0 <= j < |ni.unicastAddresses| && UnicastStep(gateways, fuel)(ni.unicastAddresses[j]).Some?
             && a in UnicastStep(gateways, fuel)(ni.unicastAddresses[j]).value;
    var mask := ni.unicastAddresses[j].ipv4Mask;
    ConcatMapMember(GatewayStep(mask, gateways, fuel), gateways, a);
    var k :| 0 <= k < |gateways| && GatewayStep(mask, gateways, fuel)(gateways[k]).Some?
             && a in GatewayStep(mask, gateways, fuel)(gateways[k]).value;
    assert Candidates(gateways[k], mask, gateways, fuel).Some? && a in Candidates(gateways[k], mask, gateways, fuel).value;
  }

  /** Every candidate of a valid interface is among what the interface contributes. */
  lemma InterfaceComplete(ni: NetworkInterface, fuel: nat, a: IPv4)
    requires IsValidInterface(ni) && CandidateOf(ni, fuel, a) && InterfaceStep(fuel)(ni).Some?
    ensures a in InterfaceStep(fuel)(ni).value
  {
    var gateways := ValidGateways(ni.gatewayAddresses);
    var j, k :| && 0 <= j < |ni.unicastAddresses| && 0 <= k < |gateways|
                && var c := Candidates(gateways[k], ni.unicastAddresses[j].ipv4Mask, gateways, fuel);
                   c.Some? && a in c.value;
    var g := UnicastStep(gateways, fuel);
    assert InterfaceStep(fuel)(ni) == ConcatMap(g, ni.unicastAddresses);
    ConcatMapHolds(g, ni.unicastAddresses, j, a);
    var mask := ni.unicastAddresses[j].ipv4Mask;
    var h := GatewayStep(mask, gateways, fuel);
    assert g(ni.unicastAddresses[j]) == ConcatMap(h, gateways);
    ConcatMapHolds(h, gateways, k, a);
    assert h(gateways[k]) == Candidates(gateways[k], mask, gateways, fuel);
  }

  /** Every candidate of every valid interface is listed, when the list exists. */
  lemma PossibleHostsComplete(interfaces: seq<NetworkInterface>, fuel: nat)
    ensures ConcatMap(InterfaceStep(fuel), interfaces).Some? ==>
              forall i, a :: 0 <= i < |interfaces| && IsValidInterface(interfaces[i]) && CandidateOf(interfaces[i], fuel, a) ==>
                a in ConcatMap(InterfaceStep(fuel), interfaces).value
  {
    forall i, a | && ConcatMap(InterfaceStep(fuel), interfaces).Some?
                  && 0 <= i < |interfaces| && IsValidInterface(interfaces[i]) && CandidateOf(interfaces[i], fuel, a)
      ensures a in ConcatMap(InterfaceStep(fuel), interfaces).value
    {
      ConcatMapHolds(InterfaceStep(fuel), interfaces, i, a);
      InterfaceComplete(interfaces[i], fuel, a);
    }
  }

  /**
   * GetAllPossibleHosts: the candidates of every interface, in order.
   * Each comes from the range of one unicast address and one valid
   * gateway of a valid interface, and is not one of that interface's
   * gateways; every such candidate is listed; without a valid interface
   * there are none.
   */
  function PossibleHosts(interfaces: seq<NetworkInterface>, fuel: nat): (r: Option<seq<IPv4>>)
    ensures (forall i :: 0 <= i < |interfaces| ==> !IsValidInterface(interfaces[i])) ==> r == Some([])
    ensures r.Some? ==> forall a :: a in r.value ==>
              exists i :: && 0 <= i < |interfaces| && IsValidInterface(interfaces[i]) && CandidateOf(interfaces[i], fuel, a)
                          && a !in ValidGateways(interfaces[i].gatewayAddresses)
    ensures r.Some? ==> forall i, a :: 0 <= i < |interfaces| && IsValidInterface(interfaces[i]) && CandidateOf(interfaces[i], fuel, a) ==>
                          a in r.value
  {
    if forall i :: 0 <= i < |interfaces| ==> !IsValidInterface(interfaces[i]) then
      ConcatMapEmpty(InterfaceStep(fuel), interfaces);
      PossibleHostsMembers(interfaces, fuel);
      ConcatMap(InterfaceStep(fuel), interfaces)
    else
      PossibleHostsMembers(interfaces, fuel);
      PossibleHostsComplete(interfaces, fuel);
      ConcatMap(InterfaceStep(fuel), interfaces)
  }

  /** Appends the addresses that are not gateways, in order. */
  method AddUnlessGateway(ipAddresses: seq<IPv4>, all: seq<IPv4>, gateways: seq<IPv4>) returns (r: seq<IPv4>)
    ensures r == ipAddresses + Collect(Excluding(gateways), all)
  {
    r := ipAddresses;
    for m := 0 to |all|
      invariant r == ipAddresses + Collect(Excluding(gateways), all[..m])
    {
      CollectAppend(Excluding(gateways), all[..m], [all[m]]);
      assert all[..m + 1] == all[..m] + [all[m]];
      if all[m] !in gateways {
        r := r + [all[m]];
      }
    }
    assert all[..|all|] == all;
  }

  /** The body of the innermost loop: one gateway's candidates appended. */
  method AddCandidates(ipAddresses: seq<IPv4>, gateway: IPv4, mask: IPv4, gateways: seq<IPv4>, fuel: nat)
    returns (r: Option<seq<IPv4>>)
    ensures r == Then(ipAddresses, Candidates(gateway, mask, gateways, fuel))
  {
    if mask[0] == 0 || mask[1] == 0 {
      assert ipAddresses + [] == ipAddresses;
      return Some(ipAddresses);
    }
    var addresses := GetValidAddresses(gateway, mask, fuel);
    if addresses.None? {
      return None;
    }
    var acc := AddUnlessGateway(ipAddresses, addresses.value, gateways);
    r := Some(acc);
  }

  /** The loop over the gateways of one unicast address. */
  method AddGatewayCandidates(ipAddresses: seq<IPv4>, mask: IPv4, gateways: seq<IPv4>, fuel: nat) returns (r: Option<seq<IPv4>>)
    ensures r == Then(ipAddresses, ConcatMap(GatewayStep(mask, gateways, fuel), gateways))
  {
    var f := GatewayStep(mask, gateways, fuel);
    var acc := ipAddresses;
    assert ipAddresses + [] == ipAddresses;
    for k := 0 to |gateways|
      invariant Then(ipAddresses, ConcatMap(f, gateways[..k])) == Some(acc)
    {
      ConcatMapStep(f, gateways, k, ipAddresses, acc);
      var next := AddCandidates(acc, gateways[k], mask, gateways, fuel);
      if next.None? {
        ConcatMapFails(f, gateways, k + 1);
        return None;
      }
      acc := next.value;
    }
    assert gateways[..|gateways|] == gateways;
    r := Some(acc);
  }

  /** The loop over the unicast addresses of one valid interface. */
  method AddInterfaceCandidates(ipAddresses: seq<IPv4>, netInterface: NetworkInterface, fuel: nat) returns (r: Option<seq<IPv4>>)
    requires IsValidInterface(netInterface)
    ensures r == Then(ipAddresses, InterfaceStep(fuel)(netInterface))
  {
    var gateways := ValidGateways(netInterface.gatewayAddresses);
    var uas := netInterface.unicastAddresses;
    var g := UnicastStep(gateways, fuel);
    var acc := ipAddresses;
    assert ipAddresses + [] == ipAddresses;
    for j := 0 to |uas|
      invariant Then(ipAddresses, ConcatMap(g, uas[..j])) == Some(acc)
    {
      ConcatMapStep(g, uas, j, ipAddresses, acc);
      var next := AddGatewayCandidates(acc, uas[j].ipv4Mask, gateways, fuel);
      if next.None? {
        ConcatMapFails(g, uas, j + 1);
        return None;
      }
      acc := next.value;
    }
    assert uas[..|uas|] == uas;
    r := Some(acc);
  }

  /**
   * GetAllPossibleHosts: for each valid interface, each of its unicast
   * addresses and each of its valid gateways, the candidates are appended
   * to one list. A range that never ends leaves no list at all.
   */
  method GetAllPossibleHosts(interfaces: seq<NetworkInterface>, fuel: nat) returns (r: Option<seq<IPv4>>)
    ensures r == PossibleHosts(interfaces, fuel)
  {
    var f := InterfaceStep(fuel);
    var ipAddresses: seq<IPv4> := [];
    ThenNothing(ConcatMap(f, interfaces[..0]));
    for i := 0 to |interfaces|
      invariant Then([], ConcatMap(f, interfaces[..i])) == Some(ipAddresses)
    {
      ConcatMapStep(f, interfaces, i, [], ipAddresses);
      if !IsValidInterface(interfaces[i]) {
        assert ipAddresses + [] == ipAddresses;
        continue;
      }
      var next := AddInterfaceCandidates(ipAddresses, interfaces[i], fuel);
      if next.None? {
        ConcatMapFails(f, interfaces, i + 1);
        return None;
      }
      ipAddresses := next.value;
    }
    assert interfaces[..|interfaces|] == interfaces;
    ThenNothing(ConcatMap(f, interfaces));
    r := Some(ipAddresses);
  }

  /** Keeps a candidate that is not 0.0.0.0 and answered its ping with Success. */
  function Answering(pingOk: IPv4 -> bool): IPv4 -> Option<IPv4>
  {
    (a: IPv4) => if a != Zeros && pingOk(a) then Some(a) else None
  }

  /**
   * FindNetworkDevicesAsync: the candidates other than 0.0.0.0 whose ping
   * succeeded (`pingOk`; a failed or refused ping counts as no answer), in
   * candidate order.
   */
  function FindNetworkDevices(interfaces: seq<NetworkInterface>, pingOk: IPv4 -> bool, fuel: nat): (r: Option<seq<IPv4>>)
    ensures r.None? <==> PossibleHosts(interfaces, fuel).None?
    ensures r.Some? ==> forall a :: a in r.value <==> a in PossibleHosts(interfaces, fuel).value && a != Zeros && pingOk(a)
  {
    match PossibleHosts(interfaces, fuel)
    case None => None
    case Some(candidates) =>
      AnsweringMembers(pingOk, candidates);
      Some(Collect(Answering(pingOk), candidates))
  }

  /** The devices kept are the candidates other than 0.0.0.0 that answered. */
  lemma AnsweringMembers(pingOk: IPv4 -> bool, candidates: seq<IPv4>)
    ensures forall a :: a in Collect(Answering(pingOk), candidates) <==> a in candidates && a != Zeros && pingOk(a)
  {
    forall a ensures a in Collect(Answering(pingOk), candidates) <==> a in candidates && a != Zeros && pingOk(a) {
      CollectMember(Answering(pingOk), candidates, a);
      if a in candidates && a != Zeros && pingOk(a) {
        var i :| 0 <= i < |candidates| && candidates[i] == a;
        assert Answering(pingOk)(candidates[i]) == Some(a);
      }
    }
  }

  /**
   * The devices are the sub-list of the candidates that answered, in
   * candidate order: `idx` gives, in increasing order, the position of
   * each device among the candidates, and every answering candidate has
   * one.
   */
  lemma DevicesAreAnsweringCandidates(interfaces: seq<NetworkInterface>, pingOk: IPv4 -> bool, fuel: nat) returns (idx: seq<nat>)
    requires PossibleHosts(interfaces, fuel).Some?
    ensures var candidates := PossibleHosts(interfaces, fuel).value;
            var devices := FindNetworkDevices(interfaces, pingOk, fuel).value;
            && |idx| == |devices|
            && (forall k :: 0 <= k < |idx| ==> idx[k] < |candidates| && devices[k] == candidates[idx[k]]
                                               && candidates[idx[k]] != Zeros && pingOk(candidates[idx[k]]))
            && (forall k, l :: 0 <= k < l < |idx| ==> idx[k] < idx[l])
            && (forall i :: 0 <= i < |candidates| && candidates[i] != Zeros && pingOk(candidates[i]) ==> i in idx)
  {
    var candidates := PossibleHosts(interfaces, fuel).value;
    idx := CollectExact(Answering(pingOk), candidates);
    forall k | 0 <= k < |idx|
      ensures candidates[idx[k]] != Zeros && pingOk(candidates[idx[k]])
    {
      assert Answering(pingOk)(candidates[idx[k]]).Some?;
    }
    forall i | 0 <= i < |candidates| && candidates[i] != Zeros && pingOk(candidates[i])
      ensures i in idx
    {
      assert Answering(pingOk)(candidates[i]).Some?;
    }
  }
}
