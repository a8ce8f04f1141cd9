/** Address allocation for one test instance (sdks/network/network.go):
    the interface-drift check `sameAddrs`, the octets derived from the
    barrier's sequence number, and `New`, which configures the network twice
    around the barrier. The barrier and `net.InterfaceAddrs` are inputs; each
    network configuration request is recorded on the control-plane client. */
module Network {
  import opened Base
  import opened Format
  import opened Runtime

  // ---------------------------------------------------------------------
  // sameAddrs: addresses are compared by their string forms

  /** What `sameAddrs(a, b)` decides: equal lengths, and every address of
      `b` is among those of `a`. */
  predicate Covers(a: seq<GoString>, b: seq<GoString>)
  {
    |a| == |b| && forall i :: 0 <= i < |b| ==> b[i] in a
  }

  /** `sameAddrs`: a set of `a`'s addresses, then a scan of `b` that stops
      at the first address missing from it. */
  method SameAddrs(a: seq<GoString>, b: seq<GoString>) returns (same: bool)
    ensures same <==> Covers(a, b)
    ensures |a| != |b| ==> !same
  {
    if |a| != |b| {
      return false;
    }
    var aset: map<GoString, bool> := map[];
    var i := 0;
    while i < |a|
      invariant 0 <= i <= |a|
      invariant forall x :: x in aset <==> x in a[..i]
      invariant forall x :: x in aset ==> aset[x]
    {
      assert a[..i + 1] == a[..i] + [a[i]];
      aset := aset[a[i] := true];
      i := i + 1;
    }
    assert a[..i] == a;
    var j := 0;
    while j < |b|
      invariant 0 <= j <= |b|
      invariant forall k :: 0 <= k < j ==> b[k] in a
    {
      // a missing key reads as Go's zero value, false
      var present := if b[j] in aset then aset[b[j]] else false;
      if !present {
        return false;
      }
      j := j + 1;
    }
    return true;
  }

  /** Unchanged interfaces always pass the drift check. */
  lemma CoversReflexive(a: seq<GoString>)
    ensures Covers(a, a)
  {
  }

  /** Interfaces listed in another order also pass. */
  lemma CoversPermutation(a: seq<GoString>, b: seq<GoString>)
    requires multiset(a) == multiset(b)
    ensures Covers(a, b)
  {
    assert |a| == |multiset(a)| == |multiset(b)| == |b|;
    forall i | 0 <= i < |b|
      ensures b[i] in a
    {
      assert b[i] in multiset(b);
    }
  }

  /** The check is not symmetric once an address repeats. */
  lemma CoversNotSymmetric()
    ensures Covers(["10.0.0.1", "10.0.0.2"], ["10.0.0.1", "10.0.0.1"])
    ensures !Covers(["10.0.0.1", "10.0.0.1"], ["10.0.0.1", "10.0.0.2"])
  {
    var a: seq<GoString> := ["10.0.0.1", "10.0.0.1"];
    var b: seq<GoString> := ["10.0.0.1", "10.0.0.2"];
    assert b[1] !in a;
  }

  predicate NoDuplicates(s: seq<GoString>)
  {
    forall i, j :: 0 <= i < j < |s| ==> s[i] != s[j]
  }

  lemma {:induction false} DistinctCardinality(s: seq<GoString>)
    requires NoDuplicates(s)
    ensures |set x | x in s| == |s|
    decreases |s|
  {
    if s != [] {
      var t := s[..|s| - 1];
      DistinctCardinality(t);
      assert s == t + [s[|s| - 1]];
      assert (set x | x in s) == (set x | x in t) + {s[|s| - 1]};
      assert s[|s| - 1] !in t;
    }
  }

  lemma {:induction false} SetCardinality(s: seq<GoString>)
    ensures |set x | x in s| <= |s|
    decreases |s|
  {
    if s != [] {
      var t := s[..|s| - 1];
      SetCardinality(t);
      assert s == t + [s[|s| - 1]];
      assert (set x | x in s) == (set x | x in t) + {s[|s| - 1]};
    }
  }

  /** When the new addresses are pairwise distinct, passing the check means
      the interfaces carry exactly the old addresses: none was added or lost. */
  lemma CoversDistinctSameSet(a: seq<GoString>, b: seq<GoString>)
    requires NoDuplicates(b) && Covers(a, b)
    ensures (set x | x in a) == (set x | x in b)
  {
    var sa, sb := set x | x in a, set x | x in b;
    DistinctCardinality(b);
    SetCardinality(a);
    assert sb <= sa;
    assert |sa - sb| == |sa| - |sb| == 0;
    assert sa - sb == {};
  }

  // ---------------------------------------------------------------------
  // The address derived from the sequence number

  /** Go's `>>` on a signed integer is an arithmetic shift: floor division. */
  function Shr8(x: Int64): int
  {
    x / 256
  }

  /** Go's `byte(x)` keeps the low eight bits of the two's-complement value. */
  function ToByte(x: int): Byte
  {
    x % 256
  }

  /** `ipC := byte((seq >> 8) + 1)`: the high byte of the 16-bit host
      number `seq + 256` (modulo 2^16). */
  function IpC(seqNo: Int64): (c: Byte)
    ensures c == (seqNo + 256) % 65536 / 256
  {
    HighByteOfHostNumber(seqNo);
    ToByte(Shr8(seqNo) + 1)
  }

  /** `ipD := byte(seq)`: the one byte congruent to `seq` modulo 256, which
      is also the low byte of the host number `seq + 256`. */
  function IpD(seqNo: Int64): (d: Byte)
    ensures (seqNo - d) % 256 == 0
    ensures d == (seqNo + 256) % 65536 % 256
  {
    LowByteOfHostNumber(seqNo);
    ToByte(seqNo)
  }

  const Mask24: seq<Byte> := [255, 255, 255, 0]

  /** The instance's address: the first two bytes of the test subnet, then
      `ipC`, `ipD`. The two low bytes read as a 16-bit host number are the
      sequence number shifted by 256, modulo 2^16. */
  function AssignedIP(subnetIP: seq<Byte>, seqNo: Int64): (ip: seq<Byte>)
    requires |subnetIP| >= 2
    ensures |ip| == 4 && ip[..2] == subnetIP[..2]
  {
    subnetIP[..2] + [IpC(seqNo), IpD(seqNo)]
  }

  /** The two low bytes of the assigned address, read as a 16-bit host
      number, are the sequence number plus 256, modulo 2^16. */
  lemma AssignedIPHostNumber(subnetIP: seq<Byte>, seqNo: Int64)
    requires |subnetIP| >= 2
    ensures AssignedIP(subnetIP, seqNo)[2] as int * 256 + AssignedIP(subnetIP, seqNo)[3] ==
              (seqNo + 256) % 65536
  {
    HostNumber(seqNo);
  }

  lemma HighByteOfHostNumber(seqNo: Int64)
    ensures (seqNo / 256 + 1) % 256 == (seqNo + 256) % 65536 / 256
  {
    var q, r := seqNo / 256, seqNo % 256;
    assert seqNo + 256 == (q + 1) * 256 + r;
    ModOfScaled(q + 1, r);
  }

  lemma LowByteOfHostNumber(seqNo: Int64)
    ensures (seqNo - seqNo % 256) % 256 == 0
    ensures seqNo % 256 == (seqNo + 256) % 65536 % 256
  {
    var q, r := seqNo / 256, seqNo % 256;
    ModOfMultiple(q);
    assert seqNo - r == 256 * q;
    var h := (seqNo + 256) % 65536;
    assert seqNo + 256 == (q + 1) * 256 + r;
    ModOfScaled(q + 1, r);
    assert h == ((q + 1) % 256) * 256 + r;
    LowOfScaled((q + 1) % 256, r);
  }

  lemma ModOfMultiple(q: int)
    ensures (256 * q) % 256 == 0
  {
  }

  lemma LowOfScaled(m: int, r: int)
    requires 0 <= r < 256
    ensures (m * 256 + r) % 256 == r
  {
  }

  lemma ModOfScaled(a: int, r: int)
    requires 0 <= r < 256
    ensures (a * 256 + r) % 65536 == (a % 256) * 256 + r
  {
    var k, m := a / 256, a % 256;
    assert a == 256 * k + m;
    assert a * 256 + r == 65536 * k + (m * 256 + r);
    assert 0 <= m * 256 + r < 65536;
  }

  /** `(ipC, ipD)` read as a 16-bit number is the sequence number plus 256, modulo 2^16. */
  lemma HostNumber(seqNo: Int64)
    ensures IpC(seqNo) * 256 + IpD(seqNo) == (seqNo + 256) % 65536
  {
    var q, r := seqNo / 256, seqNo % 256;
    assert seqNo + 256 == (q + 1) * 256 + r;
    ModOfScaled(q + 1, r);
  }

  lemma SplitHostNumber(h1: int, h2: int, c1: int, d1: int, c2: int, d2: int)
    requires 0 <= d1 < 256 && 0 <= d2 < 256
    requires h1 == c1 * 256 + d1 && h2 == c2 * 256 + d2
    ensures h1 == h2 <==> c1 == c2 && d1 == d2
  {
  }

  /** Two sequence numbers get the same octets exactly when they agree
      modulo 2^16. */
  lemma SameOctetsIff(s1: Int64, s2: Int64)
    ensures IpC(s1) == IpC(s2) && IpD(s1) == IpD(s2) <==> s1 % 65536 == s2 % 65536
  {
    HostNumber(s1);
    HostNumber(s2);
    SplitHostNumber((s1 + 256) % 65536, (s2 + 256) % 65536, IpC(s1), IpD(s1), IpC(s2), IpD(s2));
    assert (s1 + 256) % 65536 == (s2 + 256) % 65536 <==> s1 % 65536 == s2 % 65536 by {
      var k1, k2 := (s1 + 256) / 65536, (s2 + 256) / 65536;
      var m1, m2 := s1 / 65536, s2 / 65536;
      assert s1 - s2 == 65536 * (m1 - m2) + (s1 % 65536 - s2 % 65536);
      assert s1 - s2 == 65536 * (k1 - k2) + ((s1 + 256) % 65536 - (s2 + 256) % 65536);
      DiffMod(s1 - s2, m1 - m2, s1 % 65536 - s2 % 65536);
      DiffMod(s1 - s2, k1 - k2, (s1 + 256) % 65536 - (s2 + 256) % 65536);
    }
  }

  /** A difference with a small remainder part is a multiple of 2^16 exactly
      when that remainder part is zero. */
  lemma DiffMod(d: int, k: int, e: int)
    requires d == 65536 * k + e && -65536 < e < 65536
    ensures d % 65536 == 0 <==> e == 0
  {
    if e > 0 {
      assert d == 65536 * k + e;
      assert d % 65536 == e;
    } else if e < 0 {
      assert d == 65536 * (k - 1) + (65536 + e);
      assert d % 65536 == 65536 + e;
    }
  }

  /** Distinct sequence numbers less than 2^16 apart (in particular
      `0 <= s1 < s2 <= 65535`) get distinct octets. */
  lemma DistinctOctets(s1: Int64, s2: Int64)
    requires s1 != s2 && -65536 < s1 - s2 < 65536
    ensures (IpC(s1), IpD(s1)) != (IpC(s2), IpD(s2))
  {
    SameOctetsIff(s1, s2);
    DiffMod(s1 - s2, 0, s1 - s2);
    assert s1 - s2 == 65536 * (s1 / 65536 - s2 / 65536) + (s1 % 65536 - s2 % 65536);
    DiffMod(s1 - s2, s1 / 65536 - s2 / 65536, s1 % 65536 - s2 % 65536);
  }

  /** Numbers 2^16 apart collide: the derivation wraps around. */
  lemma WrapAround(seqNo: Int64)
    requires seqNo + 65536 < 0x8000_0000_0000_0000
    ensures IpC(seqNo) == IpC(seqNo + 65536) && IpD(seqNo) == IpD(seqNo + 65536)
  {
    SameOctetsIff(seqNo, seqNo + 65536);
  }

  /** Within the first 2^16 sequence numbers, `ipC` is zero exactly from
      65280 on. */
  lemma HighOctetZero(seqNo: Int64)
    requires 0 <= seqNo < 65536
    ensures IpC(seqNo) == 0 <==> seqNo >= 65280
  {
  }

  /** One barrier round: pairwise distinct sequence numbers drawn from a
      window of at most 2^16 consecutive values (the barrier hands out
      1, 2, ..., n) give pairwise distinct addresses. */
  lemma RoundAddressesDistinct(subnetIP: seq<Byte>, seqs: seq<Int64>, lo: int)
    requires |subnetIP| >= 2
    requires forall i, j :: 0 <= i < j < |seqs| ==> seqs[i] != seqs[j]
    requires forall i :: 0 <= i < |seqs| ==> lo <= seqs[i] < lo + 65536
    ensures forall i, j :: 0 <= i < j < |seqs| ==>
              AssignedIP(subnetIP, seqs[i]) != AssignedIP(subnetIP, seqs[j])
  {
    forall i, j | 0 <= i < j < |seqs|
      ensures AssignedIP(subnetIP, seqs[i]) != AssignedIP(subnetIP, seqs[j])
    {
      DistinctOctets(seqs[i], seqs[j]);
      var a, b := AssignedIP(subnetIP, seqs[i]), AssignedIP(subnetIP, seqs[j]);
      assert a[2] != b[2] || a[3] != b[3];
    }
  }

  // ---------------------------------------------------------------------
  // New: the configuration requests around the barrier

  datatype RoutingPolicy = DenyAll | AllowAll

  /** What the control plane receives from one configuration request. */
  datatype ConfigSnapshot = ConfigSnapshot(
    network: GoString,
    enable: bool,
    callbackState: GoString,
    routingPolicy: RoutingPolicy,
    ipv4: Option<(seq<Byte>, seq<Byte>)>)

  /** `network.Config`; the link shape is not modelled. */
  class Config {
    var network: GoString
    var enable: bool
    var callbackState: GoString
    var routingPolicy: RoutingPolicy
    var ipv4: IPNet?

    constructor (network: GoString, enable: bool, callbackState: GoString, routingPolicy: RoutingPolicy)
      ensures this.network == network && this.enable == enable
      ensures this.callbackState == callbackState && this.routingPolicy == routingPolicy
      ensures ipv4 == null
    {
      this.network := network;
      this.enable := enable;
      this.callbackState := callbackState;
      this.routingPolicy := routingPolicy;
      ipv4 := null;
    }
  }

  function Snapshot(c: Config): ConfigSnapshot
    reads c, c.ipv4
  {
    ConfigSnapshot(c.network, c.enable, c.callbackState, c.routingPolicy,
                   if c.ipv4 == null then None else Some((c.ipv4.ip, c.ipv4.mask)))
  }

  /** The control-plane client; `applied` lists every configuration it was
      asked to apply, oldest first. */
  class NetClient {
    ghost var applied: seq<ConfigSnapshot>

    constructor ()
      ensures applied == []
    {
      applied := [];
    }

    /** `MustConfigureNetwork`; its failure (a panic) is not modelled. */
    method MustConfigureNetwork(c: Config)
      modifies this
      ensures applied == old(applied) + [Snapshot(c)]
    {
      applied := applied + [Snapshot(c)];
    }
  }

  const DefaultNetwork: GoString := "default"
  const NetworkConfiguredState: GoString := "network-configured"
  const IpChangedState: GoString := "ip-changed"
  const BeforeConfigureMessage: GoString := "before netclient.MustConfigureNetwork"
  const InterfacesChanged: GoString := "interfaces changed"

  /** The first request: default network on, all routing denied. */
  const Configured := ConfigSnapshot(DefaultNetwork, true, NetworkConfiguredState, DenyAll, None)

  /** The second request, carrying the instance's address. */
  function IpChanged(ip: seq<Byte>): ConfigSnapshot
  {
    ConfigSnapshot(DefaultNetwork, true, IpChangedState, DenyAll, Some((ip, Mask24)))
  }

  const SequencePrefix: GoString := "I am "

  /** `RecordMessage("I am %d", seq)`. */
  function SequenceMessage(seqNo: Int64): GoString
  {
    SequencePrefix + FormatInt(seqNo, 0)
  }

  /** The error `New` returns: the first failing interface read, then the
      drift check; `None` when it gets past both. */
  function NewError(oldAddrs: Result<seq<GoString>>, newAddrs: Result<seq<GoString>>): Option<GoString>
  {
    if oldAddrs.Err? then Some(oldAddrs.error)
    else if newAddrs.Err? then Some(newAddrs.error)
    else if !Covers(oldAddrs.value, newAddrs.value) then Some(InterfacesChanged)
    else None
  }

  /** `New` gets through exactly when both reads succeed and the drift check
      passes; otherwise it reports the first read's error, the second read's
      error, or "interfaces changed", in that order. */
  lemma NewErrorCases(oldAddrs: Result<seq<GoString>>, newAddrs: Result<seq<GoString>>)
    ensures NewError(oldAddrs, newAddrs) == None <==>
              oldAddrs.Ok? && newAddrs.Ok? && Covers(oldAddrs.value, newAddrs.value)
    ensures oldAddrs.Err? ==> NewError(oldAddrs, newAddrs) == Some(oldAddrs.error)
    ensures oldAddrs.Ok? && newAddrs.Err? ==> NewError(oldAddrs, newAddrs) == Some(newAddrs.error)
    ensures oldAddrs.Ok? && newAddrs.Ok? && !Covers(oldAddrs.value, newAddrs.value) ==>
              NewError(oldAddrs, newAddrs) == Some(InterfacesChanged)
  {
  }

  /** The configuration requests `New` makes, in order. */
  function NewRequests(oldAddrs: Result<seq<GoString>>, newAddrs: Result<seq<GoString>>,
                       subnetIP: seq<Byte>, seqNo: Int64): (reqs: seq<ConfigSnapshot>)
    requires NewError(oldAddrs, newAddrs) == None ==> |subnetIP| >= 2
  {
    if oldAddrs.Err? then []
    else if NewError(oldAddrs, newAddrs).Some? then [Configured]
    else [Configured, IpChanged(AssignedIP(subnetIP, seqNo))]
  }

  /** The messages `New` records, in order. */
  function NewMessages(oldAddrs: Result<seq<GoString>>, newAddrs: Result<seq<GoString>>,
                       seqNo: Int64): seq<Event>
  {
    if oldAddrs.Err? then []
    else if NewError(oldAddrs, newAddrs).Some? then [Message(BeforeConfigureMessage)]
    else [Message(BeforeConfigureMessage), Message(SequenceMessage(seqNo))]
  }

  /** A failed `New` never requests the "ip-changed" state: at most the first,
      "network-configured" request was made. */
  lemma FailedNewNeverChangesIp(oldAddrs: Result<seq<GoString>>, newAddrs: Result<seq<GoString>>,
                                subnetIP: seq<Byte>, seqNo: Int64)
    requires NewError(oldAddrs, newAddrs).Some?
    ensures NewRequests(oldAddrs, newAddrs, subnetIP, seqNo) == [] ||
            NewRequests(oldAddrs, newAddrs, subnetIP, seqNo) == [Configured]
    ensures forall r :: r in NewRequests(oldAddrs, newAddrs, subnetIP, seqNo) ==>
              r.callbackState != IpChangedState
  {
    assert NetworkConfiguredState[0] != IpChangedState[0];
  }

  /** Past the drift check, `New` makes exactly two requests: first
      "network-configured" without an address, then "ip-changed" with the
      address derived from the sequence number and the /24 mask. */
  lemma SuccessfulNewRequests(oldAddrs: Result<seq<GoString>>, newAddrs: Result<seq<GoString>>,
                              subnetIP: seq<Byte>, seqNo: Int64)
    requires oldAddrs.Ok? && newAddrs.Ok? && Covers(oldAddrs.value, newAddrs.value)
    requires |subnetIP| >= 2
    ensures NewError(oldAddrs, newAddrs) == None
    ensures |NewRequests(oldAddrs, newAddrs, subnetIP, seqNo)| == 2
    ensures NewRequests(oldAddrs, newAddrs, subnetIP, seqNo)[0].callbackState == NetworkConfiguredState
    ensures NewRequests(oldAddrs, newAddrs, subnetIP, seqNo)[0].ipv4 == None
    ensures NewRequests(oldAddrs, newAddrs, subnetIP, seqNo)[1].callbackState == IpChangedState
    ensures NewRequests(oldAddrs, newAddrs, subnetIP, seqNo)[1].ipv4 ==
              Some((AssignedIP(subnetIP, seqNo), Mask24))
  {
  }

  /** Interfaces that did not change across the barrier never stop `New`
      once both reads succeed. */
  lemma UnchangedInterfacesPass(addrs: seq<GoString>)
    ensures NewError(Ok(addrs), Ok(addrs)) == None
  {
    CoversReflexive(addrs);
  }

  /** `New`. `oldAddrs` and `newAddrs` are what `net.InterfaceAddrs` returns
      before and after the barrier, `seqNo` is the barrier's sequence number.
      The config's address object is the run environment's own test subnet,
      so the address is written into that shared object. */
  method New(runenv: RunEnv, netclient: NetClient,
             oldAddrs: Result<seq<GoString>>, seqNo: Int64, newAddrs: Result<seq<GoString>>)
    returns (cfg: Config?, err: Option<GoString>)
    requires NewError(oldAddrs, newAddrs) == None ==> |runenv.testSubnet.ip| >= 2
    modifies runenv, runenv.testSubnet, netclient
    ensures err == NewError(oldAddrs, newAddrs)
    ensures cfg != null <==> err == None
    ensures netclient.applied ==
              old(netclient.applied) + NewRequests(oldAddrs, newAddrs, old(runenv.testSubnet.ip), seqNo)
    ensures runenv.events == old(runenv.events) + NewMessages(oldAddrs, newAddrs, seqNo)
    ensures err.Some? ==>
              runenv.testSubnet.ip == old(runenv.testSubnet.ip) &&
              runenv.testSubnet.mask == old(runenv.testSubnet.mask)
    ensures err == None ==>
              cfg != null && fresh(cfg) &&
              cfg.ipv4 == runenv.testSubnet &&
              runenv.testSubnet.ip == AssignedIP(old(runenv.testSubnet.ip), seqNo) &&
              runenv.testSubnet.mask == Mask24 &&
              Snapshot(cfg) == IpChanged(AssignedIP(old(runenv.testSubnet.ip), seqNo))
  {
    if oldAddrs.Err? {
      return null, Some(oldAddrs.error);
    }
    var config := ConfigureDefault(runenv, netclient);

    ghost var subnetIP := old(runenv.testSubnet.ip);
    assert runenv.testSubnet.ip == subnetIP;
    if newAddrs.Err? {
      assert NewRequests(oldAddrs, newAddrs, subnetIP, seqNo) == [Configured];
      assert NewMessages(oldAddrs, newAddrs, seqNo) == [Message(BeforeConfigureMessage)];
      return null, Some(newAddrs.error);
    }
    var same := SameAddrs(oldAddrs.value, newAddrs.value);
    if !same {
      assert NewRequests(oldAddrs, newAddrs, subnetIP, seqNo) == [Configured];
      assert NewMessages(oldAddrs, newAddrs, seqNo) == [Message(BeforeConfigureMessage)];
      return null, Some(InterfacesChanged);
    }

    ghost var appliedBefore, eventsBefore := netclient.applied, runenv.events;
    ghost var ip := AssignedIP(runenv.testSubnet.ip, seqNo);
    ChangeIp(runenv, netclient, config, seqNo);
    assert netclient.applied == appliedBefore + [IpChanged(ip)];
    assert runenv.events == eventsBefore + [Message(SequenceMessage(seqNo))];
    return config, None;
  }

  /** The first steps of `New`: a config for the default network with all
      routing denied and no address yet, requested as "network-configured". */
  method ConfigureDefault(runenv: RunEnv, netclient: NetClient) returns (config: Config)
    modifies runenv, netclient
    ensures fresh(config)
    ensures config.network == DefaultNetwork && config.enable && config.routingPolicy == DenyAll
    ensures config.ipv4 == null
    ensures netclient.applied == old(netclient.applied) + [Configured]
    ensures runenv.events == old(runenv.events) + [Message(BeforeConfigureMessage)]
  {
    config := new Config(DefaultNetwork, true, NetworkConfiguredState, DenyAll);
    runenv.RecordMessage(BeforeConfigureMessage);
    assert Snapshot(config) == Configured;
    netclient.MustConfigureNetwork(config);
  }

  /** The last steps of `New`, past the drift check: announce the sequence
      number, write the derived address and the /24 mask into the shared
      subnet object, and request the "ip-changed" state. */
  method ChangeIp(runenv: RunEnv, netclient: NetClient, config: Config, seqNo: Int64)
    requires |runenv.testSubnet.ip| >= 2
    requires config.network == DefaultNetwork && config.enable && config.routingPolicy == DenyAll
    modifies runenv, runenv.testSubnet, netclient, config
    ensures config.ipv4 == runenv.testSubnet
    ensures runenv.testSubnet.ip == AssignedIP(old(runenv.testSubnet.ip), seqNo)
    ensures runenv.testSubnet.mask == Mask24
    ensures Snapshot(config) == IpChanged(AssignedIP(old(runenv.testSubnet.ip), seqNo))
    ensures netclient.applied ==
              old(netclient.applied) + [IpChanged(AssignedIP(old(runenv.testSubnet.ip), seqNo))]
    ensures runenv.events == old(runenv.events) + [Message(SequenceMessage(seqNo))]
  {
    ghost var ip := AssignedIP(runenv.testSubnet.ip, seqNo);
    runenv.RecordMessage(SequenceMessage(seqNo));
    var ipC, ipD := IpC(seqNo), IpD(seqNo);
    config.ipv4 := runenv.testSubnet;
    config.ipv4.ip := config.ipv4.ip[..2] + [ipC, ipD];
    config.ipv4.mask := Mask24;
    config.callbackState := IpChangedState;
    assert Snapshot(config) == IpChanged(ip);
    netclient.MustConfigureNetwork(config);
  }
}
