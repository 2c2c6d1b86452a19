/** First-free search and allocation checks of util/util.go, over already parsed CIDRs. */
module IpAllocator {
  import opened Wrappers
  import opened IpBytes

  /** What net.ParseCIDR makes of a stored or submitted string. */
  datatype ParsedCidr = Malformed | Cidr(ip: Bytes, ones: nat) {
    predicate WellFormed() {
      Cidr? ==> (|ip| == 4 || |ip| == 16) && ones <= 8 * |ip|
    }
  }

  type CidrText = c: ParsedCidr | c.WellFormed() witness Malformed

  function NetOf(c: CidrText): (n: Network)
    requires c.Cidr?
    ensures Contains(n, c.ip)
  {
    MaskedTwice(c.ip, c.ones);
    Net(Masked(c.ip, c.ones), c.ones)
  }

  lemma {:induction false} MaskedTwice(s: Bytes, ones: nat)
    requires |s| == 4 || |s| == 16
    requires ones <= 8 * |s|
    ensures Masked(Masked(s, ones), ones) == Masked(s, ones)
    ensures Contains(Net(Masked(s, ones), ones), s)
  {
    var m := Masked(s, ones);
    MaskedIsRoundedDown(s, ones);
    MaskedIsRoundedDown(m, ones);
    RoundDownSpan(Num(s), 8 * |s| - ones);
    NumInjective(Masked(m, ones), m);
    SameNetworkBytes(Net(m, ones), s);
  }

  /** x is the network or the broadcast address of some (parsable) interface network. */
  ghost predicate IsEdge(x: Bytes, interfaces: seq<CidrText>) {
    exists i :: 0 <= i < |interfaces| && EdgeOf(x, interfaces[i])
  }

  predicate EdgeOf(x: Bytes, c: CidrText) {
    c.Cidr? && (x == NetOf(c).ip || x == Filled(NetOf(c).ip, c.ones))
  }

  /** The network of a CIDR in numbers: the block of 2^(bits - ones) addresses, beginning at a
      multiple of that size, that holds the address; its ends are the two edges. */
  lemma {:induction false} NetworkIsBlock(c: CidrText, x: Bytes) returns (q: nat)
    requires c.Cidr?
    ensures var size := Pow2(8 * |c.ip| - c.ones);
            && q * size <= Num(c.ip) < q * size + size
            && (Contains(NetOf(c), x) <==> |x| == |c.ip| && q * size <= Num(x) < q * size + size)
            && (EdgeOf(x, c) <==> |x| == |c.ip| && (Num(x) == q * size || Num(x) == q * size + size - 1))
  {
    hide Masked, Filled, Contains, Num, Pow2, RoundDown;
    var n := NetOf(c);
    q := RoundDownMultiple(Num(c.ip), n.HostBits());
    MaskedIsRoundedDown(c.ip, c.ones);
    ContainsIffInRange(n, c.ip);
    ContainsIffInRange(n, x);
    FilledIsLast(n);
    if |x| == |c.ip| && Num(x) == Num(n.ip) {
      NumInjective(x, n.ip);
    }
    if |x| == |c.ip| && Num(x) == n.Last() {
      NumInjective(x, Filled(n.ip, c.ones));
    }
  }

  ghost predicate Free(x: Bytes, taken: seq<Bytes>, interfaces: seq<CidrText>) {
    x !in taken && !IsEdge(x, interfaces)
  }

  /** util.GetBroadcastAndNetworkAddrsLookup: unparsable interface entries are skipped. */
  method GetBroadcastAndNetworkAddrsLookup(interfaces: seq<CidrText>) returns (list: set<Bytes>)
    ensures forall x :: x in list <==> IsEdge(x, interfaces)
  {
    list := {};
    for i := 0 to |interfaces|
      invariant forall x :: x in list <==> IsEdge(x, interfaces[..i])
    {
      var c := interfaces[i];
      assert interfaces[..i + 1] == interfaces[..i] + [c];
      ghost var was := list;
      if c.Cidr? {
        var broadcast := GetBroadcastIP(NetOf(c));
        list := list + {broadcast, NetOf(c).ip};
      }
      forall x ensures x in list <==> IsEdge(x, interfaces[..i + 1]) {
        EdgeSnoc(x, interfaces[..i], c);
      }
    }
    assert interfaces[..|interfaces|] == interfaces;
  }

  lemma {:induction false} EdgeSnoc(x: Bytes, cs: seq<CidrText>, c: CidrText)
    ensures IsEdge(x, cs + [c]) <==> IsEdge(x, cs) || EdgeOf(x, c)
  {
    var all := cs + [c];
    if IsEdge(x, cs) {
      var i :| 0 <= i < |cs| && EdgeOf(x, cs[i]);
      assert EdgeOf(x, all[i]);
    }
    if EdgeOf(x, c) {
      assert EdgeOf(x, all[|cs|]);
    }
  }

  /** Every address of the network that is free is numerically at or after cur. */
  ghost predicate NoneSkipped(n: Net, cur: Bytes, taken: seq<Bytes>, interfaces: seq<CidrText>) {
    forall x :: Contains(n, x) && Free(x, taken, interfaces) ==> Num(cur) <= Num(x)
  }

  ghost predicate Exhausted(n: Net, taken: seq<Bytes>, interfaces: seq<CidrText>) {
    forall x :: Contains(n, x) ==> !Free(x, taken, interfaces)
  }

  /** The search ends: always for a prefix of at least one bit, and for prefix length 0
      when there is something to find (SearchNeverStops covers the rest). */
  ghost predicate SearchStops(n: Net, taken: seq<Bytes>, interfaces: seq<CidrText>) {
    n.ones >= 1 || !Exhausted(n, taken, interfaces)
  }

  lemma {:induction false} SearchStep(n: Net, cur: Bytes, taken: seq<Bytes>, interfaces: seq<CidrText>)
    requires n.Valid() && Contains(n, cur) && !Free(cur, taken, interfaces)
    requires NoneSkipped(n, cur, taken, interfaces)
    requires SearchStops(n, taken, interfaces)
    ensures Contains(n, Incremented(cur)) ==>
              && NoneSkipped(n, Incremented(cur), taken, interfaces)
              && Num(cur) < Num(Incremented(cur)) <= n.Last()
    ensures !Contains(n, Incremented(cur)) ==> Exhausted(n, taken, interfaces)
  {
    var next := Incremented(cur);
    IncrementedIsSuccessor(cur);
    ContainsIffInRange(n, cur);
    ContainsIffInRange(n, next);
    LastFits(n);
    forall x | Contains(n, x) && Free(x, taken, interfaces) ensures Num(cur) < Num(x) <= n.Last() {
      ContainsIffInRange(n, x);
      if Num(x) == Num(cur) {
        NumInjective(x, cur);
      }
    }
    if Num(cur) == n.Last() {
      assert Exhausted(n, taken, interfaces);
      Pow2Monotone(n.HostBits() + 1, 8 * |n.ip|);
    }
  }

  /** util.GetAvailableIP. */
  method GetAvailableIP(cidr: CidrText, taken: seq<Bytes>, interfaces: seq<CidrText>) returns (r: Option<Bytes>)
    requires cidr.Cidr? ==> SearchStops(NetOf(cidr), taken, interfaces)
    ensures cidr.Malformed? ==> r.None?
    ensures r.Some? ==>
              && cidr.Cidr? && Contains(NetOf(cidr), r.value) && Free(r.value, taken, interfaces)
              && forall x :: Contains(NetOf(cidr), x) && Free(x, taken, interfaces) ==> Num(r.value) <= Num(x)
    ensures cidr.Cidr? && r.None? ==> forall x :: Contains(NetOf(cidr), x) ==> !Free(x, taken, interfaces)
  {
    if cidr.Malformed? {
      return None;
    }
    var net := NetOf(cidr);
    var unavailable := GetBroadcastAndNetworkAddrsLookup(interfaces);
    var ip := new Byte[|net.ip|](i requires 0 <= i < |net.ip| => net.ip[i]);
    assert ip[..] == net.ip;
    NetworkAddressFirst(net);
    while Contains(net, ip[..])
      invariant Contains(net, ip[..]) ==> NoneSkipped(net, ip[..], taken, interfaces) && Num(ip[..]) <= net.Last()
      invariant !Contains(net, ip[..]) ==> Exhausted(net, taken, interfaces)
      decreases if Contains(net, ip[..]) then net.Last() - Num(ip[..]) + 1 else 0
    {
      var suggested := ip[..];
      var available := true;
      for i := 0 to |taken|
        invariant available <==> suggested !in taken[..i]
      {
        if suggested == taken[i] {
          available := false;
          break;
        }
      }
      assert available <==> suggested !in taken;
      if available && suggested !in unavailable {
        return Some(suggested);
      }
      SearchStep(net, suggested, taken, interfaces);
      Inc(ip);
    }
    return None;
  }

  lemma {:induction false} NetworkAddressFirst(n: Net)
    requires n.Valid()
    ensures Contains(n, n.ip) && n.First() <= n.Last()
    ensures forall x :: Contains(n, x) ==> Num(n.ip) <= Num(x)
  {
    ContainsIffInRange(n, n.ip);
    forall x | Contains(n, x) ensures Num(n.ip) <= Num(x) {
      ContainsIffInRange(n, x);
    }
  }

  /** The address the search looks at after k steps that found nothing. */
  ghost function Candidate(n: Net, k: nat): (x: Bytes)
    ensures |x| == |n.ip|
  {
    if k == 0 then n.ip else Incremented(Candidate(n, k - 1))
  }

  /** With prefix length 0 and no free address, the increment wraps and the search is still
      running after any number of steps: SearchStops is exactly the condition for an answer. */
  lemma {:induction false} SearchNeverStops(n: Net, taken: seq<Bytes>, interfaces: seq<CidrText>, k: nat)
    requires n.Valid() && !SearchStops(n, taken, interfaces)
    ensures Contains(n, Candidate(n, k)) && !Free(Candidate(n, k), taken, interfaces)
  {
  }

  // ----- validation

  datatype Verdict = Accepted | Rejected | Crashed

  /** Some server network holds ip, and the scan reaches it before an unparsable entry. */
  ghost predicate InServerNetwork(server: seq<CidrText>, ip: Bytes) {
    exists i :: 0 <= i < |server| && AllParsed(server[..i]) && server[i].Cidr? && Contains(NetOf(server[i]), ip)
  }

  predicate AllParsed(cs: seq<CidrText>) {
    forall i :: 0 <= i < |cs| ==> cs[i].Cidr?
  }

  ghost predicate Allocatable(server: seq<CidrText>, taken: seq<Bytes>, c: CidrText) {
    c.Cidr? && c.ip !in taken && InServerNetwork(server, c.ip)
  }

  /** The scan of the server networks for ip meets an unparsable entry before a network that
      holds it: that entry gives a nil network, and calling Contains on it panics. */
  ghost predicate ScanCrashes(server: seq<CidrText>, ip: Bytes) {
    exists j :: 0 <= j < |server| && BlockedAt(server, ip, j)
  }

  ghost predicate BlockedAt(server: seq<CidrText>, ip: Bytes, j: nat)
    requires j < |server|
  {
    server[j].Malformed? && forall i :: 0 <= i < j ==> server[i].Cidr? && !Contains(NetOf(server[i]), ip)
  }

  /** The k-th wanted entry is the one that crashes the check: all before it pass. */
  ghost predicate CrashesAt(server: seq<CidrText>, taken: seq<Bytes>, wanted: seq<CidrText>, k: nat)
    requires k < |wanted|
  {
    && (forall i :: 0 <= i < k ==> Allocatable(server, taken, wanted[i]))
    && wanted[k].Cidr? && wanted[k].ip !in taken && ScanCrashes(server, wanted[k].ip)
  }

  /** util.ValidateIPAllocation. */
  method ValidateIPAllocation(server: seq<CidrText>, taken: seq<Bytes>, wanted: seq<CidrText>) returns (v: Verdict)
    ensures v.Accepted? <==> forall w :: w in wanted ==> Allocatable(server, taken, w)
    ensures v.Crashed? <==> exists k :: 0 <= k < |wanted| && CrashesAt(server, taken, wanted, k)
  {
    hide ScanCrashes, InServerNetwork;
    for k := 0 to |wanted|
      invariant forall i :: 0 <= i < k ==> Allocatable(server, taken, wanted[i])
    {
      var c := wanted[k];
      assert c in wanted;
      if c.Malformed? {
        NoCrash(server, taken, wanted, k);
        return Rejected;
      }
      for i := 0 to |taken|
        invariant c.ip !in taken[..i]
      {
        if taken[i] == c.ip {
          NoCrash(server, taken, wanted, k);
          return Rejected;
        }
      }
      assert taken[..|taken|] == taken;
      var scan := ScanNetworks(server, c.ip);
      if scan.Crashed? {
        BlockedScan(server, c.ip);
        assert CrashesAt(server, taken, wanted, k);
        return Crashed;
      }
      if scan.Rejected? {
        NoCrash(server, taken, wanted, k);
        return Rejected;
      }
    }
    if |wanted| > 0 {
      BlockedScan(server, wanted[|wanted| - 1].ip);
      NoCrash(server, taken, wanted, |wanted| - 1);
    }
    return Accepted;
  }

  /** The inner scan: does a server network hold the address? */
  method ScanNetworks(server: seq<CidrText>, ip: Bytes) returns (v: Verdict)
    ensures v.Accepted? <==> InServerNetwork(server, ip)
    ensures v.Crashed? <==> ScanCrashes(server, ip)
  {
    for j := 0 to |server|
      invariant AllParsed(server[..j])
      invariant forall i :: 0 <= i < j ==> server[i].Cidr? && !Contains(NetOf(server[i]), ip)
    {
      if server[j].Malformed? {
        assert BlockedAt(server, ip, j);
        BlockedScan(server, ip);
        return Crashed;
      }
      if Contains(NetOf(server[j]), ip) {
        assert InServerNetwork(server, ip);
        BlockedScan(server, ip);
        return Accepted;
      }
    }
    return Rejected;
  }

  /** If entry k does not crash the check and, unless it is the last, does not pass it either,
      nothing crashes it. */
  lemma {:induction false} NoCrash(server: seq<CidrText>, taken: seq<Bytes>, wanted: seq<CidrText>, k: nat)
    requires k < |wanted| && forall i :: 0 <= i < k ==> Allocatable(server, taken, wanted[i])
    requires !CrashesAt(server, taken, wanted, k)
    requires k == |wanted| - 1 || !Allocatable(server, taken, wanted[k])
    ensures forall m :: 0 <= m < |wanted| ==> !CrashesAt(server, taken, wanted, m)
  {
    hide ScanCrashes, InServerNetwork;
    forall m | 0 <= m < |wanted| ensures !CrashesAt(server, taken, wanted, m) {
      if m < k {
        BlockedScan(server, wanted[m].ip);
      }
    }
  }

  /** A crashed scan found no network, whatever comes behind the unparsable entry. */
  lemma {:induction false} BlockedScan(server: seq<CidrText>, ip: Bytes)
    ensures !(ScanCrashes(server, ip) && InServerNetwork(server, ip))
  {
    if ScanCrashes(server, ip) {
      var j :| 0 <= j < |server| && BlockedAt(server, ip, j);
      forall i | 0 <= i < |server| && server[i].Cidr? && Contains(NetOf(server[i]), ip)
        ensures !AllParsed(server[..i])
      {
        assert server[..i][j].Malformed?;
      }
    }
  }
}
