/** Named subnet ranges: parsing (util/config.go), pruning against the server networks and
    address suggestion (util/util.go, handler/routes.go). */
module SubnetRanges {
  import opened Wrappers
  import opened IpBytes
  import opened IpAllocator

  /** One ";"-separated piece of the setting, split at ":" and ",". */
  datatype RangeSpec = Unreadable | Range(name: string, cidrs: seq<CidrText>)

  type RangeMap = map<string, seq<Network>>

  ghost predicate NoDuplicates(nets: seq<Network>) {
    forall i, j :: 0 <= i < j < |nets| ==> nets[i] != nets[j]
  }

  ghost predicate UniqueNets(ranges: RangeMap) {
    && (forall k :: k in ranges ==> NoDuplicates(ranges[k]))
    && (forall j, k, n :: j in ranges && k in ranges && n in ranges[j] && n in ranges[k] ==> j == k)
  }

  /** n is named by one of the first m pieces, under this range name. */
  ghost predicate Mentioned(specs: seq<RangeSpec>, m: nat, name: string, n: Network) {
    exists i :: 0 <= i < m && i < |specs| && MentionedAt(specs[i], name, n)
  }

  ghost predicate MentionedAt(spec: RangeSpec, name: string, n: Network) {
    spec.Range? && spec.name == name && Lists(spec.cidrs, n)
  }

  lemma {:induction false} MentionedNext(specs: seq<RangeSpec>, m: nat, name: string, n: Network)
    requires m < |specs|
    ensures Mentioned(specs, m + 1, name, n) <==> Mentioned(specs, m, name, n) || MentionedAt(specs[m], name, n)
  {
  }

  ghost predicate Lists(cidrs: seq<CidrText>, n: Network) {
    exists c :: c in cidrs && c.Cidr? && NetOf(c) == n
  }

  ghost predicate Present(ranges: RangeMap, n: Network) {
    exists k :: k in ranges && n in ranges[k]
  }

  ghost predicate Listed(ranges: RangeMap, order: seq<string>) {
    forall k :: k in ranges ==> k in order && ranges[k] != []
  }

  ghost predicate DistinctNames(specs: seq<RangeSpec>) {
    forall i, j :: 0 <= i < j < |specs| && specs[i].Range? && specs[j].Range? ==> specs[i].name != specs[j].name
  }

  /** One of the first m pieces lists the network, whatever its name. */
  ghost predicate SeenIn(specs: seq<RangeSpec>, m: nat, n: Network) {
    exists i :: 0 <= i < m && i < |specs| && specs[i].Range? && Lists(specs[i].cidrs, n)
  }

  /** Piece m lists a network that no piece before it does. */
  ghost predicate Contributes(specs: seq<RangeSpec>, m: nat)
    requires m < |specs|
  {
    specs[m].Range? && exists n: Network :: Lists(specs[m].cidrs, n) && !SeenIn(specs, m, n)
  }

  /** The names of the contributing pieces, in their order. */
  ghost function OrderOf(specs: seq<RangeSpec>, m: nat): seq<string>
    requires m <= |specs|
  {
    if m == 0 then [] else OrderOf(specs, m - 1) + if Contributes(specs, m - 1) then [specs[m - 1].name] else []
  }

  lemma {:induction false} SeenNext(specs: seq<RangeSpec>, m: nat, n: Network)
    requires m < |specs|
    ensures SeenIn(specs, m + 1, n) <==> SeenIn(specs, m, n) || (specs[m].Range? && Lists(specs[m].cidrs, n))
  {
  }

  /** util.ParseSubnetRanges after splitting.  No network survives twice, and the order list
      names the pieces with something new to say, in their order, each name in the map among
      them; a repeated name replaces its earlier list, so nothing is lost when the names are
      distinct. */
  method ParseSubnetRanges(specs: seq<RangeSpec>) returns (ranges: RangeMap, order: seq<string>)
    ensures Listed(ranges, order) && UniqueNets(ranges) && order == OrderOf(specs, |specs|)
    ensures forall k: string, n: Network :: k in ranges && n in ranges[k] ==> Mentioned(specs, |specs|, k, n)
    ensures DistinctNames(specs) ==> forall k: string, n: Network :: Mentioned(specs, |specs|, k, n) ==> Present(ranges, n)
  {
    hide NetsFollow, NamesFollow, SeenIn, OrderOf;
    ranges, order := map[], [];
    var seen: set<Network> := {};
    NothingParsed(specs);
    for i := 0 to |specs|
      invariant NetsFollow(specs, i, ranges, seen) && NamesFollow(specs, i, ranges, order, seen)
    {
      if specs[i].Range? {
        var name := specs[i].name;
        var nets, seen' := CollectNew(specs[i].cidrs, seen);
        NextNets(specs, i, ranges, seen, nets, seen');
        NextNames(specs, i, ranges, order, seen, nets, seen');
        if nets == [] {
          ranges := ranges - {name};
        } else {
          ranges := ranges[name := nets];
          order := order + [name];
        }
        seen := seen';
      } else {
        SkipUnreadable(specs, i, ranges, order, seen);
      }
    }
    AllParsedFollow(specs, ranges, order, seen);
  }

  /** After m pieces: no network twice, each where it was mentioned; none lost when the names are distinct. */
  ghost predicate NetsFollow(specs: seq<RangeSpec>, m: nat, ranges: RangeMap, seen: set<Network>) {
    && UniqueNets(ranges)
    && (forall k: string, n: Network :: k in ranges && n in ranges[k] ==> n in seen && Mentioned(specs, m, k, n))
    && (forall n: Network :: n in seen <==> SeenIn(specs, m, n))
    && (DistinctNames(specs) ==> forall n: Network :: n in seen ==> Present(ranges, n))
  }

  ghost predicate NamesFollow(specs: seq<RangeSpec>, m: nat, ranges: RangeMap, order: seq<string>, seen: set<Network>) {
    m <= |specs| && Listed(ranges, order) && order == OrderOf(specs, m) && forall n: Network :: n in seen <==> SeenIn(specs, m, n)
  }

  function WithPiece(ranges: RangeMap, name: string, nets: seq<Network>): RangeMap {
    if nets == [] then ranges - {name} else ranges[name := nets]
  }

  /** What CollectNew makes of a piece. */
  ghost predicate Collected(cidrs: seq<CidrText>, seen: set<Network>, nets: seq<Network>, seen': set<Network>) {
    && NoDuplicates(nets)
    && (forall n: Network :: n in nets <==> n !in seen && Lists(cidrs, n))
    && (forall n: Network :: n in seen' <==> n in seen || n in nets)
  }

  lemma {:induction false} NothingParsed(specs: seq<RangeSpec>)
    ensures NetsFollow(specs, 0, map[], {}) && NamesFollow(specs, 0, map[], [], {})
  {
  }

  lemma {:induction false} SkipUnreadable(specs: seq<RangeSpec>, m: nat, ranges: RangeMap, order: seq<string>, seen: set<Network>)
    requires m < |specs| && specs[m].Unreadable?
    requires NetsFollow(specs, m, ranges, seen) && NamesFollow(specs, m, ranges, order, seen)
    ensures NetsFollow(specs, m + 1, ranges, seen) && NamesFollow(specs, m + 1, ranges, order, seen)
  {
    hide Lists, DistinctNames, Present;
    assert order + [] == order;
    forall n: Network ensures n in seen <==> SeenIn(specs, m + 1, n) {
      SeenNext(specs, m, n);
    }
    forall k: string, n: Network | k in ranges && n in ranges[k] ensures Mentioned(specs, m + 1, k, n) {
      MentionedNext(specs, m, k, n);
    }
  }

  lemma {:induction false} NextNets(specs: seq<RangeSpec>, m: nat, ranges: RangeMap, seen: set<Network>, nets: seq<Network>, seen': set<Network>)
    requires m < |specs| && specs[m].Range? && NetsFollow(specs, m, ranges, seen) && Collected(specs[m].cidrs, seen, nets, seen')
    ensures NetsFollow(specs, m + 1, WithPiece(ranges, specs[m].name, nets), seen')
  {
    hide Lists, Mentioned, SeenIn, DistinctNames;
    var after := WithPiece(ranges, specs[m].name, nets);
    forall n: Network ensures n in seen' <==> SeenIn(specs, m + 1, n) {
      SeenNext(specs, m, n);
    }
    forall k: string, n: Network | k in after && n in after[k] ensures n in seen' && Mentioned(specs, m + 1, k, n) {
      MentionedNext(specs, m, k, n);
    }
    if DistinctNames(specs) {
      forall n: Network | n in seen' ensures Present(after, n) {
        StillPresent(specs, m, ranges, seen, nets, seen', n);
      }
    }
  }

  lemma {:induction false} StillPresent(specs: seq<RangeSpec>, m: nat, ranges: RangeMap, seen: set<Network>, nets: seq<Network>, seen': set<Network>, n: Network)
    requires m < |specs| && specs[m].Range? && NetsFollow(specs, m, ranges, seen) && Collected(specs[m].cidrs, seen, nets, seen')
    requires DistinctNames(specs) && n in seen'
    ensures Present(WithPiece(ranges, specs[m].name, nets), n)
  {
    hide Lists, SeenIn, UniqueNets;
    var after := WithPiece(ranges, specs[m].name, nets);
    if n in seen {
      var k :| k in ranges && n in ranges[k];
      assert Mentioned(specs, m, k, n);
      assert k in after && n in after[k];
    } else {
      assert n in after[specs[m].name];
    }
  }

  lemma {:induction false} NextNames(specs: seq<RangeSpec>, m: nat, ranges: RangeMap, order: seq<string>, seen: set<Network>, nets: seq<Network>, seen': set<Network>)
    requires m < |specs| && specs[m].Range? && NamesFollow(specs, m, ranges, order, seen) && Collected(specs[m].cidrs, seen, nets, seen')
    ensures NamesFollow(specs, m + 1, WithPiece(ranges, specs[m].name, nets), if nets == [] then order else order + [specs[m].name], seen')
  {
    hide Lists, SeenIn;
    forall n: Network ensures n in seen' <==> SeenIn(specs, m + 1, n) {
      SeenNext(specs, m, n);
    }
    assert order + [] == order;
    if nets != [] {
      assert nets[0] in nets;
    }
  }

  lemma {:induction false} AllParsedFollow(specs: seq<RangeSpec>, ranges: RangeMap, order: seq<string>, seen: set<Network>)
    requires NetsFollow(specs, |specs|, ranges, seen) && NamesFollow(specs, |specs|, ranges, order, seen)
    ensures Listed(ranges, order) && UniqueNets(ranges) && order == OrderOf(specs, |specs|)
    ensures forall k: string, n: Network :: k in ranges && n in ranges[k] ==> Mentioned(specs, |specs|, k, n)
    ensures DistinctNames(specs) ==> forall k: string, n: Network :: Mentioned(specs, |specs|, k, n) ==> Present(ranges, n)
  {
    forall k: string, n: Network | Mentioned(specs, |specs|, k, n) ensures SeenIn(specs, |specs|, n) {
      var i :| 0 <= i < |specs| && MentionedAt(specs[i], k, n);
    }
  }

  /** The inner loop: keep the parsable CIDRs not seen before, in order. */
  method CollectNew(cidrs: seq<CidrText>, seen: set<Network>) returns (nets: seq<Network>, seen': set<Network>)
    ensures Collected(cidrs, seen, nets, seen')
  {
    nets, seen' := [], seen;
    for i := 0 to |cidrs|
      invariant NoDuplicates(nets)
      invariant forall n: Network :: n in nets ==> n !in seen && Lists(cidrs, n)
      invariant forall j :: 0 <= j < i && cidrs[j].Cidr? ==> NetOf(cidrs[j]) in seen'
      invariant forall n: Network :: n in seen' <==> n in seen || n in nets
    {
      if cidrs[i].Cidr? {
        var net := NetOf(cidrs[i]);
        assert Lists(cidrs, net);
        if net !in seen' {
          seen' := seen' + {net};
          nets := nets + [net];
        }
      }
    }
  }

  // ----- pruning

  predicate Inside(server: seq<CidrText>, n: Network) {
    exists i :: 0 <= i < |server| && server[i].Cidr? && ContainsCIDR(NetOf(server[i]), n)
  }

  function KeepInside(server: seq<CidrText>, nets: seq<Network>): seq<Network> {
    if nets == [] then []
    else
      var rest := KeepInside(server, nets[..|nets| - 1]);
      if Inside(server, nets[|nets| - 1]) then rest + [nets[|nets| - 1]] else rest
  }

  /** Pruning keeps exactly the networks inside a server network, and pruning twice changes nothing. */
  lemma {:induction false} KeepInsideExact(server: seq<CidrText>, nets: seq<Network>)
    ensures forall n: Network :: n in KeepInside(server, nets) <==> n in nets && Inside(server, n)
    ensures KeepInside(server, KeepInside(server, nets)) == KeepInside(server, nets)
  {
    if nets != [] {
      var m := |nets| - 1;
      KeepInsideExact(server, nets[..m]);
      var kept := KeepInside(server, nets);
      assert nets == nets[..m] + [nets[m]];
      if Inside(server, nets[m]) {
        assert kept[..|kept| - 1] == KeepInside(server, nets[..m]);
      }
    }
  }

  /** The kept networks stay in their order. */
  lemma {:induction false} KeepInsideConcat(server: seq<CidrText>, a: seq<Network>, b: seq<Network>)
    ensures KeepInside(server, a + b) == KeepInside(server, a) + KeepInside(server, b)
  {
    hide Inside;
    if b == [] {
      assert a + b == a;
    } else {
      KeepInsideConcat(server, a, b[..|b| - 1]);
      assert (a + b)[..|a + b| - 1] == a + b[..|b| - 1];
    }
  }

  ghost predicate Pruned(ranges: RangeMap, server: seq<CidrText>) {
    forall k: string, n: Network :: k in ranges && n in ranges[k] ==> Inside(server, n)
  }

  predicate RangeHolds(ranges: RangeMap, name: string, ip: Bytes) {
    name in ranges && exists i :: 0 <= i < |ranges[name]| && Contains(ranges[name][i], ip)
  }

  /** The i-th range in order is the first that holds ip. */
  ghost predicate IsFirstRange(ranges: RangeMap, order: seq<string>, ip: Bytes, i: nat) {
    i < |order| && RangeHolds(ranges, order[i], ip) && forall j :: 0 <= j < i ==> !RangeHolds(ranges, order[j], ip)
  }

  /** The conversion to uint16. */
  function ToUint16(n: nat): (r: nat)
    ensures r < 65_536 && (n < 65_536 ==> r == n) && (n - r) % 65_536 == 0
  {
    n % 0x1_0000
  }

  /** The range table held in util.SubnetRanges and util.SubnetRangesOrder, and the remembered
      answers of util.IPToSubnetRange. */
  class SubnetRangeTable {
    var ranges: RangeMap
    var order: seq<string>
    var remembered: map<Bytes, nat>

    /** Every remembered answer is the answer of a fresh search. */
    ghost predicate Coherent()
      reads this
    {
      forall ip: Bytes :: ip in remembered ==> exists i :: IsFirstRange(ranges, order, ip, i) && remembered[ip] == ToUint16(i)
    }

    constructor (specs: seq<RangeSpec>)
      ensures Listed(ranges, order) && UniqueNets(ranges) && remembered == map[] && Coherent()
    {
      var r, o := ParseSubnetRanges(specs);
      ranges, order, remembered := r, o, map[];
    }

    /** util.findSubnetRangeForIP: remembering answers changes none of them, as long as the
        table is pruned before the first lookup. */
    method FindRange(c: CidrText) returns (r: Option<nat>)
      requires Coherent()
      modifies this`remembered
      ensures Coherent()
      ensures r.Some? ==> c.Cidr? && exists i :: IsFirstRange(ranges, order, c.ip, i) && r.value == ToUint16(i)
      ensures r.None? ==> c.Cidr? ==> forall j :: 0 <= j < |order| ==> !RangeHolds(ranges, order[j], c.ip)
      ensures remembered == if r.Some? then old(remembered)[c.ip := r.value] else old(remembered)
    {
      if c.Malformed? {
        return None;
      }
      if c.ip in remembered {
        assert remembered[c.ip := remembered[c.ip]] == remembered;
        return Some(remembered[c.ip]);
      }
      for i := 0 to |order|
        invariant forall j :: 0 <= j < i ==> !RangeHolds(ranges, order[j], c.ip)
        invariant remembered == old(remembered)
      {
        var holds := SomeNetHolds(if order[i] in ranges then ranges[order[i]] else [], c.ip);
        if holds {
          assert IsFirstRange(ranges, order, c.ip, i);
          remembered := remembered[c.ip := ToUint16(i)];
          return Some(ToUint16(i));
        }
      }
      r := None;
    }

    method SomeNetHolds(nets: seq<Network>, ip: Bytes) returns (holds: bool)
      ensures holds <==> exists i :: 0 <= i < |nets| && Contains(nets[i], ip)
    {
      for j := 0 to |nets|
        invariant forall i :: 0 <= i < j ==> !Contains(nets[i], ip)
      {
        if Contains(nets[j], ip) {
          return true;
        }
      }
      holds := false;
    }

    /** util.ValidateAndFixSubnetRanges: each listed range keeps exactly its CIDRs that lie
        inside a server network, and goes away when none is left; an unparsable server
        address is an error and changes nothing. */
    method ValidateAndFix(server: seq<CidrText>) returns (ok: bool)
      requires Listed(ranges, order)
      modifies this`ranges
      ensures ok <==> order == [] || AllParsed(server)
      ensures !ok ==> ranges == old(ranges)
      ensures ok ==> Listed(ranges, order) && Pruned(ranges, server)
      ensures remembered == map[] ==> Coherent()
      ensures ok ==> forall k :: k in ranges <==> k in old(ranges) && KeepInside(server, old(ranges)[k]) != []
      ensures ok ==> forall k :: k in ranges ==> ranges[k] == KeepInside(server, old(ranges)[k])
    {
      hide KeepInside, Inside, IsFirstRange;
      if order == [] {
        return true;
      }
      for i := 0 to |server|
        invariant AllParsed(server[..i])
      {
        if server[i].Malformed? {
          return false;
        }
      }
      for i := 0 to |order|
        invariant forall k :: k in ranges ==> k in old(ranges)
        invariant forall k :: k in old(ranges) ==>
          if k in order[..i]
          then (k in ranges <==> KeepInside(server, old(ranges)[k]) != []) && (k in ranges ==> ranges[k] == KeepInside(server, old(ranges)[k]))
          else k in ranges && ranges[k] == old(ranges)[k]
      {
        var rng := order[i];
        assert order[..i + 1] == order[..i] + [rng];
        if rng in ranges {
          var kept := PruneOne(server, ranges[rng]);
          KeepInsideExact(server, old(ranges)[rng]);
          if kept != [] {
            ranges := ranges[rng := kept];
          } else {
            ranges := ranges - {rng};
          }
        }
      }
      assert order[..|order|] == order;
      forall k, n | k in ranges && n in ranges[k] ensures Inside(server, n) {
        KeepInsideExact(server, old(ranges)[k]);
      }
      return true;
    }

    method InsideSomeNetwork(server: seq<CidrText>, n: Network) returns (valid: bool)
      ensures valid <==> Inside(server, n)
    {
      for j := 0 to |server|
        invariant forall i :: 0 <= i < j && server[i].Cidr? ==> !ContainsCIDR(NetOf(server[i]), n)
      {
        if server[j].Cidr? && ContainsCIDR(NetOf(server[j]), n) {
          return true;
        }
      }
      return false;
    }

    method PruneOne(server: seq<CidrText>, cidrs: seq<Network>) returns (kept: seq<Network>)
      ensures kept == KeepInside(server, cidrs)
    {
      kept := [];
      for i := 0 to |cidrs|
        invariant kept == KeepInside(server, cidrs[..i])
      {
        var valid := InsideSomeNetwork(server, cidrs[i]);
        assert cidrs[..i + 1][..i] == cidrs[..i];
        if valid {
          kept := kept + [cidrs[i]];
        }
      }
      assert cidrs[..|cidrs|] == cidrs;
    }
  }

  // ----- suggestion

  /** A network handed back to net.ParseCIDR as text parses to itself. */
  function Text(n: Network): (c: CidrText)
    ensures c.Cidr? && NetOf(c) == n
  {
    Cidr(n.ip, n.ones)
  }

  /** The CIDRs the suggestion handler searches: the named range, or the interface addresses. */
  function SearchList(ranges: RangeMap, sr: string, server: seq<CidrText>): (l: seq<CidrText>)
    ensures if sr in ranges then |l| == |ranges[sr]| && forall i :: 0 <= i < |l| ==> l[i].Cidr? && NetOf(l[i]) == ranges[sr][i]
            else l == server
  {
    if sr in ranges then seq(|ranges[sr]|, i requires 0 <= i < |ranges[sr]| => Text(ranges[sr][i])) else server
  }

  ghost predicate GoodSuggestion(s: CidrText, server: seq<CidrText>, taken: seq<Bytes>) {
    s.Cidr? && s.ones == 8 * |s.ip| && Free(s.ip, taken, server) && Allocatable(server, taken, s)
  }

  /** s is the least free address of the i-th searched network, written as a host. */
  ghost predicate FoundIn(s: CidrText, list: seq<CidrText>, i: nat, server: seq<CidrText>, taken: seq<Bytes>) {
    && i < |list| && list[i].Cidr? && s.Cidr?
    && Contains(NetOf(list[i]), s.ip) && s.ones == 8 * |s.ip| && Free(s.ip, taken, server)
    && forall x :: Contains(NetOf(list[i]), x) && Free(x, taken, server) ==> Num(s.ip) <= Num(x)
  }

  ghost predicate Suggested(s: CidrText, list: seq<CidrText>, server: seq<CidrText>, taken: seq<Bytes>) {
    exists i: nat :: FoundIn(s, list, i, server, taken)
  }

  /** handler.SuggestIPAllocation: the least free address of every searched network that has
      one.  All of them pass ValidateIPAllocation for the same allocations and interfaces when
      interface networks are searched, or ranges pruned against the present interfaces. */
  method SuggestIPAllocation(ranges: RangeMap, sr: string, server: seq<CidrText>, taken: seq<Bytes>)
    returns (suggested: set<CidrText>)
    requires forall c :: c in SearchList(ranges, sr, server) && c.Cidr? ==> SearchStops(NetOf(c), taken, server)
    ensures forall s :: s in suggested <==> Suggested(s, SearchList(ranges, sr, server), server, taken)
    ensures suggested == {} <==> forall c :: c in SearchList(ranges, sr, server) && c.Cidr? ==> Exhausted(NetOf(c), taken, server)
    ensures AllParsed(server) && (sr in ranges ==> Pruned(ranges, server)) ==> forall s :: s in suggested ==> GoodSuggestion(s, server, taken)
  {
    hide GoodSuggestion, Suggested, Exhausted, SearchStops, Pruned, AllParsed;
    suggested := FirstFreeOfEach(SearchList(ranges, sr, server), server, taken);
    hide SearchList;
    if AllParsed(server) && (sr in ranges ==> Pruned(ranges, server)) {
      forall s | s in suggested ensures GoodSuggestion(s, server, taken) {
        SuggestedIsGood(ranges, sr, server, taken, s);
      }
    }
  }

  lemma {:induction false} SuggestedIsGood(ranges: RangeMap, sr: string, server: seq<CidrText>, taken: seq<Bytes>, s: CidrText)
    requires AllParsed(server) && (sr in ranges ==> Pruned(ranges, server))
    requires Suggested(s, SearchList(ranges, sr, server), server, taken)
    ensures GoodSuggestion(s, server, taken)
  {
    hide Free, InServerNetwork, SearchList, Pruned, AllParsed;
    var i: nat :| FoundIn(s, SearchList(ranges, sr, server), i, server, taken);
    SuggestionIsAllocatable(ranges, sr, server, taken, i, s.ip);
  }

  /** For any table, pruned or not: a suggestion is acceptable exactly when a server network
      in reach of the scan holds it. */
  lemma {:induction false} SuggestionAcceptableIff(s: CidrText, list: seq<CidrText>, server: seq<CidrText>, taken: seq<Bytes>)
    requires Suggested(s, list, server, taken)
    ensures GoodSuggestion(s, server, taken) <==> InServerNetwork(server, s.ip)
  {
  }

  method FirstFreeOfEach(list: seq<CidrText>, server: seq<CidrText>, taken: seq<Bytes>) returns (suggested: set<CidrText>)
    requires forall c :: c in list && c.Cidr? ==> SearchStops(NetOf(c), taken, server)
    ensures forall s :: s in suggested <==> Suggested(s, list, server, taken)
    ensures suggested == {} <==> forall c :: c in list && c.Cidr? ==> Exhausted(NetOf(c), taken, server)
  {
    hide Free, SearchStops, FoundIn;
    suggested := {};
    ghost var found := false;
    for i := 0 to |list|
      invariant forall s :: s in suggested ==> exists j: nat :: j < i && FoundIn(s, list, j, server, taken)
      invariant forall s, j: nat :: j < i && FoundIn(s, list, j, server, taken) ==> s in suggested
      invariant found <==> suggested != {}
      invariant !found ==> forall j :: 0 <= j < i && list[j].Cidr? ==> Exhausted(NetOf(list[j]), taken, server)
      invariant found ==> exists c :: c in list && c.Cidr? && !Exhausted(NetOf(c), taken, server)
    {
      assert list[i] in list;
      var ip := GetAvailableIP(list[i], taken, server);
      if ip.Some? {
        var s := Cidr(ip.value, 8 * |ip.value|);
        OnlyOneFound(list, i, server, taken, s);
        suggested, found := suggested + {s}, true;
        assert s in suggested && FoundIn(s, list, i, server, taken);
      } else {
        NoneFound(list, i, server, taken);
      }
    }
    forall s ensures s in suggested <==> Suggested(s, list, server, taken) {
      if Suggested(s, list, server, taken) {
        var j: nat :| FoundIn(s, list, j, server, taken);
        IndexInList(s, list, j, server, taken);
      }
    }
  }

  lemma {:induction false} IndexInList(s: CidrText, list: seq<CidrText>, i: nat, server: seq<CidrText>, taken: seq<Bytes>)
    requires FoundIn(s, list, i, server, taken)
    ensures i < |list|
  {
  }

  lemma {:induction false} NoneFound(list: seq<CidrText>, i: nat, server: seq<CidrText>, taken: seq<Bytes>)
    requires i < |list| && (list[i].Cidr? ==> Exhausted(NetOf(list[i]), taken, server))
    ensures forall s :: !FoundIn(s, list, i, server, taken)
  {
  }

  /** The least free address of a network is unique. */
  lemma {:induction false} OnlyOneFound(list: seq<CidrText>, i: nat, server: seq<CidrText>, taken: seq<Bytes>, s: CidrText)
    requires i < |list| && list[i].Cidr? && s.Cidr? && s.ones == 8 * |s.ip|
    requires Contains(NetOf(list[i]), s.ip) && Free(s.ip, taken, server)
    requires forall x :: Contains(NetOf(list[i]), x) && Free(x, taken, server) ==> Num(s.ip) <= Num(x)
    ensures forall t :: FoundIn(t, list, i, server, taken) <==> t == s
    ensures !Exhausted(NetOf(list[i]), taken, server)
  {
    hide Free;
    forall t | FoundIn(t, list, i, server, taken) ensures t == s {
      ContainsIffInRange(NetOf(list[i]), t.ip);
      ContainsIffInRange(NetOf(list[i]), s.ip);
      NumInjective(t.ip, s.ip);
    }
  }

  /** Ranges are pruned at startup only.  After the interfaces moved to another family, a range
      inside the old interface network still suggests an address, which is then refused. */
  lemma {:induction false} StaleRangeRefused(old': CidrText, now: CidrText)
    requires old'.Cidr? && |old'.ip| == 4 && now.Cidr? && |now.ip| == 16
    ensures var n := NetOf(old');
            var ranges := map["office" := [n]];
            var s := Cidr(n.ip, 32);
            && Pruned(ranges, [old']) && !Pruned(ranges, [now])
            && FoundIn(s, SearchList(ranges, "office", [now]), 0, [now], []) && !GoodSuggestion(s, [now], [])
  {
    var n := NetOf(old');
    var ranges := map["office" := [n]];
    var s := Cidr(n.ip, 32);
    NetworkAddressFirst(n);
    OwnNetworkInside([old'], 0);
    assert Pruned(ranges, [old']);
    assert n in ranges["office"] && !Inside([now], n);
    assert Free(s.ip, [], [now]);
    assert FoundIn(s, SearchList(ranges, "office", [now]), 0, [now], []);
    assert !InServerNetwork([now], s.ip);
  }

  /** An address found free in a searched network would be accepted for a client. */
  lemma {:induction false} SuggestionIsAllocatable(ranges: RangeMap, sr: string, server: seq<CidrText>, taken: seq<Bytes>, i: nat, ip: Bytes)
    requires AllParsed(server) && (sr in ranges ==> Pruned(ranges, server))
    requires i < |SearchList(ranges, sr, server)|
    requires SearchList(ranges, sr, server)[i].Cidr? && Contains(NetOf(SearchList(ranges, sr, server)[i]), ip)
    requires Free(ip, taken, server)
    ensures |ip| == 4 || |ip| == 16
    ensures GoodSuggestion(Cidr(ip, 8 * |ip|), server, taken)
  {
    var n := NetOf(SearchList(ranges, sr, server)[i]);
    if sr in ranges {
      assert ranges[sr][i] in ranges[sr] && ranges[sr][i] == n;
    } else {
      OwnNetworkInside(server, i);
    }
    InsideIsAllocatable(server, n, ip);
  }

  lemma {:induction false} OwnNetworkInside(server: seq<CidrText>, i: nat)
    requires i < |server| && server[i].Cidr?
    ensures Inside(server, NetOf(server[i]))
  {
  }

  lemma {:induction false} InsideIsAllocatable(server: seq<CidrText>, n: Network, ip: Bytes)
    requires AllParsed(server) && Inside(server, n) && Contains(n, ip)
    ensures InServerNetwork(server, ip)
  {
    var j :| 0 <= j < |server| && server[j].Cidr? && ContainsCIDR(NetOf(server[j]), n);
    NestedMember(NetOf(server[j]), n, ip);
    assert AllParsed(server[..j]) && Contains(NetOf(server[j]), ip);
  }
}
