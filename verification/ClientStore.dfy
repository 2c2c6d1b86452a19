/** Stored clients, their address allocations and the Telegram index: the client steps of
    handler/routes.go over the collection of store/jsondb/jsondb.go, each taken as one
    atomic step. */
module ClientStore {
  import opened Wrappers
  import opened IpBytes
  import opened IpAllocator
  import opened TelegramIndex

  /** The TgUserid string: empty, not a decimal int64, or the number it parses to. */
  datatype TgText = NoTg | BadTg | TgUser(user: UserId)

  datatype Client = Client(id: string, publicKey: string, tg: TgText, enabled: bool, ips: seq<CidrText>)

  /** A decoded client form; `syntaxOk` is the outcome of the remaining format checks
      (allowed-IP lists, key encodings), which do not look at the store. */
  datatype ClientForm = ClientForm(id: string, publicKey: string, tg: TgText, enabled: bool, ips: seq<CidrText>, syntaxOk: bool)

  datatype Reply = Done | Refused | NotFound | Crashed

  type Clients = map<string, Client>

  predicate ValidTg(tg: TgText) {
    tg.NoTg? || (tg.TgUser? && tg.user != 0)
  }

  /** Shape of an xid: 20 characters of 0-9a-v. */
  predicate IsXid(id: string) {
    |id| == 20 && forall i :: 0 <= i < |id| ==> '0' <= id[i] <= '9' || 'a' <= id[i] <= 'v'
  }

  // ----- addresses in use

  ghost predicate Uses(c: Client, x: Bytes) {
    exists w :: w in c.ips && w.Cidr? && w.ip == x
  }

  /** x is an address of the server or of some client other than `ignore`. */
  ghost predicate InUse(server: seq<CidrText>, clients: Clients, ignore: string, x: Bytes) {
    || (exists w :: w in server && w.Cidr? && w.ip == x)
    || (exists id :: id in clients && clients[id].id != ignore && Uses(clients[id], x))
  }

  ghost predicate Parseable(server: seq<CidrText>, clients: Clients, ignore: string) {
    AllParsed(server) && forall id :: id in clients && clients[id].id != ignore ==> AllParsed(clients[id].ips)
  }

  /** The inner loops of GetAllocatedIPs: append each address, give up on the first unparsable one. */
  method AppendAddresses(have: seq<Bytes>, cidrs: seq<CidrText>) returns (r: Option<seq<Bytes>>)
    ensures r.Some? <==> AllParsed(cidrs)
    ensures r.Some? ==> forall x :: x in r.value <==> x in have || exists w :: w in cidrs && w.Cidr? && w.ip == x
  {
    var ips := have;
    for i := 0 to |cidrs|
      invariant AllParsed(cidrs[..i])
      invariant forall x :: x in ips <==> x in have || exists j :: 0 <= j < i && cidrs[j].ip == x
    {
      if cidrs[i].Malformed? {
        return None;
      }
      ips := ips + [cidrs[i].ip];
    }
    return Some(ips);
  }

  /** util.GetAllocatedIPs; records come in any order. */
  method GetAllocatedIPs(server: seq<CidrText>, clients: Clients, ignore: string) returns (r: Option<seq<Bytes>>)
    ensures r.Some? <==> Parseable(server, clients, ignore)
    ensures r.Some? ==> forall x :: x in r.value <==> InUse(server, clients, ignore, x)
  {
    r := AppendAddresses([], server);
    if r.None? {
      return;
    }
    var todo := clients.Keys;
    while todo != {}
      invariant r.Some? && todo <= clients.Keys
      invariant forall id :: id in clients && id !in todo && clients[id].id != ignore ==> AllParsed(clients[id].ips)
      invariant forall x :: x in r.value <==> InUse(server, clients - todo, ignore, x)
      decreases todo
    {
      var id :| id in todo;
      if clients[id].id != ignore {
        r := AppendAddresses(r.value, clients[id].ips);
        if r.None? {
          return;
        }
      }
      forall x ensures InUse(server, clients - (todo - {id}), ignore, x)
          <==> InUse(server, clients - todo, ignore, x) || (clients[id].id != ignore && Uses(clients[id], x)) {
        InUseGrows(server, clients, ignore, todo, id, x);
      }
      todo := todo - {id};
    }
    assert clients - todo == clients;
  }

  lemma {:induction false} InUseGrows(server: seq<CidrText>, clients: Clients, ignore: string, todo: set<string>, id: string, x: Bytes)
    requires id in todo && todo <= clients.Keys
    ensures InUse(server, clients - (todo - {id}), ignore, x)
       <==> InUse(server, clients - todo, ignore, x) || (clients[id].id != ignore && Uses(clients[id], x))
  {
    var small, big := clients - todo, clients - (todo - {id});
    assert big.Keys == small.Keys + {id};
    assert forall k :: k in small ==> big[k] == small[k];
    assert big[id] == clients[id];
  }

  // ----- invariants of the stored clients

  /** No two stored clients share an address. */
  ghost predicate Disjoint(clients: Clients) {
    forall j, k, x :: j in clients && k in clients && Uses(clients[j], x) && Uses(clients[k], x) ==> j == k
  }

  ghost predicate UniqueKeys(clients: Clients) {
    forall j, k :: j in clients && k in clients && clients[j].publicKey == clients[k].publicKey != "" ==> j == k
  }

  ghost predicate WellStored(c: Client, id: string) {
    c.id == id != "" && AllParsed(c.ips) && ValidTg(c.tg)
  }

  ghost predicate GoodClients(clients: Clients) {
    && (forall id :: id in clients ==> WellStored(clients[id], id))
    && UniqueKeys(clients)
  }

  /** The allocation check of both handlers, for a client `ignore` of its own: every address
      lies in a server network and, as long as all stored addresses parse, is in nobody else's
      use; when one does not parse the lookup fails and nothing counts as in use. */
  ghost predicate Accepts(server: seq<CidrText>, clients: Clients, ignore: string, ips: seq<CidrText>) {
    forall w :: w in ips ==>
      w.Cidr? && InServerNetwork(server, w.ip) && (Parseable(server, clients, ignore) ==> !InUse(server, clients, ignore, w.ip))
  }

  /** The server addresses all parse, or already the first one does not. */
  predicate Readable(server: seq<CidrText>) {
    AllParsed(server) || server[0].Malformed?
  }

  /** Saving an accepted list keeps the stored allocations disjoint: against everybody else's
      addresses when they are known, and because no address at all is accepted when the first
      server address does not parse. */
  lemma {:induction false} SavingKeepsDisjoint(server: seq<CidrText>, clients: Clients, c: Client)
    requires Readable(server) && GoodClients(clients) && Disjoint(clients) && Accepts(server, clients, c.id, c.ips)
    ensures Disjoint(clients[c.id := c]) && AllParsed(c.ips)
  {
    hide InServerNetwork;
    var after := clients[c.id := c];
    forall i | 0 <= i < |c.ips| ensures c.ips[i].Cidr? {
      assert c.ips[i] in c.ips;
    }
    forall k, x | k in after && k != c.id && Uses(after[k], x) ensures !Uses(c, x) {
      assert clients[k].id == k && Uses(clients[k], x);
      assert InUse(server, clients, c.id, x);
      NoNetworkReached(server, x);
    }
  }

  lemma {:induction false} NoNetworkReached(server: seq<CidrText>, ip: Bytes)
    ensures server != [] && server[0].Malformed? ==> !InServerNetwork(server, ip)
  {
    assert forall i :: 0 < i <= |server| ==> server[..i][0] == server[0];
  }

  /** Why the server addresses must parse: with an unparsable one (they are not checked when
      they come from the environment) GetAllocatedIPs fails, the handlers carry on with no
      taken addresses, and every address of a network in reach is accepted again. */
  lemma {:induction false} BadServerAddressHidesAllocations(server: seq<CidrText>, clients: Clients, id: string, w: CidrText)
    requires !AllParsed(server) && w.Cidr? && InServerNetwork(server, w.ip)
    ensures !Parseable(server, clients, id) && Accepts(server, clients, id, [w])
  {
  }

  ghost predicate KeepsDisjoint(server: seq<CidrText>) {
    forall clients: Clients, c: Client :: GoodClients(clients) && Disjoint(clients) && Accepts(server, clients, c.id, c.ips) ==> Disjoint(clients[c.id := c])
  }

  /** Exactly which server addresses make the check sound for every store: those that all
      parse, or whose first entry does not (then no address at all is accepted). */
  lemma {:induction false} CheckSoundIff(server: seq<CidrText>)
    ensures KeepsDisjoint(server) <==> Readable(server)
  {
    hide Accepts, Disjoint;
    if Readable(server) {
      forall clients: Clients, c: Client | GoodClients(clients) && Disjoint(clients) && Accepts(server, clients, c.id, c.ips)
        ensures Disjoint(clients[c.id := c])
      {
        SavingKeepsDisjoint(server, clients, c);
      }
    } else {
      BadServerAddressClash(server);
    }
  }

  const FIRST_ID := "00000000000000000000"
  const SECOND_ID := "00000000000000000001"

  /** In all other cases two clients can get one address: the first server address itself. */
  lemma {:induction false} BadServerAddressClash(server: seq<CidrText>)
    requires !Readable(server)
    ensures var w := server[0];
            var clients := map[FIRST_ID := Client(FIRST_ID, "first", NoTg, true, [w])];
            var c := Client(SECOND_ID, "second", NoTg, true, [w]);
            && Accepts(server, map[], FIRST_ID, [w]) && Accepts(server, clients, SECOND_ID, [w])
            && GoodClients(clients) && Disjoint(clients) && !Disjoint(clients[c.id := c])
  {
    var w := server[0];
    var clients := map[FIRST_ID := Client(FIRST_ID, "first", NoTg, true, [w])];
    var c := Client(SECOND_ID, "second", NoTg, true, [w]);
    FirstAddressInReach(server);
    BadServerAddressHidesAllocations(server, map[], FIRST_ID, w);
    BadServerAddressHidesAllocations(server, clients, SECOND_ID, w);
    hide InServerNetwork, Accepts;
    var after := clients[c.id := c];
    assert w in [w];
    assert FIRST_ID[19] != SECOND_ID[19];
    assert Uses(after[FIRST_ID], w.ip) && Uses(after[SECOND_ID], w.ip);
  }

  lemma {:induction false} FirstAddressInReach(server: seq<CidrText>)
    requires server != [] && server[0].Cidr?
    ensures InServerNetwork(server, server[0].ip)
  {
    assert AllParsed(server[..0]) && Contains(NetOf(server[0]), server[0].ip);
  }

  // ----- the Telegram index against the store

  ghost predicate Subscribed(clients: Clients, id: string, u: UserId) {
    id in clients && clients[id].enabled && clients[id].tg == TgUser(u)
  }

  /** The index lists, per user, exactly the enabled clients carrying that user id. */
  ghost predicate IndexExact(v: Index, clients: Clients) {
    && (forall u :: u in v ==> v[u] != [] && NoDuplicates(v[u]))
    && (forall u, id :: u in v && id in v[u] ==> Subscribed(clients, id, u))
    && (forall u, id :: Subscribed(clients, id, u) ==> u in v && id in v[u])
  }

  /** What SaveClient does to the index. */
  ghost function IndexAfterSave(v: Index, c: Client): Index {
    if c.enabled && c.tg != NoTg then
      if c.tg.TgUser? then Attached(Detached(v, c.id), c.tg.user, c.id) else v
    else Detached(v, c.id)
  }

  lemma {:induction false} DetachedExact(v: Index, clients: Clients, id: string)
    requires IndexExact(v, clients)
    ensures IndexExact(Detached(v, id), clients - {id})
  {
    var d := Detached(v, id);
    forall u: UserId | u in v
      ensures u in d ==> d[u] != [] && NoDuplicates(d[u])
      ensures forall k :: k in v[u] && k != id ==> u in d && k in d[u]
      ensures forall k :: u in d && k in d[u] ==> k in v[u] && k != id
    {
      WithoutExact(v[u], id);
    }
    forall u: UserId, k | Subscribed(clients - {id}, k, u) ensures u in d && k in d[u] {
      assert Subscribed(clients, k, u);
    }
  }

  lemma {:induction false} AttachedExact(v: Index, clients: Clients, c: Client)
    requires IndexExact(v, clients) && c.id !in clients && c.enabled && c.tg.TgUser?
    ensures IndexExact(Attached(v, c.tg.user, c.id), clients[c.id := c])
  {
    var u := c.tg.user;
    assert !Subscribed(clients, c.id, u);
    var a, after := Attached(v, u, c.id), clients[c.id := c];
    assert c.id in a[u] by { assert a[u][|a[u]| - 1] == c.id; }
    forall w: UserId, k | Subscribed(after, k, w) ensures w in a && k in a[w] {
      assert k == c.id || Subscribed(clients, k, w);
    }
    forall w: UserId, k | w in a && k in a[w] ensures Subscribed(after, k, w) {
      assert (k == c.id && w == u) || Subscribed(clients, k, w);
    }
  }

  lemma {:induction false} SameSubscribers(v: Index, a: Clients, b: Clients)
    requires forall u: UserId, id :: Subscribed(a, id, u) <==> Subscribed(b, id, u)
    ensures IndexExact(v, a) <==> IndexExact(v, b)
  {
  }

  /** Saving keeps the index exact, except in one case: the client is enabled with an
      unparsable user id and was subscribed before, so the stale entry stays. */
  lemma {:induction false} SaveKeepsIndexExactIff(v: Index, clients: Clients, c: Client)
    requires IndexExact(v, clients)
    ensures IndexExact(IndexAfterSave(v, c), clients[c.id := c])
       <==> !(c.enabled && c.tg.BadTg? && exists u :: Subscribed(clients, c.id, u))
  {
    var after, without := clients[c.id := c], clients - {c.id};
    if c.enabled && c.tg.TgUser? {
      DetachedExact(v, clients, c.id);
      AttachedExact(Detached(v, c.id), without, c);
      assert after == without[c.id := c];
    } else if c.enabled && c.tg.BadTg? {
      if u: UserId :| Subscribed(clients, c.id, u) {
        assert u in v && c.id in v[u] && !Subscribed(after, c.id, u);
      } else {
        forall u: UserId, id ensures Subscribed(after, id, u) <==> Subscribed(clients, id, u) {
        }
        SameSubscribers(v, after, clients);
      }
    } else {
      DetachedExact(v, clients, c.id);
      forall u: UserId, id ensures Subscribed(after, id, u) <==> Subscribed(without, id, u) {
      }
      SameSubscribers(Detached(v, c.id), after, without);
    }
  }

  // ----- the store and its handlers

  datatype Step =
    | New(form: ClientForm, id: string, key: string)
    | Update(form: ClientForm)
    | SetStatus(id: string, status: bool)
    | Remove(id: string)
    | SaveInterfaces(addresses: seq<CidrText>)
    | Restarted

  class ClientStore {
    var server: seq<CidrText>
    var clients: Clients
    var index: TgIndex

    ghost predicate Valid()
      reads this, index, index.Repr
    {
      index.Valid() && GoodClients(clients) && IndexExact(index.Contents, clients)
    }

    /** The allocations are disjoint and stay so (see CheckSoundIff). */
    ghost predicate Sound()
      reads this
    {
      Readable(server) && Disjoint(clients)
    }

    /** A fresh installation; the addresses come from the environment unchecked. */
    constructor (addresses: seq<CidrText>)
      ensures Valid() && clients == map[] && server == addresses
      ensures Sound() <==> Readable(addresses)
      ensures fresh(index) && fresh(index.Repr)
    {
      server, clients := addresses, map[];
      index := new TgIndex();
    }

    /** jsondb.SaveClient, with the write succeeding. */
    method SaveClient(c: Client)
      requires index.Valid()
      modifies this`clients, index, index.Repr
      ensures clients == old(clients)[c.id := c]
      ensures index.Valid() && fresh(index.Repr - old(index.Repr))
      ensures index.Contents == IndexAfterSave(old(index.Contents), c)
    {
      clients := clients[c.id := c];
      if c.enabled && c.tg != NoTg {
        if c.tg.TgUser? {
          index.UpdateTgToClientID(c.tg.user, c.id);
        }
      } else {
        index.RemoveTgToClientID(c.id);
      }
    }

    /** The addresses the handlers hold against a new list: none when the lookup failed. */
    method TakenAddresses(ignore: string) returns (taken: seq<Bytes>)
      ensures Parseable(server, clients, ignore) ==> forall x :: x in taken <==> InUse(server, clients, ignore, x)
      ensures !Parseable(server, clients, ignore) ==> taken == []
    {
      var r := GetAllocatedIPs(server, clients, ignore);
      taken := if r.Some? then r.value else [];
    }

    method KeyTaken(key: string) returns (taken: bool)
      ensures taken <==> exists id :: id in clients && clients[id].publicKey == key
    {
      var todo := clients.Keys;
      while todo != {}
        invariant todo <= clients.Keys
        invariant forall id :: id in clients && id !in todo ==> clients[id].publicKey != key
        decreases todo
      {
        var other :| other in todo;
        if clients[other].publicKey == key {
          return true;
        }
        todo := todo - {other};
      }
      taken := false;
    }

    /** The allocation check of both handlers. */
    method CheckAddresses(ips: seq<CidrText>, ignore: string) returns (check: Verdict)
      ensures check.Accepted? <==> Accepts(server, clients, ignore, ips)
      ensures check.Crashed? ==> !AllParsed(server)
    {
      hide InServerNetwork, ScanCrashes, Parseable, InUse;
      var taken := TakenAddresses(ignore);
      check := ValidateIPAllocation(server, taken, ips);
      if check.Crashed? {
        CrashMeansUnparsed(server, taken, ips);
      }
    }

    /** handler.NewClient; the generated id and key pair are new to the store. */
    method NewClient(form: ClientForm, id: string, key: string) returns (reply: Reply)
      requires Valid()
      requires id != "" && id !in clients && key != "" && forall k :: k in clients ==> clients[k].publicKey != key
      modifies this`clients, index, index.Repr
      ensures Valid() && fresh(index.Repr - old(index.Repr))
      ensures old(Sound()) ==> Sound()
      ensures reply.Done? <==>
                && (form.tg == NoTg || (form.tg.TgUser? && form.tg.user != 0)) && old(Accepts(server, clients, "", form.ips)) && form.syntaxOk
                && (form.publicKey == "" || forall k :: k in old(clients) ==> old(clients)[k].publicKey != form.publicKey)
      ensures reply.Crashed? ==> !AllParsed(server)
      ensures reply.Done? ==> clients == old(clients)[id := Client(id, if form.publicKey == "" then key else form.publicKey, form.tg, form.enabled, form.ips)]
      ensures !reply.Done? ==> clients == old(clients) && index.Contents == old(index.Contents)
    {
      if !ValidTg(form.tg) {
        return Refused;
      }
      var check := CheckAddresses(form.ips, "");
      if !check.Accepted? {
        return if check.Crashed? then Reply.Crashed else Refused;
      }
      if !form.syntaxOk {
        return Refused;
      }
      var publicKey := key;
      if form.publicKey != "" {
        var duplicate := KeyTaken(form.publicKey);
        if duplicate {
          return Refused;
        }
        publicKey := form.publicKey;
      }
      var c := Client(id, publicKey, form.tg, form.enabled, form.ips);
      StoredLater(server, clients, c, "");
      SaveKeepsIndexExactIff(index.Contents, clients, c);
      SaveClient(c);
      return Done;
    }

    /** handler.UpdateClient; the client's own addresses are not held against it. */
    method UpdateClient(form: ClientForm) returns (reply: Reply)
      requires Valid()
      modifies this`clients, index, index.Repr
      ensures Valid() && fresh(index.Repr - old(index.Repr))
      ensures old(Sound()) ==> Sound()
      ensures reply.Done? <==>
                && IsXid(form.id) && form.id in old(clients) && (form.tg == NoTg || (form.tg.TgUser? && form.tg.user != 0))
                && old(Accepts(server, clients, form.id, form.ips)) && form.syntaxOk
                && (form.publicKey == "" || forall k :: k in old(clients) && k != form.id ==> old(clients)[k].publicKey != form.publicKey)
      ensures reply.Crashed? ==> !AllParsed(server)
      ensures reply.Done? ==> clients == old(clients)[form.id := Client(form.id, form.publicKey, form.tg, form.enabled, form.ips)]
      ensures !reply.Done? ==> clients == old(clients) && index.Contents == old(index.Contents)
    {
      if !IsXid(form.id) {
        return Refused;
      }
      if form.id !in clients {
        return NotFound;
      }
      if !ValidTg(form.tg) {
        return Refused;
      }
      var client := clients[form.id];
      var check := CheckAddresses(form.ips, client.id);
      if !check.Accepted? {
        return if check.Crashed? then Reply.Crashed else Refused;
      }
      if !form.syntaxOk {
        return Refused;
      }
      if client.publicKey != form.publicKey && form.publicKey != "" {
        var duplicate := KeyTaken(form.publicKey);
        if duplicate {
          return Refused;
        }
      }
      client := client.(tg := form.tg, enabled := form.enabled, ips := form.ips, publicKey := form.publicKey);
      StoredLater(server, clients, client, client.id);
      SaveKeepsIndexExactIff(index.Contents, clients, client);
      SaveClient(client);
      return Done;
    }

    /** handler.SetClientStatus. */
    method SetClientStatus(id: string, status: bool) returns (reply: Reply)
      requires Valid()
      modifies this`clients, index, index.Repr
      ensures Valid() && fresh(index.Repr - old(index.Repr))
      ensures old(Sound()) ==> Sound()
      ensures reply.Done? <==> IsXid(id) && id in old(clients)
      ensures clients == if reply.Done? then old(clients)[id := old(clients)[id].(enabled := status)] else old(clients)
    {
      if !IsXid(id) {
        return Refused;
      }
      if id !in clients {
        return NotFound;
      }
      var client := clients[id].(enabled := status);
      SameAddresses(clients, client);
      SaveKeepsIndexExactIff(index.Contents, clients, client);
      SaveClient(client);
      return Done;
    }

    /** handler.RemoveClient; deleting an unknown record is an error of the store. */
    method RemoveClient(id: string) returns (reply: Reply)
      requires Valid()
      modifies this`clients, index, index.Repr
      ensures Valid() && index.Repr == old(index.Repr)
      ensures old(Sound()) ==> Sound()
      ensures reply.Done? <==> IsXid(id) && id in old(clients)
      ensures clients == if reply.Done? then old(clients) - {id} else old(clients)
    {
      if !IsXid(id) {
        return Refused;
      }
      DetachedExact(index.Contents, clients, id);
      index.RemoveTgToClientID(id);
      if id !in clients {
        assert clients - {id} == clients;
        return Refused;
      }
      clients := clients - {id};
      return Done;
    }

    /** handler.WireGuardServerInterfaces: only parsable addresses are saved, and no client is looked at. */
    method SaveServerInterfaces(addresses: seq<CidrText>) returns (reply: Reply)
      requires Valid()
      modifies this`server
      ensures reply.Done? <==> AllParsed(addresses)
      ensures server == if reply.Done? then addresses else old(server)
      ensures old(Disjoint(clients)) && reply.Done? ==> Sound()
    {
      for i := 0 to |addresses|
        invariant AllParsed(addresses[..i])
      {
        if addresses[i].Malformed? {
          return Refused;
        }
      }
      server := addresses;
      return Done;
    }

    /** One step of any kind; xid and key generation never repeat themselves. */
    method Handle(step: Step)
      requires Valid()
      modifies this, index, index.Repr
      ensures Valid() && (old(Sound()) ==> Sound())
      ensures (index == old(index) && fresh(index.Repr - old(index.Repr))) || (fresh(index) && fresh(index.Repr))
    {
      hide GoodClients, IndexExact, Readable, Disjoint, Accepts;
      var reply;
      match step
      case New(form, id, key) =>
        if id != "" && id !in clients && key != "" && forall k :: k in clients ==> clients[k].publicKey != key {
          reply := NewClient(form, id, key);
        }
      case Update(form) => reply := UpdateClient(form);
      case SetStatus(id, status) => reply := SetClientStatus(id, status);
      case Remove(id) => reply := RemoveClient(id);
      case SaveInterfaces(cidrs) => reply := SaveServerInterfaces(cidrs);
      case Restarted => Restart();
    }

    /** The cache-filling part of jsondb.Init: a new process rebuilds the index from the records. */
    method Restart()
      requires Valid()
      modifies this`index
      ensures Valid() && fresh(index) && fresh(index.Repr)
    {
      index := new TgIndex();
      var todo := clients.Keys;
      while todo != {}
        invariant todo <= clients.Keys
        invariant index.Valid() && fresh(index) && fresh(index.Repr)
        invariant IndexExact(index.Contents, clients - todo)
        decreases todo
      {
        var id :| id in todo;
        var c := clients[id];
        IndexAfterLoad(index.Contents, clients, todo, id);
        if c.enabled && c.tg.TgUser? {
          index.UpdateTgToClientID(c.tg.user, c.id);
        }
        todo := todo - {id};
      }
      assert clients - todo == clients;
    }
  }

  /** Over every run, from an empty store: the records stay well-formed, the index exact,
      and, when the first server addresses are readable, the allocations disjoint; otherwise
      ClashingRun shows that they need not. */
  method Run(addresses: seq<CidrText>, steps: seq<Step>) returns (store: ClientStore)
    ensures store.Valid() && (Readable(addresses) ==> store.Sound())
  {
    hide Readable;
    store := new ClientStore(addresses);
    for i := 0 to |steps|
      invariant fresh(store) && fresh(store.index) && fresh(store.index.Repr)
      invariant store.Valid() && (Readable(addresses) ==> store.Sound())
    {
      store.Handle(steps[i]);
    }
  }

  /** In the remaining case two creations end with one address held twice. */
  method ClashingRun(addresses: seq<CidrText>) returns (store: ClientStore)
    requires !Readable(addresses)
    ensures store.Valid() && !Disjoint(store.clients)
  {
    hide Accepts, InServerNetwork, IndexExact;
    BadServerAddressClash(addresses);
    store := new ClientStore(addresses);
    var form := ClientForm("", "", NoTg, true, [addresses[0]], true);
    SameWhenNew(addresses, map[], FIRST_ID, form.ips);
    var first := store.NewClient(form, FIRST_ID, "first");
    assert FIRST_ID[19] != SECOND_ID[19] && "first" != "second";
    SameWhenNew(addresses, store.clients, SECOND_ID, form.ips);
    var second := store.NewClient(form, SECOND_ID, "second");
  }

  /** One record read back: subscribed clients are attached, the others need nothing. */
  lemma {:induction false} IndexAfterLoad(v: Index, clients: Clients, todo: set<string>, id: string)
    requires GoodClients(clients) && id in todo && todo <= clients.Keys
    requires IndexExact(v, clients - todo)
    ensures var c := clients[id];
            IndexExact(if c.enabled && c.tg.TgUser? then Attached(Detached(v, c.id), c.tg.user, c.id) else v, clients - (todo - {id}))
  {
    var c := clients[id];
    var small, big := clients - todo, clients - (todo - {id});
    assert big == small[id := c];
    if c.enabled && c.tg.TgUser? {
      SaveKeepsIndexExactIff(v, small, c);
    } else {
      forall u: UserId, k ensures Subscribed(big, k, u) <==> Subscribed(small, k, u) {
      }
      SameSubscribers(v, big, small);
    }
  }

  /** For a client not stored yet, ignoring nobody is ignoring that client. */
  lemma {:induction false} SameWhenNew(server: seq<CidrText>, clients: Clients, id: string, ips: seq<CidrText>)
    requires GoodClients(clients) && id !in clients && id != ""
    ensures Accepts(server, clients, "", ips) <==> Accepts(server, clients, id, ips)
  {
    hide InServerNetwork;
    assert Parseable(server, clients, "") <==> Parseable(server, clients, id);
    forall x ensures InUse(server, clients, "", x) <==> InUse(server, clients, id, x) {
    }
  }

  /** What a validated client brings to the store. */
  lemma {:induction false} StoredLater(server: seq<CidrText>, clients: Clients, c: Client, ignore: string)
    requires GoodClients(clients) && c.id != "" && ValidTg(c.tg)
    requires ignore == c.id || (ignore == "" && c.id !in clients)
    requires Accepts(server, clients, ignore, c.ips)
    requires c.publicKey != "" ==> forall k :: k in clients && k != c.id ==> clients[k].publicKey != c.publicKey
    ensures GoodClients(clients[c.id := c])
    ensures Readable(server) && Disjoint(clients) ==> Disjoint(clients[c.id := c])
  {
    forall i | 0 <= i < |c.ips| ensures c.ips[i].Cidr? {
      assert c.ips[i] in c.ips;
    }
    hide Accepts, Disjoint;
    if ignore != c.id {
      SameWhenNew(server, clients, c.id, c.ips);
    }
    if Readable(server) && Disjoint(clients) {
      SavingKeepsDisjoint(server, clients, c);
    }
  }

  lemma {:induction false} CrashMeansUnparsed(server: seq<CidrText>, taken: seq<Bytes>, ips: seq<CidrText>)
    requires exists k :: 0 <= k < |ips| && CrashesAt(server, taken, ips, k)
    ensures !AllParsed(server)
  {
  }

  lemma {:induction false} SameAddresses(clients: Clients, c: Client)
    requires GoodClients(clients) && c.id in clients
    requires c == clients[c.id].(enabled := c.enabled)
    ensures GoodClients(clients[c.id := c])
    ensures Disjoint(clients) ==> Disjoint(clients[c.id := c])
  {
  }
}
