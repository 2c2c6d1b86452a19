/** The in-memory index from Telegram user ids to client ids (util/util.go), kept as Go
    slices: a backing array with a length, filtered in place and grown by append. */
module TelegramIndex {

  /** Telegram user ids are int64. */
  type UserId = n: int | -0x8000_0000_0000_0000 <= n < 0x8000_0000_0000_0000

  type Index = map<UserId, seq<string>>

  function Without(s: seq<string>, x: string): (r: seq<string>)
    ensures |r| <= |s|
  {
    if s == [] then []
    else Without(s[..|s| - 1], x) + (if s[|s| - 1] == x then [] else [s[|s| - 1]])
  }

  ghost predicate NoDuplicates(s: seq<string>) {
    forall i, j :: 0 <= i < j < |s| ==> s[i] != s[j]
  }

  /** Filtering keeps exactly the other elements and their order, so it keeps distinctness. */
  lemma {:induction false} WithoutExact(s: seq<string>, x: string)
    ensures forall y :: y in Without(s, x) <==> y in s && y != x
    ensures NoDuplicates(s) ==> NoDuplicates(Without(s, x))
    ensures x !in s ==> Without(s, x) == s
  {
    if s != [] {
      WithoutExact(s[..|s| - 1], x);
      assert s == s[..|s| - 1] + [s[|s| - 1]];
      if NoDuplicates(s) {
        assert s[|s| - 1] !in s[..|s| - 1];
      }
    }
  }

  lemma {:induction false} WithoutConcat(s: seq<string>, t: seq<string>, x: string)
    ensures Without(s + t, x) == Without(s, x) + Without(t, x)
  {
    if t == [] {
      assert s + t == s;
    } else {
      WithoutConcat(s, t[..|t| - 1], x);
      assert (s + t)[..|s + t| - 1] == s + t[..|t| - 1];
    }
  }

  /** Of two elements kept, the earlier one stays the earlier one. */
  lemma {:induction false} WithoutOrder(s: seq<string>, x: string, i: nat, j: nat)
    requires i < j < |s| && s[i] != x && s[j] != x
    ensures exists k, l :: 0 <= k < l < |Without(s, x)| && Without(s, x)[k] == s[i] && Without(s, x)[l] == s[j]
  {
    var a, b, c := s[..i], s[i + 1..j], s[j + 1..];
    assert s == a + [s[i]] + b + [s[j]] + c;
    WithoutConcat(a + [s[i]] + b + [s[j]], c, x);
    WithoutConcat(a + [s[i]] + b, [s[j]], x);
    WithoutConcat(a + [s[i]], b, x);
    WithoutConcat(a, [s[i]], x);
    WithoutExact([s[i]], x);
    WithoutExact([s[j]], x);
    hide Without;
    var w := Without(s, x);
    assert w[|Without(a, x)|] == s[i];
    assert w[|Without(a, x)| + 1 + |Without(b, x)|] == s[j];
  }

  /** The index with a client taken out everywhere; users left with nothing disappear. */
  function Detached(v: Index, id: string): Index {
    map u | u in v && Without(v[u], id) != [] :: Without(v[u], id)
  }

  /** One step of the detaching loop. */
  function DetachedAt(v: Index, u: UserId, id: string): Index
    requires u in v
  {
    if Without(v[u], id) == [] then v - {u} else v[u := Without(v[u], id)]
  }

  /** Every user outside todo has been dealt with. */
  ghost predicate PartlyDetached(was: Index, v: Index, id: string, todo: set<UserId>) {
    && (forall u :: u in v ==> u in was && v[u] == if u in todo then was[u] else Without(was[u], id))
    && (forall u :: u in was && u !in todo ==> (u in v <==> Without(was[u], id) != []))
  }

  lemma {:induction false} PartlyDetachedStep(was: Index, v: Index, id: string, todo: set<UserId>, u: UserId)
    requires PartlyDetached(was, v, id, todo) && u in todo && todo <= v.Keys
    ensures PartlyDetached(was, DetachedAt(v, u, id), id, todo - {u})
    ensures todo - {u} <= DetachedAt(v, u, id).Keys
  {
  }

  lemma {:induction false} PartlyDetachedDone(was: Index, v: Index, id: string)
    requires PartlyDetached(was, v, id, {})
    ensures v == Detached(was, id)
  {
  }

  function Attached(v: Index, u: UserId, id: string): Index {
    v[u := (if u in v then v[u] else []) + [id]]
  }

  datatype Slice = Slice(backing: array<string>, len: nat)

  /** util.filterStringSlice: compacts the kept elements to the front of the same array. */
  method FilterInPlace(s: Slice, excluded: string) returns (r: Slice)
    requires s.len <= s.backing.Length
    modifies s.backing
    ensures r.backing == s.backing && r.len <= s.len
    ensures r.backing[..r.len] == Without(old(s.backing[..s.len]), excluded)
  {
    ghost var was := s.backing[..s.len];
    var kept := 0;
    for i := 0 to s.len
      invariant kept <= i
      invariant forall k :: i <= k < s.len ==> s.backing[k] == was[k]
      invariant s.backing[..kept] == Without(was[..i], excluded)
    {
      var v := s.backing[i];
      assert was[..i + 1][..i] == was[..i];
      ghost var head := s.backing[..kept];
      if v != excluded {
        s.backing[kept] := v;
        kept := kept + 1;
        assert s.backing[..kept] == head + [v];
      }
    }
    assert was[..s.len] == was;
    r := Slice(s.backing, kept);
  }

  ghost predicate Unshared(lists: map<UserId, Slice>, repr: set<array<string>>) {
    && (forall u :: u in lists ==> lists[u].backing in repr)
    && (forall u, w :: u in lists && w in lists && u != w ==> lists[u].backing != lists[w].backing)
  }

  /** Replacing one list by one on the same or on a new array, or dropping it. */
  lemma {:induction false} StillUnshared(lists: map<UserId, Slice>, repr: set<array<string>>, u: UserId, s: Slice)
    requires Unshared(lists, repr)
    ensures Unshared(lists - {u}, repr)
    ensures u in lists && s.backing == lists[u].backing ==> Unshared(lists[u := s], repr)
    ensures s.backing !in repr ==> Unshared(lists[u := s], repr + {s.backing})
    ensures u in lists ==> forall w :: w in lists && w != u ==> lists[w].backing != lists[u].backing
  {
  }

  class TgIndex {
    var lists: map<UserId, Slice>
    ghost var Contents: Index
    ghost var Repr: set<array<string>>

    /** Lengths fit, no two users share a backing array, and Contents is what the slices hold. */
    ghost predicate Valid()
      reads this, Repr
    {
      && lists.Keys == Contents.Keys
      && Unshared(lists, Repr)
      && (forall u :: u in lists ==> lists[u].backing in Repr && Holds(lists[u], Contents[u]))
    }

    static ghost predicate Holds(s: Slice, contents: seq<string>)
      reads s.backing
    {
      s.len <= s.backing.Length && s.backing[..s.len] == contents
    }

    constructor ()
      ensures Valid() && Contents == map[] && Repr == {}
    {
      lists, Contents, Repr := map[], map[], {};
    }

    /** util.RemoveTgToClientID. */
    method RemoveTgToClientID(id: string)
      requires Valid()
      modifies this, Repr
      ensures Valid() && Repr == old(Repr)
      ensures Contents == Detached(old(Contents), id)
    {
      ghost var was := Contents;
      var todo := lists.Keys;
      while todo != {}
        invariant Valid() && Repr == old(Repr)
        invariant todo <= Contents.Keys
        invariant PartlyDetached(was, Contents, id, todo)
        decreases todo
      {
        var u :| u in todo;
        PartlyDetachedStep(was, Contents, id, todo, u);
        DetachOne(u, id);
        todo := todo - {u};
      }
      PartlyDetachedDone(was, Contents, id);
    }

    method DetachOne(u: UserId, id: string)
      requires Valid() && u in lists
      modifies this, lists[u].backing
      ensures Valid() && Repr == old(Repr)
      ensures Contents == DetachedAt(old(Contents), u, id)
    {
      hide Unshared, Without;
      StillUnshared(lists, Repr, u, lists[u]);
      var filtered := FilterInPlace(lists[u], id);
      StillUnshared(lists, Repr, u, filtered);
      ghost var rest := Without(Contents[u], id);
      hide Holds;
      if filtered.len > 0 {
        lists, Contents := lists[u := filtered], Contents[u := rest];
      } else {
        lists, Contents := lists - {u}, Contents - {u};
      }
      forall w | w in lists && w != u ensures Holds(lists[w], Contents[w]) {
        assert old(Holds(lists[w], Contents[w]));
      }
    }

    /** append: in place when the array has room, otherwise into a fresh larger array. */
    method Append(u: UserId, id: string)
      requires Valid()
      modifies this, Repr
      ensures Valid() && fresh(Repr - old(Repr))
      ensures Contents == Attached(old(Contents), u, id)
    {
      if u in lists && lists[u].len < lists[u].backing.Length {
        AppendInPlace(u, id);
      } else {
        AppendGrown(u, id);
      }
    }

    method AppendInPlace(u: UserId, id: string)
      requires Valid() && u in lists && lists[u].len < lists[u].backing.Length
      modifies this, lists[u].backing
      ensures Valid() && Repr == old(Repr)
      ensures Contents == Attached(old(Contents), u, id)
    {
      hide Unshared;
      StillUnshared(lists, Repr, u, lists[u]);
      var s := Put(lists[u], id);
      StillUnshared(lists, Repr, u, s);
      lists := lists[u := s];
      Contents := Attached(Contents, u, id);
      hide Holds;
      forall w | w in lists && w != u ensures Holds(lists[w], Contents[w]) {
        assert old(Holds(lists[w], Contents[w]));
      }
    }

    method AppendGrown(u: UserId, id: string)
      requires Valid()
      modifies this
      ensures Valid() && fresh(Repr - old(Repr))
      ensures Contents == Attached(old(Contents), u, id)
    {
      var have := if u in lists then lists[u].backing[..lists[u].len] else [];
      hide Unshared;
      var s := GrownWith(have, id);
      StillUnshared(lists, Repr, u, s);
      hide Holds;
      lists := lists[u := s];
      Contents, Repr := Attached(Contents, u, id), Repr + {s.backing};
      forall w | w in lists && w != u ensures Holds(lists[w], Contents[w]) {
        assert old(Holds(lists[w], Contents[w]));
      }
    }

    static method Put(s: Slice, id: string) returns (r: Slice)
      requires s.len < s.backing.Length
      modifies s.backing
      ensures r.backing == s.backing && Holds(r, old(s.backing[..s.len]) + [id])
    {
      ghost var before := s.backing[..s.len];
      s.backing[s.len] := id;
      assert s.backing[..s.len + 1] == before + [id];
      r := Slice(s.backing, s.len + 1);
    }

    static method GrownWith(have: seq<string>, id: string) returns (s: Slice)
      ensures fresh(s.backing) && Holds(s, have + [id])
    {
      var a := new string[2 * |have| + 1](i => if 0 <= i < |have| then have[i] else id);
      assert a[..|have| + 1] == have + [id];
      s := Slice(a, |have| + 1);
    }

    /** util.UpdateTgToClientID: detach everywhere, then attach to the one user. */
    method UpdateTgToClientID(u: UserId, id: string)
      requires Valid()
      modifies this, Repr
      ensures Valid() && fresh(Repr - old(Repr))
      ensures Contents == Attached(Detached(old(Contents), id), u, id)
    {
      RemoveTgToClientID(id);
      Append(u, id);
    }
  }
}
