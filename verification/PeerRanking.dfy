/** The peer lists of a traffic response: every peer once, larger totals first, ties by key. */
module PeerRanking {
  import opened TrafficHistory

  datatype PeerTotal = PeerTotal(key: string, rx: int, tx: int)

  /** Go's string order: the first differing character decides, a proper prefix comes first. */
  predicate LexLess(a: string, b: string) {
    b != [] && (a == [] || a[0] < b[0] || (a[0] == b[0] && LexLess(a[1..], b[1..])))
  }

  lemma {:induction false} LexTotal(a: string, b: string)
    ensures a == b || LexLess(a, b) || LexLess(b, a)
    ensures !(LexLess(a, b) && LexLess(b, a))
    ensures !LexLess(a, a)
  {
    if a != [] && b != [] {
      LexTotal(a[1..], b[1..]);
      LexTotal(a[1..], a[1..]);
      if a[0] == b[0] && a[1..] == b[1..] {
        assert a == [a[0]] + a[1..] && b == [b[0]] + b[1..];
      }
    } else if a != [] {
      LexTotal(a[1..], a[1..]);
    }
  }

  lemma {:induction false} LexTransitive(a: string, b: string, c: string)
    requires LexLess(a, b) && LexLess(b, c)
    ensures LexLess(a, c)
  {
    if a != [] && a[0] == b[0] == c[0] {
      LexTransitive(a[1..], b[1..], c[1..]);
    }
  }

  /** a comes before b at position n: equal up to there, and there a ends or has the smaller
      character. */
  ghost predicate DiffersAt(a: string, b: string, n: nat) {
    n <= |a| && n < |b| && a[..n] == b[..n] && (n == |a| || a[n] < b[n])
  }

  lemma {:induction false} LexLessIff(a: string, b: string)
    ensures LexLess(a, b) <==> exists n: nat :: DiffersAt(a, b, n)
  {
    if b != [] {
      if a == [] || a[0] < b[0] {
        assert DiffersAt(a, b, 0);
      } else if a[0] == b[0] {
        LexLessIff(a[1..], b[1..]);
        if n: nat :| DiffersAt(a[1..], b[1..], n) {
          assert a == [a[0]] + a[1..] && b == [b[0]] + b[1..];
          assert DiffersAt(a, b, n + 1);
        }
        if n: nat :| DiffersAt(a, b, n) {
          if n > 0 {
            assert a[1..][..n - 1] == a[..n][1..] && b[1..][..n - 1] == b[..n][1..];
            assert DiffersAt(a[1..], b[1..], n - 1);
          }
        }
      } else {
        forall n: nat ensures !DiffersAt(a, b, n) {
          if 0 < n <= |a| && n < |b| {
            assert a[..n][0] == a[0] && b[..n][0] == b[0];
          }
        }
      }
    }
  }

  /** The comparison given to sort.Slice. */
  predicate Before(a: PeerTotal, b: PeerTotal) {
    var l, r := a.rx + a.tx, b.rx + b.tx;
    if l == r then LexLess(a.key, b.key) else l > r
  }

  lemma {:induction false} BeforeTransitive(a: PeerTotal, b: PeerTotal, c: PeerTotal)
    requires Before(a, b) && Before(b, c)
    ensures Before(a, c)
  {
    if a.rx + a.tx == b.rx + b.tx == c.rx + c.tx {
      LexTransitive(a.key, b.key, c.key);
    }
  }

  ghost predicate Sorted(l: seq<PeerTotal>) {
    forall i, j :: 0 <= i < j < |l| ==> Before(l[i], l[j])
  }

  predicate EntryOf(e: PeerTotal, m: Peers) {
    e.key in m && m[e.key] == Counters(e.rx, e.tx)
  }

  ghost predicate IsRanking(l: seq<PeerTotal>, m: Peers) {
    Sorted(l) && forall e :: e in l <==> EntryOf(e, m)
  }

  /** In a ranking, of two entries the earlier one has more bytes in all, or as many and the
      smaller key. */
  lemma {:induction false} RankOrder(l: seq<PeerTotal>, m: Peers, i: nat, j: nat)
    requires IsRanking(l, m) && i < j < |l|
    ensures l[i].rx + l[i].tx > l[j].rx + l[j].tx
         || (l[i].rx + l[i].tx == l[j].rx + l[j].tx && exists n: nat :: DiffersAt(l[i].key, l[j].key, n))
  {
    LexLessIff(l[i].key, l[j].key);
  }

  /** Sorted lists with the same entries are the same list, whatever order the map was
      walked in. */
  lemma {:induction false} SortedUnique(a: seq<PeerTotal>, b: seq<PeerTotal>)
    requires Sorted(a) && Sorted(b) && forall e :: e in a <==> e in b
    ensures a == b
  {
    assert |a| > 0 ==> a[0] in b;
    assert |b| > 0 ==> b[0] in a;
    if a != [] {
      var i :| 0 <= i < |b| && b[i] == a[0];
      assert b[0] in a;
      var j :| 0 <= j < |a| && a[j] == b[0];
      if i != 0 && j != 0 {
        LexTotal(a[0].key, b[0].key);
      }
      LexTotal(a[0].key, a[0].key);
      assert a[0] == b[0];
      forall e ensures e in a[1..] <==> e in b[1..] {
        TailMembers(a, e);
        TailMembers(b, e);
      }
      SortedUnique(a[1..], b[1..]);
      assert a == [a[0]] + a[1..] && b == [b[0]] + b[1..];
    }
  }

  lemma {:induction false} TailMembers(l: seq<PeerTotal>, e: PeerTotal)
    requires l != [] && Sorted(l)
    ensures e in l[1..] <==> e in l && e != l[0]
  {
    LexTotal(e.key, e.key);
    if e in l && e != l[0] {
      var i :| 0 <= i < |l| && l[i] == e;
      assert l[1..][i - 1] == e;
    }
  }

  lemma {:induction false} RankingUnique(a: seq<PeerTotal>, b: seq<PeerTotal>, m: Peers)
    requires IsRanking(a, m) && IsRanking(b, m)
    ensures a == b
  {
    SortedUnique(a, b);
  }

  /** Collects the map in any order and sorts it. */
  method RankPeers(m: Peers) returns (l: seq<PeerTotal>)
    ensures IsRanking(l, m)
  {
    l := [];
    var todo := m.Keys;
    while todo != {}
      invariant todo <= m.Keys
      invariant Sorted(l) && forall e :: e in l <==> EntryOf(e, m) && e.key !in todo
      decreases todo
    {
      var pk :| pk in todo;
      l := InsertSorted(l, PeerTotal(pk, m[pk].rx, m[pk].tx));
      todo := todo - {pk};
    }
  }

  method InsertSorted(l: seq<PeerTotal>, x: PeerTotal) returns (r: seq<PeerTotal>)
    requires Sorted(l) && forall e :: e in l ==> e.key != x.key
    ensures Sorted(r) && forall e :: e in r <==> e in l || e == x
  {
    hide Before;
    var k := 0;
    while k < |l| && Before(l[k], x)
      invariant k <= |l|
      invariant forall i :: 0 <= i < k ==> Before(l[i], x)
    {
      k := k + 1;
    }
    RestAfter(l, x, k);
    r := l[..k] + [x] + l[k..];
    SplicedMembers(l, x, k);
  }

  /** From the first element not before x on, everything comes after x. */
  lemma {:induction false} RestAfter(l: seq<PeerTotal>, x: PeerTotal, k: nat)
    requires Sorted(l) && k <= |l| && (k < |l| ==> !Before(l[k], x)) && forall e :: e in l ==> e.key != x.key
    ensures forall i :: k <= i < |l| ==> Before(x, l[i])
  {
    if k < |l| {
      assert l[k] in l;
      LexTotal(l[k].key, x.key);
      assert Before(x, l[k]);
      hide Before;
      forall i | k < i < |l| ensures Before(x, l[i]) {
        BeforeTransitive(x, l[k], l[i]);
      }
    }
  }

  lemma {:induction false} SplicedMembers(l: seq<PeerTotal>, x: PeerTotal, k: nat)
    requires k <= |l|
    ensures forall e :: e in l[..k] + [x] + l[k..] <==> e in l || e == x
  {
    assert l == l[..k] + l[k..];
  }
}
