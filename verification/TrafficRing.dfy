/** The bounded ring that stands in for the history: 1440 slots addressed by bucket number
    modulo 1440, each reset when a sample for another bucket arrives. */
module TrafficRing {
  import opened TrafficHistory

  const SLOTS: int := 1440  // 30 days of 30-minute buckets

  datatype Slot = Slot(id: int, data: Totals)

  type Ring = r: seq<Slot> | |r| == SLOTS witness FreshRing()

  function FreshRing(): (r: seq<Slot>)
    ensures |r| == SLOTS
  {
    seq(SLOTS, i => Slot(0, Zero))
  }

  function Idx(b: int): (i: nat)
    ensures i < SLOTS
  {
    b % SLOTS
  }

  /** Storing one sample: reset the slot if it belongs to another bucket, then add. */
  function Store(ring: Ring, s: Sample): Ring {
    var slot := ring[Idx(s.bid)];
    ring[Idx(s.bid) := Slot(s.bid, Plus(if slot.id == s.bid then slot.data else Zero, One(s)))]
  }

  /** Reading one bucket: nothing, unless its slot carries its number. */
  function Read(ring: Ring, b: int): Totals {
    if ring[Idx(b)].id == b then ring[Idx(b)].data else Zero
  }

  /** Reading n consecutive buckets. */
  function ReadWindow(ring: Ring, lo: int, n: nat): Totals {
    if n == 0 then Zero else Plus(ReadWindow(ring, lo, n - 1), Read(ring, lo + n - 1))
  }

  // ----- what a slot holds, for any history

  /** The bucket of the last sample that went to slot i. */
  ghost function SlotId(h: History, i: nat): int {
    if h == [] then 0
    else if Idx(h[|h| - 1].bid) == i then h[|h| - 1].bid
    else SlotId(h[..|h| - 1], i)
  }

  /** The samples slot i still accounts for: those since it was last reset. */
  ghost function Kept(h: History, i: nat): History {
    if h == [] then []
    else
      var init, s := h[..|h| - 1], h[|h| - 1];
      if Idx(s.bid) != i then Kept(init, i)
      else (if SlotId(init, i) == s.bid then Kept(init, i) else []) + [s]
  }

  ghost predicate Represents(ring: Ring, h: History) {
    forall i :: 0 <= i < SLOTS ==> ring[i] == Slot(SlotId(h, i), Sum(Kept(h, i)))
  }

  lemma {:induction false} FreshRepresents()
    ensures Represents(FreshRing(), [])
  {
  }

  lemma {:induction false} StoreRepresents(ring: Ring, h: History, s: Sample)
    requires Represents(ring, h)
    ensures Represents(Store(ring, s), h + [s])
  {
  }

  // ----- when a bucket reads back exactly

  /** Some sample of b was followed by a sample of another bucket sharing its slot. */
  ghost predicate Overwritten(h: History, b: int) {
    exists j, k :: 0 <= j < k < |h| && h[j].bid == b && h[k].bid != b && Idx(h[k].bid) == Idx(b)
  }

  ghost predicate Occurs(h: History, b: int) {
    exists j :: 0 <= j < |h| && h[j].bid == b
  }

  ghost function Visible(h: History, b: int): History {
    if SlotId(h, Idx(b)) == b then Kept(h, Idx(b)) else []
  }

  lemma {:induction false} OverwrittenSnoc(h: History, s: Sample, b: int)
    ensures Overwritten(h + [s], b) <==> Overwritten(h, b) || (s.bid != b && Idx(s.bid) == Idx(b) && Occurs(h, b))
  {
    var h' := h + [s];
    if Overwritten(h, b) {
      var j, k :| 0 <= j < k < |h| && h[j].bid == b && h[k].bid != b && Idx(h[k].bid) == Idx(b);
      assert h'[j].bid == b && h'[k].bid != b && Idx(h'[k].bid) == Idx(b);
    }
    if s.bid != b && Idx(s.bid) == Idx(b) && Occurs(h, b) {
      var j :| 0 <= j < |h| && h[j].bid == b;
      assert h'[j].bid == b && h'[|h|] == s;
    }
  }

  /** Samples of b are lost exactly when b was overwritten. */
  lemma {:induction false} VisibleSamples(h: History, b: int)
    ensures !Overwritten(h, b) ==> Visible(h, b) == Within(h, b, b + 1)
    ensures Overwritten(h, b) ==> |Visible(h, b)| < |Within(h, b, b + 1)|
  {
    if h != [] {
      var init, s := h[..|h| - 1], h[|h| - 1];
      assert h == init + [s];
      VisibleSamples(init, b);
      OverwrittenSnoc(init, s, b);
      OccursIffWithin(init, b);
    }
  }

  lemma {:induction false} OccursIffWithin(h: History, b: int)
    ensures Occurs(h, b) <==> Within(h, b, b + 1) != []
  {
    WithinMembers(h, b, b + 1);
  }

  /** For every history, in any order: a bucket reads back as the sum of all its samples if
      and only if it was not overwritten. */
  lemma {:induction false} ReadExactIff(ring: Ring, h: History, b: int)
    requires Represents(ring, h) && GoodHistory(h)
    ensures Read(ring, b) == Sum(Within(h, b, b + 1)) <==> !Overwritten(h, b)
  {
    VisibleSamples(h, b);
    assert Read(ring, b) == Sum(Visible(h, b)) by {
      assert ring[Idx(b)] == Slot(SlotId(h, Idx(b)), Sum(Kept(h, Idx(b))));
    }
    WithinMembers(h, b, b + 1);
    KeptGood(h, Idx(b));
    SumPositive(Visible(h, b));
    SumPositive(Within(h, b, b + 1));
  }

  lemma {:induction false} KeptGood(h: History, i: nat)
    requires GoodHistory(h)
    ensures GoodHistory(Kept(h, i))
  {
    if h != [] {
      GoodPrefix(h);
      KeptGood(h[..|h| - 1], i);
    }
  }

  /** In bucket order nothing from the last 1440 buckets is overwritten. */
  lemma {:induction false} RecentNotOverwritten(h: History, newest: int, b: int)
    requires Ordered(h) && forall i :: 0 <= i < |h| ==> h[i].bid <= newest
    requires newest - SLOTS < b
    ensures !Overwritten(h, b)
  {
  }

  function SlotBucket(current: int, i: nat): int {
    current - (current - i) % SLOTS
  }

  /** The last 1440 buckets occupy every slot once. */
  lemma {:induction false} EachSlotOnce(current: int, i: nat)
    requires i < SLOTS
    ensures var b := SlotBucket(current, i);
            current - SLOTS < b <= current && Idx(b) == i && forall a :: current - SLOTS < a <= current && Idx(a) == i ==> a == b
  {
  }

  /** A window of such buckets reads back as the sum over the history. */
  lemma {:induction false} WindowExact(ring: Ring, h: History, lo: int, n: nat)
    requires Represents(ring, h) && GoodHistory(h)
    requires forall b :: lo <= b < lo + n ==> !Overwritten(h, b)
    ensures ReadWindow(ring, lo, n) == Sum(Within(h, lo, lo + n))
  {
    hide Plus, Merge, Sum, Within, Read, ReadWindow, Represents;
    if n == 0 {
      NoBuckets(ring, h, lo);
    } else {
      WindowExact(ring, h, lo, n - 1);
      ReadExactIff(ring, h, lo + n - 1);
      OneMoreBucket(ring, h, lo, n);
    }
  }

  lemma {:induction false} NoBuckets(ring: Ring, h: History, lo: int)
    ensures ReadWindow(ring, lo, 0) == Sum(Within(h, lo, lo))
  {
    WithinMembers(h, lo, lo);
  }

  lemma {:induction false} OneMoreBucket(ring: Ring, h: History, lo: int, n: nat)
    requires n > 0 && ReadWindow(ring, lo, n - 1) == Sum(Within(h, lo, lo + n - 1))
    requires Read(ring, lo + n - 1) == Sum(Within(h, lo + n - 1, lo + n))
    ensures ReadWindow(ring, lo, n) == Sum(Within(h, lo, lo + n))
  {
    hide Plus, Merge, Sum, Within, Read;
    WindowSplits(h, lo, lo + n - 1, lo + n);
  }

  /** More buckets never mean fewer bytes: 24h <= 7d <= 30d for every peer. */
  lemma {:induction false} WiderWindowMoreBytes(h: History, lo: int, lo': int, hi: int, pk: string)
    requires GoodHistory(h) && lo' <= lo <= hi
    ensures Get(Sum(Within(h, lo, hi)).rxBytes, pk) <= Get(Sum(Within(h, lo', hi)).rxBytes, pk)
    ensures Get(Sum(Within(h, lo, hi)).txBytes, pk) <= Get(Sum(Within(h, lo', hi)).txBytes, pk)
  {
    var wider, narrow := Sum(Within(h, lo', lo)), Sum(Within(h, lo, hi));
    assert Get(wider.rxBytes, pk) >= 0 && Get(wider.txBytes, pk) >= 0 by {
      WithinMembers(h, lo', lo);
      SumPositive(Within(h, lo', lo));
    }
    assert Sum(Within(h, lo', hi)) == Plus(wider, narrow) by {
      WindowSplits(h, lo', lo, hi);
    }
    hide Sum, Within;
  }

  // ----- the whole cache as a value

  const RECENT: nat := 15  // recentRateWindowSamples

  datatype Cache = Cache(
    ring: Ring, prev: Reading, lastRx: real, lastTx: real, recentRx: seq<real>, recentTx: seq<real>,
    totalRx: int, totalTx: int, lastUpdateAtMs: int, hasDelta: bool)

  const FreshCache: Cache := Cache(FreshRing(), NoReading, 0.0, 0.0, [], [], 0, 0, 0, false)

  function AppendRecent(buf: seq<real>, v: real): seq<real> {
    if |buf| + 1 > RECENT then buf[1..] + [v] else buf + [v]
  }

  /** One refresh step. */
  function Refresh(c: Cache, r: Reading): Cache {
    var c' := c.(prev := r, totalRx := r.rx, totalTx := r.tx, lastUpdateAtMs := r.atMs);
    if Recorded(c.prev, r) then
      var s := SampleOf(c.prev, r);
      c'.(ring := Store(c.ring, s), lastRx := s.rxRate, lastTx := s.txRate,
          recentRx := AppendRecent(c.recentRx, s.rxRate), recentTx := AppendRecent(c.recentTx, s.txRate), hasDelta := true)
    else c'
  }

  function RunFrom(c: Cache, rs: seq<Reading>): Cache {
    if rs == [] then c else Refresh(RunFrom(c, rs[..|rs| - 1]), rs[|rs| - 1])
  }

  /** The rates of the last 15 samples, oldest first. */
  ghost function RecentRx(h: History): seq<real> {
    var k := if |h| <= RECENT then |h| else RECENT;
    seq(k, i requires 0 <= i < k => h[|h| - k + i].rxRate)
  }

  ghost function RecentTx(h: History): seq<real> {
    var k := if |h| <= RECENT then |h| else RECENT;
    seq(k, i requires 0 <= i < k => h[|h| - k + i].txRate)
  }

  ghost predicate CacheRepresents(c: Cache, h: History) {
    && Represents(c.ring, h)
    && (c.hasDelta <==> h != [])
    && c.lastRx == (if h == [] then 0.0 else h[|h| - 1].rxRate)
    && c.lastTx == (if h == [] then 0.0 else h[|h| - 1].txRate)
    && c.recentRx == RecentRx(h) && c.recentTx == RecentTx(h)
  }

  lemma {:induction false} RecentSnoc(h: History, s: Sample)
    ensures RecentRx(h + [s]) == AppendRecent(RecentRx(h), s.rxRate)
    ensures RecentTx(h + [s]) == AppendRecent(RecentTx(h), s.txRate)
  {
  }

  lemma {:induction false} RefreshRepresents(c: Cache, h: History, r: Reading)
    requires CacheRepresents(c, h)
    ensures CacheRepresents(Refresh(c, r), h + NewSamples(c.prev, r))
  {
    if Recorded(c.prev, r) {
      StoreRepresents(c.ring, h, SampleOf(c.prev, r));
      RecentSnoc(h, SampleOf(c.prev, r));
    } else {
      assert h + [] == h;
    }
  }

  /** Over every run of readings the cache represents exactly the history of the run. */
  lemma {:induction false} RunRepresents(rs: seq<Reading>)
    ensures CacheRepresents(RunFrom(FreshCache, rs), HistoryOf(NoReading, rs))
    ensures RunFrom(FreshCache, rs).prev == LastReading(NoReading, rs)
  {
    if rs == [] {
      FreshRepresents();
    } else {
      var init := rs[..|rs| - 1];
      RunRepresents(init);
      RefreshRepresents(RunFrom(FreshCache, init), HistoryOf(NoReading, init), rs[|rs| - 1]);
    }
  }

  /** The ring against the unbounded history: with a clock that never goes back, each bucket
      less than 1440 older than the newest one sampled reads back as the sum of its samples. */
  lemma {:induction false} RingRefinesHistory(rs: seq<Reading>, b: int)
    requires ClockForward(rs) && (rs != [] ==> BucketOf(rs[|rs| - 1].atMs) - SLOTS < b)
    ensures Read(RunFrom(FreshCache, rs).ring, b) == Sum(Within(HistoryOf(NoReading, rs), b, b + 1))
  {
    var h := HistoryOf(NoReading, rs);
    RunRepresents(rs);
    HistoryIsGood(NoReading, rs);
    NothingOverwritten(rs, b);
    ReadExactIff(RunFrom(FreshCache, rs).ring, h, b);
  }

  lemma {:induction false} NothingOverwritten(rs: seq<Reading>, b: int)
    requires ClockForward(rs) && (rs != [] ==> BucketOf(rs[|rs| - 1].atMs) - SLOTS < b)
    ensures !Overwritten(HistoryOf(NoReading, rs), b)
  {
    hide BucketOf;
    if rs != [] {
      HistoryOrdered(rs);
      RecentNotOverwritten(HistoryOf(NoReading, rs), BucketOf(rs[|rs| - 1].atMs), b);
    }
  }

  /** A clock set back by more than a window can make a bucket disappear: 30 days apart, the
      later bucket first, and the later one no longer reads back as its sample. */
  lemma {:induction false} ClockSetBackLosesSamples()
    ensures
      var late := SLOTS * BUCKET_MS;
      var at := t => Reading(t, 0, 0, map[]);
      var rs := [at(late), at(late + 1), at(1), at(2)];
      Read(RunFrom(FreshCache, rs).ring, SLOTS) != Sum(Within(HistoryOf(NoReading, rs), SLOTS, SLOTS + 1))
  {
    var late := SLOTS * BUCKET_MS;
    var a, b, c, d := Reading(late, 0, 0, map[]), Reading(late + 1, 0, 0, map[]), Reading(1, 0, 0, map[]), Reading(2, 0, 0, map[]);
    var rs := [a, b, c, d];
    var h := HistoryOf(NoReading, rs);
    assert h == [SampleOf(a, b), SampleOf(c, d)] by {
      TwoPairs(a, b, c, d);
    }
    assert h[0].bid == SLOTS && h[1].bid == 0 && Idx(SLOTS) == Idx(0);
    assert Overwritten(h, SLOTS);
    hide RunFrom, HistoryOf, Overwritten, Read, Sum, Within;
    RunRepresents(rs);
    HistoryIsGood(NoReading, rs);
    ReadExactIff(RunFrom(FreshCache, rs).ring, h, SLOTS);
  }

  lemma {:induction false} NoHistory()
    ensures HistoryOf(NoReading, []) == []
  {
  }

  lemma {:induction false} TwoPairs(a: Reading, b: Reading, c: Reading, d: Reading)
    requires Recorded(a, b) && !Recorded(b, c) && Recorded(c, d)
    ensures HistoryOf(NoReading, [a, b, c, d]) == [SampleOf(a, b), SampleOf(c, d)]
  {
    hide SampleOf, HistoryOf;
    NoHistory();
    HistoryAppend([], a);
    HistoryAppend([a], b);
    HistoryAppend([a, b], c);
    HistoryAppend([a, b, c], d);
    assert [] + [a] == [a] && [a] + [b] == [a, b] && [a, b] + [c] == [a, b, c] && [a, b, c] + [d] == [a, b, c, d];
  }
}
