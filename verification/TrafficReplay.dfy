/** The cache driven end to end: refreshes, periodic snapshots, restarts from the last snapshot,
    and a response. */
module TrafficReplay {
  import opened Wrappers
  import opened TrafficHistory
  import opened TrafficRing
  import opened TrafficSeries
  import opened TrafficResponse
  import opened TrafficSnapshot
  import opened TrafficCache

  /** A response after a restart is the one before it, except for the live peer list. */
  lemma {:induction false} RestoredSeries(s: Series, c: Cache, into: Cache, nowMs: int, r: Range)
    requires |c.recentRx| <= RECENT && |c.recentTx| <= RECENT
    requires IsRingSeries(s, c, nowMs, r)
    ensures IsRingSeries(s.(currentTotals := []), Restored(into, SnapshotOf(c)), nowMs, r)
  {
    hide ReadWindow, PeakScan, IsBar, IsChartMax, IsMaxOf, BucketOf, PeersOf, Restored, SnapshotOf;
    SnapshotRoundTrip(c, into);
  }

  // ----- the life of the cache

  /** A refresh, a flush of the snapshot to disk, or a restart of the process. */
  datatype Event = Refreshed(r: Reading) | Saved | Restarted

  /** The cache, and the one whose snapshot lies on disk. */
  datatype Life = Life(cache: Cache, saved: Option<Cache>)

  /** The cache of a new process. */
  ghost function Reopened(saved: Option<Cache>): Cache {
    if saved.Some? then Restored(FreshCache, SnapshotOf(saved.value)) else FreshCache
  }

  /** Nothing is flushed before the first sample; without a snapshot a restart begins afresh. */
  ghost function Next(l: Life, e: Event): Life {
    match e
    case Refreshed(r) => l.(cache := Refresh(l.cache, r))
    case Saved => if l.cache.hasDelta then l.(saved := Some(l.cache)) else l
    case Restarted => Life(Reopened(l.saved), l.saved)
  }

  ghost function Lived(es: seq<Event>): Life {
    if es == [] then Life(FreshCache, None) else Next(Lived(es[..|es| - 1]), es[|es| - 1])
  }

  /** What should be remembered: the samples since the beginning, less those lost between the
      last flush and a restart, and the counters last seen; time 0 means none since the restart. */
  datatype Past = Past(h: History, last: Reading, savedH: History, savedLast: Reading)

  ghost function Remember(p: Past, e: Event): Past {
    match e
    case Refreshed(r) => p.(h := p.h + NewSamples(p.last, r), last := r)
    case Saved => if p.h != [] then p.(savedH := p.h, savedLast := p.last) else p
    case Restarted => p.(h := p.savedH, last := Reading(0, p.savedLast.rx, p.savedLast.tx, map[]))
  }

  ghost function Remembered(es: seq<Event>): Past {
    if es == [] then Past([], NoReading, [], NoReading) else Remember(Remembered(es[..|es| - 1]), es[|es| - 1])
  }

  ghost predicate Matches(c: Cache, h: History, last: Reading) {
    && CacheRepresents(c, h)
    && c.totalRx == last.rx && c.totalTx == last.tx && c.prev.peers == last.peers && c.prev.atMs == last.atMs
    && (last.atMs != 0 ==> c.prev == last)
  }

  ghost predicate MatchesAll(l: Life, p: Past) {
    && Matches(l.cache, p.h, p.last)
    && (l.saved.None? ==> p.savedH == [] && p.savedLast == NoReading)
    && (l.saved.Some? ==> Matches(l.saved.value, p.savedH, p.savedLast))
  }

  lemma {:induction false} RefreshMatches(c: Cache, h: History, last: Reading, r: Reading)
    requires Matches(c, h, last)
    ensures Matches(Refresh(c, r), h + NewSamples(last, r), r)
  {
    hide CacheRepresents, SampleOf, Store, AppendRecent;
    RefreshRepresents(c, h, r);
  }

  lemma {:induction false} RestoreMatches(c: Cache, h: History, last: Reading)
    requires Matches(c, h, last)
    ensures Matches(Restored(FreshCache, SnapshotOf(c)), h, Reading(0, last.rx, last.tx, map[]))
  {
    hide Restored, SnapshotOf, Represents;
    RestoredRepresents(c, h, FreshCache);
    SnapshotRoundTrip(c, FreshCache);
  }

  lemma {:induction false} FreshMatches()
    ensures Matches(FreshCache, [], NoReading) && NoReading == Reading(0, NoReading.rx, NoReading.tx, map[])
  {
    FreshRepresents();
  }

  /** Over every life, with any number of restarts from snapshots of any age, the cache stands
      for exactly the samples that should be remembered. */
  lemma {:induction false} LifeRepresents(es: seq<Event>)
    ensures MatchesAll(Lived(es), Remembered(es))
  {
    hide Refresh, Restored, SnapshotOf, Matches;
    FreshMatches();
    if es != [] {
      var l, p := Lived(es[..|es| - 1]), Remembered(es[..|es| - 1]);
      LifeRepresents(es[..|es| - 1]);
      match es[|es| - 1]
      case Refreshed(r) => RefreshMatches(l.cache, p.h, p.last, r);
      case Saved => HasDeltaIff(l.cache, p.h, p.last);
      case Restarted =>
        if l.saved.Some? {
          RestoreMatches(l.saved.value, p.savedH, p.savedLast);
        }
    }
  }

  lemma {:induction false} HasDeltaIff(c: Cache, h: History, last: Reading)
    requires Matches(c, h, last)
    ensures c.hasDelta <==> h != []
  {
  }

  // ----- with a clock that never goes back

  ghost function Newest(es: seq<Event>): Option<int> {
    if es == [] then None
    else if es[|es| - 1].Refreshed? then Some(es[|es| - 1].r.atMs)
    else Newest(es[..|es| - 1])
  }

  ghost predicate Forward(es: seq<Event>) {
    es != [] ==>
      && Forward(es[..|es| - 1])
      && (es[|es| - 1].Refreshed? && Newest(es[..|es| - 1]).Some? ==> Newest(es[..|es| - 1]).value <= es[|es| - 1].r.atMs)
  }

  /** In bucket order, and nothing newer than the newest reading. */
  ghost predicate UpTo(h: History, newest: Option<int>) {
    && GoodHistory(h) && Ordered(h)
    && (newest.None? ==> h == [])
    && (newest.Some? ==> forall i :: 0 <= i < |h| ==> h[i].bid <= BucketOf(newest.value))
  }

  lemma {:induction false} UpToGrows(h: History, newest: Option<int>, last: Reading, r: Reading)
    requires UpTo(h, newest) && (newest.Some? ==> newest.value <= r.atMs)
    ensures UpTo(h, Some(r.atMs)) && UpTo(h + NewSamples(last, r), Some(r.atMs))
  {
    if newest.Some? {
      BucketMonotone(newest.value, r.atMs);
    }
    hide BucketOf;
    assert h + [] == h;
  }

  lemma {:induction false} LifeOrdered(es: seq<Event>)
    requires Forward(es)
    ensures UpTo(Remembered(es).h, Newest(es)) && UpTo(Remembered(es).savedH, Newest(es))
  {
    hide UpTo;
    if es == [] {
      assert UpTo([], None) by { EmptyUpTo(); }
    } else {
      var p, newest := Remembered(es[..|es| - 1]), Newest(es[..|es| - 1]);
      LifeOrdered(es[..|es| - 1]);
      if es[|es| - 1].Refreshed? {
        UpToGrows(p.h, newest, p.last, es[|es| - 1].r);
        UpToGrows(p.savedH, newest, p.last, es[|es| - 1].r);
      }
    }
  }

  lemma {:induction false} EmptyUpTo()
    ensures UpTo([], None)
  {
  }

  ghost predicate RecentLife(es: seq<Event>, nowMs: int, r: Range) {
    Newest(es).Some? ==> BucketOf(Newest(es).value) - SLOTS < StartBucket(nowMs, r)
  }

  /** So a response after any such life is the one computed from all remembered samples. */
  lemma {:induction false} LifeSeriesExact(s: Series, es: seq<Event>, nowMs: int, r: Range)
    requires Forward(es) && RecentLife(es, nowMs, r)
    requires IsRingSeries(s, Lived(es).cache, nowMs, r)
    ensures IsHistorySeries(s, Remembered(es).h, Remembered(es).last, nowMs, r)
  {
    var c, h := Lived(es).cache, Remembered(es).h;
    LifeRepresents(es);
    LifeOrdered(es);
    hide Lived, Remembered, IsSeries, IsRingSeries, Represents, Overwritten, Within, Sum, ReadWindow, PeakScan, BucketOf, Forward, Ordered;
    forall b | StartBucket(nowMs, r) <= b <= BucketOf(nowMs) ensures !Overwritten(h, b) {
      if h != [] {
        RecentNotOverwritten(h, BucketOf(Newest(es).value), b);
      } else {
        NeverWritten(b);
      }
    }
    SeriesExact(s, c, h, nowMs, r);
  }

  lemma {:induction false} NeverWritten(b: int)
    ensures !Overwritten([], b)
  {
  }

  /** The response says what all remembered samples say. */
  ghost predicate ReportsHistory(s: Series, es: seq<Event>, nowMs: int, r: Range) {
    IsHistorySeries(s, Remembered(es).h, Remembered(es).last, nowMs, r)
  }

  /** The real arrays through a whole life; the response then reports exactly what the
      remembered samples say, although only 1440 slots were kept. */
  method Live(es: seq<Event>, nowMs: int, r: Range) returns (s: Series)
    requires Forward(es) && RecentLife(es, nowMs, r)
    ensures ReportsHistory(s, es, nowMs, r)
    ensures nowMs >= 0 ==> ReportsInMs(s, es, nowMs, r)
  {
    hide Refresh, IsRingSeries, IsHistorySeries, Remembered, Forward, SnapshotOf, Restored;
    var cache := new TrafficCache();
    var disk: Option<Snapshot> := None;
    assert es[..0] == [];
    for i := 0 to |es|
      invariant fresh(cache) && cache.Valid() && Fresh(cache)
      invariant cache.View() == Lived(es[..i]).cache
      invariant disk == SavedSnapshot(Lived(es[..i]))
    {
      assert es[..i + 1][..i] == es[..i];
      match es[i] {
        case Refreshed(reading) => cache.RefreshOnce(reading);
        case Saved =>
          if cache.hasDeltaSample {
            var snapshot := cache.ToSnapshot();
            disk := Some(snapshot);
          }
        case Restarted =>
          cache := new TrafficCache();
          if disk.Some? {
            cache.ApplySnapshot(disk.value);
          }
      }
    }
    assert es[..|es|] == es;
    s := cache.BuildSeries(nowMs, r);
    LifeSeriesExact(s, es, nowMs, r);
    if nowMs >= 0 {
      LifeInMs(s, es, nowMs, r);
    }
  }

  /** The same in milliseconds: 48 bars of half an hour, 56 of three hours or 60 of twelve,
      each over the remembered samples of its slice, up to the end of the current half hour. */
  ghost predicate ReportsInMs(s: Series, es: seq<Event>, nowMs: int, r: Range) {
    forall e :: HalfHourEnd(e, nowMs) ==>
      && (r == Range24h || r == OtherRange ==> Slices(s, Remembered(es).h, e, 1_800_000, 48))
      && (r == Range7d ==> Slices(s, Remembered(es).h, e, 10_800_000, 56))
      && (r == Range30d ==> Slices(s, Remembered(es).h, e, 43_200_000, 60))
  }

  lemma {:induction false} LifeInMs(s: Series, es: seq<Event>, nowMs: int, r: Range)
    requires nowMs >= 0 && ReportsHistory(s, es, nowMs, r)
    ensures ReportsInMs(s, es, nowMs, r)
  {
    hide Remembered, IsHistorySeries, Slices;
    forall e | HalfHourEnd(e, nowMs)
      ensures r == Range24h || r == OtherRange ==> Slices(s, Remembered(es).h, e, 1_800_000, 48)
      ensures r == Range7d ==> Slices(s, Remembered(es).h, e, 10_800_000, 56)
      ensures r == Range30d ==> Slices(s, Remembered(es).h, e, 43_200_000, 60)
    {
      BarsInMs(s, Remembered(es).h, Remembered(es).last, nowMs, e, r);
    }
  }

  ghost function SavedSnapshot(l: Life): Option<Snapshot> {
    if l.saved.Some? then Some(SnapshotOf(l.saved.value)) else None
  }

  twostate predicate Fresh(new c: TrafficCache) {
    && fresh(c.baseBucketID) && fresh(c.rxSumBps) && fresh(c.rxCount) && fresh(c.txSumBps)
    && fresh(c.txCount) && fresh(c.txMaxBps) && fresh(c.peerRxBytes) && fresh(c.peerTxBytes)
  }

  /** Without restarts the remembered samples are all samples of the run. */
  lemma {:induction false} NothingForgotten(rs: seq<Reading>, es: seq<Event>)
    requires |es| == |rs| && forall i :: 0 <= i < |rs| ==> es[i] == Refreshed(rs[i])
    ensures Remembered(es).h == HistoryOf(NoReading, rs) && Remembered(es).last == LastReading(NoReading, rs)
  {
    if rs != [] {
      NothingForgotten(rs[..|rs| - 1], es[..|es| - 1]);
    }
  }
}
