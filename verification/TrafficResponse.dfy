/** What a response reports, said in milliseconds: which samples go into which bar, for each of
    the three ranges, and how the three ranges compare. */
module TrafficResponse {
  import opened TrafficHistory
  import opened TrafficRing
  import opened PeerRanking
  import opened TrafficSeries

  /** e is where the half hour that nowMs falls into ends. */
  ghost predicate HalfHourEnd(e: int, nowMs: int) {
    e % 1_800_000 == 0 && e - 1_800_000 <= nowMs < e
  }

  /** The samples whose half hour starts at or after `from` and before `to`. */
  ghost function Between(h: History, from: int, to: int): History {
    if h == [] then []
    else Between(h[..|h| - 1], from, to) + (if from <= h[|h| - 1].bid * 1_800_000 < to then [h[|h| - 1]] else [])
  }

  /** The samples of the readings taken at or after `from` and before `to`. */
  ghost function Taken(rs: seq<Reading>, from: int, to: int): History {
    if rs == [] then []
    else
      var init, now := rs[..|rs| - 1], rs[|rs| - 1];
      Taken(init, from, to) + (if from <= now.atMs < to then NewSamples(LastReading(NoReading, init), now) else [])
  }

  /** The half hours of a sample and of the current time, said without division. */
  lemma {:induction false} HalfHourOf(prev: Reading, now: Reading)
    requires now.atMs >= 0
    ensures var b := BucketOf(now.atMs); b * 1_800_000 <= now.atMs < (b + 1) * 1_800_000 && HalfHourEnd((b + 1) * 1_800_000, now.atMs)
    ensures forall s :: s in NewSamples(prev, now) ==> s.bid == BucketOf(now.atMs)
  {
  }

  lemma {:induction false} EndIsNext(e: int, nowMs: int)
    requires nowMs >= 0 && HalfHourEnd(e, nowMs)
    ensures e == (BucketOf(nowMs) + 1) * 1_800_000
  {
  }

  lemma {:induction false} WithinIsBetween(h: History, lo: int, hi: int)
    ensures Within(h, lo, hi) == Between(h, lo * 1_800_000, hi * 1_800_000)
  {
    if h != [] {
      WithinIsBetween(h[..|h| - 1], lo, hi);
    }
  }

  /** Whole half hours hold exactly the readings taken in them. */
  lemma {:induction false} BetweenIsTaken(rs: seq<Reading>, from: int, to: int)
    requires forall k :: 0 <= k < |rs| ==> rs[k].atMs >= 0
    requires from % 1_800_000 == 0 == to % 1_800_000
    ensures Between(HistoryOf(NoReading, rs), from, to) == Taken(rs, from, to)
  {
    if rs != [] {
      var init, now := rs[..|rs| - 1], rs[|rs| - 1];
      var prev, h := LastReading(NoReading, init), HistoryOf(NoReading, init);
      BetweenIsTaken(init, from, to);
      if Recorded(prev, now) {
        hide HistoryOf, Taken;
        HalfHourOf(prev, now);
        var s := SampleOf(prev, now);
        assert (h + [s])[..|h|] == h;
        SameSide(s.bid, now.atMs, from);
        SameSide(s.bid, now.atMs, to);
      } else {
        assert h + [] == h;
      }
    }
  }

  lemma {:induction false} SameSide(b: int, at: int, edge: int)
    requires edge % 1_800_000 == 0 && b * 1_800_000 <= at < (b + 1) * 1_800_000
    ensures edge <= b * 1_800_000 <==> edge <= at
  {
  }

  /** Bar i of n sums the samples of the i-th slice of barMs milliseconds before e, the peer
      totals those of all slices. */
  ghost predicate Slices(s: Series, h: History, e: int, barMs: int, n: nat) {
    && |s.buckets| == n
    && (forall i :: 0 <= i < n ==>
          IsBar(s.buckets[i], Sum(Between(h, e - (n - i) * barMs, e - (n - i - 1) * barMs))))
    && IsRanking(s.peerTotals, PeersOf(Sum(Between(h, e - n * barMs, e))))
  }

  /** The same over the readings of a run: bar i sums the steps of the readings taken in its slice. */
  ghost predicate TakenSlices(s: Series, rs: seq<Reading>, e: int, barMs: int, n: nat) {
    && |s.buckets| == n
    && (forall i :: 0 <= i < n ==>
          IsBar(s.buckets[i], Sum(Taken(rs, e - (n - i) * barMs, e - (n - i - 1) * barMs))))
    && IsRanking(s.peerTotals, PeersOf(Sum(Taken(rs, e - n * barMs, e))))
  }

  /** Bar i of n reads the i-th group of buckets from the first one on, the peer totals read all. */
  ghost predicate RingSlices(s: Series, ring: Ring, first: int, group: nat, n: nat) {
    && |s.buckets| == n
    && (forall i :: 0 <= i < n ==> IsBar(s.buckets[i], ReadWindow(ring, first + i * group, group)))
    && IsRanking(s.peerTotals, PeersOf(ReadWindow(ring, first, n * group)))
  }

  /** The buckets read for each range: the last 48, 336 or 1440, singly, in sixes or in
      twenty-fours. */
  lemma {:induction false} BucketsRead(s: Series, c: Cache, nowMs: int, r: Range)
    requires nowMs >= 0 && IsRingSeries(s, c, nowMs, r)
    ensures r == Range24h || r == OtherRange ==> s.range == Range24h && RingSlices(s, c.ring, nowMs / 1_800_000 - 47, 1, 48)
    ensures r == Range7d ==> s.range == Range7d && RingSlices(s, c.ring, nowMs / 1_800_000 - 335, 6, 56)
    ensures r == Range30d ==> s.range == Range30d && RingSlices(s, c.ring, nowMs / 1_800_000 - 1439, 24, 60)
  {
    hide IsBar, IsRanking, PeersOf, IsChartMax, IsMaxOf, ReadWindow, PeakScan;
    var cfg, start := RangeCfg(r), StartBucket(nowMs, r);
    forall i | 0 <= i < cfg.display ensures IsBar(s.buckets[i], ReadWindow(c.ring, start + i * cfg.group, cfg.group)) {
      assert IsBar(s.buckets[i], RingBars(c.ring, start, cfg)[i]);
    }
  }

  /** The bars of a response: 48 of half an hour, 56 of three hours or 60 of twelve hours,
      ending where the current half hour ends. */
  lemma {:induction false} BarsInMs(s: Series, h: History, last: Reading, nowMs: int, e: int, r: Range)
    requires nowMs >= 0 && HalfHourEnd(e, nowMs) && IsHistorySeries(s, h, last, nowMs, r)
    ensures r == Range24h || r == OtherRange ==> s.range == Range24h && Slices(s, h, e, 1_800_000, 48)
    ensures r == Range7d ==> s.range == Range7d && Slices(s, h, e, 10_800_000, 56)
    ensures r == Range30d ==> s.range == Range30d && Slices(s, h, e, 43_200_000, 60)
  {
    hide Slices, IsBar, IsRanking, PeersOf, IsChartMax, IsMaxOf, BucketOf, Sum, Within;
    EndIsNext(e, nowMs);
    BarsAreSlices(s, h, StartBucket(nowMs, r), RangeCfg(r), e);
  }

  lemma {:induction false} BarsAreSlices(s: Series, h: History, start: int, cfg: Cfg, e: int)
    requires |s.buckets| == cfg.display && forall i :: 0 <= i < cfg.display ==> IsBar(s.buckets[i], HistoryBars(h, start, cfg)[i])
    requires IsRanking(s.peerTotals, PeersOf(Sum(Within(h, start, start + cfg.display * cfg.group))))
    requires e == (start + cfg.display * cfg.group) * 1_800_000
    ensures Slices(s, h, e, cfg.group * 1_800_000, cfg.display)
  {
    hide Sum, Within, Between, IsBar, IsRanking, PeersOf;
    var n, barMs := cfg.display, cfg.group * 1_800_000;
    SliceEdge(start, cfg, 0);
    WithinIsBetween(h, start, start + n * cfg.group);
    forall i | 0 <= i < n ensures IsBar(s.buckets[i], Sum(Between(h, e - (n - i) * barMs, e - (n - i - 1) * barMs))) {
      SliceEdge(start, cfg, i);
      SliceEdge(start, cfg, i + 1);
      WithinIsBetween(h, start + i * cfg.group, start + i * cfg.group + cfg.group);
    }
  }

  lemma {:induction false} SliceEdge(start: int, cfg: Cfg, i: nat)
    ensures (start + cfg.display * cfg.group) * 1_800_000 - (cfg.display - i) * (cfg.group * 1_800_000) == (start + i * cfg.group) * 1_800_000
    ensures (i + 1) * cfg.group == i * cfg.group + cfg.group
  {
    assert (cfg.display - i) * (cfg.group * 1_800_000) == (cfg.display * cfg.group - i * cfg.group) * 1_800_000;
  }

  /** The other numbers of a response: the latest rates, the greatest of the last 15 and the
      counters last read. */
  lemma {:induction false} LatestFigures(s: Series, h: History, last: Reading, nowMs: int, r: Range)
    requires GoodHistory(h) && IsHistorySeries(s, h, last, nowMs, r)
    ensures h == [] ==> s.rxNow == s.txNow == s.rxRecentMax == s.txRecentMax == 0.0
    ensures h != [] ==> s.rxNow == h[|h| - 1].rxRate && s.txNow == h[|h| - 1].txRate
    ensures forall i :: 0 <= i < |h| && |h| - 15 <= i ==> h[i].rxRate <= s.rxRecentMax && h[i].txRate <= s.txRecentMax
    ensures h != [] ==> exists i :: 0 <= i < |h| && |h| - 15 <= i && h[i].rxRate == s.rxRecentMax
    ensures h != [] ==> exists i :: 0 <= i < |h| && |h| - 15 <= i && h[i].txRate == s.txRecentMax
    ensures s.totalRx == last.rx && s.totalTx == last.tx && IsRanking(s.currentTotals, last.peers)
  {
    hide Sum, Within, IsBar, IsRanking, PeersOf, IsChartMax, BucketOf, IsMaxOf, RecentRx, RecentTx, GoodHistory, DayPeak, HistoryBars;
    RecentMaxRx(h, s.rxRecentMax);
    RecentMaxTx(h, s.txRecentMax);
  }

  /** The peak: the greatest rate of the last 24 hours in megabits per second, or the latest
      rate when that is zero. */
  lemma {:induction false} PeakInMs(s: Series, h: History, last: Reading, nowMs: int, e: int, r: Range)
    requires nowMs >= 0 && HalfHourEnd(e, nowMs) && GoodHistory(h) && IsHistorySeries(s, h, last, nowMs, r)
    ensures var top := Sum(Between(h, e - 86_400_000, e)).txMax;
            s.peakMbps == (if top > 0.0 then top else s.txNow) * 8.0 / 1_000_000.0
  {
    hide Sum, Within, IsBar, IsRanking, PeersOf, IsChartMax, BucketOf, Between, IsMaxOf, RecentRx, RecentTx, HistoryBars;
    EndIsNext(e, nowMs);
    WithinIsBetween(h, BucketOf(nowMs) - 47, BucketOf(nowMs) + 1);
    WithinMembers(h, BucketOf(nowMs) - 47, BucketOf(nowMs) + 1);
    SumPositive(Within(h, BucketOf(nowMs) - 47, BucketOf(nowMs) + 1));
    assert h != [] ==> GoodSample(h[|h| - 1]);
  }

  lemma {:induction false} RecentMaxRx(h: History, m: real)
    requires GoodHistory(h) && IsMaxOf(m, RecentRx(h))
    ensures forall i :: 0 <= i < |h| && |h| - 15 <= i ==> h[i].rxRate <= m
    ensures if h == [] then m == 0.0 else exists i :: 0 <= i < |h| && |h| - 15 <= i && h[i].rxRate == m
  {
    var k := if |h| <= 15 then |h| else 15;
    var recent := RecentRx(h);
    assert |recent| == k && forall i :: 0 <= i < k ==> recent[i] == h[|h| - k + i].rxRate;
    hide RecentRx;
    forall i | 0 <= i < |h| && |h| - 15 <= i ensures h[i].rxRate <= m {
      assert recent[i - (|h| - k)] in recent;
    }
    if h != [] {
      assert recent[k - 1] in recent && GoodSample(h[|h| - 1]);
      if m in recent {
        var i :| 0 <= i < k && recent[i] == m;
        assert h[|h| - k + i].rxRate == m;
      }
    }
  }

  lemma {:induction false} RecentMaxTx(h: History, m: real)
    requires GoodHistory(h) && IsMaxOf(m, RecentTx(h))
    ensures forall i :: 0 <= i < |h| && |h| - 15 <= i ==> h[i].txRate <= m
    ensures if h == [] then m == 0.0 else exists i :: 0 <= i < |h| && |h| - 15 <= i && h[i].txRate == m
  {
    var k := if |h| <= 15 then |h| else 15;
    var recent := RecentTx(h);
    assert |recent| == k && forall i :: 0 <= i < k ==> recent[i] == h[|h| - k + i].txRate;
    hide RecentTx;
    forall i | 0 <= i < |h| && |h| - 15 <= i ensures h[i].txRate <= m {
      assert recent[i - (|h| - k)] in recent;
    }
    if h != [] {
      assert recent[k - 1] in recent && GoodSample(h[|h| - 1]);
      if m in recent {
        var i :| 0 <= i < k && recent[i] == m;
        assert h[|h| - k + i].txRate == m;
      }
    }
  }

  /** When a window is recent enough, said in milliseconds. */
  lemma {:induction false} RecentInMs(rs: seq<Reading>, nowMs: int, e: int, r: Range)
    requires nowMs >= 0 && HalfHourEnd(e, nowMs) && rs != [] && rs[|rs| - 1].atMs >= 0
    ensures r == Range24h || r == OtherRange ==> (Recent(rs, nowMs, r) <==> rs[|rs| - 1].atMs < e + 2_505_600_000)
    ensures r == Range7d ==> (Recent(rs, nowMs, r) <==> rs[|rs| - 1].atMs < e + 1_987_200_000)
    ensures r == Range30d ==> (Recent(rs, nowMs, r) <==> rs[|rs| - 1].atMs < e)
  {
    EndIsNext(e, nowMs);
    HalfHourOf(NoReading, rs[|rs| - 1]);
  }

  /** For every run of readings with a clock that never goes back, every range and every recent
      time: the bars and the peer totals of the response are made of exactly the readings taken
      in their slice of the last 24 hours, 7 days or 30 days. */
  lemma {:induction false} RunBarsInMs(s: Series, rs: seq<Reading>, nowMs: int, e: int, r: Range)
    requires ClockForward(rs) && Recent(rs, nowMs, r) && forall k :: 0 <= k < |rs| ==> rs[k].atMs >= 0
    requires nowMs >= 0 && HalfHourEnd(e, nowMs)
    requires IsRingSeries(s, RunFrom(FreshCache, rs), nowMs, r)
    ensures r == Range24h || r == OtherRange ==> TakenSlices(s, rs, e, 1_800_000, 48)
    ensures r == Range7d ==> TakenSlices(s, rs, e, 10_800_000, 56)
    ensures r == Range30d ==> TakenSlices(s, rs, e, 43_200_000, 60)
  {
    var h := HistoryOf(NoReading, rs);
    RunSeriesExact(s, rs, nowMs, r);
    BarsInMs(s, h, LastReading(NoReading, rs), nowMs, e, r);
    hide HistoryOf, Taken, Between, Sum, IsBar, IsRanking, PeersOf, IsHistorySeries, IsRingSeries, RunFrom, Recent;
    if r == Range7d {
      SlicesTaken(s, rs, e, 6, 56);
    } else if r == Range30d {
      SlicesTaken(s, rs, e, 24, 60);
    } else {
      SlicesTaken(s, rs, e, 1, 48);
    }
  }

  lemma {:induction false} SlicesTaken(s: Series, rs: seq<Reading>, e: int, group: nat, n: nat)
    requires e % 1_800_000 == 0 && forall k :: 0 <= k < |rs| ==> rs[k].atMs >= 0
    requires Slices(s, HistoryOf(NoReading, rs), e, group * 1_800_000, n)
    ensures TakenSlices(s, rs, e, group * 1_800_000, n)
  {
    hide HistoryOf, Taken, Between, Sum, IsBar, IsRanking, PeersOf;
    var barMs := group * 1_800_000;
    forall j | 0 <= j <= n ensures (e - j * barMs) % 1_800_000 == 0 {
      MultipleOf(e, j, group);
    }
    forall i | 0 <= i < n ensures IsBar(s.buckets[i], Sum(Taken(rs, e - (n - i) * barMs, e - (n - i - 1) * barMs))) {
      BetweenIsTaken(rs, e - (n - i) * barMs, e - (n - i - 1) * barMs);
    }
    BetweenIsTaken(rs, e - n * barMs, e);
  }

  lemma {:induction false} MultipleOf(e: int, j: nat, group: nat)
    requires e % 1_800_000 == 0
    ensures (e - j * (group * 1_800_000)) % 1_800_000 == 0
  {
    var q := e / 1_800_000;
    assert j * (group * 1_800_000) == (j * group) * 1_800_000;
    assert e - (j * group) * 1_800_000 == (q - j * group) * 1_800_000;
  }

  /** A bar, for every set of samples: its averages times the number of samples are the rates
      added up. */
  lemma {:induction false} BarAverages(b: Bar, h: History)
    requires IsBar(b, Sum(h))
    ensures b.rxAvg * |h| as real == RxTotal(h) && b.txAvg * |h| as real == TxTotal(h)
    ensures h == [] ==> b.rxAvg == b.txAvg == 0.0
  {
    hide Sum, Average, RxTotal, TxTotal, IsTop;
    AverageTimesCount(h);
  }

  /** No peer moved more bytes than the one the bar names, if any moved some. */
  lemma {:induction false} BarTop(b: Bar, h: History, pk: string)
    requires GoodHistory(h) && IsBar(b, Sum(h))
    ensures Get(Sum(h).rxBytes, pk) + Get(Sum(h).txBytes, pk) <= b.topRx + b.topTx
    ensures if b.topRx + b.topTx > 0 then b.topRx == Get(Sum(h).rxBytes, b.topKey) && b.topTx == Get(Sum(h).txBytes, b.topKey)
            else b.topKey == "" && b.topRx == b.topTx == 0
  {
    hide Sum, Average, IsTop;
    SumPositive(h);
    TopMeaning(b, Sum(h), pk);
  }

  lemma {:induction false} TopMeaning(b: Bar, t: Totals, pk: string)
    requires IsTop(b, PeersOf(t))
    requires forall k :: k in t.rxBytes ==> t.rxBytes[k] > 0
    requires forall k :: k in t.txBytes ==> t.txBytes[k] > 0
    ensures Get(t.rxBytes, pk) + Get(t.txBytes, pk) <= b.topRx + b.topTx
    ensures if b.topRx + b.topTx > 0 then b.topRx == Get(t.rxBytes, b.topKey) && b.topTx == Get(t.txBytes, b.topKey)
            else b.topKey == "" && b.topRx == b.topTx == 0
  {
    var m := PeersOf(t);
    assert pk in m ==> m[pk] == Counters(Get(t.rxBytes, pk), Get(t.txBytes, pk));
    assert b.topKey in m ==> m[b.topKey] == Counters(Get(t.rxBytes, b.topKey), Get(t.txBytes, b.topKey));
  }

  // ----- the three ranges of one moment

  /** Every peer of one list is in the other with at least as many bytes each way. */
  ghost predicate AtMost(a: seq<PeerTotal>, b: seq<PeerTotal>) {
    forall x :: x in a ==> exists y :: y in b && y.key == x.key && x.rx <= y.rx && x.tx <= y.tx
  }

  lemma {:induction false} WiderListsMore(a: seq<PeerTotal>, b: seq<PeerTotal>, h: History, lo: int, lo': int, hi: int)
    requires GoodHistory(h) && lo' <= lo <= hi
    requires IsRanking(a, PeersOf(Sum(Within(h, lo, hi)))) && IsRanking(b, PeersOf(Sum(Within(h, lo', hi))))
    ensures AtMost(a, b)
  {
    hide Sum, Within;
    WithinMembers(h, lo, hi);
    SumPositive(Within(h, lo, hi));
    forall x | x in a ensures exists y :: y in b && y.key == x.key && x.rx <= y.rx && x.tx <= y.tx {
      WiderWindowMoreBytes(h, lo, lo', hi, x.key);
      assert EntryOf(x, PeersOf(Sum(Within(h, lo, hi))));
      var y := LargerEntry(x, Sum(Within(h, lo, hi)), Sum(Within(h, lo', hi)));
      assert y in b;
    }
  }

  lemma {:induction false} LargerEntry(x: PeerTotal, narrow: Totals, wide: Totals) returns (y: PeerTotal)
    requires EntryOf(x, PeersOf(narrow))
    requires forall pk :: pk in narrow.rxBytes ==> narrow.rxBytes[pk] > 0
    requires forall pk :: pk in narrow.txBytes ==> narrow.txBytes[pk] > 0
    requires Get(narrow.rxBytes, x.key) <= Get(wide.rxBytes, x.key) && Get(narrow.txBytes, x.key) <= Get(wide.txBytes, x.key)
    ensures EntryOf(y, PeersOf(wide)) && y.key == x.key && x.rx <= y.rx && x.tx <= y.tx
  {
    y := PeerTotal(x.key, Get(wide.rxBytes, x.key), Get(wide.txBytes, x.key));
  }

  /** Over one run and one time no peer has more bytes in the 24-hour response than in the 7-day
      one, nor in that one more than in the 30-day one. */
  lemma {:induction false} RangesNested(day: Series, week: Series, month: Series, rs: seq<Reading>, nowMs: int)
    requires ClockForward(rs) && Recent(rs, nowMs, Range30d)
    requires IsRingSeries(day, RunFrom(FreshCache, rs), nowMs, Range24h)
    requires IsRingSeries(week, RunFrom(FreshCache, rs), nowMs, Range7d)
    requires IsRingSeries(month, RunFrom(FreshCache, rs), nowMs, Range30d)
    ensures AtMost(day.peerTotals, week.peerTotals) && AtMost(week.peerTotals, month.peerTotals)
  {
    var h, hi := HistoryOf(NoReading, rs), BucketOf(nowMs) + 1;
    RunSeriesExact(day, rs, nowMs, Range24h);
    RunSeriesExact(week, rs, nowMs, Range7d);
    RunSeriesExact(month, rs, nowMs, Range30d);
    HistoryIsGood(NoReading, rs);
    hide HistoryOf, Within, Sum, IsRanking, PeersOf, IsChartMax, IsMaxOf, IsBar, HistoryBars, IsRingSeries, RunFrom, BucketOf, AtMost;
    WiderListsMore(day.peerTotals, week.peerTotals, h, hi - 48, hi - 336, hi);
    WiderListsMore(week.peerTotals, month.peerTotals, h, hi - 336, hi - 1440, hi);
  }

  // ----- bytes, in milliseconds

  /** What the readings taken at or after `from` and before `to` add for a peer: the increases
      of its counters since the reading before. */
  ghost function RxMovedBetween(rs: seq<Reading>, pk: string, from: int, to: int): nat {
    if rs == [] then 0
    else
      var now := rs[|rs| - 1];
      RxMovedBetween(rs[..|rs| - 1], pk, from, to)
      + if from <= now.atMs < to then RxMove(LastReading(NoReading, rs[..|rs| - 1]), now, pk) else 0
  }

  ghost function TxMovedBetween(rs: seq<Reading>, pk: string, from: int, to: int): nat {
    if rs == [] then 0
    else
      var now := rs[|rs| - 1];
      TxMovedBetween(rs[..|rs| - 1], pk, from, to)
      + if from <= now.atMs < to then TxMove(LastReading(NoReading, rs[..|rs| - 1]), now, pk) else 0
  }

  lemma {:induction false} MovedInIsBetween(rs: seq<Reading>, pk: string, lo: int, hi: int)
    requires forall k :: 0 <= k < |rs| ==> rs[k].atMs >= 0
    ensures RxMovedIn(rs, pk, lo, hi) == RxMovedBetween(rs, pk, lo * 1_800_000, hi * 1_800_000)
    ensures TxMovedIn(rs, pk, lo, hi) == TxMovedBetween(rs, pk, lo * 1_800_000, hi * 1_800_000)
  {
    if rs != [] {
      hide RxMove, TxMove;
      MovedInIsBetween(rs[..|rs| - 1], pk, lo, hi);
      HalfHourOf(NoReading, rs[|rs| - 1]);
    }
  }

  /** A peer is listed exactly with what its counters went up by in a window of milliseconds. */
  ghost predicate Lists(l: seq<PeerTotal>, rs: seq<Reading>, pk: string, from: int, to: int) {
    var drx, dtx := RxMovedBetween(rs, pk, from, to), TxMovedBetween(rs, pk, from, to);
    if drx + dtx > 0 then PeerTotal(pk, drx, dtx) in l else forall x :: x in l ==> x.key != pk
  }

  /** The peer totals for every run, every peer and every recent time: the counter increases of
      the last 24 hours, 7 days or 30 days. */
  lemma {:induction false} TotalsInMs(s: Series, rs: seq<Reading>, nowMs: int, e: int, r: Range, pk: string)
    requires ClockForward(rs) && Recent(rs, nowMs, r) && forall k :: 0 <= k < |rs| ==> rs[k].atMs >= 0
    requires nowMs >= 0 && HalfHourEnd(e, nowMs)
    requires IsRingSeries(s, RunFrom(FreshCache, rs), nowMs, r)
    ensures r == Range24h || r == OtherRange ==> Lists(s.peerTotals, rs, pk, e - 86_400_000, e)
    ensures r == Range7d ==> Lists(s.peerTotals, rs, pk, e - 604_800_000, e)
    ensures r == Range30d ==> Lists(s.peerTotals, rs, pk, e - 2_592_000_000, e)
  {
    hide IsRingSeries, RunFrom, RxMovedIn, TxMovedIn, RxMovedBetween, TxMovedBetween, BucketOf;
    EndIsNext(e, nowMs);
    PeerTotalsExact(s, rs, nowMs, r, pk);
    MovedInIsBetween(rs, pk, StartBucket(nowMs, r), BucketOf(nowMs) + 1);
  }
}
