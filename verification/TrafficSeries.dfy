/** What a traffic response reports, once over the ring and once over the history, and the
    proof that the two agree. */
module TrafficSeries {
  import opened TrafficHistory
  import opened TrafficRing
  import opened PeerRanking

  datatype Range = Range24h | Range7d | Range30d | OtherRange

  datatype Bar = Bar(rxAvg: real, txAvg: real, topKey: string, topRx: int, topTx: int)

  datatype Series = Series(
    range: Range, buckets: seq<Bar>, peerTotals: seq<PeerTotal>, currentTotals: seq<PeerTotal>, maxTotal: real,
    rxNow: real, txNow: real, rxRecentMax: real, txRecentMax: real, totalRx: int, totalTx: int, peakMbps: real)

  /** Window length in buckets, number of bars, buckets per bar. */
  datatype Cfg = Cfg(window: nat, display: nat, group: nat)

  function RangeCfg(r: Range): Cfg {
    match r
    case Range7d => Cfg(336, 56, 6)
    case Range30d => Cfg(1440, 60, 24)
    case _ => Cfg(48, 48, 1)
  }

  function EffectiveRange(r: Range): Range {
    if r == OtherRange then Range24h else r
  }

  /** The first bucket of the window that ends with the current one. */
  function StartBucket(nowMs: int, r: Range): int {
    BucketOf(nowMs) - (RangeCfg(r).window - 1)
  }

  /** The bars cut the window into consecutive groups with nothing left over. */
  lemma {:induction false} BarsTileWindow(r: Range)
    ensures RangeCfg(r).display * RangeCfg(r).group == RangeCfg(r).window <= SLOTS
  {
  }

  // ----- the parts of a response

  function PairUp(rx: ByteMap, tx: ByteMap): Peers {
    map pk | pk in rx.Keys + tx.Keys :: Counters(Get(rx, pk), Get(tx, pk))
  }

  function PeersOf(t: Totals): Peers {
    PairUp(t.rxBytes, t.txBytes)
  }

  /** The named peer moved the most bytes, or no peer moved any. */
  ghost predicate IsTop(b: Bar, m: Peers) {
    && (forall pk :: pk in m ==> m[pk].rx + m[pk].tx <= b.topRx + b.topTx)
    && if b.topRx + b.topTx > 0 then b.topKey in m && m[b.topKey] == Counters(b.topRx, b.topTx)
       else b.topKey == "" && b.topRx == b.topTx == 0
  }

  ghost predicate IsBar(b: Bar, t: Totals) {
    b.rxAvg == Average(t.rxSum, t.rxCount) && b.txAvg == Average(t.txSum, t.txCount) && IsTop(b, PeersOf(t))
  }

  /** The highest bar, or 1 when none is above zero. */
  ghost predicate IsChartMax(m: real, bars: seq<Bar>) {
    if forall i :: 0 <= i < |bars| ==> bars[i].rxAvg + bars[i].txAvg <= 0.0 then m == 1.0
    else
      && (forall i :: 0 <= i < |bars| ==> bars[i].rxAvg + bars[i].txAvg <= m)
      && exists i :: 0 <= i < |bars| && bars[i].rxAvg + bars[i].txAvg == m
  }

  ghost predicate IsMaxOf(m: real, s: seq<real>) {
    (forall x :: x in s ==> x <= m) && (m in s || m == 0.0) && m >= 0.0
  }

  function Mbps(bytesPerSecond: real): real {
    bytesPerSecond * 8.0 / 1000000.0
  }

  /** The reported peak: the given one, or the latest rate when there is none. */
  function PeakOr(peak: real, lastTx: real): real {
    if peak <= 0.0 && lastTx > 0.0 then Mbps(lastTx) else peak
  }

  datatype Live = Live(rxNow: real, txNow: real, recentRx: seq<real>, recentTx: seq<real>, totalRx: int, totalTx: int, peers: Peers)

  /** A response made of these bar sums, this window sum, this peak and these live values. */
  ghost predicate IsSeries(s: Series, r: Range, bars: seq<Totals>, whole: Totals, peak: real, live: Live) {
    && s.range == EffectiveRange(r)
    && |s.buckets| == |bars| && (forall i :: 0 <= i < |bars| ==> IsBar(s.buckets[i], bars[i]))
    && IsRanking(s.peerTotals, PeersOf(whole))
    && IsRanking(s.currentTotals, live.peers)
    && IsChartMax(s.maxTotal, s.buckets)
    && s.rxNow == live.rxNow && s.txNow == live.txNow
    && IsMaxOf(s.rxRecentMax, live.recentRx) && IsMaxOf(s.txRecentMax, live.recentTx)
    && s.totalRx == live.totalRx && s.totalTx == live.totalTx
    && s.peakMbps == PeakOr(peak, live.txNow)
  }

  // ----- over the ring

  /** The buckets of the i-th bar. */
  ghost function BarWindow(ring: Ring, start: int, group: nat, i: nat): Totals {
    ReadWindow(ring, start + i * group, group)
  }

  ghost function RingBars(ring: Ring, start: int, cfg: Cfg): seq<Totals> {
    seq(cfg.display, i requires 0 <= i < cfg.display => BarWindow(ring, start, cfg.group, i))
  }

  function PeakSample(t: Totals): real {
    if t.txMax <= 0.0 && t.txCount > 0 then t.txSum / t.txCount as real else t.txMax
  }

  function PeakScan(ring: Ring, lo: int, n: nat): (p: real)
    ensures p >= 0.0
  {
    if n == 0 then 0.0 else Max(PeakScan(ring, lo, n - 1), Mbps(PeakSample(Read(ring, lo + n - 1))))
  }

  function LiveOf(c: Cache): Live {
    Live(c.lastRx, c.lastTx, c.recentRx, c.recentTx, c.totalRx, c.totalTx, c.prev.peers)
  }

  ghost predicate IsRingSeries(s: Series, c: Cache, nowMs: int, r: Range) {
    var start := StartBucket(nowMs, r);
    IsSeries(s, r, RingBars(c.ring, start, RangeCfg(r)), ReadWindow(c.ring, start, RangeCfg(r).window),
             PeakScan(c.ring, BucketOf(nowMs) - 47, 48), LiveOf(c))
  }

  // ----- over the history

  ghost function HistoryBars(h: History, start: int, cfg: Cfg): seq<Totals> {
    seq(cfg.display, i requires 0 <= i < cfg.display => Sum(Within(h, start + i * cfg.group, start + i * cfg.group + cfg.group)))
  }

  ghost function LiveHistory(h: History, last: Reading): Live {
    Live(if h == [] then 0.0 else h[|h| - 1].rxRate, if h == [] then 0.0 else h[|h| - 1].txRate,
         RecentRx(h), RecentTx(h), last.rx, last.tx, last.peers)
  }

  /** The greatest sample rate of the last 48 buckets. */
  ghost function DayPeak(h: History, nowMs: int): real {
    Mbps(Sum(Within(h, BucketOf(nowMs) - 47, BucketOf(nowMs) + 1)).txMax)
  }

  ghost predicate IsHistorySeries(s: Series, h: History, last: Reading, nowMs: int, r: Range) {
    var start := StartBucket(nowMs, r);
    IsSeries(s, r, HistoryBars(h, start, RangeCfg(r)), Sum(Within(h, start, BucketOf(nowMs) + 1)),
             DayPeak(h, nowMs), LiveHistory(h, last))
  }

  // ----- the two agree

  /** The average fallback never changes the peak: with no positive sample the average is 0. */
  lemma {:induction false} FallbackIsNeutral(h: History)
    requires GoodHistory(h)
    ensures PeakSample(Sum(h)) == Sum(h).txMax
  {
    SumPositive(h);
    AverageAtMostMax(h);
    var t := Sum(h);
    if t.txMax <= 0.0 && t.txCount > 0 {
      QuotientNonNegative(t.txSum, t.txCount as real);
    }
  }

  lemma {:induction false} QuotientNonNegative(a: real, b: real)
    requires a >= 0.0 && b > 0.0
    ensures a / b >= 0.0
  {
  }

  lemma {:induction false} PeakExact(ring: Ring, h: History, lo: int, n: nat)
    requires Represents(ring, h) && GoodHistory(h)
    requires forall b :: lo <= b < lo + n ==> !Overwritten(h, b)
    ensures PeakScan(ring, lo, n) == Mbps(Sum(Within(h, lo, lo + n)).txMax)
  {
    hide Represents, Read, Within, Sum, PeakSample, Mbps;
    if n == 0 {
      NoBuckets(ring, h, lo);
      ZeroPeak();
    } else {
      var hi := lo + n - 1;
      PeakExact(ring, h, lo, n - 1);
      ReadExactIff(ring, h, hi);
      assert GoodHistory(Within(h, hi, hi + 1)) by { WithinMembers(h, hi, hi + 1); }
      FallbackIsNeutral(Within(h, hi, hi + 1));
      PeakOfSplit(h, lo, hi);
    }
  }

  lemma {:induction false} ZeroPeak()
    ensures Mbps(Zero.txMax) == 0.0
  {
  }

  lemma {:induction false} PeakOfSplit(h: History, lo: int, hi: int)
    requires lo <= hi
    ensures Mbps(Sum(Within(h, lo, hi + 1)).txMax)
         == Max(Mbps(Sum(Within(h, lo, hi)).txMax), Mbps(Sum(Within(h, hi, hi + 1)).txMax))
  {
    hide Within, Sum;
    WindowSplits(h, lo, hi, hi + 1);
  }

  lemma {:induction false} BarsExact(ring: Ring, h: History, start: int, cfg: Cfg)
    requires Represents(ring, h) && GoodHistory(h)
    requires forall b :: start <= b < start + cfg.display * cfg.group ==> !Overwritten(h, b)
    ensures RingBars(ring, start, cfg) == HistoryBars(h, start, cfg)
  {
    hide Represents, Read, Within, Sum, ReadWindow, Overwritten;
    forall i | 0 <= i < cfg.display ensures RingBars(ring, start, cfg)[i] == HistoryBars(h, start, cfg)[i] {
      GroupInside(i, cfg.display, cfg.group);
      WindowExact(ring, h, start + i * cfg.group, cfg.group);
    }
  }

  lemma {:induction false} GroupInside(i: nat, n: nat, g: nat)
    requires i < n
    ensures 0 <= i * g && i * g + g <= n * g
  {
    assert (n - i - 1) * g >= 0;
    assert (n - i - 1) * g == n * g - i * g - g;
  }

  /** A response read from the ring is the response computed from the history, provided no
      bucket of its window (or of the last 48) was overwritten. */
  lemma {:induction false} SeriesExact(s: Series, c: Cache, h: History, nowMs: int, r: Range)
    requires CacheRepresents(c, h) && GoodHistory(h)
    requires forall b :: StartBucket(nowMs, r) <= b <= BucketOf(nowMs) ==> !Overwritten(h, b)
    requires IsRingSeries(s, c, nowMs, r)
    ensures IsHistorySeries(s, h, Reading(0, c.totalRx, c.totalTx, c.prev.peers), nowMs, r)
  {
    hide IsSeries, Represents, Overwritten, Within, Sum, ReadWindow, PeakScan;
    var start, cfg := StartBucket(nowMs, r), RangeCfg(r);
    BarsTileWindow(r);
    BarsExact(c.ring, h, start, cfg);
    WindowExact(c.ring, h, start, cfg.window);
    PeakExact(c.ring, h, BucketOf(nowMs) - 47, 48);
  }

  /** The window asked for does not reach back to where the newest sample may have displaced
      older ones: for 30 days, the current bucket is not older than the newest one sampled. */
  ghost predicate Recent(rs: seq<Reading>, nowMs: int, r: Range) {
    rs != [] ==> BucketOf(rs[|rs| - 1].atMs) - SLOTS < StartBucket(nowMs, r)
  }

  /** Over every run with a clock that never goes back, for every range and every recent time:
      the response equals the one computed from all samples ever taken. */
  lemma {:induction false} RunSeriesExact(s: Series, rs: seq<Reading>, nowMs: int, r: Range)
    requires ClockForward(rs) && Recent(rs, nowMs, r)
    requires IsRingSeries(s, RunFrom(FreshCache, rs), nowMs, r)
    ensures IsHistorySeries(s, HistoryOf(NoReading, rs), LastReading(NoReading, rs), nowMs, r)
  {
    hide IsSeries, Represents, Overwritten, Within, Sum, ReadWindow, PeakScan;
    var c, h := RunFrom(FreshCache, rs), HistoryOf(NoReading, rs);
    RunRepresents(rs);
    HistoryIsGood(NoReading, rs);
    TotalsFollow(rs);
    forall b | StartBucket(nowMs, r) <= b <= BucketOf(nowMs) ensures !Overwritten(h, b) {
      NothingOverwritten(rs, b);
    }
    SeriesExact(s, c, h, nowMs, r);
  }

  lemma {:induction false} TotalsFollow(rs: seq<Reading>)
    ensures var c := RunFrom(FreshCache, rs);
            c.prev == LastReading(NoReading, rs) && c.totalRx == c.prev.rx && c.totalTx == c.prev.tx
  {
  }

  // ----- consequences

  /** The reported peak is at least the TX average of every bar of the 24-hour chart. */
  lemma {:induction false} PeakCoversBars(s: Series, h: History, last: Reading, nowMs: int, r: Range, i: nat)
    requires GoodHistory(h) && EffectiveRange(r) == Range24h && IsHistorySeries(s, h, last, nowMs, r) && i < |s.buckets|
    ensures Mbps(s.buckets[i].txAvg) <= s.peakMbps
  {
    hide Sum, Within, Average, IsRanking, IsChartMax, IsMaxOf, PeersOf, IsTop;
    var lo := StartBucket(nowMs, r) + i;
    assert IsBar(s.buckets[i], HistoryBars(h, StartBucket(nowMs, r), RangeCfg(r))[i]);
    PeakCoversWindow(h, nowMs, lo, lo + 1);
  }

  lemma {:induction false} PeakCoversWindow(h: History, nowMs: int, lo: int, hi: int)
    requires GoodHistory(h) && BucketOf(nowMs) - 47 <= lo <= hi <= BucketOf(nowMs) + 1
    ensures var t := Sum(Within(h, lo, hi)); Mbps(Average(t.txSum, t.txCount)) <= DayPeak(h, nowMs)
  {
    hide Sum, Within, Average, BucketOf;
    WithinMembers(h, lo, hi);
    AverageAtMostMax(Within(h, lo, hi));
    MaxGrows(h, BucketOf(nowMs) - 47, lo, hi, BucketOf(nowMs) + 1);
  }

  lemma {:induction false} MaxGrows(h: History, a: int, lo: int, hi: int, b: int)
    requires a <= lo <= hi <= b
    ensures Sum(Within(h, lo, hi)).txMax <= Sum(Within(h, a, b)).txMax
  {
    hide Within, Sum, Merge;
    WindowSplits(h, a, lo, b);
    WindowSplits(h, lo, hi, b);
  }

  /** A peer appears exactly when it moved some bytes, and with those bytes. */
  lemma {:induction false} PeerListed(l: seq<PeerTotal>, h: History, pk: string)
    requires GoodHistory(h) && IsRanking(l, PeersOf(Sum(h)))
    ensures var drx, dtx := Get(Sum(h).rxBytes, pk), Get(Sum(h).txBytes, pk);
            if drx + dtx > 0 then PeerTotal(pk, drx, dtx) in l
            else drx == dtx == 0 && forall e :: e in l ==> e.key != pk
  {
    SumPositive(h);
    hide Sum;
    var e := PeerTotal(pk, Get(Sum(h).rxBytes, pk), Get(Sum(h).txBytes, pk));
    assert EntryOf(e, PeersOf(Sum(h))) || pk !in PeersOf(Sum(h));
  }

  /** The peer list of a response, for every run and every peer, whether or not it was there
      all the time: listed exactly when its counters went up within the window, with what
      they went up by. */
  lemma {:induction false} PeerTotalsExact(s: Series, rs: seq<Reading>, nowMs: int, r: Range, pk: string)
    requires ClockForward(rs) && Recent(rs, nowMs, r)
    requires IsRingSeries(s, RunFrom(FreshCache, rs), nowMs, r)
    ensures var drx := RxMovedIn(rs, pk, StartBucket(nowMs, r), BucketOf(nowMs) + 1);
            var dtx := TxMovedIn(rs, pk, StartBucket(nowMs, r), BucketOf(nowMs) + 1);
            if drx + dtx > 0 then PeerTotal(pk, drx, dtx) in s.peerTotals
            else forall e :: e in s.peerTotals ==> e.key != pk
  {
    hide IsRingSeries, RunFrom, Sum, Within, HistoryBars, PeersOf, IsRanking, IsBar, IsChartMax, IsMaxOf, PeakOr, DayPeak, StartBucket, BucketOf, HistoryOf;
    var h, lo, hi := HistoryOf(NoReading, rs), StartBucket(nowMs, r), BucketOf(nowMs) + 1;
    RunSeriesExact(s, rs, nowMs, r);
    HistoryIsGood(NoReading, rs);
    WithinMembers(h, lo, hi);
    PeerListed(s.peerTotals, Within(h, lo, hi), pk);
    WindowBytesConserved(rs, pk, lo, hi);
  }

  /** So for a peer first seen in reading i and present from there on without a reset, the
      total of a window that holds the later readings is last counter minus counter of i. */
  lemma {:induction false} TotalIsCounterDifference(s: Series, rs: seq<Reading>, nowMs: int, r: Range, pk: string, i: nat)
    requires ClockForward(rs) && Recent(rs, nowMs, r)
    requires rs != [] && Steady(rs, pk, i, |rs| - 1) && forall k :: 0 <= k < i ==> pk !in rs[k].peers
    requires forall k :: i < k < |rs| ==> StartBucket(nowMs, r) <= BucketOf(rs[k].atMs) <= BucketOf(nowMs)
    requires IsRingSeries(s, RunFrom(FreshCache, rs), nowMs, r)
    ensures var drx := rs[|rs| - 1].peers[pk].rx - rs[i].peers[pk].rx;
            var dtx := rs[|rs| - 1].peers[pk].tx - rs[i].peers[pk].tx;
            if drx + dtx > 0 then PeerTotal(pk, drx, dtx) in s.peerTotals
            else drx == dtx == 0 && forall e :: e in s.peerTotals ==> e.key != pk
  {
    hide IsRingSeries, RunFrom, StartBucket, BucketOf;
    PeerTotalsExact(s, rs, nowMs, r, pk);
    MovesInWindowTelescope(rs, pk, i, |rs| - 1, StartBucket(nowMs, r), BucketOf(nowMs) + 1);
    assert rs[..|rs|] == rs;
  }
}
