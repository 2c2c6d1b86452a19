/** The reference meaning of the traffic cache: an unbounded list of samples, each the
    difference of two consecutive counter readings, and sums over parts of that list. */
module TrafficHistory {

  const BUCKET_MS: int := 1_800_000  // 30 minutes

  datatype Counters = Counters(rx: int, tx: int)

  type Peers = map<string, Counters>
  type ByteMap = map<string, int>

  /** One look at the kernel: the clock in milliseconds, the aggregate and the per-peer counters. */
  datatype Reading = Reading(atMs: int, rx: int, tx: int, peers: Peers)

  /** prevAtMs == 0 stands for "no previous reading". */
  const NoReading: Reading := Reading(0, 0, 0, map[])

  datatype Sample = Sample(bid: int, rxRate: real, txRate: real, rxBytes: ByteMap, txBytes: ByteMap)

  type History = seq<Sample>

  // ----- from readings to samples

  /** Go's integer division truncates toward zero. */
  function BucketOf(ms: int): int {
    if ms >= 0 then ms / BUCKET_MS else -(-ms / BUCKET_MS)
  }

  function Positive(x: int): nat {
    if x < 0 then 0 else x
  }

  /** Bytes per second, clamped at zero. */
  function Rate(delta: int, dtMs: int): (r: real)
    requires dtMs > 0
    ensures r >= 0.0
  {
    if delta < 0 then 0.0 else delta as real / (dtMs as real / 1000.0)
  }

  function RxSteps(prev: Peers, now: Peers): ByteMap {
    map pk | pk in now && pk in prev && now[pk].rx > prev[pk].rx :: now[pk].rx - prev[pk].rx
  }

  function TxSteps(prev: Peers, now: Peers): ByteMap {
    map pk | pk in now && pk in prev && now[pk].tx > prev[pk].tx :: now[pk].tx - prev[pk].tx
  }

  predicate Recorded(prev: Reading, now: Reading) {
    prev.atMs != 0 && now.atMs > prev.atMs
  }

  function SampleOf(prev: Reading, now: Reading): Sample
    requires Recorded(prev, now)
  {
    var dt := now.atMs - prev.atMs;
    Sample(BucketOf(now.atMs), Rate(now.rx - prev.rx, dt), Rate(now.tx - prev.tx, dt),
           RxSteps(prev.peers, now.peers), TxSteps(prev.peers, now.peers))
  }

  /** The rates of a sample times the seconds since the reading before are the bytes by which the
      aggregate counters went up, or nothing when they went down. */
  lemma {:induction false} RateTimesTime(prev: Reading, now: Reading)
    requires Recorded(prev, now)
    ensures var s, ms := SampleOf(prev, now), (now.atMs - prev.atMs) as real;
            && s.rxRate * ms == 1000.0 * (if now.rx >= prev.rx then now.rx - prev.rx else 0) as real
            && s.txRate * ms == 1000.0 * (if now.tx >= prev.tx then now.tx - prev.tx else 0) as real
  {
    QuotientTimes((now.rx - prev.rx) as real, (now.atMs - prev.atMs) as real);
    QuotientTimes((now.tx - prev.tx) as real, (now.atMs - prev.atMs) as real);
  }

  lemma {:induction false} QuotientTimes(a: real, ms: real)
    requires ms > 0.0
    ensures a / (ms / 1000.0) * ms == 1000.0 * a
  {
    var sec := ms / 1000.0;
    assert a / sec * sec == a;
    assert ms == sec * 1000.0;
  }

  function NewSamples(prev: Reading, now: Reading): History {
    if Recorded(prev, now) then [SampleOf(prev, now)] else []
  }

  function LastReading(first: Reading, rs: seq<Reading>): Reading {
    if rs == [] then first else rs[|rs| - 1]
  }

  /** All samples of a run of readings that follows the reading `first`. */
  function HistoryOf(first: Reading, rs: seq<Reading>): History {
    if rs == [] then []
    else
      var init := rs[..|rs| - 1];
      HistoryOf(first, init) + NewSamples(LastReading(first, init), rs[|rs| - 1])
  }

  lemma {:induction false} HistoryAppend(rs: seq<Reading>, r: Reading)
    ensures HistoryOf(NoReading, rs + [r]) == HistoryOf(NoReading, rs) + NewSamples(LastReading(NoReading, rs), r)
  {
  }

  ghost predicate GoodHistory(h: History) {
    forall i :: 0 <= i < |h| ==> GoodSample(h[i])
  }

  ghost predicate GoodSample(s: Sample) {
    && s.rxRate >= 0.0 && s.txRate >= 0.0
    && (forall pk :: pk in s.rxBytes ==> s.rxBytes[pk] > 0)
    && (forall pk :: pk in s.txBytes ==> s.txBytes[pk] > 0)
  }

  lemma {:induction false} GoodPrefix(h: History)
    requires GoodHistory(h) && h != []
    ensures GoodHistory(h[..|h| - 1]) && GoodSample(h[|h| - 1])
  {
  }

  lemma {:induction false} HistoryIsGood(first: Reading, rs: seq<Reading>)
    ensures GoodHistory(HistoryOf(first, rs))
  {
    if rs != [] {
      HistoryIsGood(first, rs[..|rs| - 1]);
    }
  }

  ghost predicate Ordered(h: History) {
    forall i, j :: 0 <= i < j < |h| ==> h[i].bid <= h[j].bid
  }

  ghost predicate ClockForward(rs: seq<Reading>) {
    forall i, j :: 0 <= i < j < |rs| ==> rs[i].atMs <= rs[j].atMs
  }

  lemma {:induction false} BucketMonotone(a: int, b: int)
    requires a <= b
    ensures BucketOf(a) <= BucketOf(b)
  {
  }

  /** A clock that never goes back gives samples in bucket order. */
  lemma {:induction false} HistoryOrdered(rs: seq<Reading>)
    requires ClockForward(rs)
    ensures Ordered(HistoryOf(NoReading, rs))
    ensures forall i :: 0 <= i < |HistoryOf(NoReading, rs)| ==> HistoryOf(NoReading, rs)[i].bid <= BucketOf(rs[|rs| - 1].atMs)
  {
    if rs != [] {
      var init := rs[..|rs| - 1];
      HistoryOrdered(init);
      if init != [] {
        BucketMonotone(init[|init| - 1].atMs, rs[|rs| - 1].atMs);
      }
    }
  }

  // ----- sums

  /** Everything kept per bucket, summed over some samples. */
  datatype Totals = Totals(rxSum: real, rxCount: nat, txSum: real, txCount: nat, txMax: real, rxBytes: ByteMap, txBytes: ByteMap)

  const Zero: Totals := Totals(0.0, 0, 0.0, 0, 0.0, map[], map[])

  function Get(m: ByteMap, pk: string): int {
    if pk in m then m[pk] else 0
  }

  function Merge(a: ByteMap, b: ByteMap): ByteMap {
    map pk | pk in a.Keys + b.Keys :: Get(a, pk) + Get(b, pk)
  }

  function Max(a: real, b: real): real {
    if b > a then b else a
  }

  function Plus(a: Totals, b: Totals): Totals {
    Totals(a.rxSum + b.rxSum, a.rxCount + b.rxCount, a.txSum + b.txSum, a.txCount + b.txCount,
           Max(a.txMax, b.txMax), Merge(a.rxBytes, b.rxBytes), Merge(a.txBytes, b.txBytes))
  }

  function One(s: Sample): Totals {
    Totals(s.rxRate, 1, s.txRate, 1, s.txRate, s.rxBytes, s.txBytes)
  }

  function Sum(h: History): Totals {
    if h == [] then Zero else Plus(Sum(h[..|h| - 1]), One(h[|h| - 1]))
  }

  /** The samples whose bucket lies in [lo, hi), in order. */
  function Within(h: History, lo: int, hi: int): History {
    if h == [] then []
    else Within(h[..|h| - 1], lo, hi) + (if lo <= h[|h| - 1].bid < hi then [h[|h| - 1]] else [])
  }

  lemma {:induction false} MergeCommutes(a: ByteMap, b: ByteMap)
    ensures Merge(a, b) == Merge(b, a)
  {
  }

  lemma {:induction false} MergeAssociates(a: ByteMap, b: ByteMap, c: ByteMap)
    ensures Merge(Merge(a, b), c) == Merge(a, Merge(b, c))
  {
    var l, r := Merge(Merge(a, b), c), Merge(a, Merge(b, c));
    assert l.Keys == r.Keys;
    forall pk | pk in l ensures l[pk] == r[pk] {
    }
  }

  /** Adding the same thing last or in the middle makes no difference. */
  lemma {:induction false} PlusSwaps(a: Totals, b: Totals, c: Totals)
    ensures Plus(Plus(a, b), c) == Plus(Plus(a, c), b)
  {
    MergeAssociates(a.rxBytes, b.rxBytes, c.rxBytes);
    MergeAssociates(a.rxBytes, c.rxBytes, b.rxBytes);
    MergeCommutes(b.rxBytes, c.rxBytes);
    MergeAssociates(a.txBytes, b.txBytes, c.txBytes);
    MergeAssociates(a.txBytes, c.txBytes, b.txBytes);
    MergeCommutes(b.txBytes, c.txBytes);
  }

  lemma {:induction false} PlusAssociates(a: Totals, b: Totals, c: Totals)
    ensures Plus(Plus(a, b), c) == Plus(a, Plus(b, c))
  {
    MergeAssociates(a.rxBytes, b.rxBytes, c.rxBytes);
    MergeAssociates(a.txBytes, b.txBytes, c.txBytes);
  }

  lemma {:induction false} PlusZero(a: Totals)
    requires a.txMax >= 0.0
    ensures Plus(a, Zero) == a
  {
  }

  /** The samples of a window are those of its first part and those of the rest. */
  lemma {:induction false} WindowSplits(h: History, lo: int, mid: int, hi: int)
    requires lo <= mid <= hi
    ensures Sum(Within(h, lo, hi)) == Plus(Sum(Within(h, lo, mid)), Sum(Within(h, mid, hi)))
  {
    if h == [] {
      PlusZero(Zero);
    } else {
      var init, s := h[..|h| - 1], h[|h| - 1];
      WindowSplits(init, lo, mid, hi);
      WindowSnoc(h, lo, hi);
      WindowSnoc(h, lo, mid);
      WindowSnoc(h, mid, hi);
      SplitOneMore(Sum(Within(init, lo, mid)), Sum(Within(init, mid, hi)), One(s));
    }
  }

  lemma {:induction false} SplitOneMore(a: Totals, b: Totals, o: Totals)
    ensures Plus(Plus(a, b), o) == Plus(Plus(a, o), b) == Plus(a, Plus(b, o))
  {
    PlusSwaps(a, b, o);
    PlusAssociates(a, b, o);
  }

  lemma {:induction false} WindowSnoc(h: History, lo: int, hi: int)
    requires h != []
    ensures var init, s := Within(h[..|h| - 1], lo, hi), h[|h| - 1];
            Sum(Within(h, lo, hi)) == if lo <= s.bid < hi then Plus(Sum(init), One(s)) else Sum(init)
  {
    var w := Within(h[..|h| - 1], lo, hi);
    assert w + [] == w;
    SumSnoc(w, h[|h| - 1]);
  }

  lemma {:induction false} SumSnoc(h: History, s: Sample)
    ensures Sum(h + [s]) == Plus(Sum(h), One(s))
  {
  }

  lemma {:induction false} WithinAll(h: History, lo: int, hi: int)
    requires forall i :: 0 <= i < |h| ==> lo <= h[i].bid < hi
    ensures Within(h, lo, hi) == h
  {
    if h != [] {
      WithinAll(h[..|h| - 1], lo, hi);
      assert h == h[..|h| - 1] + [h[|h| - 1]];
    }
  }

  lemma {:induction false} WithinMembers(h: History, lo: int, hi: int)
    ensures Within(h, lo, hi) == [] <==> forall i :: 0 <= i < |h| ==> !(lo <= h[i].bid < hi)
    ensures GoodHistory(h) ==> GoodHistory(Within(h, lo, hi))
  {
    if h != [] {
      WithinMembers(h[..|h| - 1], lo, hi);
      if GoodHistory(h) {
        GoodPrefix(h);
      }
    }
  }

  // ----- what the sums mean

  /** Byte totals are non-negative and every listed peer moved some bytes. */
  lemma {:induction false} SumPositive(h: History)
    requires GoodHistory(h)
    ensures forall pk :: pk in Sum(h).rxBytes ==> Sum(h).rxBytes[pk] > 0
    ensures forall pk :: pk in Sum(h).txBytes ==> Sum(h).txBytes[pk] > 0
    ensures Sum(h).txMax >= 0.0 && Sum(h).txSum >= 0.0 && Sum(h).rxSum >= 0.0
    ensures Sum(h).rxCount == Sum(h).txCount == |h|
  {
    if h != [] {
      GoodPrefix(h);
      SumPositive(h[..|h| - 1]);
    }
  }

  /** txMax is the greatest sample rate, or 0 for no samples. */
  lemma {:induction false} MaxIsGreatest(h: History)
    requires GoodHistory(h)
    ensures forall i :: 0 <= i < |h| ==> h[i].txRate <= Sum(h).txMax
    ensures h == [] ==> Sum(h).txMax == 0.0
    ensures h != [] ==> exists i :: 0 <= i < |h| && h[i].txRate == Sum(h).txMax
  {
    if h != [] {
      var n := |h| - 1;
      var init := h[..n];
      GoodPrefix(h);
      MaxIsGreatest(init);
      forall i | 0 <= i < n ensures h[i].txRate <= Sum(init).txMax {
        assert init[i] == h[i];
      }
      if init != [] {
        var i :| 0 <= i < n && init[i].txRate == Sum(init).txMax;
        assert h[i].txRate == Sum(init).txMax;
      }
    }
  }

  lemma {:induction false} OneMore(s: real, k: real, m: real, r: real)
    requires k >= 0.0 && s <= k * m && r >= 0.0
    ensures s + r <= (k + 1.0) * Max(m, r)
  {
  }

  predicate PeakBound(t: Totals) {
    t.txSum <= t.txCount as real * t.txMax
  }

  lemma {:induction false} OneMoreTotals(t: Totals, s: Sample)
    requires PeakBound(t) && s.txRate >= 0.0
    ensures PeakBound(Plus(t, One(s)))
  {
    OneMore(t.txSum, t.txCount as real, t.txMax, s.txRate);
    assert (t.txCount + 1) as real == t.txCount as real + 1.0;
  }

  /** The sum of the rates is at most their number times the greatest of them. */
  lemma {:induction false} SumAtMostCountTimesMax(h: History)
    requires GoodHistory(h)
    ensures PeakBound(Sum(h))
  {
    if h == [] {
      assert Sum(h) == Zero;
    } else {
      GoodPrefix(h);
      SumAtMostCountTimesMax(h[..|h| - 1]);
      OneMoreTotals(Sum(h[..|h| - 1]), h[|h| - 1]);
    }
  }

  function Average(sum: real, count: nat): real {
    if count > 0 then sum / count as real else 0.0
  }

  /** The rates of some samples, added up one by one. */
  ghost function RxTotal(h: History): real {
    if h == [] then 0.0 else h[0].rxRate + RxTotal(h[1..])
  }

  ghost function TxTotal(h: History): real {
    if h == [] then 0.0 else h[0].txRate + TxTotal(h[1..])
  }

  lemma {:induction false} TotalSnoc(h: History, s: Sample)
    ensures RxTotal(h + [s]) == RxTotal(h) + s.rxRate && TxTotal(h + [s]) == TxTotal(h) + s.txRate
  {
    if h == [] {
      assert ([s])[1..] == [];
    } else {
      assert (h + [s])[1..] == h[1..] + [s];
      TotalSnoc(h[1..], s);
    }
  }

  lemma {:induction false} SumIsTotal(h: History)
    ensures Sum(h).rxSum == RxTotal(h) && Sum(h).txSum == TxTotal(h) && Sum(h).rxCount == Sum(h).txCount == |h|
  {
    if h != [] {
      assert h == h[..|h| - 1] + [h[|h| - 1]];
      SumIsTotal(h[..|h| - 1]);
      TotalSnoc(h[..|h| - 1], h[|h| - 1]);
    }
  }

  /** An average times the number of samples is their total; without samples it is 0. */
  lemma {:induction false} AverageTimesCount(h: History)
    ensures Average(Sum(h).rxSum, Sum(h).rxCount) * |h| as real == RxTotal(h)
    ensures Average(Sum(h).txSum, Sum(h).txCount) * |h| as real == TxTotal(h)
    ensures h == [] ==> Average(Sum(h).rxSum, Sum(h).rxCount) == 0.0 == Average(Sum(h).txSum, Sum(h).txCount)
  {
    SumIsTotal(h);
    if h != [] {
      hide Sum;
      QuotientCancels(RxTotal(h), |h| as real);
      QuotientCancels(TxTotal(h), |h| as real);
    }
  }

  lemma {:induction false} QuotientCancels(a: real, b: real)
    requires b > 0.0
    ensures a / b * b == a
  {
  }

  /** No average of a set of samples exceeds its greatest sample. */
  lemma {:induction false} AverageAtMostMax(h: History)
    requires GoodHistory(h)
    ensures Average(Sum(h).txSum, Sum(h).txCount) <= Sum(h).txMax
  {
    SumAtMostCountTimesMax(h);
    SumPositive(h);
    if h != [] {
      DivideBound(Sum(h).txSum, Sum(h).txCount as real, Sum(h).txMax);
    }
  }

  lemma {:induction false} DivideBound(s: real, n: real, m: real)
    requires n > 0.0 && s <= n * m
    ensures s / n <= m
  {
  }

  // ----- conservation of bytes

  ghost predicate ClockTicks(rs: seq<Reading>) {
    && (forall i :: 0 <= i < |rs| ==> rs[i].atMs != 0)
    && (forall i, j :: 0 <= i < j < |rs| ==> rs[i].atMs < rs[j].atMs)
  }

  /** What a reading adds for a peer: nothing unless it is recorded as a sample and the peer
      was in the reading before it too; a reset counts nothing. */
  ghost function RxMove(prev: Reading, now: Reading, pk: string): nat {
    if Recorded(prev, now) && pk in prev.peers && pk in now.peers then Positive(now.peers[pk].rx - prev.peers[pk].rx) else 0
  }

  ghost function TxMove(prev: Reading, now: Reading, pk: string): nat {
    if Recorded(prev, now) && pk in prev.peers && pk in now.peers then Positive(now.peers[pk].tx - prev.peers[pk].tx) else 0
  }

  /** What a run of readings adds for a peer. */
  ghost function RxMoved(rs: seq<Reading>, pk: string): nat {
    if rs == [] then 0
    else RxMoved(rs[..|rs| - 1], pk) + RxMove(LastReading(NoReading, rs[..|rs| - 1]), rs[|rs| - 1], pk)
  }

  ghost function TxMoved(rs: seq<Reading>, pk: string): nat {
    if rs == [] then 0
    else TxMoved(rs[..|rs| - 1], pk) + TxMove(LastReading(NoReading, rs[..|rs| - 1]), rs[|rs| - 1], pk)
  }

  /** The part of it that falls into the buckets [lo, hi). */
  ghost function RxMovedIn(rs: seq<Reading>, pk: string, lo: int, hi: int): nat {
    if rs == [] then 0
    else
      var now := rs[|rs| - 1];
      RxMovedIn(rs[..|rs| - 1], pk, lo, hi)
      + if lo <= BucketOf(now.atMs) < hi then RxMove(LastReading(NoReading, rs[..|rs| - 1]), now, pk) else 0
  }

  ghost function TxMovedIn(rs: seq<Reading>, pk: string, lo: int, hi: int): nat {
    if rs == [] then 0
    else
      var now := rs[|rs| - 1];
      TxMovedIn(rs[..|rs| - 1], pk, lo, hi)
      + if lo <= BucketOf(now.atMs) < hi then TxMove(LastReading(NoReading, rs[..|rs| - 1]), now, pk) else 0
  }

  lemma {:induction false} OneStepBytes(prev: Reading, now: Reading, sum: Totals, pk: string)
    requires Recorded(prev, now)
    ensures var t := Plus(sum, One(SampleOf(prev, now)));
            && Get(t.rxBytes, pk) == Get(sum.rxBytes, pk) + RxMove(prev, now, pk)
            && Get(t.txBytes, pk) == Get(sum.txBytes, pk) + TxMove(prev, now, pk)
  {
  }

  lemma {:induction false} HistorySnoc(rs: seq<Reading>)
    requires ClockTicks(rs) && |rs| > 1
    ensures Recorded(rs[|rs| - 2], rs[|rs| - 1])
    ensures HistoryOf(NoReading, rs) == HistoryOf(NoReading, rs[..|rs| - 1]) + [SampleOf(rs[|rs| - 2], rs[|rs| - 1])]
  {
  }

  lemma {:induction false} HistoryOfOne(r: Reading)
    ensures HistoryOf(NoReading, [r]) == []
  {
  }

  /** For every run and every peer, whether or not it was there all the time: the bytes of all
      samples add up to its counter increases between consecutive readings. */
  lemma {:induction false} BytesConserved(rs: seq<Reading>, pk: string)
    ensures Get(Sum(HistoryOf(NoReading, rs)).rxBytes, pk) == RxMoved(rs, pk)
    ensures Get(Sum(HistoryOf(NoReading, rs)).txBytes, pk) == TxMoved(rs, pk)
  {
    if rs != [] {
      hide Sum, Plus, One, SampleOf;
      var init, now := rs[..|rs| - 1], rs[|rs| - 1];
      var prev, h := LastReading(NoReading, init), HistoryOf(NoReading, init);
      BytesConserved(init, pk);
      if Recorded(prev, now) {
        SumSnoc(h, SampleOf(prev, now));
        OneStepBytes(prev, now, Sum(h), pk);
      } else {
        assert h + [] == h;
      }
    } else {
      NothingMoved(pk);
    }
  }

  lemma {:induction false} NothingMoved(pk: string)
    ensures Get(Sum([]).rxBytes, pk) == 0 == Get(Sum([]).txBytes, pk)
  {
  }

  /** The same for the samples of any window of buckets. */
  lemma {:induction false} WindowBytesConserved(rs: seq<Reading>, pk: string, lo: int, hi: int)
    ensures Get(Sum(Within(HistoryOf(NoReading, rs), lo, hi)).rxBytes, pk) == RxMovedIn(rs, pk, lo, hi)
    ensures Get(Sum(Within(HistoryOf(NoReading, rs), lo, hi)).txBytes, pk) == TxMovedIn(rs, pk, lo, hi)
  {
    if rs != [] {
      hide Sum, Within, RxMove, TxMove, BucketOf, Get, NewSamples;
      WindowBytesConserved(rs[..|rs| - 1], pk, lo, hi);
      OneReadingInWindow(HistoryOf(NoReading, rs[..|rs| - 1]), LastReading(NoReading, rs[..|rs| - 1]), rs[|rs| - 1], pk, lo, hi);
    } else {
      NothingMoved(pk);
      WithinMembers([], lo, hi);
    }
  }

  lemma {:induction false} OneReadingInWindow(h: History, prev: Reading, now: Reading, pk: string, lo: int, hi: int)
    ensures var w, w' := Sum(Within(h, lo, hi)), Sum(Within(h + NewSamples(prev, now), lo, hi));
            var inside := lo <= BucketOf(now.atMs) < hi;
            && Get(w'.rxBytes, pk) == Get(w.rxBytes, pk) + (if inside then RxMove(prev, now, pk) else 0)
            && Get(w'.txBytes, pk) == Get(w.txBytes, pk) + (if inside then TxMove(prev, now, pk) else 0)
  {
    hide Sum, Plus, One, Within, BucketOf, Get, RxSteps, TxSteps, Rate;
    if Recorded(prev, now) {
      var s := SampleOf(prev, now);
      WithinSnoc(h, s, lo, hi);
      SumSnoc(Within(h, lo, hi), s);
      OneStepBytes(prev, now, Sum(Within(h, lo, hi)), pk);
      assert Within(h, lo, hi) + [] == Within(h, lo, hi);
    } else {
      assert h + [] == h;
    }
  }

  lemma {:induction false} WithinSnoc(h: History, s: Sample, lo: int, hi: int)
    ensures Within(h + [s], lo, hi) == Within(h, lo, hi) + if lo <= s.bid < hi then [s] else []
  {
    assert (h + [s])[..|h|] == h;
  }

  /** The peer is in all readings from i to j, the clock ticks between them, and its counters
      never go down. */
  ghost predicate Steady(rs: seq<Reading>, pk: string, i: nat, j: nat) {
    && i <= j < |rs|
    && (forall k :: i <= k <= j ==> pk in rs[k].peers && rs[k].atMs != 0)
    && (forall k, l :: i <= k < l <= j ==>
          rs[k].atMs < rs[l].atMs && rs[k].peers[pk].rx <= rs[l].peers[pk].rx && rs[k].peers[pk].tx <= rs[l].peers[pk].tx)
  }

  /** Over such a stretch of any run, what is added telescopes to the counter difference. */
  lemma {:induction false} MovesTelescope(rs: seq<Reading>, pk: string, i: nat, j: nat)
    requires Steady(rs, pk, i, j)
    ensures RxMoved(rs[..j + 1], pk) == RxMoved(rs[..i + 1], pk) + rs[j].peers[pk].rx - rs[i].peers[pk].rx
    ensures TxMoved(rs[..j + 1], pk) == TxMoved(rs[..i + 1], pk) + rs[j].peers[pk].tx - rs[i].peers[pk].tx
  {
    if i < j {
      MovesTelescope(rs, pk, i, j - 1);
      assert rs[..j + 1][..j] == rs[..j];
    }
  }

  /** The same within a window that holds the buckets of all readings after i, for a peer
      first seen in reading i. */
  lemma {:induction false} MovesInWindowTelescope(rs: seq<Reading>, pk: string, i: nat, j: nat, lo: int, hi: int)
    requires Steady(rs, pk, i, j) && forall k :: 0 <= k < i ==> pk !in rs[k].peers
    requires forall k :: i < k <= j ==> lo <= BucketOf(rs[k].atMs) < hi
    ensures RxMovedIn(rs[..j + 1], pk, lo, hi) == rs[j].peers[pk].rx - rs[i].peers[pk].rx
    ensures TxMovedIn(rs[..j + 1], pk, lo, hi) == rs[j].peers[pk].tx - rs[i].peers[pk].tx
  {
    hide BucketOf;
    assert rs[..j + 1][..j] == rs[..j];
    if i < j {
      MovesInWindowTelescope(rs, pk, i, j - 1, lo, hi);
    } else {
      NotYetSeen(rs[..i], pk, lo, hi);
    }
  }

  lemma {:induction false} NotYetSeen(rs: seq<Reading>, pk: string, lo: int, hi: int)
    requires forall k :: 0 <= k < |rs| ==> pk !in rs[k].peers
    ensures RxMovedIn(rs, pk, lo, hi) == 0 == TxMovedIn(rs, pk, lo, hi)
  {
    if rs != [] {
      NotYetSeen(rs[..|rs| - 1], pk, lo, hi);
    }
  }
}
