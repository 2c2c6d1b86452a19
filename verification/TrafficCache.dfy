/** handler/wg_traffic_cache.go: the cache itself, with its per-bucket arrays updated in place. */
module TrafficCache {
  import opened TrafficHistory
  import opened TrafficRing
  import opened TrafficSeries
  import opened TrafficResponse
  import opened TrafficSnapshot
  import opened PeerRanking

  /** A positive step is added to the peer's bytes; a step back counts nothing. */
  function WithStep(m: ByteMap, pk: string, delta: int): ByteMap {
    if delta > 0 then m[pk := Get(m, pk) + delta] else m
  }

  /** The peer loop of a refresh: visiting one more peer adds its step, if it went up. */
  lemma {:induction false} RxStepsVisit(base: ByteMap, prev: Peers, now: Peers, todo: set<string>, pk: string)
    requires pk in todo && todo <= now.Keys
    ensures Merge(base, RxSteps(prev, now - (todo - {pk})))
         == WithStep(Merge(base, RxSteps(prev, now - todo)), pk, if pk in prev then now[pk].rx - prev[pk].rx else 0)
  {
    var d, delta := RxSteps(prev, now - todo), if pk in prev then now[pk].rx - prev[pk].rx else 0;
    assert RxSteps(prev, now - (todo - {pk})) == WithStep(d, pk, delta);
    MergeWithStep(base, d, pk, delta);
  }

  lemma {:induction false} TxStepsVisit(base: ByteMap, prev: Peers, now: Peers, todo: set<string>, pk: string)
    requires pk in todo && todo <= now.Keys
    ensures Merge(base, TxSteps(prev, now - (todo - {pk})))
         == WithStep(Merge(base, TxSteps(prev, now - todo)), pk, if pk in prev then now[pk].tx - prev[pk].tx else 0)
  {
    var d, delta := TxSteps(prev, now - todo), if pk in prev then now[pk].tx - prev[pk].tx else 0;
    assert TxSteps(prev, now - (todo - {pk})) == WithStep(d, pk, delta);
    MergeWithStep(base, d, pk, delta);
  }

  lemma {:induction false} MergeWithStep(base: ByteMap, d: ByteMap, pk: string, delta: int)
    requires pk !in d
    ensures Merge(base, WithStep(d, pk, delta)) == WithStep(Merge(base, d), pk, delta)
  {
  }

  lemma {:induction false} NothingVisited(rx: ByteMap, tx: ByteMap, prev: Peers, now: Peers)
    ensures Merge(rx, RxSteps(prev, now - now.Keys)) == rx
    ensures Merge(tx, TxSteps(prev, now - now.Keys)) == tx
  {
  }

  ghost predicate OthersKept(a: array<ByteMap>, was: seq<ByteMap>, idx: nat)
    requires |was| == a.Length
    reads a
  {
    forall i :: 0 <= i < a.Length && i != idx ==> a[i] == was[i]
  }

  lemma {:induction false} QuotientSign(delta: int, dtMs: int)
    requires dtMs > 0
    ensures var q := delta as real / (dtMs as real / 1000.0); if delta < 0 then q < 0.0 else q == Rate(delta, dtMs)
  {
  }

  class TrafficCache {
    const baseBucketID: array<int>
    const rxSumBps: array<real>
    const rxCount: array<nat>
    const txSumBps: array<real>
    const txCount: array<nat>
    const txMaxBps: array<real>
    const peerRxBytes: array<ByteMap>
    const peerTxBytes: array<ByteMap>

    var prevAtMs: int
    var prevRx: int
    var prevTx: int
    var prevPeer: Peers
    var lastRxRate: real
    var lastTxRate: real
    var recentRx: seq<real>
    var recentTx: seq<real>
    var totalRxBytes: int
    var totalTxBytes: int
    var lastUpdateAtMs: int
    var hasDeltaSample: bool

    ghost predicate Valid() {
      && baseBucketID.Length == rxSumBps.Length == rxCount.Length == txSumBps.Length == SLOTS
      && txCount.Length == txMaxBps.Length == peerRxBytes.Length == peerTxBytes.Length == SLOTS
      && rxSumBps != txSumBps && rxSumBps != txMaxBps && txSumBps != txMaxBps
      && rxCount != txCount && peerRxBytes != peerTxBytes
    }

    function SlotAt(i: nat): Slot
      requires Valid() && i < SLOTS
      reads baseBucketID, rxSumBps, rxCount, txSumBps, txCount, txMaxBps, peerRxBytes, peerTxBytes
    {
      Slot(baseBucketID[i], Totals(rxSumBps[i], rxCount[i], txSumBps[i], txCount[i], txMaxBps[i], peerRxBytes[i], peerTxBytes[i]))
    }

    ghost function Slots(): Ring
      requires Valid()
      reads baseBucketID, rxSumBps, rxCount, txSumBps, txCount, txMaxBps, peerRxBytes, peerTxBytes
    {
      seq(SLOTS, i requires 0 <= i < SLOTS reads baseBucketID, rxSumBps, rxCount, txSumBps, txCount, txMaxBps, peerRxBytes, peerTxBytes => SlotAt(i))
    }

    ghost function Previous(): Reading
      reads this
    {
      Reading(prevAtMs, prevRx, prevTx, prevPeer)
    }

    /** The cache as a value. */
    ghost function View(): Cache
      requires Valid()
      reads this, baseBucketID, rxSumBps, rxCount, txSumBps, txCount, txMaxBps, peerRxBytes, peerTxBytes
    {
      Cache(Slots(), Previous(), lastRxRate, lastTxRate, recentRx, recentTx,
            totalRxBytes, totalTxBytes, lastUpdateAtMs, hasDeltaSample)
    }

    constructor ()
      ensures Valid() && View() == FreshCache
      ensures fresh(baseBucketID) && fresh(rxSumBps) && fresh(rxCount) && fresh(txSumBps)
      ensures fresh(txCount) && fresh(txMaxBps) && fresh(peerRxBytes) && fresh(peerTxBytes)
    {
      baseBucketID := new int[SLOTS](_ => 0);
      rxSumBps := new real[SLOTS](_ => 0.0);
      rxCount := new nat[SLOTS](_ => 0);
      txSumBps := new real[SLOTS](_ => 0.0);
      txCount := new nat[SLOTS](_ => 0);
      txMaxBps := new real[SLOTS](_ => 0.0);
      peerRxBytes := new ByteMap[SLOTS](_ => map[]);
      peerTxBytes := new ByteMap[SLOTS](_ => map[]);
      prevAtMs, prevRx, prevTx, prevPeer := 0, 0, 0, map[];
      lastRxRate, lastTxRate, recentRx, recentTx := 0.0, 0.0, [], [];
      totalRxBytes, totalTxBytes, lastUpdateAtMs, hasDeltaSample := 0, 0, 0, false;
      new;
      assert Slots() == FreshRing();
    }

    /** Go's remainder takes the sign of the dividend, hence the correction. */
    method IdxFor(bucketID: int) returns (idx: nat)
      ensures idx == Idx(bucketID)
    {
      var mod := if bucketID >= 0 then bucketID % SLOTS else -(-bucketID % SLOTS);
      if mod < 0 {
        mod := mod + SLOTS;
      }
      idx := mod;
    }

    method ResetBucket(idx: nat, bucketID: int)
      requires Valid() && idx < SLOTS
      modifies baseBucketID, rxSumBps, rxCount, txSumBps, txCount, txMaxBps, peerRxBytes, peerTxBytes
      ensures SlotAt(idx) == Slot(bucketID, Zero)
      ensures forall i :: 0 <= i < SLOTS && i != idx ==> SlotAt(i) == old(SlotAt(i))
    {
      baseBucketID[idx] := bucketID;
      rxSumBps[idx] := 0.0;
      rxCount[idx] := 0;
      txSumBps[idx] := 0.0;
      txCount[idx] := 0;
      txMaxBps[idx] := 0.0;
      peerRxBytes[idx] := map[];
      peerTxBytes[idx] := map[];
    }

    /** The per-peer part of a refresh; the map is walked in any order. */
    method AddPeerSteps(idx: nat, peers: Peers)
      requires Valid() && idx < SLOTS
      modifies peerRxBytes, peerTxBytes
      ensures peerRxBytes[idx] == Merge(old(peerRxBytes[idx]), RxSteps(prevPeer, peers))
      ensures peerTxBytes[idx] == Merge(old(peerTxBytes[idx]), TxSteps(prevPeer, peers))
      ensures OthersKept(peerRxBytes, old(peerRxBytes[..]), idx) && OthersKept(peerTxBytes, old(peerTxBytes[..]), idx)
    {
      ghost var rx0, tx0 := peerRxBytes[idx], peerTxBytes[idx];
      var todo := peers.Keys;
      NothingVisited(rx0, tx0, prevPeer, peers);
      hide Merge, RxSteps, TxSteps, Get;
      while todo != {}
        invariant todo <= peers.Keys
        invariant peerRxBytes[idx] == Merge(rx0, RxSteps(prevPeer, peers - todo))
        invariant peerTxBytes[idx] == Merge(tx0, TxSteps(prevPeer, peers - todo))
        invariant OthersKept(peerRxBytes, old(peerRxBytes[..]), idx) && OthersKept(peerTxBytes, old(peerTxBytes[..]), idx)
        decreases todo
      {
        var pk :| pk in todo;
        RxStepsVisit(rx0, prevPeer, peers, todo, pk);
        TxStepsVisit(tx0, prevPeer, peers, todo, pk);
        if pk in prevPeer {
          AddStep(peerRxBytes, idx, pk, peers[pk].rx - prevPeer[pk].rx);
          AddStep(peerTxBytes, idx, pk, peers[pk].tx - prevPeer[pk].tx);
        }
        todo := todo - {pk};
      }
      assert peers - todo == peers;
    }

    static method AddStep(a: array<ByteMap>, idx: nat, pk: string, delta: int)
      requires idx < a.Length
      modifies a
      ensures a[idx] == WithStep(old(a[idx]), pk, delta)
      ensures forall i :: 0 <= i < a.Length && i != idx ==> a[i] == old(a[i])
    {
      if delta > 0 {
        a[idx] := a[idx][pk := Get(a[idx], pk) + delta];
      }
    }

    method ClampedRate(delta: int, dtMs: int) returns (rate: real)
      requires dtMs > 0
      ensures rate == Rate(delta, dtMs)
    {
      rate := delta as real / (dtMs as real / 1000.0);
      QuotientSign(delta, dtMs);
      if rate < 0.0 {
        rate := 0.0;
      }
    }

    /** The rate sums of one slot. */
    method AddRates(idx: nat, rxRate: real, txRate: real)
      requires Valid() && idx < SLOTS
      modifies rxSumBps, rxCount, txSumBps, txCount, txMaxBps
      ensures var d := old(SlotAt(idx)).data;
              SlotAt(idx) == Slot(old(SlotAt(idx)).id, Totals(d.rxSum + rxRate, d.rxCount + 1, d.txSum + txRate, d.txCount + 1, Max(d.txMax, txRate), d.rxBytes, d.txBytes))
      ensures forall i :: 0 <= i < SLOTS && i != idx ==> SlotAt(i) == old(SlotAt(i))
    {
      rxSumBps[idx] := rxSumBps[idx] + rxRate;
      rxCount[idx] := rxCount[idx] + 1;
      txSumBps[idx] := txSumBps[idx] + txRate;
      txCount[idx] := txCount[idx] + 1;
      if txRate > txMaxBps[idx] {
        txMaxBps[idx] := txRate;
      }
    }

    /** Stores one sample in the slot of its bucket. */
    method StoreSample(bid: int, rxRate: real, txRate: real, peers: Peers)
      requires Valid()
      modifies baseBucketID, rxSumBps, rxCount, txSumBps, txCount, txMaxBps, peerRxBytes, peerTxBytes
      ensures Slots() == Store(old(Slots()), Sample(bid, rxRate, txRate, RxSteps(prevPeer, peers), TxSteps(prevPeer, peers)))
    {
      hide Merge, RxSteps, TxSteps, Max;
      var idx := IdxFor(bid);
      ghost var was := Slots();
      if baseBucketID[idx] != bid {
        ResetBucket(idx, bid);
      }
      AddRates(idx, rxRate, txRate);
      AddPeerSteps(idx, peers);
      ghost var s := Sample(bid, rxRate, txRate, RxSteps(prevPeer, peers), TxSteps(prevPeer, peers));
      assert SlotAt(idx) == Store(was, s)[idx];
      forall i | 0 <= i < SLOTS && i != idx ensures SlotAt(i) == was[i] {
      }
    }

    /** The part of a refresh that needs a previous reading. */
    method RecordDelta(r: Reading)
      requires Valid() && Recorded(Previous(), r)
      modifies this`lastRxRate, this`lastTxRate, this`recentRx, this`recentTx, this`hasDeltaSample, baseBucketID, rxSumBps, rxCount, txSumBps, txCount, txMaxBps, peerRxBytes, peerTxBytes
      ensures var s := SampleOf(Previous(), r);
              && Slots() == Store(old(Slots()), s)
              && lastRxRate == s.rxRate && lastTxRate == s.txRate && hasDeltaSample
              && recentRx == AppendRecent(old(recentRx), s.rxRate) && recentTx == AppendRecent(old(recentTx), s.txRate)
    {
      hide Store, RxSteps, TxSteps, Rate, AppendRecent, BucketOf, Slots, SlotAt;
      var dtMs := r.atMs - prevAtMs;
      var rxRate := ClampedRate(r.rx - prevRx, dtMs);
      var txRate := ClampedRate(r.tx - prevTx, dtMs);
      RememberRates(rxRate, txRate);
      StoreSample(BucketOf(r.atMs), rxRate, txRate, r.peers);
      hasDeltaSample := true;
    }

    method RememberRates(rxRate: real, txRate: real)
      modifies this`lastRxRate, this`lastTxRate, this`recentRx, this`recentTx
      ensures lastRxRate == rxRate && lastTxRate == txRate
      ensures recentRx == AppendRecent(old(recentRx), rxRate) && recentTx == AppendRecent(old(recentTx), txRate)
    {
      lastRxRate := rxRate;
      lastTxRate := txRate;
      recentTx := AppendRecent(recentTx, txRate);
      recentRx := AppendRecent(recentRx, rxRate);
    }

    /** What every refresh leaves behind for the next one. */
    method Remember(r: Reading)
      modifies this`prevAtMs, this`prevRx, this`prevTx, this`prevPeer, this`totalRxBytes, this`totalTxBytes, this`lastUpdateAtMs
      ensures Previous() == r && totalRxBytes == r.rx && totalTxBytes == r.tx && lastUpdateAtMs == r.atMs
    {
      totalRxBytes := r.rx;
      totalTxBytes := r.tx;
      prevAtMs := r.atMs;
      prevRx := r.rx;
      prevTx := r.tx;
      prevPeer := r.peers;
      lastUpdateAtMs := r.atMs;
    }

    /** One refresh with the counters just read from the kernel. */
    method RefreshOnce(r: Reading)
      requires Valid()
      modifies this, baseBucketID, rxSumBps, rxCount, txSumBps, txCount, txMaxBps, peerRxBytes, peerTxBytes
      ensures View() == Refresh(old(View()), r)
    {
      hide Store, SampleOf, AppendRecent, Slots, SlotAt;
      if prevAtMs != 0 && r.atMs - prevAtMs > 0 {
        RecordDelta(r);
      }
      Remember(r);
    }

    // ----- snapshots

    /** trafficCacheToSnapshotLocked. */
    method ToSnapshot() returns (s: Snapshot)
      requires Valid()
      ensures s == SnapshotOf(View())
    {
      s := Snapshot(SNAPSHOT_VERSION, BUCKET_MS, SLOTS,
                    baseBucketID[..], rxSumBps[..], rxCount[..], txSumBps[..], txCount[..], txMaxBps[..],
                    peerRxBytes[..], peerTxBytes[..],
                    lastRxRate, lastTxRate, recentRx, recentTx, totalRxBytes, totalTxBytes, lastUpdateAtMs, hasDeltaSample);
      ghost var w := SnapshotOf(View());
      assert s.ids == w.ids && s.rxSum == w.rxSum && s.rxCount == w.rxCount && s.txSum == w.txSum;
      assert s.txCount == w.txCount && s.txMax == w.txMax && s.peerRx == w.peerRx && s.peerTx == w.peerTx;
    }

    method CopyArrays(s: Snapshot)
      requires Valid() && Acceptable(s)
      modifies baseBucketID, rxSumBps, rxCount, txSumBps, txCount, txMaxBps, peerRxBytes, peerTxBytes
      ensures forall i :: 0 <= i < SLOTS ==> SlotAt(i) == SlotOf(s, i)
    {
      for i := 0 to SLOTS
        invariant forall k :: 0 <= k < i ==> SlotAt(k) == SlotOf(s, k)
      {
        baseBucketID[i] := s.ids[i];
        rxSumBps[i], rxCount[i] := s.rxSum[i], s.rxCount[i];
        txSumBps[i], txCount[i], txMaxBps[i] := s.txSum[i], s.txCount[i], s.txMax[i];
        peerRxBytes[i], peerTxBytes[i] := MapAt(s.peerRx, i), MapAt(s.peerTx, i);
      }
    }

    /** applySnapshot. */
    method ApplySnapshot(s: Snapshot)
      requires Valid()
      modifies this, baseBucketID, rxSumBps, rxCount, txSumBps, txCount, txMaxBps, peerRxBytes, peerTxBytes
      ensures View() == Restored(old(View()), s)
    {
      if !Acceptable(s) {
        return;
      }
      CopyArrays(s);
      assert Slots() == Restored(old(View()), s).ring;
      hide Slots, SlotAt, SlotOf, Acceptable;
      RestoreScalars(s);
    }

    /** Everything but the ring; the previous reading is forgotten. */
    method RestoreScalars(s: Snapshot)
      modifies this
      ensures Previous() == NoReading && lastRxRate == s.lastRx && lastTxRate == s.lastTx
      ensures recentRx == LastRecent(s.recentRx) && recentTx == LastRecent(s.recentTx)
      ensures totalRxBytes == s.totalRx && totalTxBytes == s.totalTx
      ensures lastUpdateAtMs == s.lastUpdateAtMs && hasDeltaSample == s.hasDelta
    {
      lastRxRate, lastTxRate := s.lastRx, s.lastTx;
      recentRx, recentTx := LastRecent(s.recentRx), LastRecent(s.recentTx);
      totalRxBytes, totalTxBytes := s.totalRx, s.totalTx;
      lastUpdateAtMs, hasDeltaSample := s.lastUpdateAtMs, s.hasDelta;
      prevAtMs, prevRx, prevTx, prevPeer := 0, 0, 0, map[];
    }

    // ----- building a response

    /** Adds a slot's RX bytes to per-peer totals. */
    static method AddRx(acc: Peers, m: ByteMap) returns (r: Peers)
      ensures r == PlusRx(acc, m)
    {
      r := acc;
      var todo := m.Keys;
      while todo != {}
        invariant todo <= m.Keys
        invariant r == PlusRx(acc, m - todo)
        decreases todo
      {
        hide PlusRx;
        var pk :| pk in todo;
        OneMoreRx(acc, m, todo, pk);
        r := r[pk := Counters(RxOf(r, pk) + m[pk], TxOf(r, pk))];
        todo := todo - {pk};
      }
      assert m - todo == m;
    }

    static method AddTx(acc: Peers, m: ByteMap) returns (r: Peers)
      ensures r == PlusTx(acc, m)
    {
      r := acc;
      var todo := m.Keys;
      while todo != {}
        invariant todo <= m.Keys
        invariant r == PlusTx(acc, m - todo)
        decreases todo
      {
        hide PlusTx;
        var pk :| pk in todo;
        OneMoreTx(acc, m, todo, pk);
        r := r[pk := Counters(RxOf(r, pk), TxOf(r, pk) + m[pk])];
        todo := todo - {pk};
      }
      assert m - todo == m;
    }

    lemma {:induction false} ReadSlot(bid: int)
      requires Valid()
      ensures Read(Slots(), bid) == if baseBucketID[Idx(bid)] == bid then SlotAt(Idx(bid)).data else Zero
    {
    }

    /** One bucket of the inner loop, added to the bar sums t and the window sums w. */
    method AddBucket(bid: int, g: Group, peerTotals: Peers, ghost t: Totals, ghost w: Totals) returns (g': Group, peerTotals': Peers)
      requires Valid() && g.Sums(t) && peerTotals == PeersOf(w)
      ensures g'.Sums(Plus(t, Read(Slots(), bid)))
      ensures peerTotals' == PeersOf(Plus(w, Read(Slots(), bid)))
    {
      hide Slots, Read, PeersOf, Plus, SlotAt;
      var idx := IdxFor(bid);
      ReadSlot(bid);
      if baseBucketID[idx] != bid {
        AddsNothing(g, t);
        AddsNothing(g.(peers := peerTotals), w);
        return g, peerTotals;
      }
      g', peerTotals' := AddSlot(idx, g, peerTotals, t, w);
    }

    method AddSlot(idx: nat, g: Group, peerTotals: Peers, ghost t: Totals, ghost w: Totals) returns (g': Group, peerTotals': Peers)
      requires Valid() && idx < SLOTS && g.Sums(t) && peerTotals == PeersOf(w)
      ensures g'.Sums(Plus(t, SlotAt(idx).data)) && peerTotals' == PeersOf(Plus(w, SlotAt(idx).data))
    {
      hide PeersOf, PlusRx, PlusTx, Merge, Get, Max;
      var rx, tx := peerRxBytes[idx], peerTxBytes[idx];
      PeersOfPlus(t, SlotAt(idx).data);
      PeersOfPlus(w, SlotAt(idx).data);
      var peers := AddRx(g.peers, rx);
      peers := AddTx(peers, tx);
      peerTotals' := AddRx(peerTotals, rx);
      peerTotals' := AddTx(peerTotals', tx);
      g' := Group(g.rxSum + rxSumBps[idx], g.rxCount + rxCount[idx], g.txSum + txSumBps[idx], g.txCount + txCount[idx], peers);
    }

    /** The inner loop: one group of buckets, added up for its bar and into the window totals. */
    method AddGroup(start: int, done: nat, group: nat, peerTotals: Peers) returns (g: Group, peerTotals': Peers)
      requires Valid() && peerTotals == PeersOf(ReadWindow(Slots(), start, done))
      ensures g.Sums(ReadWindow(Slots(), start + done, group))
      ensures peerTotals' == PeersOf(ReadWindow(Slots(), start, done + group))
    {
      NothingSummed();
      hide Slots, Plus, Read, PeersOf;
      g := Group(0.0, 0, 0.0, 0, map[]);
      peerTotals' := peerTotals;
      for k := 0 to group
        invariant g.Sums(ReadWindow(Slots(), start + done, k))
        invariant peerTotals' == PeersOf(ReadWindow(Slots(), start, done + k))
      {
        g, peerTotals' := AddBucket(start + done + k, g, peerTotals',
                                    ReadWindow(Slots(), start + done, k), ReadWindow(Slots(), start, done + k));
      }
    }

    /** The peer that moved the most bytes; ties fall to whichever the map yields first. */
    static method TopPeer(peers: Peers, rxAvg: real, txAvg: real) returns (b: Bar)
      ensures IsTop(b, peers) && b.rxAvg == rxAvg && b.txAvg == txAvg
    {
      b := Bar(rxAvg, txAvg, "", 0, 0);
      var todo := peers.Keys;
      while todo != {}
        invariant todo <= peers.Keys
        invariant IsTop(b, peers - todo) && b.rxAvg == rxAvg && b.txAvg == txAvg
        decreases todo
      {
        var pk :| pk in todo;
        assert forall k :: k in peers - (todo - {pk}) ==> k == pk || k in peers - todo;
        if peers[pk].rx + peers[pk].tx > b.topRx + b.topTx {
          b := Bar(rxAvg, txAvg, pk, peers[pk].rx, peers[pk].tx);
        }
        todo := todo - {pk};
      }
      assert peers - todo == peers;
    }

    static method MakeBar(g: Group, ghost t: Totals) returns (b: Bar)
      requires g.Sums(t)
      ensures IsBar(b, t)
    {
      b := TopPeer(g.peers, Average(g.rxSum, g.rxCount), Average(g.txSum, g.txCount));
    }

    /** All bars of the window, with the per-peer totals of the whole window. */
    method BuildBars(start: int, cfg: Cfg) returns (bars: seq<Bar>, peerTotals: Peers)
      requires Valid()
      ensures |bars| == cfg.display && forall i :: 0 <= i < cfg.display ==> IsBar(bars[i], BarWindow(Slots(), start, cfg.group, i))
      ensures peerTotals == PeersOf(ReadWindow(Slots(), start, cfg.display * cfg.group))
    {
      hide IsBar, PeersOf, ReadWindow, Slots, BarWindow;
      NothingRead(Slots(), start);
      bars, peerTotals := [], map[];
      for i := 0 to cfg.display
        invariant |bars| == i
        invariant forall k :: 0 <= k < i ==> IsBar(bars[k], BarWindow(Slots(), start, cfg.group, k))
        invariant peerTotals == PeersOf(ReadWindow(Slots(), start, i * cfg.group))
      {
        var bar;
        bar, peerTotals := NextBar(start, i, cfg.group, peerTotals);
        bars := bars + [bar];
      }
    }

    /** One round of the outer loop. */
    method NextBar(start: int, i: nat, group: nat, peerTotals: Peers) returns (bar: Bar, peerTotals': Peers)
      requires Valid() && peerTotals == PeersOf(ReadWindow(Slots(), start, i * group))
      ensures IsBar(bar, BarWindow(Slots(), start, group, i))
      ensures peerTotals' == PeersOf(ReadWindow(Slots(), start, (i + 1) * group))
    {
      hide IsBar, PeersOf, ReadWindow, Slots;
      assert i * group + group == (i + 1) * group;
      var g;
      g, peerTotals' := AddGroup(start, i * group, group, peerTotals);
      bar := MakeBar(g, BarWindow(Slots(), start, group, i));
    }

    static method ChartMax(bars: seq<Bar>) returns (m: real)
      ensures IsChartMax(m, bars)
    {
      m := 0.0;
      for i := 0 to |bars|
        invariant m >= 0.0
        invariant forall k :: 0 <= k < i ==> bars[k].rxAvg + bars[k].txAvg <= m
        invariant m > 0.0 ==> exists k :: 0 <= k < i && bars[k].rxAvg + bars[k].txAvg == m
      {
        var total := bars[i].rxAvg + bars[i].txAvg;
        if total > m {
          m := total;
        }
      }
      if m <= 0.0 {
        m := 1.0;
      }
    }

    static method MaxRate(s: seq<real>) returns (m: real)
      ensures IsMaxOf(m, s)
    {
      m := 0.0;
      for i := 0 to |s|
        invariant IsMaxOf(m, s[..i])
      {
        assert s[..i + 1] == s[..i] + [s[i]];
        if s[i] > m {
          m := s[i];
        }
      }
      assert s[..|s|] == s;
    }

    /** The peak scan over the last 48 buckets. */
    method ScanPeak(currentBid: int) returns (peak: real)
      requires Valid()
      ensures peak == PeakScan(Slots(), currentBid - 47, 48)
    {
      var first := currentBid - 47;
      peak := 0.0;
      for k := 0 to 48
        invariant peak == PeakScan(Slots(), first, k)
      {
        hide Slots, Read;
        ReadSlot(first + k);
        var idx := IdxFor(first + k);
        if baseBucketID[idx] == first + k {
          var sample := txMaxBps[idx];
          if sample <= 0.0 && txCount[idx] > 0 {
            sample := txSumBps[idx] / txCount[idx] as real;
          }
          if Mbps(sample) > peak {
            peak := Mbps(sample);
          }
        }
      }
    }

    /** buildSeries. */
    method BuildSeries(nowMs: int, r: Range) returns (s: Series)
      requires Valid()
      ensures IsRingSeries(s, View(), nowMs, r)
      ensures nowMs >= 0 && (r == Range24h || r == OtherRange) ==> s.range == Range24h && RingSlices(s, Slots(), nowMs / 1_800_000 - 47, 1, 48)
      ensures nowMs >= 0 && r == Range7d ==> s.range == Range7d && RingSlices(s, Slots(), nowMs / 1_800_000 - 335, 6, 56)
      ensures nowMs >= 0 && r == Range30d ==> s.range == Range30d && RingSlices(s, Slots(), nowMs / 1_800_000 - 1439, 24, 60)
    {
      hide IsBar, IsRanking, IsChartMax, IsMaxOf, PeakScan, ReadWindow, PeersOf, Slots, PeakOr, BucketOf;
      var cfg := RangeCfg(r);
      var start := StartBucket(nowMs, r);
      var bars, totals := BuildBars(start, cfg);
      BarsTileWindow(r);
      var peerTotals := RankPeers(totals);
      var currentTotals := RankPeers(prevPeer);
      var maxTotal := ChartMax(bars);
      var rxRecent := MaxRate(recentRx);
      var txRecent := MaxRate(recentTx);
      var peak := ScanPeak(BucketOf(nowMs));
      s := Series(EffectiveRange(r), bars, peerTotals, currentTotals, maxTotal, lastRxRate, lastTxRate,
                  rxRecent, txRecent, totalRxBytes, totalTxBytes, PeakOr(peak, lastTxRate));
      if nowMs >= 0 {
        hide IsRingSeries, RingSlices;
        BucketsRead(s, View(), nowMs, r);
      }
    }
  }

  function RxOf(m: Peers, pk: string): int {
    if pk in m then m[pk].rx else 0
  }

  function TxOf(m: Peers, pk: string): int {
    if pk in m then m[pk].tx else 0
  }

  function PlusRx(acc: Peers, m: ByteMap): Peers {
    map pk | pk in acc.Keys + m.Keys :: Counters(RxOf(acc, pk) + Get(m, pk), TxOf(acc, pk))
  }

  function PlusTx(acc: Peers, m: ByteMap): Peers {
    map pk | pk in acc.Keys + m.Keys :: Counters(RxOf(acc, pk), TxOf(acc, pk) + Get(m, pk))
  }

  lemma {:induction false} OneMoreRx(acc: Peers, m: ByteMap, todo: set<string>, pk: string)
    requires pk in todo && pk in m
    ensures var r := PlusRx(acc, m - todo);
            PlusRx(acc, m - (todo - {pk})) == r[pk := Counters(RxOf(r, pk) + m[pk], TxOf(r, pk))]
  {
  }

  lemma {:induction false} OneMoreTx(acc: Peers, m: ByteMap, todo: set<string>, pk: string)
    requires pk in todo && pk in m
    ensures var r := PlusTx(acc, m - todo);
            PlusTx(acc, m - (todo - {pk})) == r[pk := Counters(RxOf(r, pk), TxOf(r, pk) + m[pk])]
  {
  }

  /** Adding a slot to the sums adds its two maps to the peers. */
  lemma {:induction false} PeersOfPlus(t: Totals, slot: Totals)
    ensures PeersOf(Plus(t, slot)) == PlusTx(PlusRx(PeersOf(t), slot.rxBytes), slot.txBytes)
  {
    PairUpMerge(t.rxBytes, t.txBytes, slot.rxBytes, slot.txBytes);
  }

  lemma {:induction false} PairUpMerge(a: ByteMap, b: ByteMap, c: ByteMap, d: ByteMap)
    ensures PairUp(Merge(a, c), Merge(b, d)) == PlusTx(PlusRx(PairUp(a, b), c), d)
  {
    forall pk
      ensures SameAt(PairUp(Merge(a, c), Merge(b, d)), PlusTx(PlusRx(PairUp(a, b), c), d), pk)
    {
      PairUpMergeAt(a, b, c, d, pk);
    }
    SamePeers(PairUp(Merge(a, c), Merge(b, d)), PlusTx(PlusRx(PairUp(a, b), c), d));
  }

  ghost predicate SameAt(l: Peers, r: Peers, pk: string) {
    (pk in l <==> pk in r) && RxOf(l, pk) == RxOf(r, pk) && TxOf(l, pk) == TxOf(r, pk)
  }

  lemma {:induction false} SamePeers(l: Peers, r: Peers)
    requires forall pk :: SameAt(l, r, pk)
    ensures l == r
  {
    assert forall pk :: SameAt(l, r, pk) ==> (pk in l <==> pk in r);
    forall pk | pk in l ensures l[pk] == r[pk] {
      assert SameAt(l, r, pk);
    }
  }

  lemma {:induction false} PairUpMergeAt(a: ByteMap, b: ByteMap, c: ByteMap, d: ByteMap, pk: string)
    ensures SameAt(PairUp(Merge(a, c), Merge(b, d)), PlusTx(PlusRx(PairUp(a, b), c), d), pk)
  {
    hide PairUp, Merge, PlusRx, PlusTx, Get, RxOf, TxOf;
    MergeAt(a, c, pk);
    MergeAt(b, d, pk);
    PairUpAt(a, b, pk);
    PairUpAt(Merge(a, c), Merge(b, d), pk);
    PlusAt(PairUp(a, b), c, pk);
    PlusAt(PlusRx(PairUp(a, b), c), d, pk);
  }

  lemma {:induction false} MergeAt(a: ByteMap, b: ByteMap, pk: string)
    ensures Get(Merge(a, b), pk) == Get(a, pk) + Get(b, pk)
    ensures pk in Merge(a, b) <==> pk in a || pk in b
  {
  }

  lemma {:induction false} PairUpAt(a: ByteMap, b: ByteMap, pk: string)
    ensures RxOf(PairUp(a, b), pk) == Get(a, pk) && TxOf(PairUp(a, b), pk) == Get(b, pk)
    ensures pk in PairUp(a, b) <==> pk in a || pk in b
  {
  }

  lemma {:induction false} PlusAt(acc: Peers, m: ByteMap, pk: string)
    ensures RxOf(PlusRx(acc, m), pk) == RxOf(acc, pk) + Get(m, pk) && TxOf(PlusRx(acc, m), pk) == TxOf(acc, pk)
    ensures RxOf(PlusTx(acc, m), pk) == RxOf(acc, pk) && TxOf(PlusTx(acc, m), pk) == TxOf(acc, pk) + Get(m, pk)
    ensures pk in PlusRx(acc, m) <==> pk in acc || pk in m
    ensures pk in PlusTx(acc, m) <==> pk in acc || pk in m
  {
  }

  lemma {:induction false} NothingRead(ring: Ring, start: int)
    ensures PeersOf(ReadWindow(ring, start, 0)) == map[]
  {
  }

  lemma {:induction false} AddsNothing(g: Group, t: Totals)
    ensures PeersOf(Plus(t, Zero)) == PeersOf(t)
    ensures g.Sums(t) ==> g.Sums(Plus(t, Zero))
  {
  }

  lemma {:induction false} NothingSummed()
    ensures PeersOf(Zero) == map[]
  {
  }

  /** The running sums of one bar. */
  datatype Group = Group(rxSum: real, rxCount: nat, txSum: real, txCount: nat, peers: Peers) {
    ghost predicate Sums(t: Totals) {
      rxSum == t.rxSum && rxCount == t.rxCount && txSum == t.txSum && txCount == t.txCount && peers == PeersOf(t)
    }
  }
}
