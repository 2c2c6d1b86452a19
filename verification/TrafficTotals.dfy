/** Aggregate counters against per-peer counters: reading them from the kernel devices and
    conserving their sum through the samples. */
module TrafficTotals {
  import opened TrafficHistory

  /** The sum of a map's values, in no particular order. */
  ghost function ValueSum(m: ByteMap): int {
    if m == map[] then 0
    else
      var k :| k in m;
      m[k] + ValueSum(m - {k})
  }

  /** Any key may be taken out first. */
  lemma {:induction false} ValueSumPick(m: ByteMap, k: string)
    requires k in m
    ensures ValueSum(m) == m[k] + ValueSum(m - {k})
    decreases |m|
  {
    var j :| j in m && ValueSum(m) == m[j] + ValueSum(m - {j});
    if j != k {
      ValueSumPick(m - {j}, k);
      ValueSumPick(m - {k}, j);
      assert m - {j} - {k} == m - {k} - {j};
    }
  }

  lemma {:induction false} ValueSumUpdate(m: ByteMap, k: string, v: int)
    ensures ValueSum(m[k := v]) == ValueSum(m) - Get(m, k) + v
  {
    var m' := m[k := v];
    ValueSumPick(m', k);
    if k in m {
      ValueSumPick(m, k);
      assert m' - {k} == m - {k};
    } else {
      assert m' - {k} == m;
    }
  }

  lemma {:induction false} ValueSumMerge(a: ByteMap, b: ByteMap)
    ensures ValueSum(Merge(a, b)) == ValueSum(a) + ValueSum(b)
    decreases |b|
  {
    hide Merge, Get, ValueSum;
    if b == map[] {
      MergeEmpty(a);
    } else {
      var k :| k in b;
      var rest := b - {k};
      MergeOneMore(a, b, k);
      ValueSumMerge(a, rest);
      ValueSumPick(b, k);
      ValueSumUpdate(Merge(a, rest), k, Get(Merge(a, rest), k) + b[k]);
    }
  }

  lemma {:induction false} MergeEmpty(a: ByteMap)
    ensures Merge(a, map[]) == a && ValueSum(map[]) == 0
  {
  }

  lemma {:induction false} MergeOneMore(a: ByteMap, b: ByteMap, k: string)
    requires k in b
    ensures var before := Merge(a, b - {k}); Merge(a, b) == before[k := Get(before, k) + b[k]]
  {
  }

  // ----- reading the kernel

  datatype PeerRow = PeerRow(key: string, rx: int, tx: int)

  ghost function RxCounters(p: Peers): ByteMap {
    map k | k in p :: p[k].rx
  }

  ghost function TxCounters(p: Peers): ByteMap {
    map k | k in p :: p[k].tx
  }

  /** The aggregate is the sum over the peers. */
  ghost predicate Balanced(rx: int, tx: int, peers: Peers) {
    rx == ValueSum(RxCounters(peers)) && tx == ValueSum(TxCounters(peers))
  }

  /** The rows of all devices, in order. */
  ghost function Rows(devices: seq<seq<PeerRow>>): seq<PeerRow> {
    if devices == [] then [] else Rows(devices[..|devices| - 1]) + devices[|devices| - 1]
  }

  ghost function RxSum(rows: seq<PeerRow>): int {
    if rows == [] then 0 else RxSum(rows[..|rows| - 1]) + rows[|rows| - 1].rx
  }

  ghost function TxSum(rows: seq<PeerRow>): int {
    if rows == [] then 0 else TxSum(rows[..|rows| - 1]) + rows[|rows| - 1].tx
  }

  /** The rows of one peer. */
  ghost function RowsOf(rows: seq<PeerRow>, key: string): seq<PeerRow> {
    if rows == [] then []
    else RowsOf(rows[..|rows| - 1], key) + if rows[|rows| - 1].key == key then [rows[|rows| - 1]] else []
  }

  /** The aggregate is the sum over all rows, and each peer with a row has the sum over its own. */
  ghost predicate SumsUp(rx: int, tx: int, peers: Peers, rows: seq<PeerRow>) {
    && rx == RxSum(rows) && tx == TxSum(rows)
    && forall k :: PeerSumsUp(peers, rows, k)
  }

  ghost predicate PeerSumsUp(peers: Peers, rows: seq<PeerRow>, k: string) {
    && (k in peers <==> RowsOf(rows, k) != [])
    && (k in peers ==> peers[k] == Counters(RxSum(RowsOf(rows, k)), TxSum(RowsOf(rows, k))))
  }

  lemma {:induction false} OneMoreRow(rows: seq<PeerRow>, row: PeerRow, k: string)
    ensures RxSum(rows + [row]) == RxSum(rows) + row.rx && TxSum(rows + [row]) == TxSum(rows) + row.tx
    ensures RowsOf(rows + [row], k) == RowsOf(rows, k) + if row.key == k then [row] else []
  {
    assert (rows + [row])[..|rows|] == rows;
  }

  lemma {:induction false} NoRows()
    ensures SumsUp(0, 0, map[], []) && Balanced(0, 0, map[])
  {
    assert RxCounters(map[]) == map[] && TxCounters(map[]) == map[];
  }

  /** One row of one device. */
  method AddRow(rx: int, tx: int, peers: Peers, row: PeerRow, ghost rows: seq<PeerRow>) returns (rx': int, tx': int, peers': Peers)
    requires Balanced(rx, tx, peers) && SumsUp(rx, tx, peers, rows)
    ensures Balanced(rx', tx', peers') && SumsUp(rx', tx', peers', rows + [row])
  {
    hide Balanced, SumsUp, PeerSumsUp;
    rx', tx' := rx + row.rx, tx + row.tx;
    var p := if row.key in peers then peers[row.key] else Counters(0, 0);
    peers' := peers[row.key := Counters(p.rx + row.rx, p.tx + row.tx)];
    RowBalances(rx, tx, peers, row);
    RowTotals(rx, tx, peers, row, rows);
  }

  ghost function WithRow(peers: Peers, row: PeerRow): Peers {
    var p := if row.key in peers then peers[row.key] else Counters(0, 0);
    peers[row.key := Counters(p.rx + row.rx, p.tx + row.tx)]
  }

  lemma {:induction false} RowBalances(rx: int, tx: int, peers: Peers, row: PeerRow)
    requires Balanced(rx, tx, peers)
    ensures Balanced(rx + row.rx, tx + row.tx, WithRow(peers, row))
  {
    var peers' := WithRow(peers, row);
    ValueSumUpdate(RxCounters(peers), row.key, peers'[row.key].rx);
    ValueSumUpdate(TxCounters(peers), row.key, peers'[row.key].tx);
    hide ValueSum;
    assert RxCounters(peers') == RxCounters(peers)[row.key := peers'[row.key].rx];
    assert TxCounters(peers') == TxCounters(peers)[row.key := peers'[row.key].tx];
  }

  lemma {:induction false} RowTotals(rx: int, tx: int, peers: Peers, row: PeerRow, rows: seq<PeerRow>)
    requires SumsUp(rx, tx, peers, rows)
    ensures SumsUp(rx + row.rx, tx + row.tx, WithRow(peers, row), rows + [row])
  {
    hide PeerSumsUp, WithRow, RowsOf, RxSum, TxSum;
    OneMoreRow(rows, row, row.key);
    forall k ensures PeerSumsUp(WithRow(peers, row), rows + [row], k) {
      RowSumsAt(peers, row, rows, k);
    }
  }

  lemma {:induction false} RowSumsAt(peers: Peers, row: PeerRow, rows: seq<PeerRow>, k: string)
    requires PeerSumsUp(peers, rows, k)
    ensures PeerSumsUp(WithRow(peers, row), rows + [row], k)
  {
    NoRows();
    hide RowsOf, RxSum, TxSum;
    var own := RowsOf(rows, k);
    OneMoreRow(rows, row, k);
    OneMoreRow(own, row, k);
    assert own + [] == own && (own == [] ==> own + [row] != []);
  }

  /** The summing loops of readTotalsFromKernel: a key on several devices is added up, and the
      aggregate is also the sum over the peers. */
  method ReadTotals(devices: seq<seq<PeerRow>>) returns (rx: int, tx: int, peers: Peers)
    ensures SumsUp(rx, tx, peers, Rows(devices)) && Balanced(rx, tx, peers)
  {
    hide Balanced, SumsUp;
    rx, tx, peers := 0, 0, map[];
    NoRows();
    for i := 0 to |devices|
      invariant Balanced(rx, tx, peers) && SumsUp(rx, tx, peers, Rows(devices[..i]))
    {
      assert devices[..i + 1][..i] == devices[..i];
      ghost var before := Rows(devices[..i]);
      assert before + devices[i][..0] == before;
      for j := 0 to |devices[i]|
        invariant Balanced(rx, tx, peers) && SumsUp(rx, tx, peers, before + devices[i][..j])
      {
        rx, tx, peers := AddRow(rx, tx, peers, devices[i][j], before + devices[i][..j]);
        assert before + devices[i][..j] + [devices[i][j]] == before + devices[i][..j + 1];
      }
      assert devices[i][..|devices[i]|] == devices[i];
    }
    assert devices[..|devices|] == devices;
  }

  // ----- conservation of the aggregate

  /** The same peers in every reading, none of them reset, aggregates balanced. */
  ghost predicate SteadyPeers(rs: seq<Reading>) {
    && (forall i :: 0 <= i < |rs| ==> Balanced(rs[i].rx, rs[i].tx, rs[i].peers))
    && (forall i, j :: 0 <= i < j < |rs| ==> NoneReset(rs[i].peers, rs[j].peers))
  }

  ghost predicate NoneReset(prev: Peers, now: Peers) {
    prev.Keys == now.Keys && forall k :: k in now ==> prev[k].rx <= now[k].rx && prev[k].tx <= now[k].tx
  }

  /** Without resets the steps of all peers add up to the step of the sums. */
  lemma {:induction false} StepsBalance(prev: Peers, now: Peers)
    requires NoneReset(prev, now)
    ensures ValueSum(RxSteps(prev, now)) == ValueSum(RxCounters(now)) - ValueSum(RxCounters(prev))
    ensures ValueSum(TxSteps(prev, now)) == ValueSum(TxCounters(now)) - ValueSum(TxCounters(prev))
  {
    StepsAdd(RxCounters(prev), RxSteps(prev, now), RxCounters(now));
    StepsAdd(TxCounters(prev), TxSteps(prev, now), TxCounters(now));
  }

  lemma {:induction false} StepsAdd(a: ByteMap, d: ByteMap, b: ByteMap)
    requires d.Keys <= a.Keys == b.Keys && forall k :: k in b ==> b[k] == a[k] + Get(d, k)
    ensures ValueSum(d) == ValueSum(b) - ValueSum(a)
  {
    assert Merge(a, d) == b;
    ValueSumMerge(a, d);
  }

  /** All bytes attributed to peers over a run are the increase of the aggregate counter. */
  lemma {:induction false} AggregateConserved(rs: seq<Reading>)
    requires rs != [] && ClockTicks(rs) && SteadyPeers(rs)
    ensures ValueSum(Sum(HistoryOf(NoReading, rs)).rxBytes) == rs[|rs| - 1].rx - rs[0].rx
    ensures ValueSum(Sum(HistoryOf(NoReading, rs)).txBytes) == rs[|rs| - 1].tx - rs[0].tx
  {
    if |rs| == 1 {
      assert rs == [rs[0]];
      HistoryOfOne(rs[0]);
    } else {
      var init, prev, now := rs[..|rs| - 1], rs[|rs| - 2], rs[|rs| - 1];
      SteadyPrefix(rs);
      AggregateConserved(init);
      HistorySnoc(rs);
      hide ValueSum, Sum, HistoryOf, Plus, One, SampleOf;
      SumSnoc(HistoryOf(NoReading, init), SampleOf(prev, now));
      AggregateStep(Sum(HistoryOf(NoReading, init)), prev, now);
    }
  }

  lemma {:induction false} SteadyPrefix(rs: seq<Reading>)
    requires |rs| > 1 && ClockTicks(rs) && SteadyPeers(rs)
    ensures var init := rs[..|rs| - 1]; ClockTicks(init) && SteadyPeers(init)
  {
  }

  lemma {:induction false} AggregateStep(t: Totals, prev: Reading, now: Reading)
    requires Recorded(prev, now) && NoneReset(prev.peers, now.peers)
    requires Balanced(prev.rx, prev.tx, prev.peers) && Balanced(now.rx, now.tx, now.peers)
    ensures ValueSum(Plus(t, One(SampleOf(prev, now))).rxBytes) == ValueSum(t.rxBytes) + now.rx - prev.rx
    ensures ValueSum(Plus(t, One(SampleOf(prev, now))).txBytes) == ValueSum(t.txBytes) + now.tx - prev.tx
  {
    StepsBalance(prev.peers, now.peers);
    ValueSumMerge(t.rxBytes, RxSteps(prev.peers, now.peers));
    ValueSumMerge(t.txBytes, TxSteps(prev.peers, now.peers));
  }
}
