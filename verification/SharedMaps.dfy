/** The per-bucket byte maps of the traffic cache as Go holds them: references to mutable maps,
    nil until a peer moves some bytes (handler/wg_traffic_cache.go).  TrafficCache treats them
    as values; here is why it may: no map is ever reachable from two places. */
module SharedMaps {
  import opened TrafficHistory
  import opened TrafficCache

  class MapRef {
    var m: ByteMap

    constructor (m: ByteMap)
      ensures this.m == m
    {
      this.m := m;
    }
  }

  /** No two slots share a map. */
  ghost predicate Distinct(a: array<MapRef?>)
    reads a
  {
    forall i, j :: 0 <= i < j < a.Length && a[i] != null ==> a[i] != a[j]
  }

  /** Two arrays have no map in common. */
  ghost predicate Apart(a: array<MapRef?>, b: array<MapRef?>)
    reads a, b
  {
    a != b && forall i, j :: 0 <= i < a.Length && 0 <= j < b.Length && a[i] != null ==> a[i] != b[j]
  }

  /** What a slot holds; a missing map reads as empty. */
  function At(r: MapRef?): ByteMap
    reads r
  {
    if r == null then map[] else r.m
  }

  ghost function Contents(a: array<MapRef?>): seq<ByteMap>
    reads a, a[..]
  {
    seq(a.Length, i requires 0 <= i < a.Length reads a, a[..] => At(a[i]))
  }

  /** cloneInt64Map. */
  method CloneMap(r: MapRef?) returns (c: MapRef?)
    ensures (c == null <==> r == null) && (c != null ==> fresh(c)) && At(c) == At(r)
  {
    if r == null {
      return null;
    }
    c := new MapRef(r.m);
  }

  /** The cloning loops of trafficCacheToSnapshotLocked. */
  method CloneAll(a: array<MapRef?>) returns (b: array<MapRef?>)
    requires Distinct(a)
    ensures fresh(b) && b.Length == a.Length && (forall i :: 0 <= i < b.Length && b[i] != null ==> fresh(b[i]))
    ensures Distinct(b) && Apart(a, b) && Contents(b) == Contents(a)
  {
    b := new MapRef?[a.Length](_ => null);
    for i := 0 to a.Length
      invariant forall k :: 0 <= k < a.Length ==> a[k] == old(a[k]) && At(a[k]) == old(At(a[k]))
      invariant forall k :: 0 <= k < i ==> At(b[k]) == At(a[k])
      invariant forall k :: 0 <= k < i && b[k] != null ==> fresh(b[k])
      invariant forall k :: i <= k < b.Length ==> b[k] == null
      invariant Distinct(b)
    {
      b[i] := CloneMap(a[i]);
    }
  }

  /** applySnapshot's loop: every slot gets its own copy of the snapshot's map. */
  method LoadAll(a: array<MapRef?>, s: array<MapRef?>)
    requires a.Length == s.Length && a != s
    modifies a
    ensures Distinct(a) && Apart(s, a) && Contents(a) == Contents(s)
    ensures forall i :: 0 <= i < a.Length && a[i] != null ==> fresh(a[i])
  {
    for i := 0 to a.Length
      invariant forall k :: 0 <= k < i ==> At(a[k]) == At(s[k]) && (a[k] != null ==> fresh(a[k]))
      invariant forall j, k :: 0 <= j < k < i && a[j] != null ==> a[j] != a[k]
    {
      a[i] := CloneMap(s[i]);
    }
  }

  datatype Op = Reset(idx: nat) | AddStep(idx: nat, pk: string, delta: int)

  /** What refreshes do to the maps of one direction. */
  function Applied(maps: seq<ByteMap>, op: Op): seq<ByteMap>
    requires op.idx < |maps|
  {
    match op
    case Reset(i) => maps[i := map[]]
    case AddStep(i, pk, delta) => maps[i := WithStep(maps[i], pk, delta)]
  }

  function AllApplied(maps: seq<ByteMap>, ops: seq<Op>): (r: seq<ByteMap>)
    requires forall op :: op in ops ==> op.idx < |maps|
    ensures |r| == |maps|
  {
    if ops == [] then maps
    else
      assert ops[|ops| - 1] in ops && forall op :: op in ops[..|ops| - 1] ==> op in ops;
      Applied(AllApplied(maps, ops[..|ops| - 1]), ops[|ops| - 1])
  }

  /** One update in place: a map is made when the slot has none. */
  method Update(a: array<MapRef?>, op: Op)
    requires Distinct(a) && op.idx < a.Length
    modifies a, a[op.idx]
    ensures Distinct(a) && Contents(a) == Applied(old(Contents(a)), op)
    ensures forall i :: 0 <= i < a.Length && i != op.idx ==> a[i] == old(a[i])
    ensures a[op.idx] == null || a[op.idx] == old(a[op.idx]) || fresh(a[op.idx])
  {
    var i := op.idx;
    match op
    case Reset(_) => a[i] := null;
    case AddStep(_, pk, delta) =>
      if delta > 0 {
        if a[i] == null {
          a[i] := new MapRef(map[]);
        }
        a[i].m := a[i].m[pk := Get(a[i].m, pk) + delta];
      }
  }

  /** Samples stored after a snapshot was taken change the cache as they should and the
      snapshot not at all. */
  method SampleAfterSnapshot(a: array<MapRef?>, ops: seq<Op>) returns (snapshot: array<MapRef?>)
    requires Distinct(a) && forall op :: op in ops ==> op.idx < a.Length
    modifies a, a[..]
    ensures Contents(snapshot) == old(Contents(a)) && Contents(a) == AllApplied(old(Contents(a)), ops)
    ensures Distinct(a) && Apart(a, snapshot)
  {
    snapshot := CloneAll(a);
    UpdateAll(a, snapshot, ops);
  }

  /** Nor do samples stored after a restore change the snapshot restored from. */
  method SampleAfterRestore(a: array<MapRef?>, snapshot: array<MapRef?>, ops: seq<Op>)
    requires a.Length == snapshot.Length && a != snapshot && forall op :: op in ops ==> op.idx < a.Length
    modifies a
    ensures Contents(snapshot) == old(Contents(snapshot)) && Contents(a) == AllApplied(old(Contents(snapshot)), ops)
  {
    LoadAll(a, snapshot);
    UpdateAll(a, snapshot, ops);
  }

  /** Updates of one array leave an array apart from it alone. */
  method UpdateAll(a: array<MapRef?>, other: array<MapRef?>, ops: seq<Op>)
    requires Distinct(a) && Apart(a, other) && forall op :: op in ops ==> op.idx < a.Length
    modifies a, a[..]
    ensures Contents(a) == AllApplied(old(Contents(a)), ops) && Contents(other) == old(Contents(other))
    ensures Distinct(a) && Apart(a, other)
  {
    for n := 0 to |ops|
      invariant Distinct(a) && Apart(a, other)
      invariant other[..] == old(other[..])
      invariant forall i :: 0 <= i < a.Length ==> a[i] == null || a[i] in old(a[..]) || fresh(a[i])
      invariant Contents(a) == AllApplied(old(Contents(a)), ops[..n])
      invariant Contents(other) == old(Contents(other))
    {
      assert ops[..n + 1][..n] == ops[..n];
      Update(a, ops[n]);
    }
    assert ops[..|ops|] == ops;
  }
}
