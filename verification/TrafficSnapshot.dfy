/** The snapshot of the ring kept across restarts, and what restoring one gives. */
module TrafficSnapshot {
  import opened TrafficHistory
  import opened TrafficRing

  const SNAPSHOT_VERSION: int := 1

  datatype Snapshot = Snapshot(
    version: int, baseBucketMs: int, maxBaseBuckets: int,
    ids: seq<int>, rxSum: seq<real>, rxCount: seq<nat>, txSum: seq<real>, txCount: seq<nat>, txMax: seq<real>,
    peerRx: seq<ByteMap>, peerTx: seq<ByteMap>,
    lastRx: real, lastTx: real, recentRx: seq<real>, recentTx: seq<real>,
    totalRx: int, totalTx: int, lastUpdateAtMs: int, hasDelta: bool)

  predicate Acceptable(s: Snapshot) {
    && s.version == SNAPSHOT_VERSION && s.maxBaseBuckets == SLOTS && s.baseBucketMs == BUCKET_MS
    && |s.ids| == |s.rxSum| == |s.rxCount| == |s.txSum| == |s.txCount| == |s.txMax| == SLOTS
  }

  /** Exactly the snapshots of version 1 with 1440 half hours in each list are accepted. */
  lemma {:induction false} RestoredIff(c: Cache, s: Snapshot)
    ensures if s.version == 1 && s.baseBucketMs == 1_800_000 && s.maxBaseBuckets == 1440
               && |s.ids| == 1440 && |s.rxSum| == 1440 && |s.rxCount| == 1440 && |s.txSum| == 1440 && |s.txCount| == 1440 && |s.txMax| == 1440
            then var r := Restored(c, s);
                 r.prev.atMs == 0 && r.hasDelta == s.hasDelta && forall i :: 0 <= i < 1440 ==> RestoresSlot(r.ring[i], s, i)
            else Restored(c, s) == c
  {
  }

  ghost predicate RestoresSlot(slot: Slot, s: Snapshot, i: nat) {
    && i < |s.ids| && i < |s.rxSum| && i < |s.rxCount| && i < |s.txSum| && i < |s.txCount| && i < |s.txMax|
    && slot.id == s.ids[i]
    && slot.data.rxSum == s.rxSum[i] && slot.data.rxCount == s.rxCount[i]
    && slot.data.txSum == s.txSum[i] && slot.data.txCount == s.txCount[i] && slot.data.txMax == s.txMax[i]
    && slot.data.rxBytes == (if i < |s.peerRx| then s.peerRx[i] else map[])
    && slot.data.txBytes == (if i < |s.peerTx| then s.peerTx[i] else map[])
  }

  /** Peer maps may be missing; a missing map reads as empty. */
  function MapAt(maps: seq<ByteMap>, i: nat): ByteMap {
    if i < |maps| then maps[i] else map[]
  }

  function SlotOf(s: Snapshot, i: nat): Slot
    requires Acceptable(s) && i < SLOTS
  {
    Slot(s.ids[i], Totals(s.rxSum[i], s.rxCount[i], s.txSum[i], s.txCount[i], s.txMax[i], MapAt(s.peerRx, i), MapAt(s.peerTx, i)))
  }

  function LastRecent(buf: seq<real>): seq<real> {
    if |buf| > RECENT then buf[|buf| - RECENT..] else buf
  }

  ghost function SnapshotOf(c: Cache): Snapshot {
    Snapshot(SNAPSHOT_VERSION, BUCKET_MS, SLOTS,
             seq(SLOTS, i requires 0 <= i < SLOTS => c.ring[i].id),
             seq(SLOTS, i requires 0 <= i < SLOTS => c.ring[i].data.rxSum),
             seq(SLOTS, i requires 0 <= i < SLOTS => c.ring[i].data.rxCount),
             seq(SLOTS, i requires 0 <= i < SLOTS => c.ring[i].data.txSum),
             seq(SLOTS, i requires 0 <= i < SLOTS => c.ring[i].data.txCount),
             seq(SLOTS, i requires 0 <= i < SLOTS => c.ring[i].data.txMax),
             seq(SLOTS, i requires 0 <= i < SLOTS => c.ring[i].data.rxBytes),
             seq(SLOTS, i requires 0 <= i < SLOTS => c.ring[i].data.txBytes),
             c.lastRx, c.lastTx, c.recentRx, c.recentTx, c.totalRx, c.totalTx, c.lastUpdateAtMs, c.hasDelta)
  }

  /** A rejected snapshot changes nothing; an accepted one replaces everything but starts
      without a previous reading. */
  ghost function Restored(c: Cache, s: Snapshot): Cache {
    if !Acceptable(s) then c
    else Cache(seq(SLOTS, i requires 0 <= i < SLOTS => SlotOf(s, i)), NoReading, s.lastRx, s.lastTx,
               LastRecent(s.recentRx), LastRecent(s.recentTx), s.totalRx, s.totalTx, s.lastUpdateAtMs, s.hasDelta)
  }

  /** Saving and restoring, into whatever cache, loses only the previous reading. */
  lemma {:induction false} SnapshotRoundTrip(c: Cache, into: Cache)
    requires |c.recentRx| <= RECENT && |c.recentTx| <= RECENT
    ensures Restored(into, SnapshotOf(c)) == c.(prev := NoReading)
  {
  }

  /** So the restored cache stands for the same history, and goes on from there. */
  lemma {:induction false} RestoredRepresents(c: Cache, h: History, into: Cache)
    requires CacheRepresents(c, h)
    ensures CacheRepresents(Restored(into, SnapshotOf(c)), h)
  {
  }
}
