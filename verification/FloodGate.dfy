/** The Telegram bot's flood gate (telegram/bot.go): who must wait, who has been told so, and
    the sweep that runs once a minute. */
module FloodGate {
  import opened TelegramIndex

  /** floodWait and floodMessageSent. */
  datatype Gate = Gate(waiting: map<UserId, int>, notified: set<UserId>)

  datatype Request =
    /** A chat message asking for the configurations. */
    | Message(user: UserId, at: int)
    /** SendConfig for a user: from the panel or the bot, which passes ignoreFloodWait. */
    | SendConfig(user: UserId, ignoreFloodWait: bool, botUp: bool, at: int)
    /** The ticker. */
    | Sweep(at: int)

  /** What a request visibly does. */
  datatype Event = Grant(user: UserId, at: int) | Notice(user: UserId, at: int) | Release(users: set<UserId>, at: int) | Nothing(at: int)

  /** Users whose entry is older than the waiting time; strictly older. */
  function Expired(g: Gate, floodWait: int, now: int): set<UserId> {
    set u | u in g.waiting && g.waiting[u] < now - 60 * floodWait
  }

  function Granted(g: Gate, user: UserId, now: int): Gate {
    g.(waiting := g.waiting[user := now])
  }

  function Next(g: Gate, floodWait: int, r: Request): (Gate, Event) {
    match r
    case Message(u, now) =>
      if u !in g.waiting then (Granted(g, u, now), Grant(u, now))
      else if u in g.notified then (g, Nothing(now))
      else (g.(notified := g.notified + {u}), Notice(u, now))
    case SendConfig(u, ignore, botUp, now) =>
      if botUp && !ignore && u !in g.waiting then (Granted(g, u, now), Grant(u, now)) else (g, Nothing(now))
    case Sweep(now) =>
      var gone := Expired(g, floodWait, now);
      (Gate(g.waiting - gone, g.notified - gone), Release(gone, now))
  }

  function Run(floodWait: int, rs: seq<Request>): (Gate, seq<Event>) {
    if rs == [] then (Gate(map[], {}), [])
    else
      var before := Run(floodWait, rs[..|rs| - 1]);
      var r := Next(before.0, floodWait, rs[|rs| - 1]);
      (r.0, before.1 + [r.1])
  }

  ghost predicate Nondecreasing(rs: seq<Request>) {
    forall i, j :: 0 <= i < j < |rs| ==> rs[i].at <= rs[j].at
  }

  // ----- the claims, about a log of events

  ghost predicate GrantsApart(log: seq<Event>, floodWait: int) {
    forall i, j :: 0 <= i < j < |log| && log[i].Grant? && log[j].Grant? && log[i].user == log[j].user
      ==> log[j].at - log[i].at > 60 * floodWait
  }

  ghost predicate ReleasedBetween(log: seq<Event>, u: UserId, i: int, j: int) {
    exists k :: i < k < j && 0 <= k < |log| && log[k].Release? && u in log[k].users
  }

  /** Between two notices to one user the user's waiting period ended. */
  ghost predicate OneNoticePerWait(log: seq<Event>) {
    forall i, j :: 0 <= i < j < |log| && log[i].Notice? && log[j].Notice? && log[i].user == log[j].user
      ==> ReleasedBetween(log, log[i].user, i, j)
  }

  // ----- what ties the gate to its log

  /** Between positions i and j a sweep released the user granted at i, reading a clock more
      than the waiting time after that grant. */
  ghost predicate SweptBetween(log: seq<Event>, floodWait: int, i: int, j: int)
    requires 0 <= i < |log| && log[i].Grant?
  {
    exists k :: i < k < j && k < |log| && log[k].Release? && log[i].user in log[k].users && log[k].at - log[i].at > 60 * floodWait
  }

  ghost predicate SweptBetweenGrants(log: seq<Event>, floodWait: int) {
    forall i, j :: 0 <= i < j < |log| && log[i].Grant? && log[j].Grant? && log[i].user == log[j].user
      ==> SweptBetween(log, floodWait, i, j)
  }

  /** Every past grant is the one its user waits on, or has been swept since. */
  ghost predicate GrantsTracked(g: Gate, log: seq<Event>, floodWait: int) {
    forall i :: 0 <= i < |log| && log[i].Grant? ==>
      SweptBetween(log, floodWait, i, |log|) || (log[i].user in g.waiting && g.waiting[log[i].user] == log[i].at)
  }

  /** A user not marked as told has been released since every earlier notice. */
  ghost predicate NoticesTracked(g: Gate, log: seq<Event>) {
    forall i :: 0 <= i < |log| && log[i].Notice? && log[i].user !in g.notified ==> ReleasedBetween(log, log[i].user, i, |log|)
  }

  lemma {:induction false} SweptLater(log: seq<Event>, e: Event, floodWait: int, i: int, j: int)
    requires 0 <= i < j <= |log| && log[i].Grant? && SweptBetween(log, floodWait, i, j)
    ensures SweptBetween(log + [e], floodWait, i, j) && SweptBetween(log + [e], floodWait, i, j + 1)
  {
    var k :| i < k < j && log[k].Release? && log[i].user in log[k].users && log[k].at - log[i].at > 60 * floodWait;
    assert (log + [e])[k] == log[k];
  }

  lemma {:induction false} GrantsStep(g: Gate, log: seq<Event>, floodWait: int, r: Request)
    requires GrantsTracked(g, log, floodWait) && SweptBetweenGrants(log, floodWait)
    ensures var n := Next(g, floodWait, r); GrantsTracked(n.0, log + [n.1], floodWait) && SweptBetweenGrants(log + [n.1], floodWait)
  {
    hide SweptBetween;
    var n := Next(g, floodWait, r);
    var after := log + [n.1];
    forall i, j | 0 <= i < j < |after| && after[i].Grant? && after[j].Grant? && after[i].user == after[j].user
      ensures SweptBetween(after, floodWait, i, j)
    {
      assert after[i] == log[i];
      SweptLater(log, n.1, floodWait, i, j);
    }
    forall i | 0 <= i < |after| && after[i].Grant?
      ensures SweptBetween(after, floodWait, i, |after|) || (after[i].user in n.0.waiting && n.0.waiting[after[i].user] == after[i].at)
    {
      if i < |log| {
        TrackedLater(g, log, floodWait, r, i);
      }
    }
  }

  lemma {:induction false} TrackedLater(g: Gate, log: seq<Event>, floodWait: int, r: Request, i: nat)
    requires GrantsTracked(g, log, floodWait) && i < |log| && log[i].Grant?
    ensures var n := Next(g, floodWait, r);
            SweptBetween(log + [n.1], floodWait, i, |log| + 1) || (log[i].user in n.0.waiting && n.0.waiting[log[i].user] == log[i].at)
  {
    var n := Next(g, floodWait, r);
    var after := log + [n.1];
    if SweptBetween(log, floodWait, i, |log|) {
      SweptLater(log, n.1, floodWait, i, |log|);
    } else {
      assert after[i] == log[i] && after[|log|] == n.1;
    }
  }

  lemma {:induction false} ReleasedLater(log: seq<Event>, e: Event, u: UserId, i: int, j: int)
    requires ReleasedBetween(log, u, i, j) && j <= |log|
    ensures ReleasedBetween(log + [e], u, i, j) && ReleasedBetween(log + [e], u, i, j + 1)
  {
    var k :| i < k < j && 0 <= k < |log| && log[k].Release? && u in log[k].users;
    assert (log + [e])[k] == log[k];
  }

  lemma {:induction false} NoticesStep(g: Gate, log: seq<Event>, floodWait: int, r: Request)
    requires NoticesTracked(g, log) && OneNoticePerWait(log)
    ensures var n := Next(g, floodWait, r); NoticesTracked(n.0, log + [n.1]) && OneNoticePerWait(log + [n.1])
  {
    var n := Next(g, floodWait, r);
    var after := log + [n.1];
    forall i, j | 0 <= i < j < |after| && after[i].Notice? && after[j].Notice? && after[i].user == after[j].user
      ensures ReleasedBetween(after, after[i].user, i, j)
    {
      assert after[i] == log[i];
      ReleasedLater(log, n.1, after[i].user, i, j);
    }
    forall i | 0 <= i < |after| && after[i].Notice? && after[i].user !in n.0.notified
      ensures ReleasedBetween(after, after[i].user, i, |after|)
    {
      assert i < |log| && after[i] == log[i];
      if after[i].user in g.notified {
        assert after[|log|].Release? && after[i].user in after[|log|].users;
      } else {
        ReleasedLater(log, n.1, after[i].user, i, |log|);
      }
    }
  }

  /** Whoever has been told to wait is waiting; needs no clock. */
  lemma {:induction false} NotifiedAreWaiting(floodWait: int, rs: seq<Request>)
    ensures Run(floodWait, rs).0.notified <= Run(floodWait, rs).0.waiting.Keys
  {
    if rs != [] {
      NotifiedAreWaiting(floodWait, rs[..|rs| - 1]);
    }
  }

  lemma {:induction false} RunTracked(floodWait: int, rs: seq<Request>)
    ensures var s := Run(floodWait, rs); GrantsTracked(s.0, s.1, floodWait) && SweptBetweenGrants(s.1, floodWait)
    ensures |Run(floodWait, rs).1| == |rs| && forall i :: 0 <= i < |rs| ==> Run(floodWait, rs).1[i].at == rs[i].at
  {
    if rs != [] {
      var before := Run(floodWait, rs[..|rs| - 1]);
      RunTracked(floodWait, rs[..|rs| - 1]);
      GrantsStep(before.0, before.1, floodWait, rs[|rs| - 1]);
    }
  }

  /** Whatever the clock does: between two grants to one user, a sweep read a clock more than
      60 * FloodWait seconds after the first. */
  lemma {:induction false} SweepBetweenGrants(floodWait: int, rs: seq<Request>)
    ensures SweptBetweenGrants(Run(floodWait, rs).1, floodWait)
  {
    RunTracked(floodWait, rs);
  }

  // ----- which clocks keep grants apart

  ghost function Readings(rs: seq<Request>): seq<int> {
    seq(|rs|, i requires 0 <= i < |rs| => rs[i].at)
  }

  /** Having read past the waiting time that starts at reading p, the clock never again reads
      within it.  A clock that does not go back is of this kind. */
  ghost predicate StaysPast(ts: seq<int>, floodWait: int) {
    forall p, k, q :: 0 <= p < k < q < |ts| && ts[k] - ts[p] > 60 * floodWait ==> ts[q] - ts[p] > 60 * floodWait
  }

  lemma {:induction false} NondecreasingStaysPast(rs: seq<Request>, floodWait: int)
    requires Nondecreasing(rs)
    ensures StaysPast(Readings(rs), floodWait)
  {
    var ts := Readings(rs);
    forall p, k, q | 0 <= p < k < q < |ts| && ts[k] - ts[p] > 60 * floodWait ensures ts[q] - ts[p] > 60 * floodWait {
      assert rs[k].at <= rs[q].at;
    }
  }

  /** Under such a clock any two grants to one user are more than 60 * FloodWait seconds apart. */
  lemma {:induction false} GrantsFarApart(floodWait: int, rs: seq<Request>)
    requires StaysPast(Readings(rs), floodWait)
    ensures GrantsApart(Run(floodWait, rs).1, floodWait)
  {
    RunTracked(floodWait, rs);
    var log := Run(floodWait, rs).1;
    forall i, j | 0 <= i < j < |log| && log[i].Grant? && log[j].Grant? && log[i].user == log[j].user
      ensures log[j].at - log[i].at > 60 * floodWait
    {
      assert SweptBetween(log, floodWait, i, j);
      var k :| i < k < j && k < |log| && log[k].Release? && log[i].user in log[k].users && log[k].at - log[i].at > 60 * floodWait;
      assert Readings(rs)[k] == log[k].at && Readings(rs)[i] == log[i].at && Readings(rs)[j] == log[j].at;
    }
  }

  /** Exactly the clocks that keep the grants of every run apart: those that never read within
      a waiting time again once they have read past it. */
  lemma {:induction false} KeepsApartIff(floodWait: int, ts: seq<int>)
    ensures StaysPast(ts, floodWait) <==> forall rs :: Readings(rs) == ts ==> GrantsApart(Run(floodWait, rs).1, floodWait)
  {
    if StaysPast(ts, floodWait) {
      forall rs | Readings(rs) == ts ensures GrantsApart(Run(floodWait, rs).1, floodWait) {
        GrantsFarApart(floodWait, rs);
      }
    } else {
      var p, k, q :| 0 <= p < k < q < |ts| && ts[k] - ts[p] > 60 * floodWait >= ts[q] - ts[p];
      var rs := AskSweepAsk(ts, p, k, q);
      AskSweepAskRun(floodWait, ts, p, k, q, |ts|);
      assert rs[..|ts|] == rs && Readings(rs) == ts;
    }
  }

  /** A message at p, a sweep at k, a message at q, and requests that do nothing elsewhere. */
  ghost function AskSweepAsk(ts: seq<int>, p: nat, k: nat, q: nat): (rs: seq<Request>)
    ensures |rs| == |ts| && Readings(rs) == ts
  {
    seq(|ts|, i requires 0 <= i < |ts| =>
      if i == p || i == q then Message(0, ts[i])
      else if i == k then Sweep(ts[i])
      else SendConfig(0, true, false, ts[i]))
  }

  lemma {:induction false} AskSweepAskRun(floodWait: int, ts: seq<int>, p: nat, k: nat, q: nat, n: nat)
    requires p < k < q < |ts| && n <= |ts| && ts[k] - ts[p] > 60 * floodWait
    ensures var s := Run(floodWait, AskSweepAsk(ts, p, k, q)[..n]);
            && |s.1| == n
            && s.0.waiting == WaitingAt(ts, p, k, q, n)
            && (p < n ==> s.1[p] == Grant(0, ts[p])) && (q < n ==> s.1[q] == Grant(0, ts[q]))
  {
    if n > 0 {
      var rs := AskSweepAsk(ts, p, k, q);
      AskSweepAskRun(floodWait, ts, p, k, q, n - 1);
      assert rs[..n] == rs[..n - 1] + [rs[n - 1]];
      RunNext(floodWait, rs[..n - 1], rs[n - 1]);
      hide Run, WaitingAt;
      AskSweepAskStep(floodWait, ts, p, k, q, n - 1, Run(floodWait, rs[..n - 1]).0);
    }
  }

  /** Who waits after n of those requests. */
  ghost function WaitingAt(ts: seq<int>, p: nat, k: nat, q: nat, n: nat): map<UserId, int>
    requires p < k < q < |ts|
  {
    if n <= p || k < n <= q then map[] else if n <= k then map[0 := ts[p]] else map[0 := ts[q]]
  }

  lemma {:induction false} AskSweepAskStep(floodWait: int, ts: seq<int>, p: nat, k: nat, q: nat, n: nat, g: Gate)
    requires p < k < q < |ts| && n < |ts| && ts[k] - ts[p] > 60 * floodWait && g.waiting == WaitingAt(ts, p, k, q, n)
    ensures var s := Next(g, floodWait, AskSweepAsk(ts, p, k, q)[n]);
            && s.0.waiting == WaitingAt(ts, p, k, q, n + 1)
            && (n == p ==> s.1 == Grant(0, ts[p])) && (n == q ==> s.1 == Grant(0, ts[q]))
  {
    if n == k {
      assert Expired(g, floodWait, ts[k]) == {0};
    }
  }

  lemma {:induction false} RunNotices(floodWait: int, rs: seq<Request>)
    ensures var s := Run(floodWait, rs); NoticesTracked(s.0, s.1) && OneNoticePerWait(s.1)
  {
    if rs != [] {
      var before := Run(floodWait, rs[..|rs| - 1]);
      RunNotices(floodWait, rs[..|rs| - 1]);
      NoticesStep(before.0, before.1, floodWait, rs[|rs| - 1]);
    }
  }

  /** The gate reads the wall clock: one that jumps ahead for one sweep lets a second grant
      through early, for some requests. */
  lemma {:induction false} ClockJumpGrantsEarly()
    ensures exists rs :: Readings(rs) == [0, 100, 10] && !GrantsApart(Run(1, rs).1, 1)
  {
    var ts := [0, 100, 10];
    assert ts[1] - ts[0] > 60 * 1 && !(ts[2] - ts[0] > 60 * 1);
    KeepsApartIff(1, ts);
  }

  // ----- the gate from its log alone

  /** The event at i granted u (or told u to wait), and no sweep has released u since. */
  ghost predicate GrantedSince(log: seq<Event>, u: UserId, i: nat) {
    i < |log| && log[i].Grant? && log[i].user == u && !ReleasedBetween(log, u, i, |log|)
  }

  ghost predicate ToldSince(log: seq<Event>, u: UserId, i: nat) {
    i < |log| && log[i].Notice? && log[i].user == u && !ReleasedBetween(log, u, i, |log|)
  }

  ghost predicate MustWait(log: seq<Event>, u: UserId) {
    exists i: nat :: GrantedSince(log, u, i)
  }

  ghost predicate Told(log: seq<Event>, u: UserId) {
    exists i: nat :: ToldSince(log, u, i)
  }

  /** u is owed the release of a sweep at `now`: granted more than the waiting time before. */
  ghost predicate Due(log: seq<Event>, u: UserId, floodWait: int, now: int) {
    exists i: nat :: GrantedSince(log, u, i) && now - log[i].at > 60 * floodWait
  }

  ghost predicate KnowsLog(g: Gate, log: seq<Event>) {
    && (forall u, i: nat :: GrantedSince(log, u, i) ==> u in g.waiting && g.waiting[u] == log[i].at)
    && (forall u :: u in g.waiting ==> MustWait(log, u))
    && (forall u :: u in g.notified <==> Told(log, u))
  }

  lemma {:induction false} SinceStep(log: seq<Event>, e: Event, u: UserId, i: nat)
    ensures GrantedSince(log + [e], u, i) <==>
            if i < |log| then GrantedSince(log, u, i) && !(e.Release? && u in e.users) else i == |log| && e.Grant? && e.user == u
    ensures ToldSince(log + [e], u, i) <==>
            if i < |log| then ToldSince(log, u, i) && !(e.Release? && u in e.users) else i == |log| && e.Notice? && e.user == u
  {
    var after := log + [e];
    if i < |log| {
      if ReleasedBetween(log, u, i, |log|) {
        ReleasedLater(log, e, u, i, |log|);
      }
      if e.Release? && u in e.users {
        assert after[|log|] == e;
      }
    }
  }

  lemma {:induction false} WaitStep(log: seq<Event>, e: Event, u: UserId)
    ensures MustWait(log + [e], u) <==> (MustWait(log, u) && !(e.Release? && u in e.users)) || (e.Grant? && e.user == u)
    ensures Told(log + [e], u) <==> (Told(log, u) && !(e.Release? && u in e.users)) || (e.Notice? && e.user == u)
  {
    hide GrantedSince, ToldSince;
    forall i: nat
      ensures GrantedSince(log + [e], u, i) <==>
              if i < |log| then GrantedSince(log, u, i) && !(e.Release? && u in e.users) else i == |log| && e.Grant? && e.user == u
      ensures ToldSince(log + [e], u, i) <==>
              if i < |log| then ToldSince(log, u, i) && !(e.Release? && u in e.users) else i == |log| && e.Notice? && e.user == u
    {
      SinceStep(log, e, u, i);
    }
    SinceInLog(log, u);
    assert GrantedSince(log + [e], u, |log|) <==> e.Grant? && e.user == u;
    assert ToldSince(log + [e], u, |log|) <==> e.Notice? && e.user == u;
  }

  lemma {:induction false} SinceInLog(log: seq<Event>, u: UserId)
    ensures forall i: nat :: GrantedSince(log, u, i) || ToldSince(log, u, i) ==> i < |log|
  {
  }

  lemma {:induction false} KnowsNext(g: Gate, log: seq<Event>, floodWait: int, r: Request)
    requires KnowsLog(g, log)
    ensures var n := Next(g, floodWait, r); KnowsLog(n.0, log + [n.1])
  {
    hide ToldSince, MustWait, Told, ReleasedBetween;
    var n := Next(g, floodWait, r);
    forall u, i: nat | GrantedSince(log + [n.1], u, i) ensures u in n.0.waiting && n.0.waiting[u] == (log + [n.1])[i].at {
      SinceStep(log, n.1, u, i);
    }
    forall u ensures (u in n.0.waiting ==> MustWait(log + [n.1], u)) && (u in n.0.notified <==> Told(log + [n.1], u)) {
      WaitStep(log, n.1, u);
    }
  }

  lemma {:induction false} RunKnowsLog(floodWait: int, rs: seq<Request>)
    ensures KnowsLog(Run(floodWait, rs).0, Run(floodWait, rs).1)
  {
    if rs != [] {
      hide KnowsLog, Next;
      RunKnowsLog(floodWait, rs[..|rs| - 1]);
      KnowsNext(Run(floodWait, rs[..|rs| - 1]).0, Run(floodWait, rs[..|rs| - 1]).1, floodWait, rs[|rs| - 1]);
    } else {
      assert forall u, i: nat :: !GrantedSince([], u, i) && !ToldSince([], u, i);
    }
  }

  /** What the gate does next, for every run and every request, from what it has done so far: a
      user granted and not released since must wait, and is told so once; anyone else is
      granted; a sweep releases exactly those granted more than 60 * FloodWait seconds ago. */
  lemma {:induction false} GateDecides(floodWait: int, rs: seq<Request>, r: Request) returns (e: Event)
    ensures Run(floodWait, rs + [r]).1 == Run(floodWait, rs).1 + [e]
    ensures var log := Run(floodWait, rs).1;
            match r
            case Message(u, now) => e == (if !MustWait(log, u) then Grant(u, now) else if Told(log, u) then Nothing(now) else Notice(u, now))
            case SendConfig(u, ignore, botUp, now) => e == (if botUp && !ignore && !MustWait(log, u) then Grant(u, now) else Nothing(now))
            case Sweep(now) => e.Release? && e.at == now && forall u :: u in e.users <==> Due(log, u, floodWait, now)
  {
    hide MustWait, Told, Run, GrantedSince;
    RunKnowsLog(floodWait, rs);
    RunNext(floodWait, rs, r);
    var g, log := Run(floodWait, rs).0, Run(floodWait, rs).1;
    e := Next(g, floodWait, r).1;
    forall u ensures u in g.waiting <==> MustWait(log, u) {
      WaitingIff(g, log, u);
    }
    if r.Sweep? {
      forall u ensures u in Expired(g, floodWait, r.at) <==> Due(log, u, floodWait, r.at) {
        WaitingIff(g, log, u);
      }
    }
  }

  lemma {:induction false} WaitingIff(g: Gate, log: seq<Event>, u: UserId)
    requires KnowsLog(g, log)
    ensures u in g.waiting <==> MustWait(log, u)
    ensures u in g.waiting ==> exists i: nat :: GrantedSince(log, u, i) && g.waiting[u] == log[i].at
  {
    hide GrantedSince;
    if u in g.waiting {
      assert MustWait(log, u);
      var i: nat :| GrantedSince(log, u, i);
    }
  }

  class FloodGate {
    const floodWaitMinutes: int
    var waiting: map<UserId, int>
    var notified: set<UserId>
    /** Everything asked so far. */
    ghost var requests: seq<Request>

    ghost predicate Valid()
      reads this
    {
      Gate(waiting, notified) == Run(floodWaitMinutes, requests).0
    }

    /** The gate is where the run of all requests leaves it, and did what that run says. */
    ghost predicate Did(r: Request, before: seq<Request>, e: Event)
      reads this
    {
      Valid() && requests == before + [r] && Run(floodWaitMinutes, requests).1 == Run(floodWaitMinutes, before).1 + [e]
    }

    constructor (floodWaitMinutes: int)
      ensures Valid() && requests == [] && this.floodWaitMinutes == floodWaitMinutes
    {
      this.floodWaitMinutes := floodWaitMinutes;
      waiting, notified, requests := map[], {}, [];
    }

    /** The body of the update loop in Start. */
    method OnMessage(user: UserId, now: int) returns (e: Event)
      requires Valid()
      modifies this
      ensures Did(Message(user, now), old(requests), e)
      ensures e == if user !in old(waiting) then Grant(user, now) else if user in old(notified) then Nothing(now) else Notice(user, now)
      ensures waiting == if user in old(waiting) then old(waiting) else old(waiting)[user := now]
      ensures notified == if user in old(waiting) then old(notified) + {user} else old(notified)
    {
      RunNext(floodWaitMinutes, requests, Message(user, now));
      requests := requests + [Message(user, now)];
      if user in waiting {
        if user in notified {
          return Nothing(now);
        }
        notified := notified + {user};
        return Notice(user, now);
      }
      waiting := waiting[user := now];
      e := Grant(user, now);
    }

    /** The gate in SendConfig. */
    method OnSendConfig(user: UserId, ignoreFloodWait: bool, botUp: bool, now: int) returns (e: Event)
      requires Valid()
      modifies this
      ensures Did(SendConfig(user, ignoreFloodWait, botUp, now), old(requests), e)
      ensures e == if botUp && !ignoreFloodWait && user !in old(waiting) then Grant(user, now) else Nothing(now)
      ensures waiting == (if e.Grant? then old(waiting)[user := now] else old(waiting)) && notified == old(notified)
    {
      RunNext(floodWaitMinutes, requests, SendConfig(user, ignoreFloodWait, botUp, now));
      requests := requests + [SendConfig(user, ignoreFloodWait, botUp, now)];
      e := Nothing(now);
      if !botUp || (user in waiting && !ignoreFloodWait) {
        return;
      }
      if !ignoreFloodWait {
        waiting := waiting[user := now];
        e := Grant(user, now);
      }
    }

    /** updateFloodWait: deletes expired entries while ranging over the map. */
    method UpdateFloodWait(now: int) returns (ghost e: Event)
      requires Valid()
      modifies this
      ensures Did(Sweep(now), old(requests), e)
      ensures forall u :: u in waiting <==> u in old(waiting) && now - old(waiting)[u] <= 60 * floodWaitMinutes
      ensures forall u :: u in waiting ==> waiting[u] == old(waiting)[u]
      ensures forall u :: u in notified <==> u in old(notified) && (u in old(waiting) ==> now - old(waiting)[u] <= 60 * floodWaitMinutes)
    {
      hide Run, Next, Expired, SweptSoFar;
      RunNext(floodWaitMinutes, requests, Sweep(now));
      ghost var was := Gate(waiting, notified);
      requests := requests + [Sweep(now)];
      var threshold := now - 60 * floodWaitMinutes;
      var todo := waiting.Keys;
      NothingSwept(was, threshold);
      while todo != {}
        invariant todo <= was.waiting.Keys
        invariant requests == old(requests) + [Sweep(now)]
        invariant Gate(waiting, notified) == SweptSoFar(was, todo, threshold)
        decreases |todo|
      {
        var u :| u in todo;
        SweepOne(was, todo, threshold, u);
        if waiting[u] < threshold {
          waiting := waiting - {u};
          notified := notified - {u};
        }
        todo := todo - {u};
      }
      AllSwept(was, floodWaitMinutes, now);
      SweptMeans(was, threshold);
      e := Release(Expired(was, floodWaitMinutes, now), now);
    }
  }

  ghost function ExpiredOutside(was: Gate, todo: set<UserId>, threshold: int): set<UserId> {
    set u | u in was.waiting && u !in todo && was.waiting[u] < threshold
  }

  /** The gate when the expired users outside `todo` have been deleted. */
  ghost function SweptSoFar(was: Gate, todo: set<UserId>, threshold: int): Gate {
    var gone := ExpiredOutside(was, todo, threshold);
    Gate(was.waiting - gone, was.notified - gone)
  }

  lemma {:induction false} NothingSwept(was: Gate, threshold: int)
    ensures SweptSoFar(was, was.waiting.Keys, threshold) == was
  {
    assert ExpiredOutside(was, was.waiting.Keys, threshold) == {};
  }

  lemma {:induction false} AllSwept(was: Gate, floodWait: int, now: int)
    ensures Next(was, floodWait, Sweep(now)) == (SweptSoFar(was, {}, now - 60 * floodWait), Release(Expired(was, floodWait, now), now))
  {
    assert ExpiredOutside(was, {}, now - 60 * floodWait) == Expired(was, floodWait, now);
  }

  lemma {:induction false} SweptMeans(was: Gate, threshold: int)
    ensures var g := SweptSoFar(was, {}, threshold);
            && (forall u :: u in g.waiting <==> u in was.waiting && was.waiting[u] >= threshold)
            && (forall u :: u in g.waiting ==> g.waiting[u] == was.waiting[u])
            && (forall u :: u in g.notified <==> u in was.notified && (u in was.waiting ==> was.waiting[u] >= threshold))
  {
  }

  lemma {:induction false} SweepOne(was: Gate, todo: set<UserId>, threshold: int, u: UserId)
    requires u in todo && u in was.waiting
    ensures var g, g' := SweptSoFar(was, todo, threshold), SweptSoFar(was, todo - {u}, threshold);
            && u in g.waiting && g.waiting[u] == was.waiting[u]
            && g' == if was.waiting[u] < threshold then Gate(g.waiting - {u}, g.notified - {u}) else g
  {
    var gone, gone' := ExpiredOutside(was, todo, threshold), ExpiredOutside(was, todo - {u}, threshold);
    if was.waiting[u] < threshold {
      assert gone' == gone + {u};
      assert was.waiting - gone' == was.waiting - gone - {u};
    } else {
      assert gone' == gone;
    }
  }

  lemma {:induction false} RunNext(floodWait: int, before: seq<Request>, r: Request)
    ensures var s := Run(floodWait, before);
            Run(floodWait, before + [r]) == (Next(s.0, floodWait, r).0, s.1 + [Next(s.0, floodWait, r).1])
  {
  }
}
