/** The sliding-window limiter of the push subsystem (pushnotify/pushnotify.go): a pruned list
    of hits per token, proved exact against the full history of attempts. */
module RateLimiter {

  /** Elements after the cutoff, in order. */
  function Recent(s: seq<int>, cutoff: int): (r: seq<int>)
    ensures forall i :: 0 <= i < |r| ==> r[i] > cutoff
  {
    if s == [] then []
    else Recent(s[..|s| - 1], cutoff) + (if s[|s| - 1] > cutoff then [s[|s| - 1]] else [])
  }

  /** How many elements lie in the half-open window [lo, hi). */
  function CountBetween(s: seq<int>, lo: int, hi: int): nat {
    if s == [] then 0 else CountBetween(s[..|s| - 1], lo, hi) + (if lo <= s[|s| - 1] < hi then 1 else 0)
  }

  datatype Attempt = Attempt(token: string, at: int)

  /** The reference limiter: it keeps every acceptance for ever, and refuses when `max` of them
      are younger than the window. */
  function Accepts(max: int, window: int, attempts: seq<Attempt>, token: string): seq<int> {
    if attempts == [] then []
    else
      var before := Accepts(max, window, attempts[..|attempts| - 1], token);
      var a := attempts[|attempts| - 1];
      if a.token == token && |Recent(before, a.at - window)| < max then before + [a.at] else before
  }

  ghost predicate Nondecreasing(attempts: seq<Attempt>) {
    forall i, j :: 0 <= i < j < |attempts| ==> attempts[i].at <= attempts[j].at
  }

  lemma {:induction false} RecentTwice(s: seq<int>, early: int, late: int)
    requires early <= late
    ensures Recent(Recent(s, early), late) == Recent(s, late)
  {
    if s != [] {
      var init := Recent(s[..|s| - 1], early);
      RecentTwice(s[..|s| - 1], early, late);
      RecentAppend(init, s[|s| - 1], late);
      assert init + [] == init;
    }
  }

  lemma {:induction false} RecentAppend(s: seq<int>, t: int, cutoff: int)
    ensures Recent(s + [t], cutoff) == Recent(s, cutoff) + if t > cutoff then [t] else []
  {
  }

  /** Lists that agree on what is recent now agree on what will be recent later. */
  lemma {:induction false} AgreeLater(a: seq<int>, b: seq<int>, early: int, late: int)
    requires early <= late && Recent(a, early) == Recent(b, early)
    ensures Recent(a, late) == Recent(b, late)
  {
    RecentTwice(a, early, late);
    RecentTwice(b, early, late);
  }

  lemma {:induction false} WindowWithinRecent(s: seq<int>, lo: int, hi: int, cutoff: int)
    requires cutoff < lo
    ensures CountBetween(s, lo, hi) <= |Recent(s, cutoff)|
  {
    if s != [] {
      WindowWithinRecent(s[..|s| - 1], lo, hi, cutoff);
    }
  }

  /** Every half-open window of every run holds at most `max` acceptances of a token. */
  lemma {:induction false} EveryWindowBounded(max: int, window: int, attempts: seq<Attempt>, token: string, lo: int)
    ensures CountBetween(Accepts(max, window, attempts, token), lo, lo + window) <= if max >= 0 then max else 0
  {
    if attempts != [] {
      EveryWindowBounded(max, window, attempts[..|attempts| - 1], token, lo);
      var before := Accepts(max, window, attempts[..|attempts| - 1], token);
      var a := attempts[|attempts| - 1];
      if lo <= a.at < lo + window {
        WindowWithinRecent(before, lo, lo + window, a.at - window);
      }
      assert (before + [a.at])[..|before|] == before;
    }
  }

  // ----- the grants themselves

  /** How many of some grants went to the token after the cutoff. */
  ghost function GrantsAfter(granted: seq<Attempt>, token: string, cutoff: int): nat {
    if granted == [] then 0
    else
      var a := granted[|granted| - 1];
      GrantsAfter(granted[..|granted| - 1], token, cutoff) + if a.token == token && a.at > cutoff then 1 else 0
  }

  ghost function TimesOf(granted: seq<Attempt>, token: string): seq<int> {
    if granted == [] then []
    else
      var a := granted[|granted| - 1];
      TimesOf(granted[..|granted| - 1], token) + if a.token == token then [a.at] else []
  }

  lemma {:induction false} TimesSnoc(granted: seq<Attempt>, a: Attempt, token: string)
    ensures TimesOf(granted + [a], token) == TimesOf(granted, token) + if a.token == token then [a.at] else []
  {
    assert (granted + [a])[..|granted|] == granted;
  }

  lemma {:induction false} RecentCountsGrants(granted: seq<Attempt>, token: string, cutoff: int)
    ensures |Recent(TimesOf(granted, token), cutoff)| == GrantsAfter(granted, token, cutoff)
  {
    if granted != [] {
      var init, a := granted[..|granted| - 1], granted[|granted| - 1];
      assert granted == init + [a];
      TimesSnoc(init, a, token);
      hide Recent, TimesOf;
      RecentCountsGrants(init, token, cutoff);
      RecentAppend(TimesOf(init, token), a.at, cutoff);
      assert TimesOf(init, token) + [] == TimesOf(init, token);
    }
  }

  type HitLists = map<string, seq<int>>

  function Hits(hits: HitLists, token: string): seq<int> {
    if token in hits then hits[token] else []
  }

  /** The pruned lists agree with the full history on everything after the cutoff. */
  ghost predicate AgreesAfter(max: int, window: int, attempts: seq<Attempt>, hits: HitLists, cutoff: int) {
    forall token :: Recent(Hits(hits, token), cutoff) == Recent(Accepts(max, window, attempts, token), cutoff)
  }

  /** The limiter's lists after these attempts, which were granted as listed. */
  ghost predicate Exact(max: int, window: int, attempts: seq<Attempt>, granted: seq<Attempt>, hits: HitLists) {
    && Nondecreasing(attempts)
    && (forall token :: TimesOf(granted, token) == Accepts(max, window, attempts, token))
    && (attempts == [] ==> hits == map[])
    && (attempts != [] ==> AgreesAfter(max, window, attempts, hits, attempts[|attempts| - 1].at - window))
  }

  /** Before a call at a later time the pruned lists already answer as the full history would. */
  lemma {:induction false} KeptIsExact(max: int, window: int, attempts: seq<Attempt>, granted: seq<Attempt>, hits: HitLists, now: int)
    requires Exact(max, window, attempts, granted, hits) && (attempts != [] ==> attempts[|attempts| - 1].at <= now)
    ensures AgreesAfter(max, window, attempts, hits, now - window)
  {
    hide Recent, Accepts, TimesOf, Nondecreasing;
    forall token ensures Recent(Hits(hits, token), now - window) == Recent(Accepts(max, window, attempts, token), now - window) {
      if attempts != [] {
        AgreeLater(Hits(hits, token), Accepts(max, window, attempts, token), attempts[|attempts| - 1].at - window, now - window);
      } else {
        NoAttempts(max, window, token);
      }
    }
  }

  lemma {:induction false} NoAttempts(max: int, window: int, token: string)
    ensures Accepts(max, window, [], token) == []
  {
  }

  /** So the number of hits kept is the number of recent grants. */
  lemma {:induction false} KeptCountsGrants(max: int, window: int, attempts: seq<Attempt>, granted: seq<Attempt>, hits: HitLists, token: string, now: int)
    requires Exact(max, window, attempts, granted, hits) && (attempts != [] ==> attempts[|attempts| - 1].at <= now)
    ensures |Recent(Hits(hits, token), now - window)| == GrantsAfter(granted, token, now - window)
    ensures |Recent(Accepts(max, window, attempts, token), now - window)| == GrantsAfter(granted, token, now - window)
  {
    hide Recent, Accepts, TimesOf, Nondecreasing, GrantsAfter;
    KeptIsExact(max, window, attempts, granted, hits, now);
    RecentCountsGrants(granted, token, now - window);
  }

  lemma {:induction false} StillOrdered(attempts: seq<Attempt>, a: Attempt)
    requires Nondecreasing(attempts) && (attempts != [] ==> attempts[|attempts| - 1].at <= a.at)
    ensures Nondecreasing(attempts + [a])
  {
  }

  lemma {:induction false} GrantedKept(max: int, window: int, attempts: seq<Attempt>, granted: seq<Attempt>, a: Attempt, ok: bool)
    requires forall token :: TimesOf(granted, token) == Accepts(max, window, attempts, token)
    requires ok <==> |Recent(Accepts(max, window, attempts, a.token), a.at - window)| < max
    ensures forall token :: TimesOf(granted + (if ok then [a] else []), token) == Accepts(max, window, attempts + [a], token)
  {
    hide Recent, Accepts, TimesOf;
    forall token ensures TimesOf(granted + (if ok then [a] else []), token) == Accepts(max, window, attempts + [a], token) {
      GrantedNext(max, window, attempts, a, ok, granted, token);
    }
  }

  lemma {:induction false} AgreementKept(max: int, window: int, attempts: seq<Attempt>, hits: HitLists, a: Attempt)
    requires AgreesAfter(max, window, attempts, hits, a.at - window)
    ensures var kept := Recent(Hits(hits, a.token), a.at - window);
            AgreesAfter(max, window, attempts + [a], if |kept| < max then hits[a.token := kept + [a.at]] else hits, a.at - window)
  {
    hide Recent, Accepts;
    var kept := Recent(Hits(hits, a.token), a.at - window);
    var hits' := if |kept| < max then hits[a.token := kept + [a.at]] else hits;
    forall token ensures Recent(Hits(hits', token), a.at - window) == Recent(Accepts(max, window, attempts + [a], token), a.at - window) {
      ExactNext(max, window, attempts, a, token, Hits(hits, token));
    }
  }

  /** One call keeps the lists exact. */
  lemma {:induction false} CallKeepsExact(max: int, window: int, attempts: seq<Attempt>, granted: seq<Attempt>, hits: HitLists, a: Attempt)
    requires Exact(max, window, attempts, granted, hits) && (attempts != [] ==> attempts[|attempts| - 1].at <= a.at)
    ensures var kept := Recent(Hits(hits, a.token), a.at - window);
            var ok := |kept| < max;
            Exact(max, window, attempts + [a], granted + (if ok then [a] else []), if ok then hits[a.token := kept + [a.at]] else hits)
  {
    hide Recent, Accepts, TimesOf, Nondecreasing, Hits, AgreesAfter;
    KeptIsExact(max, window, attempts, granted, hits, a.at);
    KeptCountsGrants(max, window, attempts, granted, hits, a.token, a.at);
    StillOrdered(attempts, a);
    AgreementKept(max, window, attempts, hits, a);
    GrantedKept(max, window, attempts, granted, a, |Recent(Hits(hits, a.token), a.at - window)| < max);
  }

  class RateLimiter {
    const max: int
    const window: int
    var hits: HitLists
    /** Every call so far, and those that were granted. */
    ghost var attempts: seq<Attempt>
    ghost var granted: seq<Attempt>

    ghost predicate Valid()
      reads this
    {
      Exact(max, window, attempts, granted, hits)
    }

    constructor (max: int, window: int)
      ensures Valid() && this.max == max && this.window == window && attempts == granted == []
    {
      this.max, this.window, hits, attempts, granted := max, window, map[], [], [];
    }

    /** One request at time `now` of a clock that does not go back: granted exactly when fewer
        than `max` of all the grants given to the token are younger than the window. */
    method Allow(token: string, now: int) returns (ok: bool)
      requires Valid()
      requires attempts != [] ==> attempts[|attempts| - 1].at <= now
      modifies this`hits, this`attempts, this`granted
      ensures Valid() && attempts == old(attempts) + [Attempt(token, now)]
      ensures granted == old(granted) + if ok then [Attempt(token, now)] else []
      ensures ok <==> GrantsAfter(old(granted), token, now - window) < max
      ensures ok <==> |Recent(Accepts(max, window, old(attempts), token), now - window)| < max
      ensures hits == if ok then old(hits)[token := Recent(Hits(old(hits), token), now - window) + [now]] else old(hits)
    {
      hide Recent, Accepts, GrantsAfter, Exact;
      KeptCountsGrants(max, window, attempts, granted, hits, token, now);
      CallKeepsExact(max, window, attempts, granted, hits, Attempt(token, now));
      var kept := PruneHits(Hits(hits, token), now - window);
      ok := |kept| < max;
      attempts := attempts + [Attempt(token, now)];
      granted := granted + if ok then [Attempt(token, now)] else [];
      if ok {
        hits := hits[token := kept + [now]];
      }
    }

    /** Whatever was asked: of the grants actually given to a token, at most `max` lie in any
        half-open window. */
    lemma {:induction false} GrantsBounded(token: string, lo: int)
      requires Valid()
      ensures CountBetween(TimesOf(granted, token), lo, lo + window) <= if max >= 0 then max else 0
    {
      EveryWindowBounded(max, window, attempts, token, lo);
    }
  }

  lemma {:induction false} AcceptsNext(max: int, window: int, before: seq<Attempt>, a: Attempt, token: string)
    ensures var log := Accepts(max, window, before, token);
            Accepts(max, window, before + [a], token) ==
            if a.token == token && |Recent(log, a.at - window)| < max then log + [a.at] else log
  {
  }

  lemma {:induction false} GrantedNext(max: int, window: int, before: seq<Attempt>, a: Attempt, ok: bool, granted: seq<Attempt>, token: string)
    requires TimesOf(granted, token) == Accepts(max, window, before, token)
    requires ok <==> |Recent(Accepts(max, window, before, a.token), a.at - window)| < max
    ensures TimesOf(granted + (if ok then [a] else []), token) == Accepts(max, window, before + [a], token)
  {
    hide Recent, Accepts, TimesOf;
    AcceptsNext(max, window, before, a, token);
    TimesSnoc(granted, a, token);
    assert granted + [] == granted;
    assert TimesOf(granted, token) + [] == TimesOf(granted, token);
  }

  /** One more attempt: the pruned list of a token still answers as the full history does. */
  lemma {:induction false} ExactNext(max: int, window: int, before: seq<Attempt>, a: Attempt, token: string, hits: seq<int>)
    requires Recent(hits, a.at - window) == Recent(Accepts(max, window, before, token), a.at - window)
    ensures var kept := Recent(hits, a.at - window);
            var stored := if a.token == token && |kept| < max then kept + [a.at] else hits;
            Recent(stored, a.at - window) == Recent(Accepts(max, window, before + [a], token), a.at - window)
  {
    hide Recent, Accepts;
    var kept := Recent(hits, a.at - window);
    AcceptsNext(max, window, before, a, token);
    RecentTwice(hits, a.at - window, a.at - window);
    RecentAppend(kept, a.at, a.at - window);
    RecentAppend(Accepts(max, window, before, token), a.at, a.at - window);
  }

  /** The pruning loop. */
  method PruneHits(hits: seq<int>, cutoff: int) returns (kept: seq<int>)
    ensures kept == Recent(hits, cutoff)
  {
    kept := [];
    for i := 0 to |hits|
      invariant kept == Recent(hits[..i], cutoff)
    {
      assert hits[..i + 1] == hits[..i] + [hits[i]];
      RecentAppend(hits[..i], hits[i], cutoff);
      if hits[i] > cutoff {
        kept := kept + [hits[i]];
      }
    }
    assert hits[..|hits|] == hits;
  }
}
