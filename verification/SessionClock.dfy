/** How long a session lives: the time bounds of isValidSession, the sliding idle window and
    the hard maximum (handler/session.go, handler/passkeys.go).  Times are in seconds. */
module SessionClock {

  const ANDROID_IDLE_MIN := 15 * 24 * 3600
  const DAY := 86400

  /** The session values about time. */
  datatype Times = Times(createdAt: int, updatedAt: int, maxAge: int)

  /** `android` is the companion app's header; a request to /logout does not count as activity. */
  datatype Request = Request(at: int, android: bool, logout: bool)

  /** effectiveIdleSeconds. */
  function IdleSeconds(maxAge: int, android: bool): (r: int)
    ensures r > 0
    ensures android ==> r >= ANDROID_IDLE_MIN
  {
    var age := if maxAge <= 0 then DAY else maxAge;
    if android && age < ANDROID_IDLE_MIN then ANDROID_IDLE_MIN else age
  }

  predicate Accepted(t: Times, r: Request, lifetime: int) {
    t.updatedAt <= r.at <= t.updatedAt + IdleSeconds(t.maxAge, r.android) && r.at <= t.createdAt + lifetime
  }

  function Touched(t: Times, r: Request): Times {
    if r.logout then t else t.(updatedAt := r.at)
  }

  /** The ValidSession middleware. */
  function After(t: Times, r: Request, lifetime: int): Times {
    if Accepted(t, r, lifetime) then Touched(t, r) else t
  }

  function Run(t: Times, rs: seq<Request>, lifetime: int): Times {
    if rs == [] then t else After(Run(t, rs[..|rs| - 1], lifetime), rs[|rs| - 1], lifetime)
  }

  ghost predicate AcceptedAt(t: Times, rs: seq<Request>, lifetime: int, i: nat)
    requires i < |rs|
  {
    Accepted(Run(t, rs[..i], lifetime), rs[i], lifetime)
  }

  ghost predicate AllAccepted(t: Times, rs: seq<Request>, lifetime: int) {
    forall i :: 0 <= i < |rs| ==> AcceptedAt(t, rs, lifetime, i)
  }

  // ----- the same, said about the requests alone

  /** The last activity before now, if nothing was refused. */
  function LastActivity(login: int, rs: seq<Request>): int {
    if rs == [] then login
    else if rs[|rs| - 1].logout then LastActivity(login, rs[..|rs| - 1])
    else rs[|rs| - 1].at
  }

  /** Request i comes no earlier than the activity before it, within the idle window of its
      kind of client, and within the lifetime of the session. */
  ghost predicate InTime(t: Times, rs: seq<Request>, lifetime: int, i: nat)
    requires i < |rs|
  {
    var since := LastActivity(t.updatedAt, rs[..i]);
    && since <= rs[i].at <= since + IdleSeconds(t.maxAge, rs[i].android)
    && rs[i].at <= t.createdAt + lifetime
  }

  lemma {:induction false} RunIsLastActivity(t: Times, rs: seq<Request>, lifetime: int)
    requires AllAccepted(t, rs, lifetime)
    ensures Run(t, rs, lifetime) == t.(updatedAt := LastActivity(t.updatedAt, rs))
  {
    if rs != [] {
      AcceptedPrefix(t, rs, lifetime, |rs| - 1);
      RunIsLastActivity(t, rs[..|rs| - 1], lifetime);
      assert AcceptedAt(t, rs, lifetime, |rs| - 1);
    }
  }

  lemma {:induction false} AcceptedPrefix(t: Times, rs: seq<Request>, lifetime: int, n: nat)
    requires AllAccepted(t, rs, lifetime) && n <= |rs|
    ensures AllAccepted(t, rs[..n], lifetime)
  {
    forall i | 0 <= i < n ensures AcceptedAt(t, rs[..n], lifetime, i) {
      SamePrefix(t, rs, lifetime, n, i);
    }
  }

  /** A whole series of requests is accepted exactly when each comes in time. */
  lemma {:induction false} AcceptedIffInTime(t: Times, rs: seq<Request>, lifetime: int)
    ensures AllAccepted(t, rs, lifetime) <==> forall i :: 0 <= i < |rs| ==> InTime(t, rs, lifetime, i)
  {
    hide AcceptedAt, InTime, LastActivity, Run;
    if rs != [] {
      var n := |rs| - 1;
      var init := rs[..n];
      AcceptedIffInTime(t, init, lifetime);
      forall i | 0 <= i < n
        ensures InTime(t, init, lifetime, i) == InTime(t, rs, lifetime, i)
        ensures AcceptedAt(t, init, lifetime, i) == AcceptedAt(t, rs, lifetime, i)
      {
        SamePrefix(t, rs, lifetime, n, i);
      }
      if AllAccepted(t, init, lifetime) {
        LastInTime(t, rs, lifetime);
      }
    }
  }

  lemma {:induction false} SamePrefix(t: Times, rs: seq<Request>, lifetime: int, n: nat, i: nat)
    requires i < n <= |rs|
    ensures InTime(t, rs[..n], lifetime, i) == InTime(t, rs, lifetime, i)
    ensures AcceptedAt(t, rs[..n], lifetime, i) == AcceptedAt(t, rs, lifetime, i)
  {
    assert rs[..n][..i] == rs[..i];
  }

  lemma {:induction false} LastInTime(t: Times, rs: seq<Request>, lifetime: int)
    requires rs != [] && AllAccepted(t, rs[..|rs| - 1], lifetime)
    ensures AcceptedAt(t, rs, lifetime, |rs| - 1) == InTime(t, rs, lifetime, |rs| - 1)
  {
    RunIsLastActivity(t, rs[..|rs| - 1], lifetime);
  }

  /** Refused requests do not matter: they leave the session as it was. */
  lemma {:induction false} RunKeepsAges(t: Times, rs: seq<Request>, lifetime: int)
    ensures Run(t, rs, lifetime).createdAt == t.createdAt && Run(t, rs, lifetime).maxAge == t.maxAge
  {
    if rs != [] {
      RunKeepsAges(t, rs[..|rs| - 1], lifetime);
    }
  }

  ghost predicate Later(rs: seq<Request>, at: int) {
    forall i :: 0 <= i < |rs| ==> at <= rs[i].at
  }

  /** No activity keeps a session alive past its lifetime. */
  lemma {:induction false} LifetimeIsHard(t: Times, rs: seq<Request>, lifetime: int, r: Request)
    requires r.at > t.createdAt + lifetime
    ensures !Accepted(Run(t, rs, lifetime), r, lifetime)
  {
    RunKeepsAges(t, rs, lifetime);
  }

  /** A session idle for too long even for the app stays dead for every client. */
  lemma {:induction false} ExpiredStaysExpired(t: Times, rs: seq<Request>, lifetime: int, at: int)
    requires at > t.updatedAt + IdleSeconds(t.maxAge, true)
    requires Later(rs, at)
    ensures Run(t, rs, lifetime) == t
  {
    if rs != [] {
      assert Later(rs[..|rs| - 1], at);
      ExpiredStaysExpired(t, rs[..|rs| - 1], lifetime, at);
    }
  }

  /** One idle for too long in a browser comes back exactly when a request with the app's
      header arrives within the app's window. */
  lemma {:induction false} AppRevives(t: Times, browser: Request, r: Request, lifetime: int)
    requires !browser.android && !Accepted(t, browser, lifetime) && t.updatedAt <= browser.at <= r.at && browser.at <= t.createdAt + lifetime
    ensures Accepted(After(t, browser, lifetime), r, lifetime) <==>
            r.android && r.at <= t.updatedAt + ANDROID_IDLE_MIN && r.at <= t.createdAt + lifetime
  {
  }

  /** The age setLoginSession gives a session. */
  function LoginAge(timeoutMinutes: int, rememberMe: bool, android: bool): (age: int)
    ensures age > 0
    ensures android ==> age >= ANDROID_IDLE_MIN
  {
    var asked := if timeoutMinutes > 0 then timeoutMinutes * 60 else if rememberMe then 7 * DAY else 0;
    var age := if asked <= 0 then DAY else asked;
    if android && age < ANDROID_IDLE_MIN then ANDROID_IDLE_MIN else age
  }

  /** The first request after a login, in seconds: accepted within the configured timeout, else
      within 7 days for "remember me" and a day otherwise, where the app's header on the login
      or on the request means at least 15 days; and within the lifetime. */
  lemma {:induction false} FirstRequest(login: int, timeoutMinutes: int, rememberMe: bool, android: bool, r: Request, lifetime: int)
    ensures var asked := if timeoutMinutes > 0 then 60 * timeoutMinutes else if rememberMe then 604_800 else 86_400;
            var idle := if (android || r.android) && asked < 1_296_000 then 1_296_000 else asked;
            Accepted(Times(login, login, LoginAge(timeoutMinutes, rememberMe, android)), r, lifetime) <==>
            login <= r.at <= login + idle && r.at <= login + lifetime
  {
    hide Accepted;
    var t := Times(login, login, LoginAge(timeoutMinutes, rememberMe, android));
    WithinIdle(t, r, lifetime);
  }

  /** Any later request: within the session's own age, which counts as a day when it is not
      positive and as at least 15 days for the app. */
  lemma {:induction false} WithinIdle(t: Times, r: Request, lifetime: int)
    ensures var age := if t.maxAge <= 0 then 86_400 else t.maxAge;
            var idle := if r.android && age < 1_296_000 then 1_296_000 else age;
            Accepted(t, r, lifetime) <==> t.updatedAt <= r.at <= t.updatedAt + idle && r.at <= t.createdAt + lifetime
  {
  }

  /** With a timeout configured, a browser session that is used in browsers only is never idle
      for longer than the timeout between two accepted requests. */
  lemma {:induction false} TimeoutEnforced(login: int, timeoutMinutes: int, rememberMe: bool, rs: seq<Request>, lifetime: int, i: nat)
    requires timeoutMinutes > 0 && i < |rs|
    requires forall j :: 0 <= j < |rs| ==> !rs[j].android
    requires AllAccepted(Times(login, login, LoginAge(timeoutMinutes, rememberMe, false)), rs, lifetime)
    ensures rs[i].at - LastActivity(login, rs[..i]) <= timeoutMinutes * 60
    ensures rs[i].at - login <= lifetime
  {
    var t := Times(login, login, LoginAge(timeoutMinutes, rememberMe, false));
    AcceptedIffInTime(t, rs, lifetime);
    assert InTime(t, rs, lifetime, i);
  }

  class Session {
    var createdAt: int
    var updatedAt: int
    var maxAge: int

    ghost function View(): Times
      reads this
    {
      Times(createdAt, updatedAt, maxAge)
    }

    /** setLoginSession. */
    constructor Login(now: int, timeoutMinutes: int, rememberMe: bool, android: bool)
      ensures View() == Times(now, now, LoginAge(timeoutMinutes, rememberMe, android))
      ensures createdAt == now && updatedAt == now
      ensures var asked := if timeoutMinutes > 0 then 60 * timeoutMinutes else if rememberMe then 604_800 else 86_400;
              maxAge == if android && asked < 1_296_000 then 1_296_000 else asked
    {
      var ageMax := 0;
      if timeoutMinutes > 0 {
        ageMax := timeoutMinutes * 60;
      } else if rememberMe {
        ageMax := 7 * DAY;
      }
      if ageMax <= 0 {
        ageMax := DAY;
      }
      if android && ageMax < ANDROID_IDLE_MIN {
        ageMax := ANDROID_IDLE_MIN;
      }
      createdAt, updatedAt, maxAge := now, now, ageMax;
    }

    /** The time checks of isValidSession. */
    method IsValid(r: Request, lifetime: int) returns (ok: bool)
      ensures ok == Accepted(View(), r, lifetime)
      ensures var age := if maxAge <= 0 then 86_400 else maxAge;
              var idle := if r.android && age < 1_296_000 then 1_296_000 else age;
              ok <==> updatedAt <= r.at <= updatedAt + idle && r.at <= createdAt + lifetime
    {
      var expiration := updatedAt + IdleSeconds(maxAge, r.android);
      ok := !(updatedAt > r.at || expiration < r.at || createdAt + lifetime < r.at);
    }

    method TouchIdle(now: int)
      modifies this`updatedAt
      ensures updatedAt == now
    {
      updatedAt := now;
    }

    /** doRefreshSession: a "remember me" refresh, at most once a day. */
    method Refresh(now: int, lifetime: int) returns (refreshed: bool)
      modifies this`updatedAt
      ensures refreshed <==> maxAge > 0 && old(updatedAt) + 86_400 <= now <= old(updatedAt) + maxAge && now <= createdAt + lifetime
      ensures updatedAt == if refreshed then now else old(updatedAt)
    {
      if maxAge <= 0 {
        return false;
      }
      if updatedAt > now || updatedAt + maxAge < now || now - updatedAt < DAY || createdAt + lifetime < now {
        return false;
      }
      updatedAt := now;
      refreshed := true;
    }

    /** ValidSession, followed for web pages by RefreshSession a moment later: the refresh finds
        the session just touched and never does anything, unless the page took a day to get there. */
    method Serve(r: Request, lifetime: int, page: bool, moment: nat) returns (ok: bool)
      requires moment < DAY && !(page && r.logout)
      modifies this
      ensures ok == Accepted(old(View()), r, lifetime) && View() == After(old(View()), r, lifetime)
      ensures createdAt == old(createdAt) && maxAge == old(maxAge) && updatedAt == if ok && !r.logout then r.at else old(updatedAt)
    {
      ok := IsValid(r, lifetime);
      if ok {
        if !r.logout {
          TouchIdle(r.at);
        }
        if page {
          var refreshed := Refresh(r.at + moment, lifetime);
        }
      }
    }
  }
}
