/** The user and session handlers as they change the store and the digest cache
    (handler/routes.go, handler/passkeys.go, handler/session.go, store/jsondb/jsondb.go),
    each proved to take exactly the corresponding step of UserState. */
module UserDirectory {
  import opened Wrappers
  import opened Texts
  import opened UserState
  import opened UserSafety

  // ----- scans over one account's passkeys

  /** The search loop of PasskeyFinishRegister and PasskeyRename. */
  method FindPasskey(u: User, id: string) returns (found: bool)
    ensures found == HasCredential(u, id)
  {
    found := false;
    for i := 0 to |u.passkeys|
      invariant forall j :: 0 <= j < i ==> !(u.passkeys[j].id != "" && u.passkeys[j].id == id)
    {
      if u.passkeys[i].id != "" && u.passkeys[i].id == id {
        return true;
      }
    }
  }

  /** Removal keeps the other credentials in their order: it works piece by piece, and drops a
      single credential exactly when it has the id. */
  lemma {:induction false} WithoutCredentialPieces(a: seq<Passkey>, b: seq<Passkey>, p: Passkey, id: string)
    ensures WithoutCredential(a + b, id) == WithoutCredential(a, id) + WithoutCredential(b, id)
    ensures WithoutCredential([p], id) == if p.id == id then [] else [p]
  {
    assert [p][..0] == [];
    if b == [] {
      assert a + b == a;
    } else {
      WithoutCredentialPieces(a, b[..|b| - 1], p, id);
      assert (a + b)[..|a + b| - 1] == a + b[..|b| - 1];
    }
  }

  lemma {:induction false} WithoutCredentialLength(ps: seq<Passkey>, id: string)
    ensures |WithoutCredential(ps, id)| <= |ps|
    ensures |WithoutCredential(ps, id)| == |ps| <==> forall i :: 0 <= i < |ps| ==> ps[i].id != id
  {
    if ps != [] {
      var init := ps[..|ps| - 1];
      WithoutCredentialLength(init, id);
      assert forall i :: 0 <= i < |init| ==> init[i] == ps[i];
    }
  }

  /** PasskeyRemove's filter, which overwrites the slice it reads. */
  method FilterPasskeys(a: array<Passkey>, id: string) returns (n: nat)
    requires id != ""
    modifies a
    ensures n <= a.Length && a[..n] == WithoutCredential(old(a[..]), id)
  {
    ghost var was := a[..];
    n := 0;
    for i := 0 to a.Length
      invariant n <= i
      invariant forall j :: i <= j < a.Length ==> a[j] == was[j]
      invariant a[..n] == WithoutCredential(was[..i], id)
    {
      hide WithoutCredential;
      NextCredential(was, i, id);
      if !(a[i].id != "" && a[i].id == id) {
        ghost var kept := a[..n];
        a[n] := a[i];
        assert a[..n] == kept;
        n := n + 1;
        assert a[..n] == kept + [was[i]];
      }
    }
    assert was[..a.Length] == was;
  }

  lemma {:induction false} NextCredential(ps: seq<Passkey>, i: nat, id: string)
    requires i < |ps|
    ensures WithoutCredential(ps[..i + 1], id) == WithoutCredential(ps[..i], id) + (if ps[i].id == id then [] else [ps[i]])
  {
    assert ps[..i + 1][..i] == ps[..i];
  }

  /** The passkeys left after removing one credential. */
  method RemainingPasskeys(ps: seq<Passkey>, id: string) returns (r: seq<Passkey>)
    requires id != ""
    ensures r == WithoutCredential(ps, id)
  {
    var a := new Passkey[|ps|](i requires 0 <= i < |ps| => ps[i]);
    assert a[..] == ps;
    var n := FilterPasskeys(a, id);
    r := a[..n];
  }

  // ----- the digest of a record

  /** util.GetDBUserCRC32: collects the non-empty credential ids, then the labels of those
      ids, walking the label map in any order. */
  method GetDBUserCRC32(u: User) returns (d: Digest)
    ensures d == DigestOf(u)
  {
    var ids := CollectIds(u.passkeys);
    hide TrimSpace, PasskeyIds;
    var labels: map<string, string> := map[];
    var todo := u.labels.Keys;
    while todo != {}
      invariant todo <= u.labels.Keys
      invariant labels == map k | k in u.labels && k !in todo && k in ids :: TrimSpace(u.labels[k])
      decreases |todo|
    {
      var k :| k in todo;
      if k in ids {
        labels := labels[k := TrimSpace(u.labels[k])];
      }
      todo := todo - {k};
    }
    d := Digest(u.username, u.password, u.passwordHash, u.admin, u.disabled, u.authEpoch,
                TrimSpace(u.displayName), TrimSpace(u.email), ids, labels);
  }

  method CollectIds(ps: seq<Passkey>) returns (ids: multiset<string>)
    ensures ids == PasskeyIds(ps)
  {
    ids := multiset{};
    for i := 0 to |ps|
      invariant ids == PasskeyIds(ps[..i])
    {
      assert ps[..i + 1][..i] == ps[..i];
      if ps[i].id != "" {
        ids := ids + multiset{ps[i].id};
      }
    }
    assert ps[..|ps|] == ps;
  }

  class UserDirectory {
    var users: Users
    var digests: map<string, Digest>
    var passkeysOn: bool
    /** Every session value the server ever signed; the cookies themselves live in browsers. */
    ghost var issued: set<Cookie>
    ghost var usedHashes: set<string>

    ghost function View(): State
      reads this
    {
      State(users, digests, issued, usedHashes, passkeysOn)
    }

    ghost predicate Valid()
      reads this
    {
      Invariant(View())
    }

    /** The acting user exists, is not suspended, and would be given this very cookie now. */
    ghost predicate Accepted(c: Cookie)
      reads this
    {
      c.username in users && c == CookieFor(users[c.username]) && !users[c.username].disabled
    }

    /** The request wrote this session and no other, and left the passkey switch alone. */
    twostate predicate Wrote(new session: Option<Cookie>)
      reads this
    {
      issued == old(issued) + (if session.Some? then {session.value} else {}) && passkeysOn == old(passkeysOn)
    }

    /** What a request did: exactly the step, and any session it wrote is an accepted one. */
    ghost predicate Served(before: State, step: Step, session: Option<Cookie>)
      reads this
    {
      && View() == Apply(before, step) && Valid()
      && (session.Some? ==> session.value in issued && ValidCookie(View(), session.value))
    }

    /** The first run of jsondb.Init: the initial administrator, and the cache filled from it. */
    constructor (username: string, hash: string, passkeysOn: bool)
      requires hash != ""
      ensures View() == FirstRun(username, hash, passkeysOn) && Valid()
    {
      var u := User(username, "", hash, true, false, 0, "", "", [], map[]);
      var d := GetDBUserCRC32(u);
      users, digests, this.passkeysOn := map[username := u], map[username := d], passkeysOn;
      issued, usedHashes := {}, {hash};
      new;
      hide Invariant;
      FirstRunInvariant(username, hash, passkeysOn);
    }

    // ----- store and session primitives

    method SaveUser(u: User)
      modifies this
      ensures View() == Save(old(View()), u)
    {
      hide DigestOf;
      users := users[u.username := u];
      var d := GetDBUserCRC32(u);
      digests := digests[u.username := d];
      usedHashes := usedHashes + {u.passwordHash};
    }

    method DeleteUser(name: string)
      modifies this
      ensures View() == Delete(old(View()), name)
    {
      digests := digests - {name};
      users := users - {name};
    }

    /** DeleteUser, then SaveUser under the new name. */
    method ReplaceUser(name: string, u: User)
      modifies this
      ensures View() == Replace(old(View()), name, u)
      ensures users == (old(users) - {name})[u.username := u] && issued == old(issued) && passkeysOn == old(passkeysOn)
    {
      hide DigestOf;
      DeleteUser(name);
      SaveUser(u);
    }

    /** isValidSession after its time bounds: the cookie's hash is the cached one.  For a cookie
        the server issued this means that its account exists, has not changed since, is not
        suspended and has the admin flag the cookie claims. */
    method IsValidSession(c: Cookie) returns (ok: bool)
      ensures ok == ValidCookie(View(), c)
      ensures Valid() && c in issued ==>
                (ok <==> c.username in users && c == CookieFor(users[c.username]) && !users[c.username].disabled)
    {
      if Valid() && c in issued && ValidCookie(View(), c) {
        AcceptedCookieIsCurrent(View(), c);
      }
      ok := c.username in digests && c.hash == digests[c.username];
    }

    method SetUser(u: User) returns (session: Option<Cookie>)
      modifies this`issued
      ensures session == Some(CookieFor(u)) && View() == Issue(old(View()), u)
    {
      hide DigestOf;
      var d := GetDBUserCRC32(u);
      session := Some(Cookie(u.username, d, u.admin));
      issued := issued + {session.value};
    }

    method SetLoginSession(u: User) returns (session: Option<Cookie>)
      modifies this
      ensures session == Some(CookieFor(u))
      ensures View() == Issue(old(View()).(digests := old(digests)[u.username := DigestOf(u)]), u)
    {
      hide DigestOf;
      var d := GetDBUserCRC32(u);
      digests := digests[u.username := d];
      session := Some(Cookie(u.username, d, u.admin));
      issued := issued + {session.value};
    }

    // ----- the administrator guards

    /** How many active administrators other than `name` there are. */
    method CountOtherAdmins(name: string) returns (others: nat)
      requires Valid()
      ensures others == |OtherAdmins(users, users.Keys, name)|
    {
      hide Invariant;
      others := 0;
      var todo := users.Keys;
      while todo != {}
        invariant todo <= users.Keys
        invariant others == |OtherAdmins(users, users.Keys - todo, name)|
        decreases |todo|
      {
        hide OtherAdmins;
        var k :| k in todo;
        var u := users[k];
        RecordNamed(View(), k);
        OneMoreCounted(users, users.Keys - todo, k, name);
        if u.username != name && u.admin && !u.disabled {
          others := others + 1;
        }
        assert users.Keys - (todo - {k}) == users.Keys - todo + {k};
        todo := todo - {k};
      }
      assert users.Keys - todo == users.Keys;
    }

    method EnsureCanDemote(name: string) returns (ok: bool)
      requires Valid()
      ensures ok <==> name in users && (users[name].admin ==> OtherActiveAdmin(users, name))
    {
      if name !in users {
        return false;
      }
      if !users[name].admin {
        return true;
      }
      var others := CountOtherAdmins(name);
      CountedExists(users, name);
      ok := others >= 1;
    }

    method EnsureLeavingActiveAdmin(name: string) returns (ok: bool)
      requires Valid()
      ensures ok <==> name in users && (ActiveAdmin(users[name]) ==> OtherActiveAdmin(users, name))
    {
      if name !in users {
        return false;
      }
      if !users[name].admin || users[name].disabled {
        return true;
      }
      var others := CountOtherAdmins(name);
      CountedExists(users, name);
      ok := others >= 1;
    }

    // ----- handlers

    method Login(username: string, passwordOk: bool) returns (session: Option<Cookie>)
      requires Valid()
      modifies this
      ensures Served(old(View()), Step.Login(username, passwordOk), session)
      ensures session.Some? <==> passwordOk && ValidUsername(username) && username in old(users) && !old(users)[username].disabled
      ensures session.Some? ==> session.value.username == username && session.value == CookieFor(old(users)[username])
      ensures Wrote(session) && users == old(users) && digests == old(digests)
    {
      session := None;
      StepKeepsInvariant(View(), Step.Login(username, passwordOk));
      if !ValidUsername(username) || username !in users {
        return;
      }
      var u := users[username];
      if username == u.username && passwordOk {
        if u.disabled {
          return;
        }
        session := SetLoginSession(u);
      }
    }

    method PasskeyFinishLogin(username: string, assertionOk: bool) returns (session: Option<Cookie>)
      requires Valid()
      modifies this
      ensures Served(old(View()), PasskeyLogin(username, assertionOk), session)
      ensures session.Some? <==> passkeysOn && assertionOk && username in old(users) && !old(users)[username].disabled
      ensures session.Some? ==> session.value.username == username && session.value == CookieFor(old(users)[username])
      ensures Wrote(session) && users == old(users) && digests == old(digests)
    {
      session := None;
      StepKeepsInvariant(View(), PasskeyLogin(username, assertionOk));
      if !passkeysOn || username !in users {
        return;
      }
      var u := users[username];
      if u.disabled || !assertionOk {
        return;
      }
      session := SetLoginSession(u);
    }

    method UpdateUser(actor: Cookie, previous: string, form: UserForm) returns (session: Option<Cookie>)
      requires Valid() && actor in issued && form.newHash !in usedHashes
      modifies this
      ensures Served(old(View()), Step.UpdateUser(actor, previous, form), session)
      ensures Wrote(session)
      ensures
        if && old(Accepted(actor)) && (actor.admin || previous == actor.username)
           && ValidUsername(previous) && previous in old(users)
           && ValidUsername(form.username) && (form.username == previous || form.username !in old(users))
           && (previous == actor.username || form.admin || !old(users)[previous].admin || OtherActiveAdmin(old(users), previous))
        then
          var u := old(users)[previous];
          && users == (old(users) - {previous})[form.username := u.(
               username := form.username, displayName := TrimSpace(form.displayName), email := TrimSpace(form.email),
               passwordHash := if form.newHash == "" then u.passwordHash else form.newHash,
               admin := if previous == actor.username then u.admin else form.admin)]
          && session == (if previous == actor.username && form.newHash == "" then Some(CookieFor(users[form.username])) else None)
        else users == old(users) && digests == old(digests) && session == None
    {
      hide DigestOf, TrimSpace, Invariant, ValidUsername, OtherActiveAdmin, Save, Delete, Replace;
      session := None;
      StepKeepsInvariant(View(), Step.UpdateUser(actor, previous, form));
      var valid := IsValidSession(actor);
      if !valid || (!actor.admin && previous != actor.username) {
        return;
      }
      var admin := form.admin;
      if !actor.admin {
        admin := false;
      }
      if !ValidUsername(previous) || previous !in users {
        return;
      }
      var user := users[previous];
      user := user.(displayName := TrimSpace(form.displayName), email := TrimSpace(form.email));
      if !ValidUsername(form.username) {
        return;
      }
      user := user.(username := form.username);
      if form.username != previous && form.username in users {
        return;
      }
      if form.newHash != "" {
        user := user.(passwordHash := form.newHash);
      }
      if previous != actor.username {
        if !admin && user.admin {
          var ok := EnsureCanDemote(previous);
          if !ok {
            return;
          }
        }
        user := user.(admin := admin);
      }
      ReplacedAccepts(View(), previous, user);
      ReplaceUser(previous, user);
      if previous == actor.username && form.newHash == "" {
        session := SetUser(user);
      }
    }

    method CreateUser(actor: Cookie, form: UserForm) returns (session: Option<Cookie>)
      requires Valid() && actor in issued && form.newHash !in usedHashes
      modifies this
      ensures Served(old(View()), Step.CreateUser(actor, form), session)
      ensures Wrote(session) && session == None
      ensures
        if && old(Accepted(actor)) && actor.admin && ValidUsername(form.username)
           && form.newHash != "" && form.username !in old(users)
        then users == old(users)[form.username := User(form.username, "", form.newHash, form.admin, false, 0,
                                                       TrimSpace(form.displayName), TrimSpace(form.email), [], map[])]
        else users == old(users) && digests == old(digests)
    {
      hide DigestOf, TrimSpace, Invariant, ValidUsername;
      session := None;
      StepKeepsInvariant(View(), Step.CreateUser(actor, form));
      var valid := IsValidSession(actor);
      if !valid || !actor.admin || !ValidUsername(form.username) || form.newHash == "" || form.username in users {
        return;
      }
      SaveUser(User(form.username, "", form.newHash, form.admin, false, 0, TrimSpace(form.displayName), TrimSpace(form.email), [], map[]));
    }

    method RemoveUser(actor: Cookie, username: string) returns (session: Option<Cookie>)
      requires Valid() && actor in issued
      modifies this
      ensures Served(old(View()), Step.RemoveUser(actor, username), session)
      ensures Wrote(session) && session == None
      ensures
        if && old(Accepted(actor)) && actor.admin && ValidUsername(username) && username != actor.username
           && username in old(users) && !old(users)[username].admin
        then users == old(users) - {username}
        else users == old(users) && digests == old(digests)
    {
      hide DigestOf, Invariant, ValidUsername;
      session := None;
      StepKeepsInvariant(View(), Step.RemoveUser(actor, username));
      var valid := IsValidSession(actor);
      if !valid || !actor.admin || !ValidUsername(username) || username == actor.username {
        return;
      }
      if username !in users || users[username].admin {
        return;
      }
      DeleteUser(username);
    }

    method SetUserAdmin(actor: Cookie, target: string, admin: bool) returns (session: Option<Cookie>)
      requires Valid() && actor in issued
      modifies this
      ensures Served(old(View()), SetAdmin(actor, target, admin), session)
      ensures Wrote(session)
      ensures
        if && old(Accepted(actor)) && actor.admin && ValidUsername(target) && target in old(users)
           && (admin || (target != actor.username && (old(users)[target].admin ==> OtherActiveAdmin(old(users), target))))
        then
          && users == old(users)[target := old(users)[target].(admin := admin)]
          && session == (if target == actor.username then Some(CookieFor(users[target])) else None)
        else users == old(users) && digests == old(digests) && session == None
    {
      hide DigestOf, Invariant, ValidUsername;
      session := None;
      StepKeepsInvariant(View(), SetAdmin(actor, target, admin));
      var valid := IsValidSession(actor);
      if !valid || !actor.admin || !ValidUsername(target) || target !in users {
        return;
      }
      RecordNamed(View(), target);
      var u := users[target];
      if target == actor.username && !admin {
        return;
      }
      if !admin && u.admin {
        var ok := EnsureCanDemote(target);
        if !ok {
          return;
        }
      }
      u := u.(admin := admin);
      SaveUser(u);
      if target == actor.username {
        session := SetUser(u);
      }
    }

    method SetUserDisabled(actor: Cookie, target: string, disabled: bool) returns (session: Option<Cookie>)
      requires Valid() && actor in issued
      modifies this
      ensures Served(old(View()), SetDisabled(actor, target, disabled), session)
      ensures Wrote(session)
      ensures
        if && old(Accepted(actor)) && actor.admin && ValidUsername(target) && target in old(users)
           && (disabled && old(users)[target].admin ==> old(users)[target].disabled || OtherActiveAdmin(old(users), target))
        then
          && users == old(users)[target := old(users)[target].(disabled := disabled)]
          && session == (if target == actor.username && !disabled then Some(CookieFor(users[target])) else None)
        else users == old(users) && digests == old(digests) && session == None
    {
      hide DigestOf, Invariant, ValidUsername;
      session := None;
      StepKeepsInvariant(View(), SetDisabled(actor, target, disabled));
      var valid := IsValidSession(actor);
      if !valid || !actor.admin || !ValidUsername(target) || target !in users {
        return;
      }
      RecordNamed(View(), target);
      var u := users[target];
      if !disabled {
        u := u.(disabled := false);
        SaveUser(u);
        if target == actor.username {
          session := SetUser(u);
        }
        return;
      }
      if u.disabled {
        return;
      }
      var ok := EnsureLeavingActiveAdmin(target);
      if !ok {
        return;
      }
      SaveUser(u.(disabled := true));
    }

    method RevokeUserSessions(actor: Cookie, target: string) returns (session: Option<Cookie>)
      requires Valid() && actor in issued
      modifies this
      ensures Served(old(View()), RevokeSessions(actor, target), session)
      ensures Wrote(session) && session == None
      ensures
        if old(Accepted(actor)) && actor.admin && ValidUsername(target) && target in old(users) && !old(users)[target].disabled
        then
          && users == old(users)[target := old(users)[target].(authEpoch := old(users)[target].authEpoch + 1)]
          && forall c :: c in issued && c.username == target ==> !Accepted(c)
        else users == old(users) && digests == old(digests)
    {
      hide DigestOf, Invariant, ValidUsername;
      session := None;
      StepKeepsInvariant(View(), RevokeSessions(actor, target));
      var valid := IsValidSession(actor);
      if !valid || !actor.admin || !ValidUsername(target) || target !in users || users[target].disabled {
        return;
      }
      RecordNamed(View(), target);
      var u := users[target];
      u := u.(authEpoch := u.authEpoch + 1);
      BumpRejects(View(), u);
      SaveUser(u);
    }

    method PasskeyFinishRegister(actor: Cookie, username: string, cred: Passkey, name: string) returns (session: Option<Cookie>)
      requires Valid() && actor in issued
      modifies this
      ensures Served(old(View()), RegisterPasskey(actor, username, cred, name), session)
      ensures Wrote(session)
      ensures
        if && passkeysOn && old(Accepted(actor)) && (actor.admin || username == actor.username) && username in old(users)
           && !(cred.id != "" && exists i :: 0 <= i < |old(users)[username].passkeys| && old(users)[username].passkeys[i].id == cred.id)
        then
          var u := old(users)[username];
          && users == old(users)[username := u.(
               passkeys := u.passkeys + [cred], labels := if name == "" then u.labels else u.labels[cred.id := name])]
          && session == (if username == actor.username then Some(CookieFor(users[username])) else None)
        else users == old(users) && digests == old(digests) && session == None
    {
      hide DigestOf, Invariant;
      session := None;
      StepKeepsInvariant(View(), RegisterPasskey(actor, username, cred, name));
      var valid := IsValidSession(actor);
      if !valid || !passkeysOn || (!actor.admin && username != actor.username) || username !in users {
        return;
      }
      RecordNamed(View(), username);
      var u := users[username];
      var already := FindPasskey(u, cred.id);
      if !already {
        u := u.(passkeys := u.passkeys + [cred]);
        if name != "" {
          u := u.(labels := u.labels[cred.id := name]);
        }
        SaveUser(u);
        if username == actor.username {
          session := SetUser(u);
        }
      }
    }

    method PasskeyRemove(actor: Cookie, username: string, id: string) returns (session: Option<Cookie>)
      requires Valid() && actor in issued
      modifies this
      ensures Served(old(View()), RemovePasskey(actor, username, id), session)
      ensures Wrote(session) && session == None
      ensures
        if && passkeysOn && old(Accepted(actor)) && (actor.admin || username == actor.username) && ValidUsername(username)
           && username in old(users) && id != "" && exists i :: 0 <= i < |old(users)[username].passkeys| && old(users)[username].passkeys[i].id == id
        then
          var u := old(users)[username];
          && users == old(users)[username := u.(
               passkeys := WithoutCredential(u.passkeys, id), labels := u.labels - {id}, authEpoch := u.authEpoch + 1)]
          && forall c :: c in issued && c.username == username ==> !Accepted(c)
        else users == old(users) && digests == old(digests)
    {
      hide DigestOf, Invariant, ValidUsername, WithoutCredential;
      session := None;
      StepKeepsInvariant(View(), RemovePasskey(actor, username, id));
      var valid := IsValidSession(actor);
      if !valid || !passkeysOn || !ValidUsername(username) || (!actor.admin && username != actor.username) || id == "" || username !in users {
        return;
      }
      RecordNamed(View(), username);
      var u := users[username];
      var kept := RemainingPasskeys(u.passkeys, id);
      WithoutCredentialLength(u.passkeys, id);
      if |kept| == |u.passkeys| {
        return;
      }
      u := u.(passkeys := kept, labels := u.labels - {id}, authEpoch := u.authEpoch + 1);
      BumpRejects(View(), u);
      SaveUser(u);
    }

    method PasskeyRename(actor: Cookie, username: string, id: string, name: string) returns (session: Option<Cookie>)
      requires Valid() && actor in issued
      modifies this
      ensures Served(old(View()), RenamePasskey(actor, username, id, name), session)
      ensures Wrote(session)
      ensures
        if && passkeysOn && old(Accepted(actor)) && (actor.admin || username == actor.username) && ValidUsername(username)
           && username in old(users) && id != "" && exists i :: 0 <= i < |old(users)[username].passkeys| && old(users)[username].passkeys[i].id == id
        then
          var u := old(users)[username];
          && users == old(users)[username := u.(labels := u.labels[id := TrimSpace(name)])]
          && session == (if username == actor.username then Some(CookieFor(users[username])) else None)
        else users == old(users) && digests == old(digests) && session == None
    {
      hide DigestOf, TrimSpace, Invariant, ValidUsername;
      session := None;
      StepKeepsInvariant(View(), RenamePasskey(actor, username, id, name));
      var valid := IsValidSession(actor);
      if !valid || !passkeysOn || !ValidUsername(username) || (!actor.admin && username != actor.username) || id == "" || username !in users {
        return;
      }
      RecordNamed(View(), username);
      var u := users[username];
      var found := FindPasskey(u, id);
      if !found {
        return;
      }
      u := u.(labels := u.labels[id := TrimSpace(name)]);
      SaveUser(u);
      if username == actor.username {
        session := SetUser(u);
      }
    }

    /** ClearStoredPasskeysForAllUsers: one save per account that has passkeys. */
    method ClearStoredPasskeys()
      requires Consistent(View())
      modifies this
      ensures View() == old(View()).(users := Cleared(old(users)), digests := DigestsOf(Cleared(old(users))))
    {
      hide DigestOf, Consistent, Cleared, DigestsOf, PartlyCleared, Save, KeyedByName;
      ghost var was := View();
      NoneCleared(was);
      var todo := users.Keys;
      while todo != {}
        invariant todo <= was.users.Keys
        invariant PartlyCleared(was, todo, View())
        decreases |todo|
      {
        var k :| k in todo;
        OneMoreCleared(was, todo, View(), k);
        var u := users[k];
        if |u.passkeys| != 0 {
          SaveUser(u.(passkeys := []));
        }
        todo := todo - {k};
      }
      AllCleared(was, View());
    }

    /** The passkey part of GlobalSettingSubmit. */
    method SavePasskeySetting(actor: Cookie, enabled: bool) returns (session: Option<Cookie>)
      requires Valid() && actor in issued
      modifies this
      ensures Served(old(View()), Step.SavePasskeySetting(actor, enabled), session)
      ensures issued == old(issued) + (if session.Some? then {session.value} else {})
      ensures
        if old(Accepted(actor)) && actor.admin then
          && passkeysOn == enabled && users.Keys == old(users).Keys
          && (forall k :: k in users ==> users[k] == if old(passkeysOn) && !enabled then old(users)[k].(passkeys := []) else old(users)[k])
          && session == (if old(passkeysOn) && !enabled then Some(CookieFor(users[actor.username])) else None)
        else passkeysOn == old(passkeysOn) && users == old(users) && digests == old(digests) && session == None
    {
      hide DigestOf, Cleared, DigestsOf;
      session := None;
      StepKeepsInvariant(View(), Step.SavePasskeySetting(actor, enabled));
      var valid := IsValidSession(actor);
      if !valid || !actor.admin {
        return;
      }
      var disabledPasskeys := passkeysOn && !enabled;
      if disabledPasskeys {
        AcceptedCookieIsCurrent(View(), actor);
        ClearConsistent(View());
        ClearedMeans(users);
        ClearStoredPasskeys();
        passkeysOn := enabled;
        if actor.username in users {
          StoredAccepts(View(), actor.username);
          session := SetUser(users[actor.username]);
        }
      } else {
        passkeysOn := enabled;
      }
    }

    /** A restart of the process: the cache starts empty and is filled from the store. */
    method Restart()
      requires Valid()
      modifies this
      ensures View() == Apply(old(View()), Step.Restart) && Valid()
      ensures users == old(users) && digests == old(digests) && issued == old(issued) && passkeysOn == old(passkeysOn)
    {
      hide DigestOf, Invariant, PartlyFilled;
      ghost var was := View();
      StepKeepsInvariant(was, Step.Restart);
      CacheIsExact(was);
      digests := map[];
      var todo := users.Keys;
      NoneFilled(users);
      while todo != {}
        invariant todo <= users.Keys && View() == was.(digests := digests)
        invariant PartlyFilled(users, todo, digests)
        decreases |todo|
      {
        var k :| k in todo;
        RecordNamed(was, k);
        OneMoreFilled(users, todo, digests, k);
        var u := users[k];
        var d := GetDBUserCRC32(u);
        digests := digests[u.username := d];
        todo := todo - {k};
      }
      AllFilled(users, digests);
    }

    /** One request, whichever handler it is for. */
    method Handle(step: Step) returns (session: Option<Cookie>)
      requires Valid() && Genuine(View(), step) && FreshHash(View(), step)
      modifies this
      ensures Served(old(View()), step, session)
    {
      hide Apply, Invariant;
      match step
      case Login(name, ok) => session := Login(name, ok);
      case PasskeyLogin(name, ok) => session := PasskeyFinishLogin(name, ok);
      case UpdateUser(actor, previous, form) => session := UpdateUser(actor, previous, form);
      case CreateUser(actor, form) => session := CreateUser(actor, form);
      case RemoveUser(actor, name) => session := RemoveUser(actor, name);
      case SetAdmin(actor, target, flag) => session := SetUserAdmin(actor, target, flag);
      case SetDisabled(actor, target, flag) => session := SetUserDisabled(actor, target, flag);
      case RevokeSessions(actor, target) => session := RevokeUserSessions(actor, target);
      case RegisterPasskey(actor, name, cred, title) => session := PasskeyFinishRegister(actor, name, cred, title);
      case RemovePasskey(actor, name, id) => session := PasskeyRemove(actor, name, id);
      case RenamePasskey(actor, name, id, title) => session := PasskeyRename(actor, name, id, title);
      case SavePasskeySetting(actor, enabled) => session := SavePasskeySetting(actor, enabled);
      case Restart => session := None; Restart();
    }
  }

  /** The cookie of the request is one the server signed: others fail the signature check. */
  ghost predicate Genuine(s: State, step: Step) {
    match step
    case Login(_, _) => true
    case PasskeyLogin(_, _) => true
    case Restart => true
    case _ => step.actor in s.issued
  }

  /** Deleting and saving is replacing, and the cookie of the saved record is then accepted. */
  lemma {:induction false} ReplacedAccepts(s: State, k: string, u: User)
    ensures Save(Delete(s, k), u) == Replace(s, k, u)
    ensures ValidCookie(Replace(s, k, u), CookieFor(u))
    ensures var r := Replace(s, k, u);
            r.users == (s.users - {k})[u.username := u] && r.issued == s.issued && r.passkeysOn == s.passkeysOn
  {
  }

  lemma {:induction false} StoredAccepts(s: State, k: string)
    requires Consistent(s) && k in s.users
    ensures ValidCookie(s, CookieFor(s.users[k]))
  {
  }

  lemma {:induction false} CacheIsExact(s: State)
    requires Invariant(s)
    ensures s.digests == DigestsOf(s.users)
  {
  }

  /** A record with the next epoch matches no cookie issued so far. */
  lemma {:induction false} BumpRejects(s: State, u: User)
    requires Invariant(s) && u.username in s.users
    requires u.passwordHash == s.users[u.username].passwordHash && u.authEpoch > s.users[u.username].authEpoch
    ensures forall c :: c in s.issued ==> c != CookieFor(u)
  {
    forall c | c in s.issued ensures c != CookieFor(u) {
      assert GoodCookie(s, c);
    }
  }

  lemma {:induction false} ClearedMeans(users: Users)
    ensures Cleared(users).Keys == users.Keys && forall k :: k in users ==> Cleared(users)[k] == users[k].(passkeys := [])
  {
  }

  lemma {:induction false} RecordNamed(s: State, k: string)
    requires Invariant(s) && k in s.users
    ensures s.users[k].username == k
  {
  }

  /** The accounts outside `todo` have lost their passkeys and have fresh digests; the rest is untouched. */
  ghost predicate PartlyCleared(was: State, todo: set<string>, now: State) {
    && now == was.(users := now.users, digests := now.digests)
    && now.users.Keys == was.users.Keys && now.digests.Keys == was.users.Keys
    && (forall k :: k in was.users ==> ClearedAt(was.users[k], k in todo, now.users[k], now.digests[k]))
  }

  ghost predicate ClearedAt(was: User, waiting: bool, u: User, d: Digest) {
    u == (if waiting then was else was.(passkeys := [])) && d == DigestOf(u)
  }

  lemma {:induction false} NoneCleared(s: State)
    requires Consistent(s)
    ensures KeyedByName(s.users) && PartlyCleared(s, s.users.Keys, s)
    ensures forall k :: k in s.users ==> s.users[k].passwordHash in s.usedHashes
  {
    hide DigestOf;
  }

  lemma {:induction false} OneMoreCleared(was: State, todo: set<string>, now: State, k: string)
    requires KeyedByName(was.users) && PartlyCleared(was, todo, now) && k in todo && k in was.users
    requires was.users[k].passwordHash in was.usedHashes
    ensures k in now.users && now.users[k].username == k
    ensures now.users[k].passkeys == [] ==> PartlyCleared(was, todo - {k}, now)
    ensures PartlyCleared(was, todo - {k}, Save(now, now.users[k].(passkeys := [])))
  {
    hide DigestOf, PartlyCleared;
    StillUncleared(was, todo, now, k);
    var u := now.users[k].(passkeys := []);
    if now.users[k].passkeys == [] {
      assert u == now.users[k];
      SkipCleared(was, todo, now, k);
    }
    assert now.usedHashes + {u.passwordHash} == now.usedHashes;
    SaveCleared(was, todo, now, k);
  }

  lemma {:induction false} StillUncleared(was: State, todo: set<string>, now: State, k: string)
    requires PartlyCleared(was, todo, now) && k in todo && k in was.users
    ensures k in now.users && now.users[k] == was.users[k] && now.usedHashes == was.usedHashes
  {
  }

  lemma {:induction false} SkipCleared(was: State, todo: set<string>, now: State, k: string)
    requires PartlyCleared(was, todo, now) && k in todo && k in was.users && was.users[k].passkeys == []
    ensures PartlyCleared(was, todo - {k}, now)
  {
  }

  lemma {:induction false} SaveCleared(was: State, todo: set<string>, now: State, k: string)
    requires PartlyCleared(was, todo, now) && k in todo && k in was.users
    ensures var u := was.users[k].(passkeys := []);
            PartlyCleared(was, todo - {k}, now.(users := now.users[k := u], digests := now.digests[k := DigestOf(u)]))
  {
    hide DigestOf;
    ghost var u := was.users[k].(passkeys := []);
    ghost var next := now.(users := now.users[k := u], digests := now.digests[k := DigestOf(u)]);
    forall j | j in was.users ensures ClearedAt(was.users[j], j in todo - {k}, next.users[j], next.digests[j]) {
      assert ClearedAt(was.users[j], j in todo, now.users[j], now.digests[j]);
    }
  }

  lemma {:induction false} AllCleared(was: State, now: State)
    requires PartlyCleared(was, {}, now)
    ensures now == was.(users := Cleared(was.users), digests := DigestsOf(Cleared(was.users)))
  {
    hide DigestOf;
    assert now.users == Cleared(was.users);
    assert now.digests == DigestsOf(Cleared(was.users));
  }

  /** The cache holds the digests of the accounts outside `todo`. */
  ghost predicate PartlyFilled(users: Users, todo: set<string>, digests: map<string, Digest>) {
    && digests.Keys == users.Keys - todo
    && forall k :: k in digests ==> digests[k] == DigestOf(users[k])
  }

  lemma {:induction false} NoneFilled(users: Users)
    ensures PartlyFilled(users, users.Keys, map[])
  {
  }

  lemma {:induction false} OneMoreFilled(users: Users, todo: set<string>, digests: map<string, Digest>, k: string)
    requires PartlyFilled(users, todo, digests) && k in todo && k in users
    ensures PartlyFilled(users, todo - {k}, digests[k := DigestOf(users[k])])
  {
  }

  lemma {:induction false} AllFilled(users: Users, digests: map<string, Digest>)
    requires PartlyFilled(users, {}, digests)
    ensures digests == DigestsOf(users)
  {
  }

  ghost function OtherAdmins(users: Users, among: set<string>, name: string): set<string> {
    set k | k in among && k in users && k != name && ActiveAdmin(users[k])
  }

  lemma {:induction false} OneMoreCounted(users: Users, among: set<string>, k: string, name: string)
    requires k in users && k !in among
    ensures |OtherAdmins(users, among + {k}, name)| == |OtherAdmins(users, among, name)| + (if k != name && ActiveAdmin(users[k]) then 1 else 0)
  {
    if k != name && ActiveAdmin(users[k]) {
      assert OtherAdmins(users, among + {k}, name) == OtherAdmins(users, among, name) + {k};
    } else {
      assert OtherAdmins(users, among + {k}, name) == OtherAdmins(users, among, name);
    }
  }

  lemma {:induction false} CountedExists(users: Users, name: string)
    ensures |OtherAdmins(users, users.Keys, name)| >= 1 <==> OtherActiveAdmin(users, name)
  {
    var counted := OtherAdmins(users, users.Keys, name);
    if OtherActiveAdmin(users, name) {
      var k :| k in users && k != name && ActiveAdmin(users[k]);
      assert k in counted;
    }
    if |counted| >= 1 {
      var k :| k in counted;
    }
  }
}
