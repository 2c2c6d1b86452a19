/** What holds in every reachable state of users and sessions. */
module UserSafety {
  import opened Texts
  import opened UserState

  ghost predicate KeyedByName(users: Users) {
    forall k :: k in users ==> users[k].username == k
  }

  /** Every account has its own password hash, and all of them have been recorded as used. */
  ghost predicate OwnHashes(users: Users, used: set<string>) {
    && (forall k :: k in users ==> users[k].passwordHash in used)
    && (forall j, k :: j in users && k in users && users[j].passwordHash == users[k].passwordHash ==> j == k)
  }

  /** No cookie was issued for a suspended account, and none is ahead of its account's epoch. */
  ghost predicate GoodCookie(s: State, c: Cookie) {
    && c.hash.username == c.username && c.hash.admin == c.admin && !c.hash.disabled
    && c.hash.passwordHash in s.usedHashes
    && (forall k :: k in s.users && s.users[k].passwordHash == c.hash.passwordHash ==> c.hash.authEpoch <= s.users[k].authEpoch)
  }

  ghost predicate Consistent(s: State) {
    && KeyedByName(s.users)
    && s.digests == DigestsOf(s.users)
    && "" !in s.usedHashes && OwnHashes(s.users, s.usedHashes)
    && (forall c :: c in s.issued ==> GoodCookie(s, c))
  }

  ghost predicate SomeActiveAdmin(users: Users) {
    exists k :: k in users && ActiveAdmin(users[k])
  }

  ghost predicate Invariant(s: State) {
    Consistent(s) && SomeActiveAdmin(s.users)
  }

  // ----- one account changes

  /** A new record for account k: same person, so the same hash with an epoch that did not go
      down, or a brand-new hash. */
  ghost predicate Successor(s: State, k: string, u: User) {
    && k in s.users && (u.username == k || u.username !in s.users)
    && if u.passwordHash == s.users[k].passwordHash then u.authEpoch >= s.users[k].authEpoch
       else u.passwordHash !in s.usedHashes && u.passwordHash != ""
  }

  lemma {:induction false} ReplaceConsistent(s: State, k: string, u: User)
    requires Consistent(s) && Successor(s, k, u)
    ensures Consistent(Replace(s, k, u))
  {
    hide DigestOf;
    var s' := Replace(s, k, u);
    assert s'.digests == DigestsOf(s'.users);
    hide DigestsOf;
    forall c | c in s'.issued ensures GoodCookie(s', c) {
      assert GoodCookie(s, c);
    }
  }

  /** Saving under the same name is the same as deleting first. */
  lemma {:induction false} SaveIsReplace(s: State, u: User)
    requires u.username in s.users && s.digests == DigestsOf(s.users)
    ensures Save(s, u) == Replace(s, u.username, u)
  {
    assert s.users[u.username := u] == (s.users - {u.username})[u.username := u];
  }

  lemma {:induction false} IssueConsistent(s: State, u: User)
    requires Consistent(s) && u.username in s.users && s.users[u.username] == u && !u.disabled
    ensures Consistent(Issue(s, u))
  {
  }

  /** A new account, whose hash nobody has used. */
  lemma {:induction false} CreateConsistent(s: State, u: User)
    requires Consistent(s) && u.username !in s.users && u.passwordHash !in s.usedHashes && u.passwordHash != ""
    ensures Consistent(Save(s, u))
  {
    hide DigestOf;
    var s' := Save(s, u);
    assert s'.digests == DigestsOf(s'.users);
    hide DigestsOf;
    forall c | c in s'.issued ensures GoodCookie(s', c) {
      assert GoodCookie(s, c);
    }
  }

  lemma {:induction false} DeleteConsistent(s: State, k: string)
    requires Consistent(s)
    ensures Consistent(Delete(s, k))
  {
    hide DigestOf;
    var s' := Delete(s, k);
    assert s'.digests == DigestsOf(s'.users);
    hide DigestsOf;
    forall c | c in s'.issued ensures GoodCookie(s', c) {
      assert GoodCookie(s, c);
    }
  }

  lemma {:induction false} ClearConsistent(s: State)
    requires Consistent(s)
    ensures Consistent(s.(users := Cleared(s.users), digests := DigestsOf(Cleared(s.users)), passkeysOn := false))
  {
  }

  // ----- what an accepted cookie says

  /** No cookie ever issued is accepted for a suspended account, and an accepted cookie's
      admin flag is the stored one. */
  lemma {:induction false} AcceptedCookieIsCurrent(s: State, c: Cookie)
    requires Consistent(s) && Authorized(s, c)
    ensures c.username in s.users
    ensures s.users[c.username].username == c.username
    ensures !s.users[c.username].disabled && s.users[c.username].admin == c.admin
    ensures c.hash == DigestOf(s.users[c.username])
  {
  }

  // ----- what the digest tells apart

  /** How many of the passkeys carry the id. */
  ghost function Holding(ps: seq<Passkey>, id: string): nat {
    |set i | 0 <= i < |ps| && ps[i].id == id|
  }

  lemma {:induction false} HoldingSnoc(ps: seq<Passkey>, id: string)
    ensures Holding([], id) == 0
    ensures ps != [] ==> Holding(ps, id) == Holding(ps[..|ps| - 1], id) + (if ps[|ps| - 1].id == id then 1 else 0)
  {
    var none: seq<Passkey> := [];
    assert (set i | 0 <= i < |none| && none[i].id == id) == {};
    if ps != [] {
      var init, n := ps[..|ps| - 1], |ps| - 1;
      var at, before := set i | 0 <= i < |ps| && ps[i].id == id, set i | 0 <= i < |init| && init[i].id == id;
      assert at == before + (if ps[n].id == id then {n} else {});
    }
  }

  lemma {:induction false} IdsCounted(ps: seq<Passkey>, id: string)
    ensures PasskeyIds(ps)[id] == if id == "" then 0 else Holding(ps, id)
  {
    hide Holding;
    HoldingSnoc(ps, id);
    if ps != [] {
      IdsCounted(ps[..|ps| - 1], id);
    }
  }

  /** Two records have one digest exactly when they agree on name, password, hash, role,
      suspension and epoch, on display name and email up to surrounding space, on the non-empty
      credential ids with their multiplicity, and on the labels of those ids up to space. */
  lemma {:induction false} DigestEqualIff(u: User, v: User)
    ensures DigestOf(u) == DigestOf(v) <==>
            && u.username == v.username && u.password == v.password && u.passwordHash == v.passwordHash
            && u.admin == v.admin && u.disabled == v.disabled && u.authEpoch == v.authEpoch
            && TrimSpace(u.displayName) == TrimSpace(v.displayName) && TrimSpace(u.email) == TrimSpace(v.email)
            && (forall id :: id != "" ==> Holding(u.passkeys, id) == Holding(v.passkeys, id))
            && (forall id :: id != "" && Holding(u.passkeys, id) > 0 ==> SameLabel(u.labels, v.labels, id))
  {
    hide TrimSpace, PasskeyIds, Holding;
    var a, b := PasskeyIds(u.passkeys), PasskeyIds(v.passkeys);
    forall id ensures a[id] == (if id == "" then 0 else Holding(u.passkeys, id)) && b[id] == (if id == "" then 0 else Holding(v.passkeys, id)) {
      IdsCounted(u.passkeys, id);
      IdsCounted(v.passkeys, id);
    }
    SameIds(u.passkeys, v.passkeys);
    if a == b {
      SameLabels(u.labels, v.labels, a);
    }
  }

  ghost predicate SameLabel(a: map<string, string>, b: map<string, string>, id: string) {
    (id in a <==> id in b) && (id in a && id in b ==> TrimSpace(a[id]) == TrimSpace(b[id]))
  }

  lemma {:induction false} SameIds(p: seq<Passkey>, q: seq<Passkey>)
    ensures PasskeyIds(p) == PasskeyIds(q) <==> forall id :: id != "" ==> Holding(p, id) == Holding(q, id)
  {
    hide PasskeyIds, Holding;
    forall id ensures PasskeyIds(p)[id] == (if id == "" then 0 else Holding(p, id)) && PasskeyIds(q)[id] == (if id == "" then 0 else Holding(q, id)) {
      IdsCounted(p, id);
      IdsCounted(q, id);
    }
    if forall id :: id != "" ==> Holding(p, id) == Holding(q, id) {
      assert forall id :: PasskeyIds(p)[id] == PasskeyIds(q)[id];
    } else {
      var id :| id != "" && Holding(p, id) != Holding(q, id);
      assert PasskeyIds(p)[id] != PasskeyIds(q)[id];
    }
  }

  lemma {:induction false} SameLabels(a: map<string, string>, b: map<string, string>, ids: multiset<string>)
    ensures (map k | k in a && k in ids :: TrimSpace(a[k])) == (map k | k in b && k in ids :: TrimSpace(b[k]))
       <==> forall id :: id in ids ==> SameLabel(a, b, id)
  {
    hide TrimSpace;
    var l, r := map k | k in a && k in ids :: TrimSpace(a[k]), map k | k in b && k in ids :: TrimSpace(b[k]);
    if l == r {
      forall id | id in ids ensures SameLabel(a, b, id) {
        assert id in l <==> id in r;
      }
    }
    if forall id :: id in ids ==> SameLabel(a, b, id) {
      forall k ensures k in l <==> k in r {
        if k in ids {
          assert SameLabel(a, b, k);
        }
      }
      forall k | k in l ensures l[k] == r[k] {
        assert SameLabel(a, b, k);
      }
    }
  }

  // ----- every step

  lemma {:induction false} SaveExistingConsistent(s: State, actor: Cookie, u: User)
    requires Consistent(s) && u.username in s.users && Successor(s, u.username, u)
    ensures Consistent(Save(s, u))
    ensures Authorized(s, actor) && (actor.username == u.username ==> !u.disabled) ==> Consistent(IssueIfSelf(Save(s, u), actor, u.username, u))
  {
    SaveIsReplace(s, u);
    ReplaceConsistent(s, u.username, u);
    if Authorized(s, actor) && actor.username == u.username && !u.disabled {
      IssueConsistent(Save(s, u), u);
    }
  }

  lemma {:induction false} LoginKeeps(s: State, username: string, ok: bool)
    requires Consistent(s)
    ensures Consistent(LoginStep(s, username, ok)) && LoginStep(s, username, ok).users == s.users
  {
  }

  lemma {:induction false} UpdateUserKeeps(s: State, actor: Cookie, previous: string, form: UserForm)
    requires Invariant(s) && form.newHash !in s.usedHashes
    ensures Invariant(UpdateUserStep(s, actor, previous, form))
  {
    if CanUpdate(s, actor, previous, form) {
      var u := Edited(s, actor, previous, form);
      var s' := Replace(s, previous, u);
      AcceptedCookieIsCurrent(s, actor);
      ReplaceConsistent(s, previous, u);
      if previous == actor.username && form.newHash == "" {
        IssueConsistent(s', u);
      }
      EditKeepsAdmin(s, actor, previous, form);
    }
  }

  lemma {:induction false} EditKeepsAdmin(s: State, actor: Cookie, previous: string, form: UserForm)
    requires Invariant(s) && CanUpdate(s, actor, previous, form)
    ensures SomeActiveAdmin(Replace(s, previous, Edited(s, actor, previous, form)).users)
  {
    var u := Edited(s, actor, previous, form);
    var after := Replace(s, previous, u).users;
    if OtherActiveAdmin(s.users, previous) {
      var k :| k in s.users && k != previous && ActiveAdmin(s.users[k]);
      assert k in after && after[k] == s.users[k];
    } else {
      var k :| k in s.users && ActiveAdmin(s.users[k]);
      assert k == previous && after[u.username] == u && ActiveAdmin(u);
    }
  }

  /** Someone else stays an active administrator, or the saved record is one. */
  lemma {:induction false} SaveKeepsAdmin(s: State, u: User)
    requires SomeActiveAdmin(s.users) && u.username in s.users
    requires ActiveAdmin(s.users[u.username]) && !ActiveAdmin(u) ==> OtherActiveAdmin(s.users, u.username)
    ensures SomeActiveAdmin(Save(s, u).users)
  {
    var after := Save(s, u).users;
    if OtherActiveAdmin(s.users, u.username) {
      var k :| k in s.users && k != u.username && ActiveAdmin(s.users[k]);
      assert after[k] == s.users[k];
    } else {
      var k :| k in s.users && ActiveAdmin(s.users[k]);
      assert k == u.username && after[k] == u;
    }
  }

  lemma {:induction false} SaveExistingKeeps(s: State, actor: Cookie, u: User)
    requires Invariant(s) && Authorized(s, actor) && u.username in s.users && Successor(s, u.username, u)
    requires ActiveAdmin(s.users[u.username]) && !ActiveAdmin(u) ==> OtherActiveAdmin(s.users, u.username)
    ensures Invariant(Save(s, u))
    ensures (actor.username == u.username ==> !u.disabled) ==> Invariant(IssueIfSelf(Save(s, u), actor, u.username, u))
  {
    SaveExistingConsistent(s, actor, u);
    SaveKeepsAdmin(s, u);
  }

  lemma {:induction false} CreateUserKeeps(s: State, actor: Cookie, form: UserForm)
    requires Invariant(s) && form.newHash !in s.usedHashes
    ensures Invariant(CreateUserStep(s, actor, form))
  {
    if Authorized(s, actor) && actor.admin && ValidUsername(form.username) && form.newHash != "" && form.username !in s.users {
      var u := User(form.username, "", form.newHash, form.admin, false, 0, TrimSpace(form.displayName), TrimSpace(form.email), [], map[]);
      CreateConsistent(s, u);
      var k :| k in s.users && ActiveAdmin(s.users[k]);
      assert Save(s, u).users[k] == s.users[k];
    }
  }

  lemma {:induction false} RemoveUserKeeps(s: State, actor: Cookie, username: string)
    requires Invariant(s)
    ensures Invariant(RemoveUserStep(s, actor, username))
  {
    if username in s.users && !s.users[username].admin {
      DeleteConsistent(s, username);
      var k :| k in s.users && ActiveAdmin(s.users[k]);
      assert Delete(s, username).users[k] == s.users[k];
    }
  }

  lemma {:induction false} SetAdminKeeps(s: State, actor: Cookie, target: string, admin: bool)
    requires Invariant(s)
    ensures Invariant(SetAdminStep(s, actor, target, admin))
  {
    hide Invariant, Save, IssueIfSelf, DigestOf;
    if SetAdminStep(s, actor, target, admin) != s {
      StoredRecord(s, actor, target);
      SaveExistingKeeps(s, actor, s.users[target].(admin := admin));
    }
  }

  lemma {:induction false} SetDisabledKeeps(s: State, actor: Cookie, target: string, disabled: bool)
    requires Invariant(s)
    ensures Invariant(SetDisabledStep(s, actor, target, disabled))
  {
    hide Invariant, Save, IssueIfSelf, DigestOf;
    if SetDisabledStep(s, actor, target, disabled) != s {
      StoredRecord(s, actor, target);
      SaveExistingKeeps(s, actor, s.users[target].(disabled := disabled));
    }
  }

  lemma {:induction false} RevokeKeeps(s: State, actor: Cookie, target: string)
    requires Invariant(s)
    ensures Invariant(RevokeStep(s, actor, target))
  {
    hide Invariant, Save, IssueIfSelf, DigestOf;
    if RevokeStep(s, actor, target) != s {
      StoredRecord(s, actor, target);
      SaveExistingKeeps(s, actor, s.users[target].(authEpoch := s.users[target].authEpoch + 1));
    }
  }

  /** The acting user is not suspended, and the target record carries its own name. */
  lemma {:induction false} StoredRecord(s: State, actor: Cookie, target: string)
    requires Invariant(s) && Authorized(s, actor) && target in s.users
    ensures s.users[target].username == target
    ensures actor.username == target ==> !s.users[target].disabled
  {
  }

  lemma {:induction false} RegisterKeeps(s: State, actor: Cookie, username: string, cred: Passkey, name: string)
    requires Invariant(s)
    ensures Invariant(RegisterStep(s, actor, username, cred, name))
  {
    hide Invariant, Save, IssueIfSelf, DigestOf;
    if MayManagePasskeys(s, actor, username) {
      StoredRecord(s, actor, username);
      var u := s.users[username];
      SaveExistingKeeps(s, actor, u.(passkeys := u.passkeys + [cred], labels := if name != "" then u.labels[cred.id := name] else u.labels));
    }
  }

  lemma {:induction false} RemovePasskeyKeeps(s: State, actor: Cookie, username: string, id: string)
    requires Invariant(s)
    ensures Invariant(RemovePasskeyStep(s, actor, username, id))
  {
    hide Invariant, Save, IssueIfSelf, DigestOf, WithoutCredential;
    if MayManagePasskeys(s, actor, username) {
      StoredRecord(s, actor, username);
      var u := s.users[username];
      SaveExistingKeeps(s, actor, u.(passkeys := WithoutCredential(u.passkeys, id), labels := u.labels - {id}, authEpoch := u.authEpoch + 1));
    }
  }

  lemma {:induction false} RenamePasskeyKeeps(s: State, actor: Cookie, username: string, id: string, name: string)
    requires Invariant(s)
    ensures Invariant(RenamePasskeyStep(s, actor, username, id, name))
  {
    hide Invariant, Save, IssueIfSelf, DigestOf, TrimSpace;
    if MayManagePasskeys(s, actor, username) {
      StoredRecord(s, actor, username);
      SaveExistingKeeps(s, actor, s.users[username].(labels := s.users[username].labels[id := TrimSpace(name)]));
    }
  }

  lemma {:induction false} PasskeySettingKeeps(s: State, actor: Cookie, enabled: bool)
    requires Invariant(s)
    ensures Invariant(SavePasskeySettingStep(s, actor, enabled))
  {
  }

  /** Every handler keeps the invariant. */
  lemma {:induction false} StepKeepsInvariant(s: State, step: Step)
    requires Invariant(s) && FreshHash(s, step)
    ensures Invariant(Apply(s, step))
  {
    hide LoginStep, UpdateUserStep, CreateUserStep, RemoveUserStep, SetAdminStep, SetDisabledStep, RevokeStep, RegisterStep,
      RemovePasskeyStep, RenamePasskeyStep, SavePasskeySettingStep, KeyedByName, OwnHashes, GoodCookie, SomeActiveAdmin;
    match step
    case Login(name, ok) => LoginKeeps(s, name, ok);
    case PasskeyLogin(name, ok) => LoginKeeps(s, name, ok);
    case UpdateUser(actor, previous, form) => UpdateUserKeeps(s, actor, previous, form);
    case CreateUser(actor, form) => CreateUserKeeps(s, actor, form);
    case RemoveUser(actor, name) => RemoveUserKeeps(s, actor, name);
    case SetAdmin(actor, target, flag) => SetAdminKeeps(s, actor, target, flag);
    case SetDisabled(actor, target, flag) => SetDisabledKeeps(s, actor, target, flag);
    case RevokeSessions(actor, target) => RevokeKeeps(s, actor, target);
    case RegisterPasskey(actor, name, cred, title) => RegisterKeeps(s, actor, name, cred, title);
    case RemovePasskey(actor, name, id) => RemovePasskeyKeeps(s, actor, name, id);
    case RenamePasskey(actor, name, id, title) => RenamePasskeyKeeps(s, actor, name, id, title);
    case SavePasskeySetting(actor, enabled) => PasskeySettingKeeps(s, actor, enabled);
    case Restart =>
  }

  /** In every reachable state: records keyed by name, the digest cache exact, at least one
      active administrator, no cookie usable for a suspended account. */
  lemma {:induction false} RunKeepsInvariant(s: State, steps: seq<Step>)
    requires Invariant(s) && FreshHashes(s, steps)
    ensures Invariant(Run(s, steps))
  {
    if steps != [] {
      FreshPrefix(s, steps);
      RunKeepsInvariant(s, steps[..|steps| - 1]);
      StepKeepsInvariant(Run(s, steps[..|steps| - 1]), steps[|steps| - 1]);
    }
  }

  lemma {:induction false} FirstRunInvariant(username: string, hash: string, passkeysOn: bool)
    requires hash != ""
    ensures Invariant(FirstRun(username, hash, passkeysOn))
  {
    hide DigestOf;
    var s := FirstRun(username, hash, passkeysOn);
    assert ActiveAdmin(s.users[username]);
    assert s.digests == DigestsOf(s.users);
  }

  /** So all of it holds in every state reachable from the first run of the program. */
  lemma {:induction false} ReachableInvariant(username: string, hash: string, passkeysOn: bool, steps: seq<Step>)
    requires hash != "" && FreshHashes(FirstRun(username, hash, passkeysOn), steps)
    ensures Invariant(Run(FirstRun(username, hash, passkeysOn), steps))
  {
    FirstRunInvariant(username, hash, passkeysOn);
    RunKeepsInvariant(FirstRun(username, hash, passkeysOn), steps);
  }

  lemma {:induction false} FreshPrefix(s: State, steps: seq<Step>)
    requires FreshHashes(s, steps) && steps != []
    ensures FreshHashes(s, steps[..|steps| - 1])
    ensures FreshHash(Run(s, steps[..|steps| - 1]), steps[|steps| - 1])
  {
    var init := steps[..|steps| - 1];
    forall i | 0 <= i < |init| ensures FreshHash(Run(s, init[..i]), init[i]) {
      assert init[..i] == steps[..i];
    }
  }
}
