/** Which cookies die for good, and which come back. */
module SessionRevocation {
  import opened Texts
  import opened UserState
  import opened UserSafety

  /** No present or future account state can match this cookie: its password hash belongs to
      nobody any more, or only to an account whose epoch has moved past it. */
  ghost predicate Dead(s: State, c: Cookie) {
    && c.hash.passwordHash in s.usedHashes
    && forall k :: k in s.users && s.users[k].passwordHash == c.hash.passwordHash ==> s.users[k].authEpoch > c.hash.authEpoch
  }

  lemma {:induction false} DeadIsRejected(s: State, c: Cookie)
    requires Consistent(s) && Dead(s, c)
    ensures !ValidCookie(s, c)
  {
  }

  /** How a step may treat account records: gone, kept (perhaps under another name) with an
      epoch not lower, or given a hash that was never used.  A name that stays keeps its account. */
  ghost predicate Traceable(s: State, s': State) {
    && s.usedHashes <= s'.usedHashes
    && forall k :: k in s'.users ==> Descends(s, s'.users[k]) && (k in s.users ==> Continues(s, s.users[k], s'.users[k]))
  }

  ghost predicate Continues(s: State, was: User, u: User) {
    (u.passwordHash == was.passwordHash && u.authEpoch >= was.authEpoch) || u.passwordHash !in s.usedHashes
  }

  ghost predicate Descends(s: State, u: User) {
    u.passwordHash !in s.usedHashes || exists j :: j in s.users && Continues(s, s.users[j], u)
  }

  lemma {:induction false} OneChangeTraceable(s: State, s': State, u: User)
    requires s.usedHashes <= s'.usedHashes && Descends(s, u)
    requires forall k :: k in s'.users ==> s'.users[k] == u || (k in s.users && s'.users[k] == s.users[k])
    requires u.username in s.users ==> Continues(s, s.users[u.username], u)
    requires forall k :: k in s'.users && s'.users[k] == u ==> k == u.username
    ensures Traceable(s, s')
  {
  }

  lemma {:induction false} SameUsersTraceable(s: State, s': State)
    requires s'.users == s.users && s.usedHashes <= s'.usedHashes
    ensures Traceable(s, s')
  {
  }

  lemma {:induction false} UpdateTraceable(s: State, actor: Cookie, name: string, form: UserForm)
    requires Consistent(s) && form.newHash !in s.usedHashes
    ensures Traceable(s, UpdateUserStep(s, actor, name, form))
  {
    hide DigestOf, TrimSpace, CanUpdate;
    if CanUpdate(s, actor, name, form) {
      ExistingTarget(s, actor, name, form);
      var u := Edited(s, actor, name, form);
      assert Continues(s, s.users[name], u);
      OneChangeTraceable(s, UpdateUserStep(s, actor, name, form), u);
    } else {
      SameUsersTraceable(s, s);
    }
  }

  lemma {:induction false} CreateTraceable(s: State, actor: Cookie, form: UserForm)
    requires Consistent(s) && form.newHash !in s.usedHashes
    ensures Traceable(s, CreateUserStep(s, actor, form))
  {
  }

  lemma {:induction false} ExistingTarget(s: State, actor: Cookie, name: string, form: UserForm)
    requires CanUpdate(s, actor, name, form)
    ensures name in s.users && (form.username == name || form.username !in s.users)
  {
  }

  /** Saving a changed record of the same account. */
  lemma {:induction false} SaveTraceable(s: State, s': State, u: User)
    requires u.username in s.users && KeyedByName(s.users)
    requires u.passwordHash == s.users[u.username].passwordHash && u.authEpoch >= s.users[u.username].authEpoch
    requires s'.users == s.users[u.username := u] && s.usedHashes <= s'.usedHashes
    ensures Traceable(s, s')
  {
  }

  lemma {:induction false} SetAdminTraceable(s: State, actor: Cookie, name: string, admin: bool)
    requires Consistent(s)
    ensures Traceable(s, SetAdminStep(s, actor, name, admin))
  {
    hide DigestOf, TrimSpace, Authorized, WithoutCredential, HasCredential, ValidUsername, OtherActiveAdmin, Traceable;
    SameUsersTraceable(s, s);
    if SetAdminStep(s, actor, name, admin) != s {
      var u := s.users[name];
      SaveTraceable(s, SetAdminStep(s, actor, name, admin), u.(admin := admin));
    }
  }

  lemma {:induction false} SetDisabledTraceable(s: State, actor: Cookie, name: string, disabled: bool)
    requires Consistent(s)
    ensures Traceable(s, SetDisabledStep(s, actor, name, disabled))
  {
    hide DigestOf, TrimSpace, Authorized, WithoutCredential, HasCredential, ValidUsername, OtherActiveAdmin, Traceable;
    SameUsersTraceable(s, s);
    if SetDisabledStep(s, actor, name, disabled) != s {
      var u := s.users[name];
      SaveTraceable(s, SetDisabledStep(s, actor, name, disabled), u.(disabled := disabled));
    }
  }

  lemma {:induction false} RevokeTraceable(s: State, actor: Cookie, name: string)
    requires Consistent(s)
    ensures Traceable(s, RevokeStep(s, actor, name))
  {
  }

  lemma {:induction false} RegisterTraceable(s: State, actor: Cookie, name: string, cred: Passkey, title: string)
    requires Consistent(s)
    ensures Traceable(s, RegisterStep(s, actor, name, cred, title))
  {
    hide DigestOf, TrimSpace, Authorized, WithoutCredential, HasCredential, ValidUsername, OtherActiveAdmin, Traceable;
    SameUsersTraceable(s, s);
    if RegisterStep(s, actor, name, cred, title) != s {
      var u := s.users[name];
      SaveTraceable(s, RegisterStep(s, actor, name, cred, title), u.(passkeys := u.passkeys + [cred], labels := if title != "" then u.labels[cred.id := title] else u.labels));
    }
  }

  lemma {:induction false} RemovePasskeyTraceable(s: State, actor: Cookie, name: string, id: string)
    requires Consistent(s)
    ensures Traceable(s, RemovePasskeyStep(s, actor, name, id))
  {
    hide DigestOf, TrimSpace, Authorized, WithoutCredential, HasCredential, ValidUsername, OtherActiveAdmin, Traceable;
    SameUsersTraceable(s, s);
    if RemovePasskeyStep(s, actor, name, id) != s {
      var u := s.users[name];
      SaveTraceable(s, RemovePasskeyStep(s, actor, name, id), WithoutPasskey(u, id));
    }
  }

  lemma {:induction false} RenamePasskeyTraceable(s: State, actor: Cookie, name: string, id: string, title: string)
    requires Consistent(s)
    ensures Traceable(s, RenamePasskeyStep(s, actor, name, id, title))
  {
    hide DigestOf, TrimSpace, Authorized, WithoutCredential, HasCredential, ValidUsername, OtherActiveAdmin, Traceable;
    SameUsersTraceable(s, s);
    if RenamePasskeyStep(s, actor, name, id, title) != s {
      var u := s.users[name];
      SaveTraceable(s, RenamePasskeyStep(s, actor, name, id, title), u.(labels := u.labels[id := TrimSpace(title)]));
    }
  }

  ghost function WithoutPasskey(u: User, id: string): User {
    u.(passkeys := WithoutCredential(u.passkeys, id), labels := u.labels - {id}, authEpoch := u.authEpoch + 1)
  }

  lemma {:induction false} SettingTraceable(s: State, actor: Cookie, enabled: bool)
    ensures Traceable(s, SavePasskeySettingStep(s, actor, enabled))
  {
  }

  lemma {:induction false} StepTraceable(s: State, step: Step)
    requires Consistent(s) && FreshHash(s, step)
    ensures Traceable(s, Apply(s, step))
  {
    hide LoginStep, UpdateUserStep, CreateUserStep, RemoveUserStep, SetAdminStep, SetDisabledStep, RevokeStep, RegisterStep,
      RemovePasskeyStep, RenamePasskeyStep, SavePasskeySettingStep, Traceable, Descends;
    SameUsersTraceable(s, s);
    match step
    case Login(name, ok) => LoginTraceable(s, name, ok);
    case PasskeyLogin(name, ok) => LoginTraceable(s, name, ok);
    case UpdateUser(actor, previous, form) => UpdateTraceable(s, actor, previous, form);
    case CreateUser(actor, form) => CreateTraceable(s, actor, form);
    case RemoveUser(actor, name) => RemoveTraceable(s, actor, name);
    case SetAdmin(actor, target, flag) => SetAdminTraceable(s, actor, target, flag);
    case SetDisabled(actor, target, flag) => SetDisabledTraceable(s, actor, target, flag);
    case RevokeSessions(actor, target) => RevokeTraceable(s, actor, target);
    case RegisterPasskey(actor, name, cred, title) => RegisterTraceable(s, actor, name, cred, title);
    case RemovePasskey(actor, name, id) => RemovePasskeyTraceable(s, actor, name, id);
    case RenamePasskey(actor, name, id, title) => RenamePasskeyTraceable(s, actor, name, id, title);
    case SavePasskeySetting(actor, enabled) => SettingTraceable(s, actor, enabled);
    case Restart => SameUsersTraceable(s, Apply(s, step));
  }

  lemma {:induction false} LoginTraceable(s: State, name: string, ok: bool)
    ensures Traceable(s, LoginStep(s, name, ok))
  {
  }

  lemma {:induction false} RemoveTraceable(s: State, actor: Cookie, name: string)
    ensures Traceable(s, RemoveUserStep(s, actor, name))
  {
  }

  // ----- theorems about whole runs

  lemma {:induction false} DeadStaysDead(s: State, s': State, c: Cookie)
    requires Traceable(s, s') && Dead(s, c)
    ensures Dead(s', c)
  {
  }

  /** A dead cookie is rejected in every later state, whatever happens to its account. */
  lemma {:induction false} DeadForever(s: State, steps: seq<Step>, c: Cookie)
    requires Invariant(s) && FreshHashes(s, steps) && Dead(s, c)
    ensures Dead(Run(s, steps), c) && !ValidCookie(Run(s, steps), c)
  {
    RunKeepsInvariant(s, steps);
    if steps != [] {
      var init := steps[..|steps| - 1];
      FreshPrefix(s, steps);
      DeadForever(s, init, c);
      RunKeepsInvariant(s, init);
      StepTraceable(Run(s, init), steps[|steps| - 1]);
      DeadStaysDead(Run(s, init), Run(s, steps), c);
    }
    DeadIsRejected(Run(s, steps), c);
  }

  /** The requests that bump the epoch of account `name`: an accepted administrator revokes the
      sessions of an account that is not suspended; or, with passkeys on, the account itself or
      an accepted administrator removes a passkey it holds. */
  ghost predicate Bumps(s: State, step: Step, name: string) {
    && name in s.users && ValidUsername(name)
    && ((step.RevokeSessions? && step.target == name && Authorized(s, step.actor) && step.actor.admin && !s.users[name].disabled)
        || (step.RemovePasskey? && step.username == name && s.passkeysOn
            && Authorized(s, step.actor) && (step.actor.admin || step.actor.username == name)
            && step.id != "" && exists i :: 0 <= i < |s.users[name].passkeys| && s.users[name].passkeys[i].id == step.id))
  }

  /** Such a request leaves the epoch one higher, under the same hash and name, and every other
      account as it was; every cookie that carries the account's password hash is dead, and
      every cookie issued under its name is rejected. */
  lemma {:induction false} BumpKills(s: State, step: Step, name: string, c: Cookie)
    requires Invariant(s) && Bumps(s, step, name) && c in s.issued
    ensures var s' := Apply(s, step);
            && s'.users.Keys == s.users.Keys && (forall k :: k in s.users && k != name ==> s'.users[k] == s.users[k])
            && s'.users[name].authEpoch == s.users[name].authEpoch + 1
            && s'.users[name].passwordHash == s.users[name].passwordHash && s'.users[name].username == name
            && (c.hash.passwordHash == s.users[name].passwordHash ==> Dead(s', c))
            && (c.username == name ==> Stale(s', c) && !ValidCookie(s', c))
  {
    hide WithoutCredential, DigestOf, Apply, Dead, Stale, ValidCookie, Bumped, Authorized, ValidUsername, GoodCookie;
    BumpIsSave(s, step, name);
    BumpedSaveKills(s, Bumped(s, step, name), c);
    BumpIsFresh(s, step, name);
    hide Bumps;
    StepKeepsInvariant(s, step);
    if c.username == name {
      StaleIsRejected(Apply(s, step), c);
    }
  }

  lemma {:induction false} BumpIsFresh(s: State, step: Step, name: string)
    requires Bumps(s, step, name)
    ensures FreshHash(s, step)
  {
  }

  /** Any other such request changes nothing. */
  lemma {:induction false} OtherwiseNothing(s: State, step: Step, name: string)
    requires Invariant(s) && !Bumps(s, step, name)
    requires (step.RevokeSessions? && step.target == name) || (step.RemovePasskey? && step.username == name)
    ensures Apply(s, step) == s
  {
    hide WithoutCredential, DigestOf, Save, Authorized, ValidUsername;
  }

  /** The record a bump writes. */
  ghost function Bumped(s: State, step: Step, name: string): User
    requires name in s.users
  {
    if step.RemovePasskey? then WithoutPasskey(s.users[name], step.id)
    else s.users[name].(authEpoch := s.users[name].authEpoch + 1)
  }

  lemma {:induction false} BumpIsSave(s: State, step: Step, name: string)
    requires Invariant(s) && Bumps(s, step, name)
    ensures Apply(s, step) == Save(s, Bumped(s, step, name)) && s.users[name].username == name
    ensures var u := Bumped(s, step, name);
            u.username == name && u.passwordHash == s.users[name].passwordHash && u.authEpoch == s.users[name].authEpoch + 1
  {
    hide WithoutCredential, DigestOf, Save, Authorized, ValidUsername;
  }

  lemma {:induction false} BumpedSaveKills(s: State, u: User, c: Cookie)
    requires Consistent(s) && GoodCookie(s, c) && u.username in s.users
    requires u.passwordHash == s.users[u.username].passwordHash && u.authEpoch == s.users[u.username].authEpoch + 1
    ensures c.hash.passwordHash == u.passwordHash ==> Dead(Save(s, u), c)
    ensures c.username == u.username ==> Stale(Save(s, u), c)
  {
  }

  /** An edit that sets a new password: by the account itself or an accepted administrator,
      under a free name, and not taking the role of the last active administrator. */
  ghost predicate ChangesPassword(s: State, step: Step) {
    && step.UpdateUser? && step.form.newHash != ""
    && Authorized(s, step.actor) && (step.actor.admin || step.previous == step.actor.username)
    && ValidUsername(step.previous) && step.previous in s.users
    && ValidUsername(step.form.username) && (step.form.username == step.previous || step.form.username !in s.users)
    && (step.previous == step.actor.username || step.form.admin || !s.users[step.previous].admin || OtherActiveAdmin(s.users, step.previous))
  }

  /** It stores the new hash and kills every cookie that carries the old one. */
  lemma {:induction false} PasswordChangeKills(s: State, step: Step, c: Cookie)
    requires Invariant(s) && FreshHash(s, step) && ChangesPassword(s, step)
    requires c.hash.passwordHash == s.users[step.previous].passwordHash
    ensures step.form.username in Apply(s, step).users && Apply(s, step).users[step.form.username].passwordHash == step.form.newHash
    ensures Dead(Apply(s, step), c)
  {
    hide DigestOf, TrimSpace, ValidUsername, Authorized;
    assert Apply(s, step).users == Replace(s, step.previous, Edited(s, step.actor, step.previous, step.form)).users;
  }

  /** So no cookie accepted for an account before a bump or a new password is ever accepted
      again, and the same holds of every other cookie that carries the account's hash. */
  lemma {:induction false} RevokedForever(s: State, step: Step, name: string, c: Cookie, steps: seq<Step>)
    requires Invariant(s) && FreshHash(s, step) && c in s.issued
    requires Bumps(s, step, name) || (ChangesPassword(s, step) && name == step.previous)
    requires c.hash.passwordHash == s.users[name].passwordHash || (ValidCookie(s, c) && c.username == name)
    requires FreshHashes(Apply(s, step), steps)
    ensures !ValidCookie(Run(Apply(s, step), steps), c)
  {
    if ValidCookie(s, c) && c.username == name {
      AcceptedCookieIsCurrent(s, c);
    }
    if Bumps(s, step, name) {
      BumpKills(s, step, name, c);
    } else {
      PasswordChangeKills(s, step, c);
    }
    StepKeepsInvariant(s, step);
    DeadForever(Apply(s, step), steps, c);
  }

  /** The account now called c.username is not the one the cookie was issued to, or has
      moved past it. */
  ghost predicate Stale(s: State, c: Cookie) {
    && c.username in s.users && c.hash.passwordHash in s.usedHashes
    && var u := s.users[c.username];
       u.passwordHash != c.hash.passwordHash || u.authEpoch > c.hash.authEpoch
  }

  /** After a bump every cookie issued under the name stays rejected for as long as an account
      of that name exists without interruption by a deletion or a rename. */
  lemma {:induction false} StaleWhileNamed(s: State, steps: seq<Step>, c: Cookie)
    requires Invariant(s) && FreshHashes(s, steps) && Stale(s, c)
    requires forall i :: 0 <= i <= |steps| ==> c.username in Run(s, steps[..i]).users
    ensures Stale(Run(s, steps), c) && !ValidCookie(Run(s, steps), c)
  {
    hide Invariant, Apply, Traceable, FreshHash;
    assert steps[..|steps|] == steps;
    RunKeepsInvariant(s, steps);
    if steps != [] {
      var init := steps[..|steps| - 1];
      FreshPrefix(s, steps);
      forall i | 0 <= i <= |init| ensures c.username in Run(s, init[..i]).users {
        assert init[..i] == steps[..i];
      }
      StaleWhileNamed(s, init, c);
      RunKeepsInvariant(s, init);
      InvariantConsistent(Run(s, init));
      StepTraceable(Run(s, init), steps[|steps| - 1]);
      StaleStaysStale(Run(s, init), Run(s, steps), c);
    }
    InvariantConsistent(Run(s, steps));
    StaleIsRejected(Run(s, steps), c);
  }

  lemma {:induction false} InvariantConsistent(s: State)
    requires Invariant(s)
    ensures Consistent(s)
  {
  }

  lemma {:induction false} StaleStaysStale(s: State, s': State, c: Cookie)
    requires Traceable(s, s') && Stale(s, c) && c.username in s'.users
    ensures Stale(s', c)
  {
  }

  lemma {:induction false} StaleIsRejected(s: State, c: Cookie)
    requires Consistent(s) && Stale(s, c)
    ensures !ValidCookie(s, c)
  {
  }

  // ----- a name that changes hands

  lemma {:induction false} RunSnoc(s: State, steps: seq<Step>, step: Step)
    ensures Run(s, steps + [step]) == Apply(Run(s, steps), step)
    ensures FreshHashes(s, steps) && FreshHash(Run(s, steps), step) ==> FreshHashes(s, steps + [step])
  {
    hide Apply, FreshHash;
    assert (steps + [step])[..|steps|] == steps;
    forall i | 0 <= i < |steps| ensures (steps + [step])[..i] == steps[..i] {
    }
  }

  lemma {:induction false} FiveSteps(s: State, steps: seq<Step>, s1: State, s2: State, s3: State, s4: State)
    requires |steps| == 5
    requires Apply(s, steps[0]) == s1 && Apply(s1, steps[1]) == s2 && Apply(s2, steps[2]) == s3 && Apply(s3, steps[3]) == s4
    requires FreshHash(s, steps[0]) && FreshHash(s1, steps[1]) && FreshHash(s2, steps[2]) && FreshHash(s3, steps[3]) && FreshHash(s4, steps[4])
    ensures Run(s, steps[..2]) == s2 && Run(s, steps[..3]) == s3 && Run(s, steps) == Apply(s4, steps[4])
    ensures FreshHashes(s, steps)
  {
    assert Run(s, []) == s && FreshHashes(s, []);
    hide Apply, FreshHash, Run, FreshHashes;
    assert steps[..0] == [];
    RunSnoc(s, steps[..0], steps[0]);
    assert steps[..1] == steps[..0] + [steps[0]];
    RunSnoc(s, steps[..1], steps[1]);
    assert steps[..2] == steps[..1] + [steps[1]];
    RunSnoc(s, steps[..2], steps[2]);
    assert steps[..3] == steps[..2] + [steps[2]];
    RunSnoc(s, steps[..3], steps[3]);
    assert steps[..4] == steps[..3] + [steps[3]];
    RunSnoc(s, steps[..4], steps[4]);
    assert steps == steps[..4] + [steps[4]];
  }

  /** The form that gives an account another name and leaves the rest. */
  function Renaming(u: User, name: string): UserForm {
    UserForm(name, "", u.admin, u.displayName, u.email)
  }

  /** u as such a form leaves it. */
  function Renamed(u: User, name: string): User {
    u.(username := name, displayName := TrimSpace(u.displayName), email := TrimSpace(u.email))
  }

  lemma {:induction false} RenameStep(s: State, actor: Cookie, name: string, other: string)
    requires Authorized(s, actor) && actor.admin && actor.username != name && actor.username != other
    requires ValidUsername(name) && name in s.users && ValidUsername(other) && other !in s.users
    ensures var s' := Apply(s, UpdateUser(actor, name, Renaming(s.users[name], other)));
            s' == Replace(s, name, Renamed(s.users[name], other)) && Authorized(s', actor)
  {
    hide DigestOf, TrimSpace, ValidUsername;
  }

  lemma {:induction false} NewNamesake(s: State, actor: Cookie, name: string, hash: string)
    requires Authorized(s, actor) && actor.admin && actor.username != name
    requires ValidUsername(name) && name !in s.users && hash != ""
    ensures var s' := Apply(s, CreateUser(actor, UserForm(name, hash, false, "", "")));
            s' == Save(s, Namesake(name, hash, 0)) && Authorized(s', actor) && Bumps(s', RevokeSessions(actor, name), name)
  {
    hide DigestOf, ValidUsername;
  }

  lemma {:induction false} RevokeAndRemove(s: State, actor: Cookie, name: string)
    requires Authorized(s, actor) && Bumps(s, RevokeSessions(actor, name), name) && actor.username != name && !s.users[name].admin
    requires s.users[name].username == name
    ensures var u := s.users[name].(authEpoch := s.users[name].authEpoch + 1);
            var revoked := Apply(s, RevokeSessions(actor, name));
            var removed := Apply(revoked, RemoveUser(actor, name));
            revoked == Save(s, u) && removed == Delete(Save(s, u), name) && Authorized(removed, actor)
  {
    hide DigestOf, ValidUsername;
  }

  lemma {:induction false} RenamedTwice(u: User, name: string)
    ensures DigestOf(Renamed(Renamed(u, name), u.username)) == DigestOf(u)
  {
    TrimSpaceTwice(u.displayName);
    TrimSpaceTwice(u.email);
    hide TrimSpace;
  }

  /** The requests of the story below. */
  ghost function NameChangesHands(u: User, actor: Cookie, other: string, hash: string): seq<Step> {
    [UpdateUser(actor, u.username, Renaming(u, other)), CreateUser(actor, UserForm(u.username, hash, false, "", "")),
     RevokeSessions(actor, u.username), RemoveUser(actor, u.username), UpdateUser(actor, other, Renaming(Renamed(u, other), u.username))]
  }

  /** Revocation acts on an account, not on a name.  An administrator gives the account of an
      accepted cookie another name, creates another account under the old one, revokes that
      account's sessions, which leaves the cookie rejected, removes it, and gives the first
      account its name back: the cookie is accepted again. */
  lemma {:induction false} RenamedBackRevives(s: State, actor: Cookie, c: Cookie, other: string, hash: string)
    requires Invariant(s) && Authorized(s, actor) && actor.admin && c in s.issued && ValidCookie(s, c)
    requires c.username != actor.username && ValidUsername(c.username)
    requires ValidUsername(other) && other !in s.users && other != actor.username
    requires hash != "" && hash !in s.usedHashes
    ensures c.username in s.users
    ensures var steps := NameChangesHands(s.users[c.username], actor, other, hash);
            && FreshHashes(s, steps)
            && Bumps(Run(s, steps[..2]), steps[2], c.username)
            && !ValidCookie(Run(s, steps[..3]), c) && ValidCookie(Run(s, steps), c)
  {
    AcceptedCookieIsCurrent(s, c);
    var t := c.username;
    var u := s.users[t];
    var steps := NameChangesHands(u, actor, other, hash);
    var s1 := Replace(s, t, Renamed(u, other));
    var s2, s3 := Save(s1, Namesake(t, hash, 0)), Save(Save(s1, Namesake(t, hash, 0)), Namesake(t, hash, 1));
    var s4 := Delete(s3, t);
    RenamedTwice(u, other);
    StoryHashes(s, u, hash);
    assert s.users[t] == u && c.hash == DigestOf(u);
    StoryStates(s, u, other, hash);
    hide DigestOf, Invariant, FreshHash, Renamed, ValidUsername, Save, Replace, Delete;
    RenameStep(s, actor, t, other);
    NewNamesake(s1, actor, t, hash);
    hide Bumps, Authorized, Apply;
    RevokeAndRemove(s2, actor, t);
    RenameStep(s4, actor, other, t);
    StoryFresh(s, s1, s2, s3, s4, u, actor, other, hash);
    FiveSteps(s, steps, s1, s2, s3, s4);
    RejectedUnder(s3, c, Namesake(t, hash, 1));
  }

  ghost function Namesake(name: string, hash: string, epoch: int): User {
    User(name, "", hash, false, false, epoch, "", "", [], map[])
  }

  lemma {:induction false} StoryStates(s: State, u: User, other: string, hash: string)
    requires u.username in s.users && other !in s.users
    ensures var t := u.username;
            var s1 := Replace(s, t, Renamed(u, other));
            var s2, s3 := Save(s1, Namesake(t, hash, 0)), Save(Save(s1, Namesake(t, hash, 0)), Namesake(t, hash, 1));
            var s4 := Delete(s3, t);
            && t !in s1.users && t in s2.users && s2.users[t] == Namesake(t, hash, 0)
            && t in s3.digests && s3.digests[t] == DigestOf(Namesake(t, hash, 1))
            && other in s4.users && s4.users[other] == Renamed(u, other) && t !in s4.users
            && (forall v: User :: v.username == t ==> t in Replace(s4, other, v).digests && Replace(s4, other, v).digests[t] == DigestOf(v))
            && s1.usedHashes == s.usedHashes + {u.passwordHash} && s2.usedHashes == s1.usedHashes + {hash}
            && s3.usedHashes == s2.usedHashes + {hash} && s4.usedHashes == s3.usedHashes
  {
    hide DigestOf, TrimSpace;
  }

  lemma {:induction false} StoryHashes(s: State, u: User, hash: string)
    requires Invariant(s) && u.username in s.users && s.users[u.username] == u && hash !in s.usedHashes
    ensures "" !in s.usedHashes && u.passwordHash in s.usedHashes && DigestOf(u).passwordHash != hash
  {
  }

  lemma {:induction false} StoryFresh(s: State, s1: State, s2: State, s3: State, s4: State, u: User, actor: Cookie, other: string, hash: string)
    requires "" !in s.usedHashes && u.passwordHash in s.usedHashes && hash !in s.usedHashes && hash != ""
    requires s1.usedHashes == s.usedHashes + {u.passwordHash} && s2.usedHashes == s1.usedHashes + {hash}
    requires s3.usedHashes == s2.usedHashes + {hash} && s4.usedHashes == s3.usedHashes
    ensures var steps := NameChangesHands(u, actor, other, hash);
            FreshHash(s, steps[0]) && FreshHash(s1, steps[1]) && FreshHash(s2, steps[2]) && FreshHash(s3, steps[3]) && FreshHash(s4, steps[4])
  {
  }

  lemma {:induction false} RejectedUnder(s: State, c: Cookie, u: User)
    requires c.username == u.username && u.username in s.digests && s.digests[u.username] == DigestOf(u)
    requires c.hash.passwordHash != u.passwordHash
    ensures !ValidCookie(s, c)
  {
  }

  // ----- suspension

  /** Suspending an account and enabling it again restores the stored record, so every cookie
      accepted before is accepted after: suspension bumps no epoch. */
  lemma {:induction false} SuspensionIsReversible(s: State, actor: Cookie, target: string, c: Cookie)
    requires Invariant(s) && Authorized(s, actor) && actor.admin && actor.username != target
    requires ValidUsername(target) && target in s.users && !s.users[target].disabled
    requires s.users[target].admin ==> OtherActiveAdmin(s.users, target)
    requires c in s.issued && ValidCookie(s, c)
    ensures var off := Apply(s, SetDisabled(actor, target, true));
            && (c.username == target ==> !ValidCookie(off, c))
            && Apply(off, SetDisabled(actor, target, false)).users == s.users
            && ValidCookie(Apply(off, SetDisabled(actor, target, false)), c)
  {
    var u := s.users[target];
    AcceptedCookieIsCurrent(s, actor);
    AcceptedCookieIsCurrent(s, c);
    assert u.username == target;
    var off := Save(s, u.(disabled := true));
    assert Apply(s, SetDisabled(actor, target, true)) == off;
    BackOnIsSave(off, actor, u);
    TurnedBack(s, u);
  }

  lemma {:induction false} BackOnIsSave(off: State, actor: Cookie, u: User)
    requires Authorized(off, actor) && actor.admin && ValidUsername(u.username) && actor.username != u.username
    requires u.username in off.users && off.users[u.username] == u.(disabled := true) && !u.disabled
    ensures Apply(off, SetDisabled(actor, u.username, false)) == Save(off, u)
  {
  }

  lemma {:induction false} TurnedBack(s: State, u: User)
    requires u.username in s.users && s.users[u.username] == u && s.digests == DigestsOf(s.users)
    ensures var on := Save(Save(s, u.(disabled := true)), u); on.users == s.users && on.digests == s.digests
  {
  }
}
