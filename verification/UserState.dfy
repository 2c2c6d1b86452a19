/** Stored users, the digest cache and every session cookie ever issued, as one state; the
    user and passkey handlers as steps on it (handler/routes.go, handler/passkeys.go,
    store/jsondb/jsondb.go, util/util.go). */
module UserState {
  import opened Texts

  datatype Passkey = Passkey(id: string, key: int)

  datatype User = User(
    username: string, password: string, passwordHash: string, admin: bool, disabled: bool, authEpoch: int,
    displayName: string, email: string, passkeys: seq<Passkey>, labels: map<string, string>)

  /** The snapshot util.GetDBUserCRC32 hashes; the checksum is taken as injective on it. */
  datatype Digest = Digest(
    username: string, password: string, passwordHash: string, admin: bool, disabled: bool, authEpoch: int,
    displayName: string, email: string, passkeyIds: multiset<string>, labels: map<string, string>)

  /** The non-empty credential ids; the source sorts them, so only their number counts. */
  function PasskeyIds(ps: seq<Passkey>): multiset<string> {
    if ps == [] then multiset{}
    else PasskeyIds(ps[..|ps| - 1]) + (if ps[|ps| - 1].id == "" then multiset{} else multiset{ps[|ps| - 1].id})
  }

  function DigestOf(u: User): Digest {
    var ids := PasskeyIds(u.passkeys);
    Digest(u.username, u.password, u.passwordHash, u.admin, u.disabled, u.authEpoch,
           TrimSpace(u.displayName), TrimSpace(u.email), ids,
           map k | k in u.labels && k in ids :: TrimSpace(u.labels[k]))
  }

  /** A session cookie: what setUser and setLoginSession put into the session values. */
  datatype Cookie = Cookie(username: string, hash: Digest, admin: bool)

  function CookieFor(u: User): Cookie {
    Cookie(u.username, DigestOf(u), u.admin)
  }

  type Users = map<string, User>

  /** usedHashes: every password hash that ever existed; hashes are salted, so new ones are new. */
  datatype State = State(users: Users, digests: map<string, Digest>, issued: set<Cookie>, usedHashes: set<string>, passkeysOn: bool)

  predicate WordChar(c: char) {
    'a' <= c <= 'z' || 'A' <= c <= 'Z' || '0' <= c <= '9' || c == '_'
  }

  /** usernameRegexp: ^\w[\w\-.]*$ */
  predicate ValidUsername(s: string) {
    s != [] && WordChar(s[0]) && forall i :: 0 <= i < |s| ==> WordChar(s[i]) || s[i] == '-' || s[i] == '.'
  }

  /** isValidSession, apart from its time bounds. */
  predicate ValidCookie(s: State, c: Cookie) {
    c.username in s.digests && s.digests[c.username] == c.hash
  }

  /** The request carries a cookie the server issued and still accepts. */
  predicate Authorized(s: State, actor: Cookie) {
    actor in s.issued && ValidCookie(s, actor)
  }

  predicate ActiveAdmin(u: User) {
    u.admin && !u.disabled
  }

  predicate OtherActiveAdmin(users: Users, name: string) {
    exists k :: k in users && k != name && ActiveAdmin(users[k])
  }

  // ----- primitive effects

  /** DeleteUser(k) followed by SaveUser(u); for u.username == k the same as SaveUser(u). */
  function Replace(s: State, k: string, u: User): State {
    s.(users := (s.users - {k})[u.username := u], digests := (s.digests - {k})[u.username := DigestOf(u)],
       usedHashes := s.usedHashes + {u.passwordHash})
  }

  function Save(s: State, u: User): State {
    s.(users := s.users[u.username := u], digests := s.digests[u.username := DigestOf(u)],
       usedHashes := s.usedHashes + {u.passwordHash})
  }

  function Delete(s: State, k: string): State {
    s.(users := s.users - {k}, digests := s.digests - {k})
  }

  /** A new session value is written for user u. */
  function Issue(s: State, u: User): State {
    s.(issued := s.issued + {CookieFor(u)})
  }

  /** Issue only when the acting user is the one changed. */
  function IssueIfSelf(s: State, actor: Cookie, target: string, u: User): State {
    if actor.username == target then Issue(s, u) else s
  }

  // ----- handlers

  /** `newHash` is the hash of a new password, or "" when the form leaves it alone. */
  datatype UserForm = UserForm(username: string, newHash: string, admin: bool, displayName: string, email: string)

  datatype Step =
    | Login(username: string, passwordOk: bool)
    | PasskeyLogin(username: string, assertionOk: bool)
    | UpdateUser(actor: Cookie, previous: string, form: UserForm)
    | CreateUser(actor: Cookie, form: UserForm)
    | RemoveUser(actor: Cookie, username: string)
    | SetAdmin(actor: Cookie, target: string, admin: bool)
    | SetDisabled(actor: Cookie, target: string, disabled: bool)
    | RevokeSessions(actor: Cookie, target: string)
    | RegisterPasskey(actor: Cookie, username: string, cred: Passkey, name: string)
    | RemovePasskey(actor: Cookie, username: string, id: string)
    | RenamePasskey(actor: Cookie, username: string, id: string, name: string)
    | SavePasskeySetting(actor: Cookie, enabled: bool)
    | Restart

  function LoginStep(s: State, username: string, ok: bool): State {
    if username in s.users && ok && !s.users[username].disabled then
      var u := s.users[username];
      Issue(s.(digests := s.digests[u.username := DigestOf(u)]), u)
    else s
  }

  /** The record UpdateUser writes. */
  function Edited(s: State, actor: Cookie, previous: string, form: UserForm): User
    requires previous in s.users
  {
    var u := s.users[previous];
    u.(username := form.username, displayName := TrimSpace(form.displayName), email := TrimSpace(form.email),
       passwordHash := if form.newHash != "" then form.newHash else u.passwordHash,
       admin := if previous != actor.username then actor.admin && form.admin else u.admin)
  }

  predicate CanUpdate(s: State, actor: Cookie, previous: string, form: UserForm) {
    && Authorized(s, actor)
    && (actor.admin || previous == actor.username)
    && ValidUsername(previous) && previous in s.users
    && ValidUsername(form.username) && (form.username != previous ==> form.username !in s.users)
    && (previous != actor.username && !(actor.admin && form.admin) && s.users[previous].admin ==> OtherActiveAdmin(s.users, previous))
  }

  function UpdateUserStep(s: State, actor: Cookie, previous: string, form: UserForm): State {
    if !CanUpdate(s, actor, previous, form) then s
    else
      var u := Edited(s, actor, previous, form);
      var s' := Replace(s, previous, u);
      if previous == actor.username && form.newHash == "" then Issue(s', u) else s'
  }

  function CreateUserStep(s: State, actor: Cookie, form: UserForm): State {
    if Authorized(s, actor) && actor.admin && ValidUsername(form.username) && form.newHash != "" && form.username !in s.users then
      Save(s, User(form.username, "", form.newHash, form.admin, false, 0, TrimSpace(form.displayName), TrimSpace(form.email), [], map[]))
    else s
  }

  function RemoveUserStep(s: State, actor: Cookie, username: string): State {
    if Authorized(s, actor) && actor.admin && ValidUsername(username) && username != actor.username
       && username in s.users && !s.users[username].admin then Delete(s, username)
    else s
  }

  function SetAdminStep(s: State, actor: Cookie, target: string, admin: bool): State {
    if Authorized(s, actor) && actor.admin && ValidUsername(target) && target in s.users
       && !(target == actor.username && !admin)
       && (!admin && s.users[target].admin ==> OtherActiveAdmin(s.users, target)) then
      var u := s.users[target].(admin := admin);
      IssueIfSelf(Save(s, u), actor, target, u)
    else s
  }

  function SetDisabledStep(s: State, actor: Cookie, target: string, disabled: bool): State {
    if !(Authorized(s, actor) && actor.admin && ValidUsername(target) && target in s.users) then s
    else if !disabled then
      var u := s.users[target].(disabled := false);
      IssueIfSelf(Save(s, u), actor, target, u)
    else if s.users[target].disabled then s
    else if s.users[target].admin && !OtherActiveAdmin(s.users, target) then s
    else Save(s, s.users[target].(disabled := true))
  }

  function RevokeStep(s: State, actor: Cookie, target: string): State {
    if Authorized(s, actor) && actor.admin && ValidUsername(target) && target in s.users && !s.users[target].disabled then
      Save(s, s.users[target].(authEpoch := s.users[target].authEpoch + 1))
    else s
  }

  predicate HasCredential(u: User, id: string) {
    id != "" && exists i :: 0 <= i < |u.passkeys| && u.passkeys[i].id == id
  }

  /** Who may touch the passkeys of an account. */
  predicate MayManagePasskeys(s: State, actor: Cookie, username: string) {
    s.passkeysOn && Authorized(s, actor) && (actor.admin || username == actor.username) && username in s.users
  }

  function RegisterStep(s: State, actor: Cookie, username: string, cred: Passkey, name: string): State {
    if !MayManagePasskeys(s, actor, username) || HasCredential(s.users[username], cred.id) then s
    else
      var old' := s.users[username];
      var u := old'.(passkeys := old'.passkeys + [cred], labels := if name != "" then old'.labels[cred.id := name] else old'.labels);
      IssueIfSelf(Save(s, u), actor, username, u)
  }

  function WithoutCredential(ps: seq<Passkey>, id: string): seq<Passkey> {
    if ps == [] then []
    else WithoutCredential(ps[..|ps| - 1], id) + (if ps[|ps| - 1].id == id then [] else [ps[|ps| - 1]])
  }

  function RemovePasskeyStep(s: State, actor: Cookie, username: string, id: string): State {
    if !MayManagePasskeys(s, actor, username) || !ValidUsername(username) || !HasCredential(s.users[username], id) then s
    else
      var u := s.users[username];
      Save(s, u.(passkeys := WithoutCredential(u.passkeys, id), labels := u.labels - {id}, authEpoch := u.authEpoch + 1))
  }

  function RenamePasskeyStep(s: State, actor: Cookie, username: string, id: string, name: string): State {
    if !MayManagePasskeys(s, actor, username) || !ValidUsername(username) || !HasCredential(s.users[username], id) then s
    else
      var u := s.users[username].(labels := s.users[username].labels[id := TrimSpace(name)]);
      IssueIfSelf(Save(s, u), actor, username, u)
  }

  /** ClearStoredPasskeysForAllUsers on the stored records. */
  function Cleared(users: Users): Users {
    map k | k in users :: users[k].(passkeys := [])
  }

  function DigestsOf(users: Users): map<string, Digest> {
    map k | k in users :: DigestOf(users[k])
  }

  /** Switching passkeys off clears them everywhere and renews the acting user's session. */
  function SavePasskeySettingStep(s: State, actor: Cookie, enabled: bool): State {
    if !(Authorized(s, actor) && actor.admin) then s
    else if s.passkeysOn && !enabled then
      var s' := s.(users := Cleared(s.users), digests := DigestsOf(Cleared(s.users)), passkeysOn := false);
      if actor.username in s'.users then Issue(s', s'.users[actor.username]) else s'
    else s.(passkeysOn := enabled)
  }

  function Apply(s: State, step: Step): State {
    match step
    case Login(name, ok) => if ValidUsername(name) then LoginStep(s, name, ok) else s
    case PasskeyLogin(name, ok) => if s.passkeysOn then LoginStep(s, name, ok) else s
    case UpdateUser(actor, previous, form) => UpdateUserStep(s, actor, previous, form)
    case CreateUser(actor, form) => CreateUserStep(s, actor, form)
    case RemoveUser(actor, name) => RemoveUserStep(s, actor, name)
    case SetAdmin(actor, target, admin) => SetAdminStep(s, actor, target, admin)
    case SetDisabled(actor, target, disabled) => SetDisabledStep(s, actor, target, disabled)
    case RevokeSessions(actor, target) => RevokeStep(s, actor, target)
    case RegisterPasskey(actor, name, cred, title) => RegisterStep(s, actor, name, cred, title)
    case RemovePasskey(actor, name, id) => RemovePasskeyStep(s, actor, name, id)
    case RenamePasskey(actor, name, id, title) => RenamePasskeyStep(s, actor, name, id, title)
    case SavePasskeySetting(actor, enabled) => SavePasskeySettingStep(s, actor, enabled)
    case Restart => s.(digests := DigestsOf(s.users))
  }

  /** What jsondb.Init leaves on the first run: one administrator, with the hash taken from the
      environment or made from the initial password, and no session. */
  function FirstUser(username: string, hash: string): User {
    User(username, "", hash, true, false, 0, "", "", [], map[])
  }

  function FirstRun(username: string, hash: string, passkeysOn: bool): State {
    var u := FirstUser(username, hash);
    State(map[username := u], map[username := DigestOf(u)], {}, {hash}, passkeysOn)
  }

  /** A password hash handed to a step has never been seen before. */
  predicate FreshHash(s: State, step: Step) {
    match step
    case UpdateUser(actor, previous, form) => form.newHash !in s.usedHashes
    case CreateUser(actor, form) => form.newHash !in s.usedHashes
    case _ => true
  }

  function Run(s: State, steps: seq<Step>): State {
    if steps == [] then s else Apply(Run(s, steps[..|steps| - 1]), steps[|steps| - 1])
  }

  ghost predicate FreshHashes(s: State, steps: seq<Step>) {
    forall i :: 0 <= i < |steps| ==> FreshHash(Run(s, steps[..i]), steps[i])
  }
}
