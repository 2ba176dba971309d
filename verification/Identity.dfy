/** Reconciliation of external logins with the user table: by identity first, by email second. */
module Identity {
  import opened Wrappers
  import opened Strings

  datatype LfProvider = LfProvider(username: string, issuer: Option<string>, subject: Option<string>)

  datatype Provider = Provider(github: Option<string>, lf: Option<LfProvider>)

  type Pair = (string, string)
  type Id = nat

  /** A row of the user table; `registered` tells registered users from invitation placeholders. */
  datatype User = User(email: string, verified: bool, registered: bool, provider: Option<Provider>)

  type Users = map<Id, User>

  /** What an external provider says about the person logging in. */
  datatype Summary = Summary(email: string, provider: Option<Provider>)

  datatype Outcome = LoggedIn(id: Id) | IdentityConflict | EmailTaken | IdentityTaken | UniqueViolation | DatabaseError

  /** Key-wise merge in which the incoming metadata wins. */
  function Merge(existing: Option<Provider>, incoming: Provider): Provider {
    var base := if existing.Some? then existing.value else Provider(None, None);
    Provider(if incoming.github.Some? then incoming.github else base.github,
             if incoming.lf.Some? then incoming.lf else base.lf)
  }

  function MergeOptional(existing: Option<Provider>, incoming: Option<Provider>): Option<Provider> {
    if incoming.Some? then Some(Merge(existing, incoming.value)) else existing
  }

  /** The OIDC identity: issuer and subject, if both are known. */
  function IdentityOf(p: Option<Provider>): Option<Pair> {
    if p.Some? && p.value.lf.Some? && p.value.lf.value.issuer.Some? && p.value.lf.value.subject.Some?
    then Some((p.value.lf.value.issuer.value, p.value.lf.value.subject.value))
    else None
  }

  /** Pairs the unique index covers and the identity lookup accepts. */
  predicate Indexed(i: Option<Pair>) {
    i.Some? && i.value.0 != "" && i.value.1 != ""
  }

  // ---- The table --------------------------------------------------------------------------------

  ghost predicate UniqueEmails(users: Users) {
    forall a, b :: a in users && b in users && Lower(users[a].email) == Lower(users[b].email) ==> a == b
  }

  predicate SharedIdentity(u: User, v: User) {
    Indexed(IdentityOf(u.provider)) && IdentityOf(u.provider) == IdentityOf(v.provider)
  }

  ghost predicate UniqueIdentities(users: Users) {
    forall a, b :: a in users && b in users && SharedIdentity(users[a], users[b]) ==> a == b
  }

  ghost predicate ValidTable(users: Users) {
    UniqueEmails(users) && UniqueIdentities(users)
  }

  predicate HasIdentity(u: User, pair: Pair) {
    Indexed(Some(pair)) && IdentityOf(u.provider) == Some(pair) && u.registered && u.verified
  }

  predicate HasEmail(u: User, email: string) {
    Lower(u.email) == Lower(email) && (u.registered ==> u.verified)
  }

  ghost function ByIdentity(users: Users, pair: Pair): (r: Option<Id>)
    ensures r.Some? ==> r.value in users && HasIdentity(users[r.value], pair)
    ensures r.None? ==> forall a :: a in users ==> !HasIdentity(users[a], pair)
  {
    if exists a :: a in users && HasIdentity(users[a], pair)
    then var a :| a in users && HasIdentity(users[a], pair); Some(a)
    else None
  }

  ghost function ByEmail(users: Users, email: string): (r: Option<Id>)
    ensures r.Some? ==> r.value in users && HasEmail(users[r.value], email)
    ensures r.None? ==> forall a :: a in users ==> !HasEmail(users[a], email)
  {
    if exists a :: a in users && HasEmail(users[a], email)
    then var a :| a in users && HasEmail(users[a], email); Some(a)
    else None
  }

  /** The table after writing one row, unless a unique index forbids it. */
  ghost predicate Writable(users: Users, id: Id, u: User) {
    ValidTable(users[id := u])
  }

  datatype LoginResult = LoginResult(users: Users, outcome: Outcome)

  ghost function Write(users: Users, id: Id, u: User, io: bool): LoginResult {
    if io && Writable(users, id, u) then LoginResult(users[id := u], LoggedIn(id))
    else LoginResult(users, if io then UniqueViolation else DatabaseError)
  }

  /** `update_user_external_auth` for a registered user. */
  ghost function UpdateExternalAuth(users: Users, id: Id, s: Summary, io: bool): LoginResult
    requires id in users
  {
    if exists a :: a in users && a != id && Lower(users[a].email) == Lower(s.email) then LoginResult(users, EmailTaken)
    else if Indexed(IdentityOf(s.provider))
            && exists a :: a in users && a != id && IdentityOf(users[a].provider) == IdentityOf(s.provider)
    then LoginResult(users, IdentityTaken)
    else Write(users, id, users[id].(email := Lower(s.email), verified := true,
                                     provider := MergeOptional(users[id].provider, s.provider)), io)
  }

  predicate Conflicting(existing: Option<Pair>, incoming: Option<Pair>) {
    incoming.Some? && existing.Some? && existing != incoming
  }

  /** An email match: placeholders are activated, registered users keep a different identity or are refused. */
  ghost function ReconcileByEmail(users: Users, id: Id, s: Summary, io: bool): LoginResult
    requires id in users
  {
    var u := users[id];
    if !u.registered then
      Write(users, id, u.(verified := true, registered := true, provider := s.provider), io)
    else if Conflicting(IdentityOf(u.provider), IdentityOf(s.provider)) then LoginResult(users, IdentityConflict)
    else if s.provider.Some? && u.provider != Some(Merge(u.provider, s.provider.value)) then
      Write(users, id, u.(provider := Some(Merge(u.provider, s.provider.value))), io)
    else LoginResult(users, LoggedIn(id))
  }

  /** `get_or_sign_up_external_user`; `newId` is the identifier of a new row, `io` whether the write goes through. */
  ghost function Login(users: Users, s: Summary, newId: Id, io: bool): LoginResult {
    var incoming := IdentityOf(s.provider);
    var known := if incoming.Some? then ByIdentity(users, incoming.value) else None;
    if known.Some? then UpdateExternalAuth(users, known.value, s, io)
    else
      var matched := ByEmail(users, s.email);
      if matched.Some? then ReconcileByEmail(users, matched.value, s, io)
      else Write(users, newId, User(Lower(s.email), true, true, s.provider), io)
  }

  // ---- One login --------------------------------------------------------------------------------

  /** Registered users keep their identity. */
  ghost predicate KeepsIdentities(users: Users, users': Users) {
    forall a :: a in users && users[a].registered ==>
      && a in users' && users'[a].registered
      && (IdentityOf(users[a].provider).Some? ==> IdentityOf(users'[a].provider) == IdentityOf(users[a].provider))
  }

  /** Linux Foundation metadata that names no complete identity. */
  predicate Anonymous(s: Summary) {
    s.provider.Some? && s.provider.value.lf.Some? && IdentityOf(s.provider).None?
  }

  /** The input on which the merge overwrites an identity. */
  ghost predicate Overwrites(users: Users, s: Summary, io: bool) {
    && io && Anonymous(s)
    && var m := ByEmail(users, s.email);
       m.Some? && users[m.value].registered && IdentityOf(users[m.value].provider).Some?
  }

  lemma MergeIdentity(existing: Option<Provider>, incoming: Provider)
    ensures IdentityOf(Some(Merge(existing, incoming))) ==
            if incoming.lf.Some? then IdentityOf(Some(incoming)) else IdentityOf(existing)
  {
  }

  lemma WriteChangesOne(users: Users, id: Id, u: User, io: bool)
    ensures var r := Write(users, id, u, io);
            && (r.users == users || (r.users == users[id := u] && r.outcome == LoggedIn(id) && io && Writable(users, id, u)))
            && (ValidTable(users) ==> ValidTable(r.users))
            && (r.outcome.LoggedIn? ==> r.outcome.id == id && r.users == users[id := u])
  {
    hide ValidTable;
  }

  /** `r` keeps the table valid and touches no row but the one it returns, which is then registered. */
  ghost predicate Framed(users: Users, r: LoginResult) {
    && ValidTable(r.users)
    && (forall a :: a in users ==> a in r.users)
    && (forall a :: a in users && r.users[a] != users[a] ==> r.outcome == LoggedIn(a))
    && (r.outcome.LoggedIn? ==> r.outcome.id in r.users && r.users[r.outcome.id].registered)
  }

  lemma WriteFramed(users: Users, id: Id, u: User, io: bool)
    requires ValidTable(users) && u.registered
    ensures Framed(users, Write(users, id, u, io))
  {
    hide ValidTable, Writable;
    WriteChangesOne(users, id, u, io);
  }

  lemma {:induction false} LoginFrame(users: Users, s: Summary, newId: Id, io: bool)
    requires ValidTable(users) && newId !in users
    ensures Framed(users, Login(users, s, newId, io))
  {
    hide ValidTable, Write, Lower;
    var incoming := IdentityOf(s.provider);
    var known := if incoming.Some? then ByIdentity(users, incoming.value) else None;
    var matched := ByEmail(users, s.email);
    if known.Some? {
      var u := users[known.value];
      WriteFramed(users, known.value, u.(email := Lower(s.email), verified := true, provider := MergeOptional(u.provider, s.provider)), io);
    } else if matched.Some? {
      var u := users[matched.value];
      if !u.registered {
        WriteFramed(users, matched.value, u.(verified := true, registered := true, provider := s.provider), io);
      } else if s.provider.Some? {
        WriteFramed(users, matched.value, u.(provider := Some(Merge(u.provider, s.provider.value))), io);
      }
    } else {
      WriteFramed(users, newId, User(Lower(s.email), true, true, s.provider), io);
    }
  }

  /**
   Exact condition: a login leaves every registered user's identity as it was unless it carries
   Linux Foundation metadata without a complete identity and its email belongs to a registered user
   who has one.
   */
  lemma {:induction false} LoginKeepsIdentitiesIff(users: Users, s: Summary, newId: Id, io: bool)
    requires ValidTable(users) && newId !in users
    ensures KeepsIdentities(users, Login(users, s, newId, io).users) <==> !Overwrites(users, s, io)
  {
    var r := Login(users, s, newId, io);
    var incoming := IdentityOf(s.provider);
    var known := if incoming.Some? then ByIdentity(users, incoming.value) else None;
    if known.Some? {
      IdentityRouteKeeps(users, known.value, s, io);
    } else {
      var m := ByEmail(users, s.email);
      if m.Some? {
        EmailRouteKeeps(users, m.value, s, io);
      } else {
        SignUpKeeps(users, s, newId, io);
      }
    }
  }

  /** Linux Foundation metadata without issuer and subject erases the identity of the user it matches by email. */
  lemma OverwriteWitness()
    ensures var full := Provider(None, Some(LfProvider("u", Some("issuer"), Some("subject"))));
            var users := map[1 := User("a@b.c", true, true, Some(full))];
            var s := Summary("a@b.c", Some(Provider(None, Some(LfProvider("u", None, None)))));
            var r := Login(users, s, 2, true);
            && ValidTable(users) && IdentityOf(users[1].provider) == Some(("issuer", "subject"))
            && r.outcome == LoggedIn(1) && 1 in r.users && IdentityOf(r.users[1].provider) == None
  {
    hide Lower;
    var full := Provider(None, Some(LfProvider("u", Some("issuer"), Some("subject"))));
    var users := map[1 := User("a@b.c", true, true, Some(full))];
    assert HasEmail(users[1], "a@b.c");
  }

  lemma IdentityRouteKeeps(users: Users, id: Id, s: Summary, io: bool)
    requires id in users && IdentityOf(s.provider).Some? && IdentityOf(users[id].provider) == IdentityOf(s.provider)
    requires ValidTable(users) && users[id].registered
    ensures KeepsIdentities(users, UpdateExternalAuth(users, id, s, io).users)
  {
    hide ValidTable, Writable, Lower;
    MergeIdentity(users[id].provider, s.provider.value);
  }

  lemma SignUpKeeps(users: Users, s: Summary, newId: Id, io: bool)
    requires newId !in users
    ensures KeepsIdentities(users, Write(users, newId, User(Lower(s.email), true, true, s.provider), io).users)
  {
    hide ValidTable, Writable, Lower;
  }

  lemma SameEmailStaysValid(users: Users, id: Id, u: User)
    requires ValidTable(users) && id in users && u.email == users[id].email
    requires !Indexed(IdentityOf(u.provider)) || IdentityOf(u.provider) == IdentityOf(users[id].provider)
    ensures Writable(users, id, u)
  {
    hide Lower, IdentityOf;
  }

  lemma EmailRouteKeeps(users: Users, id: Id, s: Summary, io: bool)
    requires ValidTable(users) && id in users
    ensures KeepsIdentities(users, ReconcileByEmail(users, id, s, io).users) <==>
            !(io && Anonymous(s) && users[id].registered && IdentityOf(users[id].provider).Some?)
  {
    hide Lower;
    var u := users[id];
    if u.registered && s.provider.Some? {
      MergeIdentity(u.provider, s.provider.value);
      var u' := u.(provider := Some(Merge(u.provider, s.provider.value)));
      if Anonymous(s) { SameEmailStaysValid(users, id, u'); }
      hide ValidTable, Writable;
      WriteChangesOne(users, id, u', io);
    }
  }

  /** Whoever logs in with an identity ends up as a user with exactly that identity. */
  lemma {:induction false} LoginGivesIdentity(users: Users, s: Summary, newId: Id, io: bool)
    requires IdentityOf(s.provider).Some? && Login(users, s, newId, io).outcome.LoggedIn?
    ensures var r := Login(users, s, newId, io);
            r.outcome.id in r.users && IdentityOf(r.users[r.outcome.id].provider) == IdentityOf(s.provider)
  {
    hide ValidTable, Writable, Lower;
    var known := ByIdentity(users, IdentityOf(s.provider).value);
    if known.Some? {
      MergeIdentity(users[known.value].provider, s.provider.value);
    } else {
      var matched := ByEmail(users, s.email);
      if matched.Some? { MergeIdentity(users[matched.value].provider, s.provider.value); }
    }
  }

  /** A returning user is recognised by identity even when the email has changed, and only ever as that user. */
  lemma {:induction false} ReturningUserKeepsAccount(users: Users, a: Id, s: Summary, newId: Id, io: bool)
    requires ValidTable(users) && a in users && IdentityOf(s.provider).Some? && HasIdentity(users[a], IdentityOf(s.provider).value)
    ensures var r := Login(users, s, newId, io);
            && (r.outcome.LoggedIn? ==> r.outcome.id == a && r.users[a].email == Lower(s.email))
            && (r.outcome.LoggedIn? <==> io && forall b :: b in users && b != a ==> Lower(users[b].email) != Lower(s.email))
  {
    var pair := IdentityOf(s.provider).value;
    assert ByIdentity(users, pair) == Some(a) by {
      assert SharedIdentity(users[a], users[ByIdentity(users, pair).value]);
    }
    var u := users[a].(email := Lower(s.email), verified := true, provider := MergeOptional(users[a].provider, s.provider));
    MergeIdentity(users[a].provider, s.provider.value);
    assert forall b :: b in users && b != a ==> IdentityOf(users[b].provider) != IdentityOf(s.provider) by {
      forall b | b in users && b != a
        ensures IdentityOf(users[b].provider) != IdentityOf(s.provider)
      {
        assert SharedIdentity(users[a], users[b]) ==> a == b;
      }
    }
    if forall b :: b in users && b != a ==> Lower(users[b].email) != Lower(s.email) {
      LowerTwice(s.email);
      NewEmailStaysValid(users, a, u);
    }
  }

  lemma NewEmailStaysValid(users: Users, id: Id, u: User)
    requires ValidTable(users) && id in users && IdentityOf(u.provider) == IdentityOf(users[id].provider)
    requires forall b :: b in users && b != id ==> Lower(users[b].email) != Lower(u.email)
    ensures Writable(users, id, u)
  {
    hide IdentityOf;
    var users' := users[id := u];
    forall a, b | a in users' && b in users' && SharedIdentity(users'[a], users'[b])
      ensures a == b
    {
      assert SharedIdentity(users[a], users[b]);
    }
  }

  // ---- What a login leaves behind ---------------------------------------------------------------

  /** The row a login is about: the owner of the identity, else of the email, else a new one. */
  ghost function Target(users: Users, s: Summary, newId: Id): Id {
    var incoming := IdentityOf(s.provider);
    var known := if incoming.Some? then ByIdentity(users, incoming.value) else None;
    var matched := ByEmail(users, s.email);
    if known.Some? then known.value else if matched.Some? then matched.value else newId
  }

  function GithubOf(p: Option<Provider>): Option<string> {
    if p.Some? then p.value.github else None
  }

  function LfOf(p: Option<Provider>): Option<LfProvider> {
    if p.Some? then p.value.lf else None
  }

  function Prefer<T>(incoming: Option<T>, existing: Option<T>): Option<T> {
    if incoming.Some? then incoming else existing
  }

  /** The row a summary makes of an earlier row, of an invitation placeholder or of nothing. */
  ghost predicate RowFor(users: Users, id: Id, s: Summary, u: User) {
    var existing := if id in users && users[id].registered then users[id].provider else None;
    && u.registered && u.verified && Lower(u.email) == Lower(s.email)
    && GithubOf(u.provider) == Prefer(GithubOf(s.provider), GithubOf(existing))
    && LfOf(u.provider) == Prefer(LfOf(s.provider), LfOf(existing))
  }

  /**
   Whoever is logged in is a registered and verified user with the email of the summary, whose provider
   metadata is the incoming one where there is any and the old one of a registered user otherwise.
   */
  lemma {:induction false} LoggedInRow(users: Users, s: Summary, newId: Id, io: bool)
    requires newId !in users && Login(users, s, newId, io).outcome.LoggedIn?
    ensures var r := Login(users, s, newId, io);
            && r.outcome.id == Target(users, s, newId) && r.outcome.id in r.users
            && RowFor(users, r.outcome.id, s, r.users[r.outcome.id])
  {
    hide ValidTable, Writable, Lower;
    LowerTwice(s.email);
  }

  /** A registered user whose email was never verified is not touched by anyone's login. */
  lemma {:induction false} UnverifiedStaysUntouched(users: Users, s: Summary, newId: Id, io: bool, a: Id)
    requires newId !in users && a in users && users[a].registered && !users[a].verified
    ensures var r := Login(users, s, newId, io); a in r.users && r.users[a] == users[a] && r.outcome != LoggedIn(a)
  {
    hide ValidTable, Writable, Lower;
  }

  /** The table already says what the summary says, so nothing is written. */
  ghost predicate UpToDate(users: Users, s: Summary, id: Id) {
    && id in users && users[id].registered && !(IdentityOf(s.provider).Some? && HasIdentity(users[id], IdentityOf(s.provider).value))
    && MergeOptional(users[id].provider, s.provider) == users[id].provider
  }

  /** Another row has the email or the indexed identity of the summary. */
  ghost predicate TakenElsewhere(users: Users, s: Summary, id: Id) {
    exists a :: a in users && a != id &&
      (|| Lower(users[a].email) == Lower(s.email)
       || (Indexed(IdentityOf(s.provider)) && IdentityOf(users[a].provider) == IdentityOf(s.provider)))
  }

  /** The row belongs to a registered user with a different identity. */
  predicate Relinks(users: Users, s: Summary, id: Id) {
    id in users && users[id].registered && Conflicting(IdentityOf(users[id].provider), IdentityOf(s.provider))
  }

  /**
   Exact condition for a login to succeed: no other row has its email or its indexed identity, it does
   not relink a registered user, and the write goes through unless there is nothing to write.
   */
  lemma {:induction false} LoginSucceedsIff(users: Users, s: Summary, newId: Id, io: bool)
    requires ValidTable(users) && newId !in users
    ensures var id := Target(users, s, newId);
            Login(users, s, newId, io).outcome.LoggedIn? <==>
            !TakenElsewhere(users, s, id) && !Relinks(users, s, id) && (io || UpToDate(users, s, id))
  {
    hide ValidTable, Writable, Lower;
    var id, incoming := Target(users, s, newId), IdentityOf(s.provider);
    var known := if incoming.Some? then ByIdentity(users, incoming.value) else None;
    LowerTwice(s.email);
    if known.Some? {
      KnownSucceedsIff(users, id, s, io);
    } else if ByEmail(users, s.email).Some? {
      MatchedSucceedsIff(users, id, s, io);
    } else {
      TakenIff(users, newId, User(Lower(s.email), true, true, s.provider));
    }
  }

  lemma KnownSucceedsIff(users: Users, id: Id, s: Summary, io: bool)
    requires ValidTable(users) && id in users && IdentityOf(s.provider).Some? && HasIdentity(users[id], IdentityOf(s.provider).value)
    ensures UpdateExternalAuth(users, id, s, io).outcome.LoggedIn? <==>
            !TakenElsewhere(users, s, id) && !Relinks(users, s, id) && (io || UpToDate(users, s, id))
  {
    hide ValidTable, Writable, Lower;
    var u := users[id].(email := Lower(s.email), verified := true, provider := MergeOptional(users[id].provider, s.provider));
    LowerTwice(s.email);
    MergeIdentity(users[id].provider, s.provider.value);
    TakenIff(users, id, u);
  }

  lemma MatchedSucceedsIff(users: Users, id: Id, s: Summary, io: bool)
    requires ValidTable(users) && id in users && HasEmail(users[id], s.email)
    requires IdentityOf(s.provider).Some? ==> !HasIdentity(users[id], IdentityOf(s.provider).value)
    ensures ReconcileByEmail(users, id, s, io).outcome.LoggedIn? <==>
            !TakenElsewhere(users, s, id) && !Relinks(users, s, id) && (io || UpToDate(users, s, id))
  {
    var u := users[id];
    assert forall a :: a in users && a != id ==> Lower(users[a].email) != Lower(s.email);
    hide Lower, Writable;
    if !u.registered {
      TakenIff(users, id, u.(verified := true, registered := true, provider := s.provider));
    } else if s.provider.Some? {
      MergeIdentity(u.provider, s.provider.value);
      TakenIff(users, id, u.(provider := Some(Merge(u.provider, s.provider.value))));
      OwnIdentityIsFree(users, id);
    }
  }

  lemma OwnIdentityIsFree(users: Users, id: Id)
    requires ValidTable(users) && id in users
    ensures forall a :: a in users && a != id && Indexed(IdentityOf(users[id].provider)) ==>
      IdentityOf(users[a].provider) != IdentityOf(users[id].provider)
  {
    hide Lower, IdentityOf;
    forall a | a in users && a != id && Indexed(IdentityOf(users[id].provider))
      ensures IdentityOf(users[a].provider) != IdentityOf(users[id].provider)
    {
      assert SharedIdentity(users[id], users[a]) ==> a == id;
    }
  }

  /** Whoever has logged in can log in again, with the same summary, as the same user. */
  lemma {:induction false} LoginAgain(users: Users, s: Summary, newId: Id, io: bool, newId': Id)
    requires ValidTable(users) && newId !in users && Login(users, s, newId, io).outcome.LoggedIn?
    requires newId' !in Login(users, s, newId, io).users
    ensures var r := Login(users, s, newId, io); Login(r.users, s, newId', true).outcome == LoggedIn(r.outcome.id)
  {
    hide Login, ValidTable, Lower;
    var r := Login(users, s, newId, io);
    LoginFrame(users, s, newId, io);
    LoggedInRow(users, s, newId, io);
    SameTarget(r.users, s, r.outcome.id, newId');
    LoginSucceedsIff(r.users, s, newId', true);
    LoggedInRow(r.users, s, newId', true);
  }

  /** The row a login has left is the one the next login with the same summary is about, and nothing is in its way. */
  lemma SameTarget(users: Users, s: Summary, id: Id, newId: Id)
    requires ValidTable(users) && id in users && users[id].registered && users[id].verified
    requires Lower(users[id].email) == Lower(s.email) && (LfOf(s.provider).Some? ==> LfOf(users[id].provider) == LfOf(s.provider))
    ensures Target(users, s, newId) == id && !TakenElsewhere(users, s, id) && !Relinks(users, s, id)
  {
    OwnIdentityIsFree(users, id);
    hide Lower;
    assert IdentityOf(s.provider).Some? ==> IdentityOf(users[id].provider) == IdentityOf(s.provider);
    assert HasEmail(users[id], s.email);
    assert forall a :: a in users && Lower(users[a].email) == Lower(s.email) ==> a == id;
    if IdentityOf(s.provider).Some? {
      assert Indexed(IdentityOf(s.provider)) ==> HasIdentity(users[id], IdentityOf(s.provider).value);
      assert forall a :: a in users && HasIdentity(users[a], IdentityOf(s.provider).value) ==> a == id;
    }
  }

  // ---- Whole runs ---------------------------------------------------------------------------------

  datatype Attempt = Attempt(summary: Summary, newId: Id, io: bool)

  ghost predicate IsRun(users: Users, run: seq<Attempt>)
    decreases |run|
  {
    run == [] || (run[0].newId !in users && IsRun(Login(users, run[0].summary, run[0].newId, run[0].io).users, run[1..]))
  }

  ghost function Final(users: Users, run: seq<Attempt>): Users
    decreases |run|
  {
    if run == [] then users else Final(Login(users, run[0].summary, run[0].newId, run[0].io).users, run[1..])
  }

  /** `UserProvider::from_github_username` and `UserProvider::from_linuxfoundation_identity`. */
  function FromGitHub(username: string): Provider {
    Provider(Some(username), None)
  }

  function FromLinuxFoundation(issuer: string, subject: string, username: string): Provider {
    Provider(None, Some(LfProvider(username, Some(issuer), Some(subject))))
  }

  /** What the two login flows build. */
  predicate FromLoginFlow(s: Summary) {
    s.provider.Some? &&
    var p := s.provider.value;
    || (p.github.Some? && p == FromGitHub(p.github.value))
    || (p.lf.Some? && p.lf.value.issuer.Some? && p.lf.value.subject.Some?
        && p == FromLinuxFoundation(p.lf.value.issuer.value, p.lf.value.subject.value, p.lf.value.username))
  }

  /** The Linux Foundation flow hands on the issuer and the subject, in this order. */
  lemma FlowIdentity(issuer: string, subject: string, username: string)
    ensures IdentityOf(Some(FromLinuxFoundation(issuer, subject, username))) == Some((issuer, subject))
    ensures IdentityOf(Some(FromGitHub(username))) == None && GithubOf(Some(FromGitHub(username))) == Some(username)
  {
  }

  lemma FlowIsNotAnonymous(s: Summary)
    requires FromLoginFlow(s)
    ensures !Anonymous(s)
  {
  }

  lemma {:induction false} RunKeepsIdentities(users: Users, run: seq<Attempt>)
    requires ValidTable(users) && IsRun(users, run)
    requires forall i :: 0 <= i < |run| ==> !Anonymous(run[i].summary)
    ensures ValidTable(Final(users, run)) && KeepsIdentities(users, Final(users, run))
    decreases |run|
  {
    hide ValidTable, Login, Anonymous;
    if run != [] {
      var users' := Login(users, run[0].summary, run[0].newId, run[0].io).users;
      LoginFrame(users, run[0].summary, run[0].newId, run[0].io);
      LoginKeepsIdentitiesIff(users, run[0].summary, run[0].newId, run[0].io);
      RunKeepsIdentities(users', run[1..]);
    }
  }

  /**
   No run of logins built by the two login flows changes the issuer and subject of a registered user
   or gives one pair to two users.
   */
  lemma {:induction false} LoginsNeverRelink(users: Users, run: seq<Attempt>)
    requires ValidTable(users) && IsRun(users, run)
    requires forall i :: 0 <= i < |run| ==> FromLoginFlow(run[i].summary)
    ensures KeepsIdentities(users, Final(users, run)) && UniqueEmails(Final(users, run))
    ensures var users' := Final(users, run);
            forall a, b, issuer, subject ::
              (&& a in users' && b in users' && issuer != "" && subject != ""
               && IdentityOf(users'[a].provider) == IdentityOf(users'[b].provider) == Some((issuer, subject))) ==> a == b
  {
    forall i | 0 <= i < |run|
      ensures !Anonymous(run[i].summary)
    {
      FlowIsNotAnonymous(run[i].summary);
    }
    RunKeepsIdentities(users, run);
    var users' := Final(users, run);
    forall a, b, issuer, subject | a in users' && b in users' && issuer != "" && subject != ""
      && IdentityOf(users'[a].provider) == IdentityOf(users'[b].provider) == Some((issuer, subject))
      ensures a == b
    {
      assert SharedIdentity(users'[a], users'[b]);
    }
  }

  // ---- The code -------------------------------------------------------------------------------------

  class AuthnBackend {
    var users: Users

    constructor (users: Users)
      ensures this.users == users
    {
      this.users := users;
    }

    method GetUserByIdentity(pair: Pair) returns (r: Option<Id>)
      requires ValidTable(users)
      ensures r == ByIdentity(users, pair)
    {
      var rest := users.Keys;
      while rest != {}
        invariant forall a :: a in users && a !in rest ==> !HasIdentity(users[a], pair)
        invariant rest <= users.Keys
        decreases |rest|
      {
        var a :| a in rest;
        if HasIdentity(users[a], pair) {
          assert forall b :: b in users && HasIdentity(users[b], pair) ==> SharedIdentity(users[a], users[b]);
          return Some(a);
        }
        rest := rest - {a};
      }
      r := None;
    }

    method GetUserByEmail(email: string) returns (r: Option<Id>)
      requires ValidTable(users)
      ensures r == ByEmail(users, email)
    {
      var rest := users.Keys;
      while rest != {}
        invariant forall a :: a in users && a !in rest ==> !HasEmail(users[a], email)
        invariant rest <= users.Keys
        decreases |rest|
      {
        var a :| a in rest;
        if HasEmail(users[a], email) {
          return Some(a);
        }
        rest := rest - {a};
      }
      r := None;
    }

    /** Whether another row already has this email or indexed identity. */
    method Taken(id: Id, email: string, identity: Option<Pair>) returns (emailTaken: bool, identityTaken: bool)
      ensures emailTaken <==> exists a :: a in users && a != id && Lower(users[a].email) == Lower(email)
      ensures identityTaken <==>
        Indexed(identity) && exists a :: a in users && a != id && IdentityOf(users[a].provider) == identity
    {
      emailTaken, identityTaken := false, false;
      var rest := users.Keys;
      while rest != {}
        invariant rest <= users.Keys
        invariant emailTaken <==> exists a :: a in users && a !in rest && a != id && Lower(users[a].email) == Lower(email)
        invariant identityTaken <==>
          Indexed(identity) && exists a :: a in users && a !in rest && a != id && IdentityOf(users[a].provider) == identity
        decreases |rest|
      {
        var a :| a in rest;
        rest := rest - {a};
        if a != id {
          if Lower(users[a].email) == Lower(email) { emailTaken := true; }
          if Indexed(identity) && IdentityOf(users[a].provider) == identity { identityTaken := true; }
        }
      }
    }

    method WriteRow(id: Id, u: User, io: bool) returns (outcome: Outcome)
      requires ValidTable(users)
      modifies this
      ensures LoginResult(users, outcome) == Write(old(users), id, u, io)
    {
      if !io {
        return DatabaseError;
      }
      var emailTaken, identityTaken := Taken(id, u.email, IdentityOf(u.provider));
      TakenIff(users, id, u);
      if emailTaken || identityTaken {
        return UniqueViolation;
      }
      users := users[id := u];
      outcome := LoggedIn(id);
    }

    method GetOrSignUpExternalUser(s: Summary, newId: Id, io: bool) returns (outcome: Outcome)
      requires ValidTable(users) && newId !in users
      modifies this
      ensures LoginResult(users, outcome) == Login(old(users), s, newId, io)
    {
      hide ValidTable, Write, Lower;
      var incoming := IdentityOf(s.provider);
      if incoming.Some? {
        var known := GetUserByIdentity(incoming.value);
        if known.Some? {
          var u := users[known.value];
          var emailTaken, identityTaken := Taken(known.value, s.email, incoming);
          if emailTaken {
            return EmailTaken;
          }
          if identityTaken {
            return IdentityTaken;
          }
          outcome := WriteRow(known.value,
            u.(email := Lower(s.email), verified := true, provider := MergeOptional(u.provider, s.provider)), io);
          return;
        }
      }
      var matched := GetUserByEmail(s.email);
      if matched.Some? {
        outcome := Reconcile(matched.value, s, io);
      } else {
        outcome := WriteRow(newId, User(Lower(s.email), true, true, s.provider), io);
      }
    }

    method Reconcile(id: Id, s: Summary, io: bool) returns (outcome: Outcome)
      requires ValidTable(users) && id in users
      modifies this
      ensures LoginResult(users, outcome) == ReconcileByEmail(old(users), id, s, io)
    {
      hide ValidTable, Write;
      var u := users[id];
      if !u.registered {
        outcome := WriteRow(id, u.(verified := true, registered := true, provider := s.provider), io);
        return;
      }
      if Conflicting(IdentityOf(u.provider), IdentityOf(s.provider)) {
        return IdentityConflict;
      }
      if s.provider.Some? {
        var merged := Merge(u.provider, s.provider.value);
        if u.provider != Some(merged) {
          outcome := WriteRow(id, u.(provider := Some(merged)), io);
          return;
        }
      }
      outcome := LoggedIn(id);
    }
  }

  /** The unique indexes accept a row exactly when no other row has its email or its indexed identity. */
  lemma TakenIff(users: Users, id: Id, u: User)
    requires ValidTable(users)
    ensures Writable(users, id, u) <==>
      && !(exists a :: a in users && a != id && Lower(users[a].email) == Lower(u.email))
      && !(Indexed(IdentityOf(u.provider)) && exists a :: a in users && a != id && IdentityOf(users[a].provider) == IdentityOf(u.provider))
  {
    hide Lower, IdentityOf;
    var users' := users[id := u];
    if a :| a in users && a != id && Lower(users[a].email) == Lower(u.email) {
      assert users'[a] == users[a] && users'[id] == u;
    } else if a :| Indexed(IdentityOf(u.provider)) && a in users && a != id && IdentityOf(users[a].provider) == IdentityOf(u.provider) {
      assert users'[a] == users[a] && SharedIdentity(users'[id], users'[a]);
    } else {
      forall a, b | a in users' && b in users' && SharedIdentity(users'[a], users'[b])
        ensures a == b
      {
        if a != id && b != id { assert SharedIdentity(users[a], users[b]); }
      }
    }
  }
}
