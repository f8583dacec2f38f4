/**
 Administrator accounts (`crates/aurix-auth/src/admin.rs`) over the queries and unique indexes
 of the account table (`crates/aurix-db/src/queries.rs`, migration 13).

 Every service method is one atomic step on the table.  Its own contract says what it returns
 and what the new table is; `Change` says what any step may do to the table, and the lemmas
 over `Change` are about every run of every method.
 */
module Admin {
  import opened Wrappers
  import Text
  import Utf8
  import Runs

  datatype Role = Viewer | Moderator | Admin | Superadmin

  datatype Source = Password | Oidc

  datatype Identity = Identity(issuer: string, subject: string)

  /** A row of the account table.  `password` is missing for accounts that only use SSO. */
  datatype Row = Row(
    email: string, password: Option<string>, displayName: string, role: Role, active: bool,
    source: Source, sso: Option<Identity>, generation: nat)

  type Table = map<nat, Row>

  datatype Error =
    | Validation | NotFound | Conflict | Denied | AuthenticationFailed | TokenInvalid | TokenExpired | Database

  // ---- validators --------------------------------------------------------------------------------

  /** Trimmed and lower-cased; three to 254 bytes with an `@` inside and no blanks. */
  function NormalizeEmail(raw: string): Result<string, Error> {
    var email := Text.Lower(Text.Trim(raw));
    if ValidEmail(email) then Ok(email) else Err(Validation)
  }

  predicate ValidEmail(email: string) {
    && 3 <= |Utf8.Encode(email)| <= 254
    && (exists i :: 0 < i < |email| - 1 && email[i] == '@' && '@' !in email[..i])
    && (forall i :: 0 <= i < |email| ==> !Text.IsWhitespace(email[i]) && !Text.IsControl(email[i]))
  }

  /** A normalised address is its own normal form. */
  lemma NormalizeIsIdempotent(raw: string)
    requires NormalizeEmail(raw).Ok?
    ensures NormalizeEmail(NormalizeEmail(raw).value) == NormalizeEmail(raw)
  {
    var email := NormalizeEmail(raw).value;
    Text.TrimOfClean(email);
    Text.LowerIsIdempotent(Text.Trim(raw));
  }

  predicate ValidPassword(password: string) {
    |password| >= 12 && |Utf8.Encode(password)| <= 1024
  }

  function DisplayName(raw: string): Result<string, Error> {
    var name := Text.Trim(raw);
    if name == "" || |name| > 120 || (exists i :: 0 <= i < |name| && Text.IsControl(name[i])) then Err(Validation)
    else Ok(name)
  }

  // ---- queries -----------------------------------------------------------------------------------

  ghost predicate EmailInUse(rows: Table, email: string) {
    exists id :: id in rows && rows[id].active && rows[id].email == email
  }

  ghost predicate IdentityBound(rows: Table, who: Identity) {
    exists id :: id in rows && rows[id].sso == Some(who)
  }

  predicate IsActiveSuperadmin(r: Row) {
    r.active && r.role == Superadmin
  }

  function Superadmins(rows: Table): set<nat> {
    set id | id in rows && IsActiveSuperadmin(rows[id])
  }

  ghost predicate HasActive(rows: Table) {
    exists i :: i in rows && rows[i].active
  }

  // ---- the invariant: the table's unique indexes ---------------------------------------------------

  ghost predicate EmailsUnique(rows: Table) {
    forall i, j :: i in rows && j in rows && i != j && rows[i].active && rows[j].active ==>
      rows[i].email != rows[j].email
  }

  ghost predicate IdentitiesUnique(rows: Table) {
    forall i, j :: i in rows && j in rows && i != j && rows[i].sso.Some? ==> rows[i].sso != rows[j].sso
  }

  predicate IsNormal(email: string) {
    NormalizeEmail(email) == Ok(email)
  }

  ghost predicate EmailsNormal(rows: Table) {
    forall i :: i in rows ==> IsNormal(rows[i].email)
  }

  ghost predicate Valid(rows: Table) {
    EmailsUnique(rows) && IdentitiesUnique(rows) && EmailsNormal(rows)
  }

  // ---- what one step may do ------------------------------------------------------------------------

  /** A new account: active, first generation, its email and identity not in use. */
  ghost predicate Inserts(a: Table, b: Table, id: nat) {
    && id !in a && b.Keys == a.Keys + {id} && (forall i :: i in a ==> b[i] == a[i])
    && b[id].active && b[id].generation == 0
    && IsNormal(b[id].email) && !EmailInUse(a, b[id].email)
    && (b[id].sso.Some? ==> !IdentityBound(a, b[id].sso.value))
  }

  /** What the row of an existing account may become. */
  ghost predicate EditAllowed(a: Table, id: nat, r: Row)
    requires id in a
  {
    && r.email == a[id].email
    && a[id].generation <= r.generation
    // whatever revokes sessions starts a new generation
    && (r.role != a[id].role || r.password != a[id].password || (a[id].active && !r.active) ==>
          a[id].generation < r.generation)
    // an identity is bound once
    && (a[id].sso.Some? ==> r.sso == a[id].sso)
    && (a[id].sso.None? && r.sso.Some? ==> !IdentityBound(a, r.sso.value))
    // reactivation needs a free email
    && (!a[id].active && r.active ==> !EmailInUse(a, a[id].email))
    // the last active superadmin stays
    && (IsActiveSuperadmin(a[id]) && !IsActiveSuperadmin(r) ==>
      exists other :: other in a && other != id && IsActiveSuperadmin(a[other]))
  }

  /** An edit of one row. */
  ghost predicate Edits(a: Table, b: Table, id: nat) {
    && id in a && b.Keys == a.Keys && (forall i :: i in a && i != id ==> b[i] == a[i])
    && EditAllowed(a, id, b[id])
  }

  ghost predicate Change(a: Table, b: Table) {
    a == b || (exists id :: Inserts(a, b, id)) || (exists id :: Edits(a, b, id))
  }

  lemma ChangeKeepsEmailsUnique(a: Table, b: Table)
    requires EmailsUnique(a) && Change(a, b)
    ensures EmailsUnique(b)
  {
    forall i, j | i in b && j in b && i != j && b[i].active && b[j].active
      ensures b[i].email != b[j].email
    {
      if i in a && j in a && a[i].active && a[j].active {
      } else if i in a && a[i].active {
        assert EmailInUse(a, a[i].email);
      } else if j in a && a[j].active {
        assert EmailInUse(a, a[j].email);
      }
    }
  }

  lemma ChangeKeepsIdentitiesUnique(a: Table, b: Table)
    requires IdentitiesUnique(a) && Change(a, b)
    ensures IdentitiesUnique(b)
  {
    forall i, j | i in b && j in b && i != j && b[i].sso.Some?
      ensures b[i].sso != b[j].sso
    {
      if b[i].sso == b[j].sso {
        var who := b[i].sso.value;
        if i in a && a[i].sso == Some(who) {
          assert IdentityBound(a, who);
        } else if j in a && a[j].sso == Some(who) {
          assert IdentityBound(a, who);
        }
      }
    }
  }

  lemma ChangeKeepsEmailsNormal(a: Table, b: Table)
    requires EmailsNormal(a) && Change(a, b)
    ensures EmailsNormal(b)
  {
    forall i | i in b
      ensures IsNormal(b[i].email)
    {
      if i in a {
        assert b[i].email == a[i].email;
      }
    }
  }

  /** Every step keeps one active account per normalised email and one account per identity. */
  lemma ChangeKeepsValid(a: Table, b: Table)
    requires Valid(a) && Change(a, b)
    ensures Valid(b)
  {
    ChangeKeepsEmailsUnique(a, b);
    ChangeKeepsIdentitiesUnique(a, b);
    ChangeKeepsEmailsNormal(a, b);
  }

  lemma ChangeKeepsSuperadmin(a: Table, b: Table)
    requires Change(a, b) && Superadmins(a) != {}
    ensures Superadmins(b) != {}
  {
    var id :| id in Superadmins(a);
    if id in b && IsActiveSuperadmin(b[id]) {
      assert id in Superadmins(b);
    } else {
      assert Edits(a, b, id);
      var other :| other in a && other != id && IsActiveSuperadmin(a[other]);
      assert other in Superadmins(b);
    }
  }

  // ---- every run -----------------------------------------------------------------------------------

  /** The tables of a run: each comes from the one before by one step. */
  ghost predicate IsRun(run: seq<Table>) {
    Runs.IsRun((a, b) => Change(a, b), run)
  }

  /** In every run there stays one active account per email and one account per identity. */
  lemma RunKeepsValid(run: seq<Table>, i: nat, j: nat)
    requires IsRun(run) && i <= j < |run| && Valid(run[i])
    ensures Valid(run[j])
  {
    forall a, b | Valid(a) && Change(a, b)
      ensures Valid(b)
    {
      ChangeKeepsValid(a, b);
    }
    Runs.Invariant((a, b) => Change(a, b), a => Valid(a), run, i, j);
  }

  /** In every run, once a superadmin is active, one always is. */
  lemma RunKeepsSuperadmin(run: seq<Table>, i: nat, j: nat)
    requires IsRun(run) && i <= j < |run| && Superadmins(run[i]) != {}
    ensures Superadmins(run[j]) != {}
  {
    forall a, b | Superadmins(a) != {} && Change(a, b)
      ensures Superadmins(b) != {}
    {
      ChangeKeepsSuperadmin(a, b);
    }
    Runs.Invariant((a, b) => Change(a, b), a => Superadmins(a) != {}, run, i, j);
  }

  /** What never changes about an account, and what changes only with its generation. */
  ghost predicate Follows(a: Row, b: Row) {
    && b.email == a.email
    && (a.sso.Some? ==> b.sso == a.sso)
    && a.generation <= b.generation
    && (a.generation == b.generation ==> a.role == b.role && a.password == b.password && (a.active ==> b.active))
  }

  /** Every account of `a` is still in `b` and follows what it was. */
  ghost predicate RowsFollow(a: Table, b: Table) {
    forall id :: id in a ==> id in b && Follows(a[id], b[id])
  }

  lemma RowFollows(run: seq<Table>, i: nat, j: nat, id: nat)
    requires IsRun(run) && i <= j < |run| && id in run[i]
    ensures id in run[j] && Follows(run[i][id], run[j][id])
  {
    forall a, b | Change(a, b)
      ensures RowsFollow(a, b)
    {
      forall id | id in a
        ensures id in b && Follows(a[id], b[id])
      {
        StepFollows(a, b, id);
      }
    }
    Runs.Relation((a, b) => Change(a, b), (a, b) => RowsFollow(a, b), run, i, j);
  }

  lemma StepFollows(a: Table, b: Table, id: nat)
    requires Change(a, b) && id in a
    ensures id in b && Follows(a[id], b[id])
  {
  }

  /** A bound identity stays with its account, and with no other, for the rest of the run. */
  lemma IdentityNeverMoves(run: seq<Table>, i: nat, j: nat, id: nat, who: Identity)
    requires IsRun(run) && i <= j < |run| && IdentitiesUnique(run[i])
    requires id in run[i] && run[i][id].sso == Some(who)
    ensures id in run[j] && run[j][id].sso == Some(who)
    ensures forall other :: other in run[j] && run[j][other].sso == Some(who) ==> other == id
  {
    RowFollows(run, i, j, id);
    forall a, b | IdentitiesUnique(a) && Change(a, b)
      ensures IdentitiesUnique(b)
    {
      ChangeKeepsIdentitiesUnique(a, b);
    }
    Runs.Invariant((a, b) => Change(a, b), a => IdentitiesUnique(a), run, i, j);
  }

  // ---- tokens --------------------------------------------------------------------------------------

  const ADMIN_TOKEN_TYPE: string := "aurix-admin"
  const LEEWAY: int := 30

  /** The signed claims of an administrator token. */
  datatype Claims = Claims(adminId: nat, email: string, role: Role, typ: string, source: Option<Source>,
      generation: int, exp: int, iat: int)

  datatype Context = Context(adminId: nat, email: string, role: Role, source: Source)

  function IssueToken(id: nat, row: Row, source: Source, now: int, ttl: int): Claims {
    Claims(id, row.email, row.role, ADMIN_TOKEN_TYPE, Some(source), row.generation, now + ttl, now)
  }

  /** Claims whose signature has been verified, checked against the account as it is now. */
  function AuthenticateToken(rows: Table, c: Claims, now: int): Result<Context, Error> {
    if c.exp < now - LEEWAY then Err(TokenExpired)
    else if c.typ != ADMIN_TOKEN_TYPE then Err(TokenInvalid)
    else if c.adminId !in rows || !rows[c.adminId].active then Err(AuthenticationFailed)
    else if c.generation != rows[c.adminId].generation then Err(TokenInvalid)
    else
      var row := rows[c.adminId];
      Ok(Context(c.adminId, row.email, row.role, if c.source.Some? then c.source.value else Password))
  }

  /**
   Two acceptances of one token bracket an undisturbed stretch: at every table in between the
   account is active, in the same generation, with the same role and password.  So after a role
   change, a deactivation (undone or not), a password change or a forced sign-out, no earlier
   token is accepted again.
   */
  lemma AcceptedTwiceMeansUndisturbed(run: seq<Table>, i: nat, k: nat, j: nat, c: Claims, now: int, later: int)
    requires IsRun(run) && i <= k <= j < |run|
    requires AuthenticateToken(run[i], c, now).Ok? && AuthenticateToken(run[j], c, later).Ok?
    ensures c.adminId in run[i] && c.adminId in run[k]
    ensures var a, b := run[i][c.adminId], run[k][c.adminId];
      && a.active && b.active && b.generation == a.generation == c.generation
      && b.role == a.role && b.password == a.password
    ensures AuthenticateToken(run[j], c, later).value.role == run[i][c.adminId].role
  {
    RowFollows(run, i, k, c.adminId);
    RowFollows(run, k, j, c.adminId);
  }

  /** Exactly which tokens are accepted: of the right type, not expired for 30 seconds, and of the account as it is. */
  lemma AcceptedExactlyWhen(rows: Table, c: Claims, now: int)
    ensures AuthenticateToken(rows, c, now).Ok? <==>
      && now <= c.exp + 30 && c.typ == "aurix-admin"
      && c.adminId in rows && rows[c.adminId].active && rows[c.adminId].generation == c.generation
    ensures now > c.exp + 30 ==> AuthenticateToken(rows, c, now) == Err(TokenExpired)
  {
  }

  /** A token lives for as long as it was issued for, if nothing happens to the account. */
  lemma IssuedTokenLives(rows: Table, id: nat, source: Source, issued: int, ttl: int, now: int)
    requires id in rows && rows[id].active
    ensures AuthenticateToken(rows, IssueToken(id, rows[id], source, issued, ttl), now)
      == if now <= issued + ttl + 30 then Ok(Context(id, rows[id].email, rows[id].role, source)) else Err(TokenExpired)
  {
  }

  /** A token older than a generation the account has reached is never accepted again. */
  lemma RevokedTokenStaysRevoked(run: seq<Table>, i: nat, j: nat, c: Claims, now: int)
    requires IsRun(run) && i <= j < |run|
    requires c.adminId in run[i] && c.generation < run[i][c.adminId].generation
    ensures AuthenticateToken(run[j], c, now).Err?
  {
    RowFollows(run, i, j, c.adminId);
  }

  // ---- the service ---------------------------------------------------------------------------------

  datatype Update = Update(role: Option<Role>, displayName: Option<string>, active: Option<bool>)

  datatype SsoLogin = SsoLogin(who: Identity, email: string, displayName: string, role: Role, autoProvision: bool,
      syncRole: bool)

  function NewRow(email: string, password: Option<string>, name: string, role: Role, source: Source,
      sso: Option<Identity>): Row
  {
    Row(email, password, name, role, true, source, sso, 0)
  }

  function Bumped(r: Row): Row {
    r.(generation := r.generation + 1)
  }

  /** The row after `UPDATE ... COALESCE`; with `revoke` the token generation is bumped. */
  function Updated(r: Row, role: Option<Role>, name: Option<string>, active: Option<bool>, revoke: bool): Row {
    var s := r.(role := if role.Some? then role.value else r.role,
                displayName := if name.Some? then name.value else r.displayName,
                active := if active.Some? then active.value else r.active);
    if revoke then Bumped(s) else s
  }

  /** The guard of the role sync: demoting this account would leave no active superadmin. */
  predicate IsLastSuperadmin(rows: Table, r: Row, newRole: Role) {
    IsActiveSuperadmin(r) && newRole != Superadmin && |Superadmins(rows)| <= 1
  }

  lemma AnotherSuperadmin(rows: Table, id: nat)
    requires id in rows && IsActiveSuperadmin(rows[id]) && |Superadmins(rows)| > 1
    ensures exists other :: other in rows && other != id && IsActiveSuperadmin(rows[other])
  {
    var s := Superadmins(rows);
    assert id in s && |s - {id}| > 0;
    var other :| other in s - {id};
  }

  lemma EditIsChange(a: Table, id: nat, r: Row)
    requires id in a && EditAllowed(a, id, r)
    ensures Change(a, a[id := r])
  {
    assert Edits(a, a[id := r], id);
  }

  lemma InsertIsChange(a: Table, id: nat, r: Row)
    requires id !in a && r.active && r.generation == 0 && IsNormal(r.email) && !EmailInUse(a, r.email)
    requires r.sso.Some? ==> !IdentityBound(a, r.sso.value)
    ensures Change(a, a[id := r])
  {
    assert Inserts(a, a[id := r], id);
  }

  predicate HasCredentials(r: Row, email: string, password: string) {
    r.active && r.email == email && r.password == Some(password)
  }

  // ---- what the steps do to a row --------------------------------------------------------------------

  /** The role sync of an SSO login: the provider's role, unless it would remove the last superadmin. */
  function Synced(rows: Table, r: Row, login: SsoLogin): Row {
    if login.syncRole && r.role != login.role && !IsLastSuperadmin(rows, r, login.role)
    then Updated(r, Some(login.role), None, None, true) else r
  }

  /** What an SSO login does: `a` before, `b` after, `r` the account signed in. */
  ghost predicate SsoOutcome(a: Table, login: SsoLogin, email: string, freshId: nat, b: Table, r: Result<nat, Error>) {
    // a known identity
    && (forall i :: i in a && a[i].sso == Some(login.who) ==>
          if a[i].active then r == Ok(i) && b == a[i := Synced(a, a[i], login)]
          else r == Err(AuthenticationFailed))
    // the first login of an account with this email
    && (!IdentityBound(a, login.who) ==>
          forall i :: i in a && a[i].active && a[i].email == email ==>
            if a[i].sso.Some? then r == Err(AuthenticationFailed)
            else r == Ok(i) && b == a[i := Synced(a, Bound(a[i], login.who), login)])
    // nobody yet
    && (!IdentityBound(a, login.who) && !EmailInUse(a, email) ==>
          if !login.autoProvision then r == Err(AuthenticationFailed)
          else if freshId in a then r == Err(Database)
          else r == Ok(freshId) && b == a[freshId := Provisioned(email, login)])
  }

  function Bound(r: Row, who: Identity): Row {
    r.(sso := Some(who), source := Oidc)
  }

  /** The account an unknown identity gets; the local part of the email stands in for a bad name. */
  function Provisioned(email: string, login: SsoLogin): Row {
    var name := DisplayName(login.displayName);
    NewRow(email, None, if name.Ok? then name.value else Text.Split(email, '@')[0], login.role, Oidc, Some(login.who))
  }

  // ---- what becomes of an account, field by field ----------------------------------------------------

  /** Nobody else is an active superadmin. */
  ghost predicate NoOtherSuperadmin(a: Table, id: nat) {
    forall i :: i in a && i != id ==> !(a[i].active && a[i].role == Superadmin)
  }

  lemma LastSuperadminMeans(a: Table, id: nat)
    requires id in a && a[id].active && a[id].role == Superadmin
    ensures |Superadmins(a)| <= 1 <==> NoOtherSuperadmin(a, id)
  {
    var s := Superadmins(a);
    assert id in s;
    if |s| > 1 {
      AnotherSuperadmin(a, id);
    } else {
      assert |s - {id}| == 0;
      forall i | i in a && i != id
        ensures !(a[i].active && a[i].role == Superadmin)
      {
        assert i !in s - {id};
      }
    }
  }

  /**
   What an SSO login leaves of an account: everything, but for the identity and the source on the
   first login, and the provider's role in a new generation if roles are synchronised, this one
   differs, and it is not the last active superadmin.
   */
  ghost predicate IsSignedIn(a: Table, id: nat, r: Row, login: SsoLogin)
    requires id in a
  {
    && r.email == a[id].email && r.password == a[id].password && r.displayName == a[id].displayName
    && r.active && a[id].active
    && r.sso == Some(login.who) && (a[id].sso == Some(login.who) || a[id].sso == None)
    && r.source == (if a[id].sso == None then Oidc else a[id].source)
    && if login.syncRole && a[id].role != login.role && !(a[id].role == Superadmin && NoOtherSuperadmin(a, id))
       then r.role == login.role && r.generation == a[id].generation + 1
       else r.role == a[id].role && r.generation == a[id].generation
  }

  /** A new account of an SSO login, with the name before the `@` if the provider's name is no good. */
  ghost predicate IsProvisioned(r: Row, email: string, login: SsoLogin) {
    && r.email == email && r.password == None && r.role == login.role && r.active
    && r.source == Oidc && r.sso == Some(login.who) && r.generation == 0
    && if DisplayName(login.displayName).Ok? then r.displayName == Text.Trim(login.displayName)
       else '@' !in r.displayName && r.displayName + "@" <= email
  }

  /** No account but this one is touched. */
  ghost predicate OnlyThat(a: Table, b: Table, id: nat) {
    b.Keys == a.Keys + {id} && forall i :: i in a && i != id ==> b[i] == a[i]
  }

  lemma WrittenOnlyThat(a: Table, id: nat, r: Row)
    ensures OnlyThat(a, a[id := r], id)
  {
  }

  lemma SyncedIsSignedIn(a: Table, id: nat, login: SsoLogin)
    requires id in a && a[id].active && (a[id].sso == Some(login.who) || a[id].sso == None)
    ensures IsSignedIn(a, id, Synced(a, if a[id].sso == None then Bound(a[id], login.who) else a[id], login), login)
  {
    if a[id].role == Superadmin {
      LastSuperadminMeans(a, id);
    }
  }

  lemma ProvisionedIsNew(email: string, login: SsoLogin)
    requires IsNormal(email)
    ensures IsProvisioned(Provisioned(email, login), email, login)
  {
    var i :| 0 < i < |email| - 1 && email[i] == '@' && '@' !in email[..i];
    assert email == email[..i] + ['@'] + email[i + 1..];
    Text.SplitFirst(email[..i], '@', email[i + 1..]);
  }

  /** What an update leaves of an account: what it names is changed, with a new generation if that revokes. */
  ghost predicate IsEdited(before: Row, after: Row, u: Update) {
    && after.email == before.email && after.password == before.password
    && after.source == before.source && after.sso == before.sso
    && after.role == (if u.role.Some? then u.role.value else before.role)
    && after.displayName == (if u.displayName.Some? then Text.Trim(u.displayName.value) else before.displayName)
    && after.active == (if u.active.Some? then u.active.value else before.active)
    && after.generation == before.generation
         + (if after.role != before.role || (before.active && !after.active) then 1 else 0)
  }

  /** An update that is carried out: a good name, no one's own role or activity, a superadmin left, a free email. */
  ghost predicate MayUpdate(a: Table, actor: nat, target: nat, u: Update)
    requires target in a
  {
    var demoted := u.role.Some? && u.role.value != a[target].role;
    var deactivated := u.active == Some(false) && a[target].active;
    && (u.displayName.Some? ==> DisplayName(u.displayName.value).Ok?)
    && (actor == target ==> !demoted && !deactivated)
    && (a[target].active && a[target].role == Superadmin && (demoted || deactivated) ==> !NoOtherSuperadmin(a, target))
    && (u.active == Some(true) && !a[target].active ==> !EmailInUse(a, a[target].email))
  }

  lemma MayUpdateMeans(a: Table, actor: nat, target: nat, u: Update)
    requires target in a
    ensures MayUpdate(a, actor, target, u) <==>
      && !(u.displayName.Some? && DisplayName(u.displayName.value).Err?)
      && !(actor == target && (RoleChange(a[target], u).Some? || Deactivates(a[target], u)))
      && !(LosesSuperadmin(a[target], u) && |Superadmins(a)| <= 1)
      && !(Reactivates(a[target], u) && EmailInUse(a, a[target].email))
  {
    if IsActiveSuperadmin(a[target]) {
      LastSuperadminMeans(a, target);
    }
  }

  lemma EditedIsEdited(r: Row, u: Update)
    requires u.displayName.Some? ==> DisplayName(u.displayName.value).Ok?
    ensures IsEdited(r, Edited(r, u), u)
  {
  }

  function RoleChange(r: Row, u: Update): Option<Role> {
    if u.role.Some? && u.role.value != r.role then u.role else None
  }

  predicate Deactivates(r: Row, u: Update) {
    u.active == Some(false) && r.active
  }

  predicate Reactivates(r: Row, u: Update) {
    u.active == Some(true) && !r.active
  }

  predicate LosesSuperadmin(r: Row, u: Update) {
    IsActiveSuperadmin(r) && (Deactivates(r, u) || RoleChange(r, u).Some?)
  }

  function Edited(r: Row, u: Update): Row {
    Updated(r, RoleChange(r, u), if u.displayName.Some? then Some(TrimmedName(u.displayName.value)) else None,
            u.active, RoleChange(r, u).Some? || Deactivates(r, u))
  }

  function TrimmedName(raw: string): string {
    if DisplayName(raw).Ok? then DisplayName(raw).value else raw
  }

  lemma SyncAllowed(rows: Table, id: nat, r: Row, login: SsoLogin)
    requires id in rows && rows[id].active && EditAllowed(rows, id, r)
    requires r.active && r.role == rows[id].role && r.generation == rows[id].generation
    ensures EditAllowed(rows, id, Synced(rows, r, login))
  {
    if IsActiveSuperadmin(r) && |Superadmins(rows)| > 1 {
      AnotherSuperadmin(rows, id);
    }
  }

  class AdminAuthService {
    const passwordLogin: bool
    const bootstrapToken: Option<string>
    const ttl: nat
    var rows: Table

    constructor (passwordLogin: bool, bootstrapToken: Option<string>, ttl: nat)
      ensures rows == map[] && Valid(rows)
      ensures this.bootstrapToken == if bootstrapToken == Some("") then None else bootstrapToken
    {
      this.passwordLogin, this.ttl, this.rows := passwordLogin, if ttl < 60 then 60 else ttl, map[];
      this.bootstrapToken := if bootstrapToken == Some("") then None else bootstrapToken;
    }

    method FindByEmail(email: string) returns (found: Option<nat>)
      ensures found.Some? ==> found.value in rows && rows[found.value].active && rows[found.value].email == email
      ensures found.None? ==> !EmailInUse(rows, email)
    {
      if id :| id in rows && rows[id].active && rows[id].email == email {
        return Some(id);
      }
      return None;
    }

    method FindBySso(who: Identity) returns (found: Option<nat>)
      ensures found.Some? ==> found.value in rows && rows[found.value].sso == Some(who)
      ensures found.None? ==> !IdentityBound(rows, who)
    {
      if id :| id in rows && rows[id].sso == Some(who) {
        return Some(id);
      }
      return None;
    }

    /** `INSERT`: refused when the key exists. */
    method Insert(id: nat, row: Row) returns (ok: bool)
      requires row.active && row.generation == 0 && IsNormal(row.email) && !EmailInUse(rows, row.email)
      requires row.sso.Some? ==> !IdentityBound(rows, row.sso.value)
      modifies this
      ensures ok == (id !in old(rows))
      ensures rows == if ok then old(rows)[id := row] else old(rows)
      ensures Change(old(rows), rows)
    {
      ok := id !in rows;
      if ok {
        InsertIsChange(rows, id, row);
        rows := rows[id := row];
      }
    }

    method CreateAdmin(id: nat, email: string, password: string, name: string, role: Role)
      returns (r: Result<Row, Error>)
      requires Valid(rows)
      modifies this
      ensures Change(old(rows), rows)
      ensures r.Err? ==> rows == old(rows) && (r.error == Validation || r.error == Conflict || r.error == Database)
      ensures r.Ok? <==>
        && NormalizeEmail(email).Ok? && ValidPassword(password) && DisplayName(name).Ok?
        && !EmailInUse(old(rows), NormalizeEmail(email).value) && id !in old(rows)
      ensures r.Ok? ==>
        && r.value == Row(Text.Lower(Text.Trim(email)), Some(password), Text.Trim(name), role, true, Password, None, 0)
        && rows == old(rows)[id := r.value]
    {
      var normal := NormalizeEmail(email);
      if normal.Err? || !ValidPassword(password) || DisplayName(name).Err? {
        return Err(Validation);
      }
      var taken := FindByEmail(normal.value);
      if taken.Some? {
        assert EmailInUse(rows, normal.value);
        return Err(Conflict);
      }
      NormalizeIsIdempotent(email);
      var row := NewRow(normal.value, Some(password), DisplayName(name).value, role, Password, None);
      var ok := Insert(id, row);
      r := if ok then Ok(row) else Err(Database);
    }

    /** First-run bootstrap: a superadmin, when there is no active account or the token matches. */
    method BootstrapAdmin(presented: Option<string>, id: nat, email: string, password: string, name: string)
      returns (r: Result<Row, Error>)
      requires Valid(rows)
      modifies this
      ensures Change(old(rows), rows)
      ensures r.Err? ==> rows == old(rows)
      ensures bootstrapToken.Some? && presented == bootstrapToken ==> r != Err(Denied)
      ensures !(bootstrapToken.Some? && presented == bootstrapToken) ==>
        (r == Err(Denied) <==> HasActive(old(rows)))
      ensures r.Ok? ==> rows == old(rows)[id := r.value] && IsActiveSuperadmin(r.value) && Superadmins(rows) != {}
    {
      var tokenOk := bootstrapToken.Some? && presented == bootstrapToken;
      var active := AdminCount();
      if !tokenOk && active > 0 {
        return Err(Denied);
      }
      r := CreateAdmin(id, email, password, name, Superadmin);
      if r.Ok? {
        assert id in Superadmins(rows);
      }
    }

    method AdminCount() returns (n: nat)
      ensures n == |set i | i in rows && rows[i].active|
      ensures n > 0 <==> HasActive(rows)
    {
      var active := set i | i in rows && rows[i].active;
      n := |active|;
      if n > 0 {
        var i :| i in active;
      }
      if HasActive(rows) {
        ghost var i :| i in rows && rows[i].active;
        assert i in active;
      }
    }

    /** Password sign-in; SSO-only accounts and unknown emails fail alike. */
    method Authenticate(email: string, password: string, now: int) returns (r: Result<(nat, Claims), Error>)
      ensures r.Ok? ==> SignedIn(r.value.0, r.value.1, Password, now) && rows[r.value.0].password == Some(password)
      ensures r.Ok? ==> passwordLogin && rows[r.value.0].email == Text.Lower(Text.Trim(email))
      ensures EmailsUnique(rows) && passwordLogin ==>
        forall i :: i in rows && HasCredentials(rows[i], Text.Lower(Text.Trim(email)), password) ==>
          r.Ok? && r.value.0 == i
    {
      if !passwordLogin {
        return Err(AuthenticationFailed);
      }
      r := SignIn(Text.Lower(Text.Trim(email)), password, now);
    }

    method SignIn(email: string, password: string, now: int) returns (r: Result<(nat, Claims), Error>)
      ensures r.Ok? ==>
        SignedIn(r.value.0, r.value.1, Password, now) && HasCredentials(rows[r.value.0], email, password)
      ensures EmailsUnique(rows) ==>
        forall i :: i in rows && HasCredentials(rows[i], email, password) ==> r.Ok? && r.value.0 == i
    {
      var found := FindByEmail(email);
      if found.None? || rows[found.value].password != Some(password) {
        return Err(AuthenticationFailed);
      }
      r := Ok((found.value, IssueToken(found.value, rows[found.value], Password, now, ttl)));
    }

    /** Overwrite one row. */
    method Write(id: nat, row: Row)
      requires id in rows && EditAllowed(rows, id, row)
      modifies this
      ensures rows == old(rows)[id := row] && Change(old(rows), rows)
    {
      EditIsChange(rows, id, row);
      rows := rows[id := row];
    }

    /** Complete an SSO login: use, bind or provision the local account, and issue a token. */
    method LoginSso(login: SsoLogin, freshId: nat, now: int) returns (r: Result<(nat, Claims), Error>)
      requires Valid(rows)
      modifies this
      ensures Change(old(rows), rows)
      ensures r.Err? ==> rows == old(rows)
      ensures r.Ok? ==> SignedIn(r.value.0, r.value.1, Oidc, now) && rows[r.value.0].sso == Some(login.who)
      ensures NormalizeEmail(login.email).Err? ==> r == Err(Validation)
      ensures NormalizeEmail(login.email).Ok? ==>
        SsoOutcome(old(rows), login, NormalizeEmail(login.email).value, freshId, rows,
          if r.Ok? then Ok(r.value.0) else Err(r.error))
      // The account signed in, and no other.
      ensures r.Ok? ==> OnlyThat(old(rows), rows, r.value.0)
      ensures r.Ok? && r.value.0 in old(rows) ==> IsSignedIn(old(rows), r.value.0, rows[r.value.0], login)
      ensures r.Ok? && r.value.0 !in old(rows) ==>
        login.autoProvision && IsProvisioned(rows[r.value.0], Text.Lower(Text.Trim(login.email)), login)
    {
      var email := NormalizeEmail(login.email);
      if email.Err? {
        return Err(Validation);
      }
      NormalizeIsIdempotent(login.email);
      r := LoginAs(login, email.value, freshId, now);
    }

    method LoginAs(login: SsoLogin, email: string, freshId: nat, now: int) returns (r: Result<(nat, Claims), Error>)
      requires EmailsUnique(rows) && IdentitiesUnique(rows) && IsNormal(email)
      modifies this
      ensures Change(old(rows), rows)
      ensures r.Err? ==> rows == old(rows)
      ensures r.Ok? ==> SignedIn(r.value.0, r.value.1, Oidc, now) && rows[r.value.0].sso == Some(login.who)
      ensures SsoOutcome(old(rows), login, email, freshId, rows, if r.Ok? then Ok(r.value.0) else Err(r.error))
      ensures r.Ok? ==> OnlyThat(old(rows), rows, r.value.0)
      ensures r.Ok? && r.value.0 in old(rows) ==> IsSignedIn(old(rows), r.value.0, rows[r.value.0], login)
      ensures r.Ok? && r.value.0 !in old(rows) ==>
        login.autoProvision && IsProvisioned(rows[r.value.0], email, login)
    {
      var known := FindBySso(login.who);
      if known.Some? {
        assert IdentityBound(rows, login.who);
        r := LoginKnown(login, known.value, now);
        WrittenOnlyThat(old(rows), known.value, rows[known.value]);
        return;
      }
      var byEmail := FindByEmail(email);
      if byEmail.Some? {
        assert EmailInUse(rows, email);
        r := BindAccount(login, byEmail.value, now);
        WrittenOnlyThat(old(rows), byEmail.value, rows[byEmail.value]);
        return;
      }
      if !login.autoProvision {
        return Err(AuthenticationFailed);
      }
      var row := Provisioned(email, login);
      ProvisionedIsNew(email, login);
      WrittenOnlyThat(rows, freshId, row);
      var ok := Insert(freshId, row);
      r := if ok then Ok((freshId, IssueToken(freshId, row, Oidc, now, ttl))) else Err(Database);
    }

    method LoginKnown(login: SsoLogin, id: nat, now: int) returns (r: Result<(nat, Claims), Error>)
      requires id in rows && rows[id].sso == Some(login.who)
      modifies this
      ensures Change(old(rows), rows)
      ensures !old(rows)[id].active ==> r == Err(AuthenticationFailed) && rows == old(rows)
      ensures old(rows)[id].active ==> r.Ok? && r.value.0 == id && SignedIn(id, r.value.1, Oidc, now)
      ensures old(rows)[id].active ==> rows == old(rows)[id := Synced(old(rows), old(rows)[id], login)]
      ensures r.Ok? ==> IsSignedIn(old(rows), id, rows[id], login)
    {
      if !rows[id].active {
        return Err(AuthenticationFailed);
      }
      SyncAllowed(rows, id, rows[id], login);
      SyncedIsSignedIn(rows, id, login);
      if login.syncRole && rows[id].role != login.role && !IsLastSuperadmin(rows, rows[id], login.role) {
        Write(id, Updated(rows[id], Some(login.role), None, None, true));
      } else {
        assert rows == rows[id := rows[id]];
      }
      r := Ok((id, IssueToken(id, rows[id], Oidc, now, ttl)));
    }

    method BindAccount(login: SsoLogin, id: nat, now: int) returns (r: Result<(nat, Claims), Error>)
      requires id in rows && rows[id].active && !IdentityBound(rows, login.who)
      modifies this
      ensures Change(old(rows), rows)
      ensures old(rows)[id].sso.Some? ==> r == Err(AuthenticationFailed) && rows == old(rows)
      ensures old(rows)[id].sso.None? ==> r.Ok? && r.value.0 == id && SignedIn(id, r.value.1, Oidc, now)
      ensures old(rows)[id].sso.None? ==>
        rows == old(rows)[id := Synced(old(rows), Bound(old(rows)[id], login.who), login)]
      ensures r.Ok? ==> IsSignedIn(old(rows), id, rows[id], login)
    {
      if rows[id].sso.Some? {
        return Err(AuthenticationFailed);
      }
      var existing := rows[id];
      SyncAllowed(rows, id, Bound(existing, login.who), login);
      SyncedIsSignedIn(rows, id, login);
      var sync := login.syncRole && existing.role != login.role && !IsLastSuperadmin(rows, existing, login.role);
      Write(id, Updated(Bound(existing, login.who), if sync then Some(login.role) else None, None, None, sync));
      r := Ok((id, IssueToken(id, rows[id], Oidc, now, ttl)));
    }

    /** Role, name and active edits by an actor. */
    method UpdateAdmin(actor: nat, target: nat, update: Update) returns (r: Result<Row, Error>)
      modifies this
      ensures Change(old(rows), rows)
      ensures r.Err? ==> rows == old(rows)
      ensures target !in old(rows) ==> r == Err(NotFound)
      ensures target in old(rows) ==> var row := old(rows)[target];
        r == (if update.displayName.Some? && DisplayName(update.displayName.value).Err? then Err(Validation)
              else if actor == target && (RoleChange(row, update).Some? || Deactivates(row, update)) then
                Err(Validation)
              else if LosesSuperadmin(row, update) && |Superadmins(old(rows))| <= 1 then Err(Conflict)
              else if Reactivates(row, update) && EmailInUse(old(rows), row.email) then Err(Conflict)
              else Ok(Edited(row, update)))
      ensures r.Ok? ==> rows == old(rows)[target := r.value]
      ensures r.Ok? <==> target in old(rows) && MayUpdate(old(rows), actor, target, update)
      ensures r.Ok? ==> IsEdited(old(rows)[target], r.value, update)
    {
      if target !in rows {
        return Err(NotFound);
      }
      var row := rows[target];
      MayUpdateMeans(rows, actor, target, update);
      if update.displayName.Some? && DisplayName(update.displayName.value).Err? {
        return Err(Validation);
      }
      if actor == target && (RoleChange(row, update).Some? || Deactivates(row, update)) {
        return Err(Validation);
      }
      if LosesSuperadmin(row, update) {
        if |Superadmins(rows)| <= 1 {
          return Err(Conflict);
        }
        AnotherSuperadmin(rows, target);
      }
      if Reactivates(row, update) {
        var taken := FindByEmail(row.email);
        if taken.Some? {
          assert EmailInUse(rows, row.email);
          return Err(Conflict);
        }
      }
      EditedIsEdited(row, update);
      Write(target, Edited(row, update));
      r := Ok(Edited(row, update));
    }

    /** Own password change: needs the current password, revokes every earlier token. */
    method ChangeOwnPassword(id: nat, current: string, new_: string) returns (r: Result<(), Error>)
      modifies this
      ensures Change(old(rows), rows)
      ensures r.Err? ==> rows == old(rows)
      ensures r.Ok? <==>
        id in old(rows) && old(rows)[id].active && old(rows)[id].password == Some(current) && ValidPassword(new_)
      ensures r.Ok? ==> rows == old(rows)[id := old(rows)[id].(
        password := Some(new_), generation := old(rows)[id].generation + 1)]
    {
      if id !in rows {
        return Err(NotFound);
      }
      if !rows[id].active {
        return Err(AuthenticationFailed);
      }
      if rows[id].password.None? {
        return Err(Validation);
      }
      if rows[id].password != Some(current) {
        return Err(AuthenticationFailed);
      }
      if !ValidPassword(new_) {
        return Err(Validation);
      }
      Write(id, Bumped(rows[id].(password := Some(new_))));
      r := Ok(());
    }

    /** Password reset by a superadmin; gives an SSO-only account a password too. */
    method ResetPassword(id: nat, new_: string) returns (r: Result<(), Error>)
      modifies this
      ensures Change(old(rows), rows)
      ensures r ==
        (if id !in old(rows) then Err(NotFound) else if !ValidPassword(new_) then Err(Validation) else Ok(()))
      ensures r.Err? ==> rows == old(rows)
      ensures r.Ok? ==> rows == old(rows)[id := old(rows)[id].(
        password := Some(new_), generation := old(rows)[id].generation + 1)]
    {
      if id !in rows {
        return Err(NotFound);
      }
      if !ValidPassword(new_) {
        return Err(Validation);
      }
      Write(id, Bumped(rows[id].(password := Some(new_))));
      r := Ok(());
    }

    /** Sign out everywhere. */
    method RevokeTokens(id: nat) returns (r: Result<(), Error>)
      modifies this
      ensures Change(old(rows), rows)
      ensures r == if id in old(rows) then Ok(()) else Err(NotFound)
      ensures r.Err? ==> rows == old(rows)
      ensures r.Ok? ==> rows == old(rows)[id := old(rows)[id].(generation := old(rows)[id].generation + 1)]
    {
      if id !in rows {
        return Err(NotFound);
      }
      Write(id, Bumped(rows[id]));
      r := Ok(());
    }

    /** The token names this account in its present generation, and is accepted as of now. */
    ghost predicate SignedIn(id: nat, c: Claims, source: Source, now: int)
      reads this
    {
      && id in rows && c == IssueToken(id, rows[id], source, now, ttl)
      && AuthenticateToken(rows, c, now) == Ok(Context(id, rows[id].email, rows[id].role, source))
    }
  }
}
