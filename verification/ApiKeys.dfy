/**
 API-key permissions and minting (`crates/aurix-api/src/handlers.rs`,
 `crates/aurix-api/src/middleware.rs`).
 */
module ApiKeys {
  import opened Wrappers
  import Admin
  import Text
  import Utf8

  /** The permissions column, as far as it is looked at. */
  datatype Permissions = Array(items: seq<Option<string>>) | Object(all: Option<bool>) | Other

  const WILDCARD: string := "*"
  const MANAGE: string := "keys:manage"
  const MAX_PERMISSIONS: nat := 32
  const MAX_NAME_BYTES: nat := 128
  const MAX_RATE_LIMIT: int := 10_000_000
  const DEFAULT_RATE_LIMIT: int := 6_000
  const MAX_DAYS: int := 3650

  const KNOWN_PERMISSIONS: seq<string> := [
    "*", "tokens:issue", "turn:issue", "channels:read", "channels:write", "users:read", "users:write",
    "users:erase", "users:export", "moderation:read", "moderation:write", "recordings:read",
    "recordings:write", "audio_streams:read", "audio_streams:write", "chat:read", "chat:write",
    "tts:write", "transcripts:read", "transcripts:write", "keys:manage", "analytics:read", "audit:read",
    "webhooks:read", "webhooks:write", "events:read"
  ]

  /** An entry of the array gives the permission it names, or all of them. */
  predicate Has(p: Permissions, permission: string) {
    match p
    case Array(items) => Some(WILDCARD) in items || Some(permission) in items
    case Object(all) => all == Some(true)
    case Other => false
  }

  /** Whatever the one may do, the other may. */
  ghost predicate Within(p: Permissions, q: Permissions) {
    forall permission: string :: Has(p, permission) ==> Has(q, permission)
  }

  lemma WildcardHasAll(p: Permissions, permission: string)
    requires Has(p, WILDCARD)
    ensures Has(p, permission)
  {
  }

  // ---- roles -------------------------------------------------------------------------------------------

  const VIEWER: seq<string> := [
    "channels:read", "users:read", "analytics:read", "events:read", "webhooks:read", "recordings:read",
    "audio_streams:read"
  ]

  const MODERATOR: seq<string> := [
    "moderation:read", "moderation:write", "chat:read", "chat:write", "transcripts:read", "audit:read",
    "users:write"
  ]

  const ADMIN: seq<string> := [
    "channels:write", "webhooks:write", "recordings:write", "audio_streams:write", "keys:manage",
    "tokens:issue", "turn:issue", "tts:write", "transcripts:write", "users:export"
  ]

  function Rank(r: Admin.Role): nat {
    match r
    case Viewer => 0
    case Moderator => 1
    case Admin => 2
    case Superadmin => 3
  }

  function Strings(names: seq<string>): (p: Permissions)
    ensures p.Array? && forall x :: Some(x) in p.items <==> x in names
  {
    var items := seq(|names|, i requires 0 <= i < |names| => Some(names[i]));
    assert forall i :: 0 <= i < |names| ==> items[i] == Some(names[i]);
    Array(items)
  }

  /** What a role may do on an application: the lists of all roles up to it. */
  function AdminPermissions(role: Admin.Role): Permissions {
    if Rank(role) >= 3 then Strings([WILDCARD])
    else
      Strings(VIEWER + (if Rank(role) >= 1 then MODERATOR else []) + (if Rank(role) >= 2 then ADMIN else []))
  }

  /** A higher role may do whatever a lower one may. */
  lemma RolesAreNested(low: Admin.Role, high: Admin.Role)
    requires Rank(low) <= Rank(high)
    ensures Within(AdminPermissions(low), AdminPermissions(high))
  {
    if Rank(high) >= 3 {
      assert WILDCARD in [WILDCARD];
    }
  }

  /** Keys are for administrators, and erasing users is for superadmins alone. */
  lemma WhoMayManageKeys(role: Admin.Role)
    ensures Has(AdminPermissions(role), "keys:manage") <==> role.Admin? || role.Superadmin?
    ensures Has(AdminPermissions(role), "users:erase") <==> role.Superadmin?
  {
    NotBelowAdmin("keys:manage");
    NotBelowAdmin("users:erase");
    assert ADMIN[4] == "keys:manage" && "users:erase" !in ADMIN;
    assert WILDCARD in [WILDCARD];
  }

  lemma NotBelowAdmin(permission: string)
    requires permission == "keys:manage" || permission == "users:erase"
    ensures permission !in VIEWER && permission !in MODERATOR && WILDCARD !in VIEWER + MODERATOR + ADMIN
  {
  }

  predicate EndsIn(s: string, suffix: string) {
    |suffix| <= |s| && s[|s| - |suffix|..] == suffix
  }

  /** The end of a name built from its parts. */
  lemma EndOf(resource: string, suffix: string)
    ensures EndsIn(resource + suffix, suffix)
  {
  }

  lemma ViewerListOnlyReads(i: nat)
    requires i < |VIEWER|
    ensures EndsIn(VIEWER[i], ":read")
  {
    var resources := ["channels", "users", "analytics", "events", "webhooks", "recordings", "audio_streams"];
    assert VIEWER[i] == resources[i] + ":read";
    EndOf(resources[i], ":read");
  }

  /** The read-only role gets read permissions and nothing else, not even all of them at once. */
  lemma ViewersOnlyRead(permission: string)
    requires Has(AdminPermissions(Admin.Viewer), permission)
    ensures EndsIn(permission, ":read")
  {
    assert VIEWER + [] + [] == VIEWER;
    if WILDCARD in VIEWER {
      var i :| 0 <= i < |VIEWER| && VIEWER[i] == WILDCARD;
      ViewerListOnlyReads(i);
      assert false;
    }
    var i :| 0 <= i < |VIEWER| && VIEWER[i] == permission;
    ViewerListOnlyReads(i);
  }

  // ---- minting -----------------------------------------------------------------------------------------

  datatype KeyError =
    | LacksPermission(permission: string)
    | BadName
    | BadPermissions
    | NotHeld(permission: string)
    | BadRateLimit
    | BadExpiry

  datatype Request = Request(name: string, permissions: Option<Permissions>, rateLimit: Option<int>, days: Option<int>)

  /** Between 1 and 32 entries, all of them known names. */
  predicate IsValid(p: Permissions) {
    && p.Array?
    && 1 <= |p.items| <= MAX_PERMISSIONS
    && forall i :: 0 <= i < |p.items| ==> p.items[i].Some? && p.items[i].value in KNOWN_PERMISSIONS
  }

  method ValidatePermissions(p: Permissions) returns (ok: bool)
    ensures ok <==> IsValid(p)
  {
    if !p.Array? {
      return false;
    }
    if p.items == [] || |p.items| > MAX_PERMISSIONS {
      return false;
    }
    for i := 0 to |p.items|
      invariant forall j :: 0 <= j < i ==> p.items[j].Some? && p.items[j].value in KNOWN_PERMISSIONS
    {
      if p.items[i].None? {
        return false;
      }
      if p.items[i].value !in KNOWN_PERMISSIONS {
        return false;
      }
    }
    ok := true;
  }

  /** The first of these permissions that is not held. */
  ghost predicate FirstMissing(held: Permissions, items: seq<Option<string>>, p: string) {
    exists i :: 0 <= i < |items| && items[i] == Some(p) && !Has(held, p)
      && forall j :: 0 <= j < i && items[j].Some? ==> Has(held, items[j].value)
  }

  /** The first permission asked for that the caller does not hold. */
  method FirstNotHeld(caller: Permissions, items: seq<Option<string>>) returns (missing: Option<string>)
    ensures missing.None? <==> forall i :: 0 <= i < |items| && items[i].Some? ==> Has(caller, items[i].value)
    ensures missing.Some? ==> FirstMissing(caller, items, missing.value)
  {
    if Has(caller, WILDCARD) {
      forall i | 0 <= i < |items| && items[i].Some?
        ensures Has(caller, items[i].value)
      {
        WildcardHasAll(caller, items[i].value);
      }
      return None;
    }
    for i := 0 to |items|
      invariant forall j :: 0 <= j < i && items[j].Some? ==> Has(caller, items[j].value)
    {
      if items[i].Some? && !Has(caller, items[i].value) {
        return items[i];
      }
    }
    missing := None;
  }

  /** Holding every entry of an array, wildcard included, is being allowed whatever it allows. */
  lemma EntriesBound(p: Permissions, caller: Permissions)
    requires p.Array? && forall i :: 0 <= i < |p.items| && p.items[i].Some? ==> Has(caller, p.items[i].value)
    ensures Within(p, caller)
  {
    forall permission: string | Has(p, permission)
      ensures Has(caller, permission)
    {
      if Some(WILDCARD) in p.items {
        WildcardHasAll(caller, permission);
      }
    }
  }

  predicate NameOk(name: string) {
    1 <= |Utf8.Encode(Text.Trim(name))| <= MAX_NAME_BYTES
  }

  predicate RateOk(req: Request) {
    req.rateLimit.Some? ==> 0 <= req.rateLimit.value <= MAX_RATE_LIMIT
  }

  predicate DaysOk(req: Request) {
    req.days.Some? ==> 1 <= req.days.value <= MAX_DAYS
  }

  function Asked(req: Request): Permissions {
    if req.permissions.Some? then req.permissions.value else Strings([WILDCARD])
  }

  /** The first check that fails is the one reported. */
  ghost predicate Explains(held: Permissions, req: Request, e: KeyError) {
    match e
    case LacksPermission(p) => p == MANAGE && !Has(held, MANAGE)
    case BadName => Has(held, MANAGE) && !NameOk(req.name)
    case BadPermissions => Has(held, MANAGE) && NameOk(req.name) && !IsValid(Asked(req))
    case NotHeld(p) => MayAsk(held, req) && FirstMissing(held, Asked(req).items, p)
    case BadRateLimit => MayAsk(held, req) && Within(Asked(req), held) && !RateOk(req)
    case BadExpiry => MayAsk(held, req) && Within(Asked(req), held) && RateOk(req) && !DaysOk(req)
  }

  ghost predicate MayAsk(held: Permissions, req: Request) {
    Has(held, MANAGE) && NameOk(req.name) && IsValid(Asked(req))
  }

  // ---- keys --------------------------------------------------------------------------------------------

  /** Who minted a key: nobody (made with its application), an administrator, or another key. */
  datatype Creator = Application | Role(role: Admin.Role) | Key(id: nat)

  datatype KeyRow = KeyRow(name: string, permissions: Permissions, rateLimit: int, creator: Creator)

  type Keys = map<nat, KeyRow>

  function PermissionsOf(keys: Keys, c: Creator): Permissions
    requires c.Key? ==> c.id in keys
  {
    match c
    case Application => Strings([WILDCARD])
    case Role(role) => AdminPermissions(role)
    case Key(id) => keys[id].permissions
  }

  /** Keys are minted by older ones, and stay within them. */
  ghost predicate IsLineage(keys: Keys) {
    forall id :: id in keys ==>
      && (keys[id].creator.Key? ==> keys[id].creator.id in keys && keys[id].creator.id < id)
      && Within(keys[id].permissions, PermissionsOf(keys, keys[id].creator))
  }

  /** A key's creator, the creator of that, and so on. */
  function Ancestors(keys: Keys, id: nat): seq<Creator>
    requires id in keys
    decreases id
  {
    var c := keys[id].creator;
    if c.Key? && c.id in keys && c.id < id then [c] + Ancestors(keys, c.id) else [c]
  }

  lemma WithinIsTransitive(p: Permissions, q: Permissions, r: Permissions)
    requires Within(p, q) && Within(q, r)
    ensures Within(p, r)
  {
  }

  /** No key of any lineage can do more than any of the keys or roles it descends from. */
  lemma {:induction false} MintingNeverEscalates(keys: Keys, id: nat, i: nat)
    requires IsLineage(keys) && id in keys && i < |Ancestors(keys, id)|
    ensures var a := Ancestors(keys, id)[i];
      (a.Key? ==> a.id in keys) && Within(keys[id].permissions, PermissionsOf(keys, a))
    decreases id
  {
    var c := keys[id].creator;
    if i > 0 {
      MintingNeverEscalates(keys, c.id, i - 1);
      WithinIsTransitive(keys[id].permissions, keys[c.id].permissions,
        PermissionsOf(keys, Ancestors(keys, c.id)[i - 1]));
    }
  }

  class ApiKeyService {
    var keys: Keys
    var next: nat

    ghost predicate Valid()
      reads this
    {
      IsLineage(keys) && forall id :: id in keys ==> id < next
    }

    constructor ()
      ensures Valid() && keys == map[]
    {
      keys, next := map[], 0;
    }

    method Insert(row: KeyRow) returns (id: nat)
      requires Valid() && (row.creator.Key? ==> row.creator.id in keys)
      requires Within(row.permissions, PermissionsOf(keys, row.creator))
      modifies this
      ensures Valid() && id !in old(keys) && keys == old(keys)[id := row]
    {
      id := next;
      next := next + 1;
      keys := keys[id := row];
    }

    /** The key an application is created with, or gets on rotation. */
    method CreateAppKey(name: string, rateLimit: int) returns (id: nat)
      requires Valid()
      modifies this
      ensures Valid() && id !in old(keys)
      ensures keys == old(keys)[id := KeyRow(name, Strings([WILDCARD]), rateLimit, Application)]
    {
      id := Insert(KeyRow(name, Strings([WILDCARD]), rateLimit, Application));
    }

    /** Minting a key, by an administrator or another key. */
    method CreateApiKey(caller: Creator, req: Request) returns (r: Result<nat, KeyError>)
      requires Valid() && !caller.Application? && (caller.Key? ==> caller.id in keys)
      modifies this
      ensures Valid()
      ensures r.Ok? <==>
        var held := PermissionsOf(old(keys), caller);
        MayAsk(held, req) && Within(Asked(req), held) && RateOk(req) && DaysOk(req)
      ensures r.Err? ==> keys == old(keys) && Explains(PermissionsOf(old(keys), caller), req, r.error)
      ensures r.Ok? ==> r.value !in old(keys) && keys == old(keys)[r.value :=
        KeyRow(Text.Trim(req.name), Asked(req),
          if req.rateLimit.Some? then req.rateLimit.value else DEFAULT_RATE_LIMIT, caller)]
    {
      var held := PermissionsOf(keys, caller);
      if !Has(held, MANAGE) {
        return Err(LacksPermission(MANAGE));
      }
      var name := Text.Trim(req.name);
      var length := |Utf8.Encode(name)|;
      if length == 0 || length > MAX_NAME_BYTES {
        return Err(BadName);
      }
      var permissions := Asked(req);
      var valid := ValidatePermissions(permissions);
      if !valid {
        return Err(BadPermissions);
      }
      var missing := FirstNotHeld(held, permissions.items);
      if missing.Some? {
        assert Has(permissions, missing.value) && !Has(held, missing.value);
        return Err(NotHeld(missing.value));
      }
      EntriesBound(permissions, held);
      var rateLimit := if req.rateLimit.Some? then req.rateLimit.value else DEFAULT_RATE_LIMIT;
      if !(0 <= rateLimit <= MAX_RATE_LIMIT) {
        return Err(BadRateLimit);
      }
      if req.days.Some? && (req.days.value <= 0 || req.days.value > MAX_DAYS) {
        return Err(BadExpiry);
      }
      var id := Insert(KeyRow(name, permissions, rateLimit, caller));
      r := Ok(id);
    }
  }
}
