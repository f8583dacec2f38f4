/**
 Signing keys of the identity provider (`crates/aurix-auth/src/oidc.rs`): which keys are cached,
 when they are fetched again, and when an ID token is accepted.
 */
module Jwks {
  import opened Wrappers

  // ---- algorithms ------------------------------------------------------------------------------------

  datatype Algorithm =
    | HS256 | HS384 | HS512
    | RS256 | RS384 | RS512
    | PS256 | PS384 | PS512
    | ES256 | ES384
    | EdDSA

  predicate IsSymmetric(a: Algorithm) {
    a.HS256? || a.HS384? || a.HS512?
  }

  /** The list of accepted ID-token algorithms. */
  predicate IsAllowed(a: Algorithm) {
    || a.RS256? || a.RS384? || a.RS512?
    || a.PS256? || a.PS384? || a.PS512?
    || a.ES256? || a.ES384? || a.EdDSA?
  }

  function Family(a: Algorithm): nat {
    match a
    case RS256 | RS384 | RS512 => 1
    case PS256 | PS384 | PS512 => 1
    case ES256 | ES384 => 2
    case EdDSA => 3
    case HS256 | HS384 | HS512 => 4
  }

  predicate SameFamily(a: Algorithm, b: Algorithm) {
    Family(a) == Family(b)
  }

  /** Which keys go with which tokens: RSA with RSA, curves with curves, and nothing symmetric at all. */
  lemma FamiliesAre(key: Algorithm, token: Algorithm)
    ensures IsAllowed(token) <==> token !in {HS256, HS384, HS512}
    ensures IsAllowed(key) && IsAllowed(token) ==>
      (SameFamily(key, token) <==>
        || (key in {RS256, RS384, RS512, PS256, PS384, PS512} && token in {RS256, RS384, RS512, PS256, PS384, PS512})
        || (key in {ES256, ES384} && token in {ES256, ES384})
        || (key == EdDSA && token == EdDSA))
  {
  }

  /** The algorithms a key of this type can be used with, as a family. */
  function FamilyOf(p: Parameters): nat {
    match p
    case Rsa => 1
    case EllipticCurve(_) => 2
    case OctetKeyPair => 3
    case OctetKey => 4
  }

  datatype Curve = P256 | P384 | OtherCurve

  datatype Parameters = Rsa | EllipticCurve(curve: Curve) | OctetKeyPair | OctetKey

  /** The `alg` member of a key: a signature algorithm or one for encryption. */
  datatype KeyAlgorithm = Signature(alg: Algorithm) | Encryption

  /** An entry of the key set; `secret` stands for the key material, if it can be decoded. */
  datatype RawKey =
    | Unreadable
    | Jwk(parameters: Parameters, alg: Option<KeyAlgorithm>, kid: Option<string>, secret: Option<nat>)

  function JwkAlgorithm(k: RawKey): (a: Option<Algorithm>)
    requires k.Jwk?
    ensures a.Some? ==> IsAllowed(a.value)
    ensures a.Some? && k.alg.None? ==> Family(a.value) == FamilyOf(k.parameters)
  {
    if k.alg.Some? then
      if k.alg.value.Signature? && !IsSymmetric(k.alg.value.alg) then Some(k.alg.value.alg) else None
    else
      match k.parameters
      case Rsa => Some(RS256)
      case EllipticCurve(curve) => if curve.P256? then Some(ES256) else if curve.P384? then Some(ES384) else None
      case OctetKeyPair => Some(EdDSA)
      case OctetKey => None
  }

  // ---- the key set -----------------------------------------------------------------------------------

  datatype Key = Key(alg: Algorithm, secret: nat)

  datatype KeySet = KeySet(keys: map<string, Key>, anonymous: seq<Key>)

  predicate IsUsable(k: RawKey) {
    k.Jwk? && !k.parameters.OctetKey? && JwkAlgorithm(k).Some? && k.secret.Some?
  }

  function KeyOf(k: RawKey): Key
    requires IsUsable(k)
  {
    Key(JwkAlgorithm(k).value, k.secret.value)
  }

  predicate HasUsable(raw: seq<RawKey>) {
    exists i :: 0 <= i < |raw| && IsUsable(raw[i])
  }

  /** Reference reading of a key set: the last key of a name, and the nameless ones in order. */
  function Named(raw: seq<RawKey>, kid: string): Option<Key> {
    if raw == [] then None
    else
      var last := raw[|raw| - 1];
      if IsUsable(last) && last.kid == Some(kid) then Some(KeyOf(last)) else Named(raw[..|raw| - 1], kid)
  }

  function Nameless(raw: seq<RawKey>): seq<Key> {
    if raw == [] then []
    else
      var last := raw[|raw| - 1];
      Nameless(raw[..|raw| - 1]) + if IsUsable(last) && last.kid.None? then [KeyOf(last)] else []
  }


  predicate AllAllowed(s: KeySet) {
    && (forall kid :: kid in s.keys ==> IsAllowed(s.keys[kid].alg))
    && (forall i :: 0 <= i < |s.anonymous| ==> IsAllowed(s.anonymous[i].alg))
  }

  predicate IsEmpty(s: KeySet) {
    s.keys == map[] && s.anonymous == []
  }

  /** The key set is what the reference reading makes of the entries, and none of it is symmetric. */
  ghost predicate Reflects(s: KeySet, raw: seq<RawKey>) {
    && (forall kid :: Named(raw, kid) == if kid in s.keys then Some(s.keys[kid]) else None)
    && s.anonymous == Nameless(raw)
    && AllAllowed(s)
    && (IsEmpty(s) <==> forall i :: 0 <= i < |raw| ==> !IsUsable(raw[i]))
  }

  function Insert(s: KeySet, kid: Option<string>, key: Key): KeySet {
    match kid
    case Some(kid) => s.(keys := s.keys[kid := key])
    case None => s.(anonymous := s.anonymous + [key])
  }

  lemma InsertReflects(s: KeySet, raw: seq<RawKey>, k: RawKey)
    requires Reflects(s, raw)
    ensures Reflects(if IsUsable(k) then Insert(s, k.kid, KeyOf(k)) else s, raw + [k])
  {
    var more := raw + [k];
    assert more[..|raw|] == raw && more[|raw|] == k;
    if IsUsable(k) {
      var t := Insert(s, k.kid, KeyOf(k));
      assert !IsEmpty(t) by {
        if k.kid.Some? {
          assert k.kid.value in t.keys;
        }
      }
    }
  }

  /** The filter loop: unreadable, symmetric and unusable entries are skipped. */
  method FilterKeys(raw: seq<RawKey>) returns (s: KeySet)
    ensures Reflects(s, raw)
  {
    s := KeySet(map[], []);
    for i := 0 to |raw|
      invariant Reflects(s, raw[..i])
    {
      var k := raw[i];
      InsertReflects(s, raw[..i], k);
      assert raw[..i] + [k] == raw[..i + 1];
      if !k.Jwk? {
        continue;
      }
      if k.parameters.OctetKey? {
        continue;
      }
      var alg := JwkAlgorithm(k);
      if alg.None? || k.secret.None? {
        continue;
      }
      s := Insert(s, k.kid, Key(alg.value, k.secret.value));
    }
    assert raw[..|raw|] == raw;
  }

  // ---- the cache -------------------------------------------------------------------------------------

  /** Nanoseconds, like the clock that is compared with them. */
  const JWKS_TTL: nat := 3_600_000_000_000
  const JWKS_REFETCH_MIN_INTERVAL: nat := 30_000_000_000
  const MAX_FUTURE_SECONDS: nat := 300

  datatype Cached = Cached(keySet: KeySet, fetchedAt: nat)

  /** The start of a fetch. */
  datatype Start = Start(at: nat, forced: bool)

  /** Starts are in order, and a forced one keeps its distance from the one before. */
  ghost predicate WellSpaced(starts: seq<Start>) {
    forall i :: 0 < i < |starts| ==>
      starts[i - 1].at + (if starts[i].forced then JWKS_REFETCH_MIN_INTERVAL else 0) <= starts[i].at
  }

  /** An ID token: its header, its issue time and the key material under which it validates. */
  datatype Token = Malformed | Token(alg: Algorithm, kid: Option<string>, iat: int, validUnder: set<nat>)

  datatype Verdict = UnknownKey | Accepted | Rejected | FromTheFuture | BadHeader | FetchFailed

  function Candidates(s: KeySet, kid: Option<string>): (keys: seq<Key>) {
    match kid
    case Some(kid) => if kid in s.keys then [s.keys[kid]] else []
    case None => s.anonymous
  }

  /** Some candidate is of the family of the token's algorithm. */
  predicate Matched(keys: seq<Key>, token: Token)
    requires token.Token?
  {
    exists i :: 0 <= i < |keys| && SameFamily(keys[i].alg, token.alg)
  }

  /** Some candidate of that family validates the token. */
  predicate Validated(keys: seq<Key>, token: Token)
    requires token.Token?
  {
    exists i :: 0 <= i < |keys| && SameFamily(keys[i].alg, token.alg) && keys[i].secret in token.validUnder
  }

  /** The key set as published now decides in favour of the token. */
  ghost predicate Rotated(token: Token, wall: int, response: Option<seq<RawKey>>) {
    && token.Token? && IsAllowed(token.alg) && token.iat <= wall + MAX_FUTURE_SECONDS
    && response.Some? && HasUsable(response.value)
    && forall s :: Reflects(s, response.value) ==> Validated(Candidates(s, token.kid), token)
  }

  class OidcProvider {
    var jwks: Option<Cached>
    var lastFetch: Option<nat>
    /** All fetches ever started. */
    ghost var starts: seq<Start>

    ghost predicate Valid()
      reads this
    {
      && WellSpaced(starts)
      && lastFetch == (if starts == [] then None else Some(starts[|starts| - 1].at))
      && (jwks.Some? ==> !IsEmpty(jwks.value.keySet) && AllAllowed(jwks.value.keySet))
    }

    /** The clock has not gone back since the last fetch. */
    ghost predicate Follows(now: nat)
      reads this
    {
      lastFetch.Some? ==> lastFetch.value <= now
    }

    /** The cache is fresh and already decides in favour of the token. */
    ghost predicate Verifies(token: Token, now: nat, wall: int)
      reads this
    {
      && token.Token? && IsAllowed(token.alg) && token.iat <= wall + MAX_FUTURE_SECONDS
      && jwks.Some? && now - jwks.value.fetchedAt <= JWKS_TTL
      && Validated(Candidates(jwks.value.keySet, token.kid), token)
    }

    /** There are keys, not older than an hour. */
    ghost predicate IsFresh(now: nat)
      reads this
    {
      jwks.Some? && now - jwks.value.fetchedAt <= 3_600_000_000_000
    }

    /** The last fetch started long enough ago for a forced one. */
    ghost predicate MayForce(now: nat)
      reads this
    {
      lastFetch.None? || now - lastFetch.value >= JWKS_REFETCH_MIN_INTERVAL
    }

    /** The cache is fresh but does not know the token's key, and may be fetched again. */
    ghost predicate AwaitsRotation(token: Token, now: nat)
      reads this
    {
      && token.Token? && jwks.Some? && now - jwks.value.fetchedAt <= JWKS_TTL
      && !Matched(Candidates(jwks.value.keySet, token.kid), token) && MayForce(now)
    }

    constructor ()
      ensures Valid() && jwks.None? && starts == []
    {
      jwks, lastFetch, starts := None, None, [];
    }

    /** The first half of a refresh, under the lock: whether to fetch at all. */
    method BeginRefresh(force: bool, now: nat) returns (fetch: bool)
      requires Valid() && Follows(now)
      modifies this
      ensures Valid() && Follows(now) && jwks == old(jwks)
      ensures fetch <==> !force || old(MayForce(now))
      ensures starts == if fetch then old(starts) + [Start(now, force)] else old(starts)
    {
      if lastFetch.Some? {
        if force && now - lastFetch.value < JWKS_REFETCH_MIN_INTERVAL {
          return false;
        }
      }
      lastFetch := Some(now);
      starts := starts + [Start(now, force)];
      fetch := true;
    }

    /** The second half, which may come after steps of other tasks: a set without usable keys changes nothing. */
    method FinishRefresh(response: Option<seq<RawKey>>, now: nat) returns (ok: bool)
      requires Valid()
      modifies this
      ensures Valid() && starts == old(starts) && lastFetch == old(lastFetch)
      ensures ok <==> response.Some? && HasUsable(response.value)
      ensures ok ==> jwks.Some? && Reflects(jwks.value.keySet, response.value) && jwks.value.fetchedAt == now
      ensures !ok ==> jwks == old(jwks)
    {
      if response.None? {
        return false;
      }
      var s := FilterKeys(response.value);
      if IsEmpty(s) {
        return false;
      }
      jwks := Some(Cached(s, now));
      ok := true;
    }

    method RefreshJwks(force: bool, now: nat, response: Option<seq<RawKey>>) returns (ok: bool)
      requires Valid() && Follows(now)
      modifies this
      ensures Valid() && Follows(now)
      ensures starts == old(starts) || starts == old(starts) + [Start(now, force)]
      ensures starts == old(starts) <==> force && !old(MayForce(now))
      ensures starts == old(starts) ==> ok && jwks == old(jwks)
      ensures starts != old(starts) ==>
        if response.Some? && HasUsable(response.value) then
          ok && jwks.Some? && Reflects(jwks.value.keySet, response.value) && jwks.value.fetchedAt == now
        else !ok && jwks == old(jwks)
    {
      var fetch := BeginRefresh(force, now);
      if !fetch {
        return true;
      }
      ok := FinishRefresh(response, now);
    }

    /** The candidate keys are tried in order. */
    method TryVerify(token: Token, wall: int) returns (v: Verdict)
      requires token.Token?
      ensures jwks.None? ==> v == UnknownKey
      ensures jwks.Some? ==>
        var keys := Candidates(jwks.value.keySet, token.kid);
        v == if !Matched(keys, token) then UnknownKey
             else if !Validated(keys, token) then Rejected
             else if token.iat > wall + MAX_FUTURE_SECONDS then FromTheFuture
             else Accepted
    {
      if jwks.None? {
        return UnknownKey;
      }
      var keys := Candidates(jwks.value.keySet, token.kid);
      var failed := false;
      for i := 0 to |keys|
        invariant failed <==> exists j :: 0 <= j < i && SameFamily(keys[j].alg, token.alg)
        invariant forall j :: 0 <= j < i && SameFamily(keys[j].alg, token.alg) ==> keys[j].secret !in token.validUnder
      {
        if keys[i].alg != token.alg && !SameFamily(keys[i].alg, token.alg) {
          continue;
        }
        if keys[i].secret in token.validUnder {
          return if token.iat > wall + MAX_FUTURE_SECONDS then FromTheFuture else Accepted;
        }
        failed := true;
      }
      v := if failed then Rejected else UnknownKey;
    }

    /**
     A token is only accepted under an allowed algorithm and a cached key of its family; that takes
     at most two fetches, and none for an algorithm that is not allowed.
     */
    method VerifyIdToken(token: Token, now: nat, wall: int, first: Option<seq<RawKey>>, second: Option<seq<RawKey>>)
      returns (v: Verdict)
      requires Valid() && Follows(now)
      modifies this
      ensures Valid() && Follows(now)
      ensures old(starts) <= starts && |starts| <= |old(starts)| + 2
      ensures token.Malformed? || !IsAllowed(token.alg) ==> v == BadHeader && starts == old(starts)
      ensures v == Accepted ==>
        && token.Token? && IsAllowed(token.alg) && token.iat <= wall + MAX_FUTURE_SECONDS
        && jwks.Some? && Validated(Candidates(jwks.value.keySet, token.kid), token)
      // Whatever is decided by keys is decided by keys not older than an hour.
      ensures v.Accepted? || v.Rejected? || v.FromTheFuture? || v.UnknownKey? ==>
        jwks.Some? && now - jwks.value.fetchedAt <= 3_600_000_000_000
      ensures token.Token? && IsAllowed(token.alg) && !old(IsFresh(now)) ==>
        |old(starts)| < |starts| && starts[|old(starts)|] == Start(now, false)
      ensures token.Token? && IsAllowed(token.alg) && !old(IsFresh(now)) && !(first.Some? && HasUsable(first.value)) ==>
        v == FetchFailed
      ensures v == FetchFailed ==> |old(starts)| < |starts|
      ensures v == Rejected ==>
        var keys := Candidates(jwks.value.keySet, token.kid); Matched(keys, token) && !Validated(keys, token)
      ensures v == FromTheFuture ==>
        Validated(Candidates(jwks.value.keySet, token.kid), token) && token.iat > wall + MAX_FUTURE_SECONDS
      ensures old(jwks).Some? ==> jwks.Some?
      ensures v == UnknownKey ==> jwks.Some? && !Matched(Candidates(jwks.value.keySet, token.kid), token)
      ensures old(Verifies(token, now, wall)) ==> v == Accepted && starts == old(starts)
      ensures old(AwaitsRotation(token, now)) && Rotated(token, wall, second) ==>
        v == Accepted && |starts| == |old(starts)| + 1
    {
      if token.Malformed? || !IsAllowed(token.alg) {
        return BadHeader;
      }
      var stale := jwks.None? || now - jwks.value.fetchedAt > JWKS_TTL;
      if stale {
        var ok := RefreshJwks(false, now, first);
        if !ok {
          return FetchFailed;
        }
      }
      v := TryVerify(token, wall);
      if v != UnknownKey {
        return;
      }
      var ok := RefreshJwks(true, now, second);
      if !ok {
        return FetchFailed;
      }
      v := TryVerify(token, wall);
    }
  }

  // ---- the rate of forced fetches ----------------------------------------------------------------------

  /** Forced starts between two moments, both included. */
  function Forced(starts: seq<Start>, from: int, to: int): nat {
    if starts == [] then 0
    else
      var last := starts[|starts| - 1];
      Forced(starts[..|starts| - 1], from, to) + if last.forced && from <= last.at <= to then 1 else 0
  }

  lemma {:induction false} StartsAreOrdered(starts: seq<Start>, i: nat, j: nat)
    requires WellSpaced(starts) && i <= j < |starts|
    ensures starts[i].at <= starts[j].at
    decreases j
  {
    if i < j {
      StartsAreOrdered(starts, i, j - 1);
    }
  }

  /** A later end of the window does not matter when no start is later. */
  lemma {:induction false} ForcedUpTo(starts: seq<Start>, from: int, to: int, earlier: int)
    requires earlier <= to && forall i :: 0 <= i < |starts| ==> starts[i].at <= earlier
    ensures Forced(starts, from, to) == Forced(starts, from, earlier)
    ensures earlier < from ==> Forced(starts, from, to) == 0
    decreases |starts|
  {
    if starts != [] {
      ForcedUpTo(starts[..|starts| - 1], from, to, earlier);
    }
  }

  /** In any window there is at most one forced fetch per 30 seconds of its length, and one more. */
  lemma {:induction false} ForcedFetchesAreLimited(starts: seq<Start>, from: int, to: int)
    requires WellSpaced(starts) && from <= to
    ensures (Forced(starts, from, to) - 1) * JWKS_REFETCH_MIN_INTERVAL <= to - from
    decreases |starts|
  {
    if starts != [] {
      var n := |starts| - 1;
      var last, before := starts[n], starts[..n];
      if last.forced && from <= last.at <= to && n > 0 {
        var earlier := last.at - JWKS_REFETCH_MIN_INTERVAL;
        forall i | 0 <= i < n
          ensures starts[i].at <= earlier
        {
          StartsAreOrdered(starts, i, n - 1);
        }
        ForcedUpTo(before, from, to, earlier);
        if from <= earlier {
          ForcedFetchesAreLimited(before, from, earlier);
        }
      } else {
        ForcedFetchesAreLimited(before, from, to);
      }
    }
  }
}
