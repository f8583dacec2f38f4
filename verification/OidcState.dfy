/**
 The replay ledger of single sign-on (`crates/aurix-auth/src/oidc.rs`): which sealed login states
 this node has already consumed, pruned on every callback.
 */
module OidcState {
  import opened Wrappers

  const MAX_STATE_LENGTH: nat := 4096

  /** What the sealed state parameter carries, as far as the callback decides on it. */
  datatype Sealed = Sealed(jti: string, exp: int, cookieHash: string)

  datatype Refusal = InvalidState | Expired | CookieMismatch | AlreadyUsed

  type Ledger = map<string, int>

  // ---- the two checks --------------------------------------------------------------------------------

  /** Opening: what decryption yields, unless the parameter is too long or the state has expired. */
  function OpenState(state: string, decrypted: Option<Sealed>, now: int): (r: Result<Sealed, Refusal>)
    ensures r.Ok? <==> |state| <= MAX_STATE_LENGTH && decrypted.Some? && now <= decrypted.value.exp
    ensures r.Ok? ==> r.value == decrypted.value
  {
    if |state| > MAX_STATE_LENGTH then Err(InvalidState)
    else if decrypted.None? then Err(InvalidState)
    else if decrypted.value.exp < now then Err(Expired)
    else Ok(decrypted.value)
  }

  function Pruned(used: Ledger, now: int): Ledger {
    map jti | jti in used && used[jti] >= now :: used[jti]
  }

  // ---- callbacks -------------------------------------------------------------------------------------

  /**
   One callback that has opened its state: the state, whether the cookie matches it, and the clock
   readings of the expiry check and of the ledger.
   */
  datatype Callback = Callback(state: Sealed, cookieOk: bool, openedAt: int, consumedAt: int)

  /** The callback gets as far as the ledger. */
  predicate Reaches(c: Callback) {
    c.openedAt <= c.state.exp && c.cookieOk
  }

  predicate Accepts(used: Ledger, c: Callback) {
    Reaches(c) && c.state.jti !in Pruned(used, c.consumedAt)
  }

  function After(used: Ledger, c: Callback): Ledger {
    if Reaches(c) then Pruned(used, c.consumedAt)[c.state.jti := c.state.exp] else used
  }

  class OidcProvider {
    var used: Ledger

    constructor ()
      ensures used == map[]
    {
      used := map[];
    }

    /** Ledger lookup and insertion under one lock. */
    method ConsumeState(state: Sealed, now: int) returns (r: Result<(), Refusal>)
      modifies this
      ensures r == if state.jti in Pruned(old(used), now) then Err(AlreadyUsed) else Ok(())
      ensures used == Pruned(old(used), now)[state.jti := state.exp]
    {
      used := Pruned(used, now);
      var present := state.jti in used;
      used := used[state.jti := state.exp];
      r := if present then Err(AlreadyUsed) else Ok(());
    }

    /** The callback up to the code exchange; `hash` is the hash of the login cookie, if there is one. */
    method Complete(state: string, decrypted: Option<Sealed>, hash: Option<string>, openedAt: int, consumedAt: int)
      returns (r: Result<Sealed, Refusal>)
      modifies this
      ensures |state| > MAX_STATE_LENGTH || decrypted.None? ==> r == Err(InvalidState) && used == old(used)
      ensures |state| <= MAX_STATE_LENGTH && decrypted.Some? ==>
        var c := Callback(decrypted.value, hash == Some(decrypted.value.cookieHash), openedAt, consumedAt);
        && used == After(old(used), c)
        && (Accepts(old(used), c) ==> r == Ok(decrypted.value))
        && (!Accepts(old(used), c) ==>
            r == Err(if c.state.exp < openedAt then Expired else if !c.cookieOk then CookieMismatch else AlreadyUsed))
    {
      var parsed := OpenState(state, decrypted, openedAt);
      if parsed.Err? {
        return Err(parsed.error);
      }
      if hash != Some(parsed.value.cookieHash) {
        return Err(CookieMismatch);
      }
      var consumption := ConsumeState(parsed.value, consumedAt);
      if consumption.Err? {
        return Err(consumption.error);
      }
      r := Ok(parsed.value);
    }
  }

  // ---- runs ------------------------------------------------------------------------------------------

  /** The ledger before callback i, starting from an empty one. */
  function At(run: seq<Callback>, i: nat): Ledger
    requires i <= |run|
  {
    if i == 0 then map[] else After(At(run, i - 1), run[i - 1])
  }

  predicate AcceptedAt(run: seq<Callback>, i: nat)
    requires i < |run|
  {
    Accepts(At(run, i), run[i])
  }

  /** A callback that reaches the ledger when this moment has passed makes it forget what expires then. */
  predicate Forgets(c: Callback, exp: int) {
    Reaches(c) && c.consumedAt > exp
  }

  predicate Files(c: Callback, jti: string) {
    Reaches(c) && c.state.jti == jti
  }

  /** Callback i is the last one before j that filed this identifier. */
  ghost predicate FiledLast(run: seq<Callback>, i: int, j: nat, jti: string)
    requires j <= |run|
  {
    0 <= i < j && Files(run[i], jti) && forall k :: i < k < j ==> !Files(run[k], jti)
  }

  ghost predicate KeptFrom(run: seq<Callback>, i: int, j: nat, exp: int)
    requires j <= |run|
  {
    forall k: nat :: i < k < j ==> !Forgets(run[k], exp)
  }

  /** The ledger holds exactly what was filed and not forgotten since, under the expiry last filed. */
  ghost predicate Holds(used: Ledger, run: seq<Callback>, j: nat, jti: string)
    requires j <= |run|
  {
    && (jti in used ==>
      exists i :: FiledLast(run, i, j, jti) && KeptFrom(run, i, j, used[jti]) && used[jti] == run[i].state.exp)
    && (forall i :: FiledLast(run, i, j, jti) && KeptFrom(run, i, j, run[i].state.exp) ==> jti in used)
  }

  lemma {:induction false} LedgerIsMemory(run: seq<Callback>, j: nat, jti: string)
    requires j <= |run|
    ensures Holds(At(run, j), run, j, jti)
    decreases j
  {
    if j > 0 {
      LedgerIsMemory(run, j - 1, jti);
      StepHolds(At(run, j - 1), run, j - 1, jti);
    }
  }

  lemma StepHolds(used: Ledger, run: seq<Callback>, j: nat, jti: string)
    requires j < |run| && Holds(used, run, j, jti)
    ensures Holds(After(used, run[j]), run, j + 1, jti)
  {
    var c, after := run[j], After(used, run[j]);
    if Files(c, jti) {
      assert FiledLast(run, j, j + 1, jti) && KeptFrom(run, j, j + 1, c.state.exp);
    } else {
      if jti in after {
        var i :| FiledLast(run, i, j, jti) && KeptFrom(run, i, j, used[jti]) && used[jti] == run[i].state.exp;
        assert FiledLast(run, i, j + 1, jti) && KeptFrom(run, i, j + 1, used[jti]);
      }
      forall i | FiledLast(run, i, j + 1, jti) && KeptFrom(run, i, j + 1, run[i].state.exp)
        ensures jti in after
      {
        assert FiledLast(run, i, j, jti) && KeptFrom(run, i, j, run[i].state.exp);
        assert jti in used && !Forgets(c, run[i].state.exp);
        FiledOnce(used, run, i, j, jti);
      }
    }
  }

  lemma FiledOnce(used: Ledger, run: seq<Callback>, i: nat, j: nat, jti: string)
    requires j <= |run| && Holds(used, run, j, jti) && jti in used && FiledLast(run, i, j, jti)
    ensures used[jti] == run[i].state.exp
  {
    var h :| FiledLast(run, h, j, jti) && KeptFrom(run, h, j, used[jti]) && used[jti] == run[h].state.exp;
    assert h == i;
  }

  /**
   Exactly when a callback succeeds, for every run and whatever the clock readings: it reaches the
   ledger, and its identifier was not filed before, or since it last was (or now) the ledger was
   reached after the expiry then filed.
   */
  lemma AcceptedExactlyWhen(run: seq<Callback>, j: nat)
    requires j < |run|
    ensures AcceptedAt(run, j) <==>
      && Reaches(run[j])
      && forall i :: FiledLast(run, i, j, run[j].state.jti) ==>
        exists k :: i < k <= j && Forgets(run[k], run[i].state.exp)
  {
    var c, jti, used := run[j], run[j].state.jti, At(run, j);
    LedgerIsMemory(run, j, jti);
    if Reaches(c) {
      if jti in Pruned(used, c.consumedAt) {
        var i :| FiledLast(run, i, j, jti) && KeptFrom(run, i, j, used[jti]) && used[jti] == run[i].state.exp;
        assert forall k: nat :: i < k <= j ==> !Forgets(run[k], run[i].state.exp);
      } else {
        forall i | FiledLast(run, i, j, jti)
          ensures exists k :: i < k <= j && Forgets(run[k], run[i].state.exp)
        {
          if jti in used {
            FiledOnce(used, run, i, j, jti);
            assert Forgets(run[j], run[i].state.exp);
          } else {
            assert !KeptFrom(run, i, j, run[i].state.exp);
          }
        }
      }
    }
  }

  // ---- clocks ----------------------------------------------------------------------------------------

  /** The readings reach the ledger in order. */
  ghost predicate InOrder(run: seq<Callback>) {
    forall i, j :: 0 <= i < j < |run| ==> run[i].consumedAt <= run[j].consumedAt
  }

  /** An identifier always comes with the same expiry. */
  ghost predicate SameExpiry(run: seq<Callback>) {
    forall i, j :: 0 <= i < j < |run| && run[i].state.jti == run[j].state.jti ==> run[i].state.exp == run[j].state.exp
  }

  /** Some earlier callback filed the identifier, so one of them was the last. */
  lemma {:induction false} LastFiling(run: seq<Callback>, i: nat, j: nat, jti: string) returns (last: nat)
    requires i < j <= |run| && Files(run[i], jti)
    ensures i <= last && FiledLast(run, last, j, jti)
    decreases j
  {
    if Files(run[j - 1], jti) {
      last := j - 1;
    } else {
      last := LastFiling(run, i, j - 1, jti);
    }
  }

  /**
   With readings in order, a state accepted before is accepted again exactly when the ledger is
   asked after its expiry.
   */
  lemma ReusedExactlyWhen(run: seq<Callback>, i: nat, j: nat)
    requires SameExpiry(run) && InOrder(run) && i < j < |run|
    requires run[i].state.jti == run[j].state.jti && AcceptedAt(run, i)
    ensures AcceptedAt(run, j) <==> Forgets(run[j], run[j].state.exp)
  {
    var jti, exp := run[j].state.jti, run[j].state.exp;
    AcceptedExactlyWhen(run, j);
    var last := LastFiling(run, i, j, jti);
    assert run[last].state.exp == exp;
    forall h | FiledLast(run, h, j, jti)
      ensures h == last
    {
    }
    ForgottenByNow(run, last, j, exp);
  }

  /** With readings in order, whatever has been forgotten is forgotten by the latest callback too. */
  lemma ForgottenByNow(run: seq<Callback>, i: nat, j: nat, exp: int)
    requires InOrder(run) && i < j < |run|
    ensures Reaches(run[j]) && (exists k :: i < k <= j && Forgets(run[k], exp)) <==> Forgets(run[j], exp)
  {
  }

  /** With readings in order and one reading for both checks, a state is accepted at most once in every run. */
  lemma StateIsSingleUse(run: seq<Callback>, i: nat, j: nat)
    requires SameExpiry(run) && InOrder(run) && i < j < |run|
    requires run[j].openedAt == run[j].consumedAt
    requires run[i].state.jti == run[j].state.jti && AcceptedAt(run, i)
    ensures !AcceptedAt(run, j)
  {
    ReusedExactlyWhen(run, i, j);
  }

  /** Two readings that straddle the expiry let the same state through twice. */
  lemma StraddlingReadingsReuse()
    ensures var c := Callback(Sealed("a", 10, "h"), true, 10, 11);
      InOrder([c, c]) && AcceptedAt([c, c], 0) && AcceptedAt([c, c], 1)
  {
    var c := Callback(Sealed("a", 10, "h"), true, 10, 11);
    var run := [c, c];
    assert At(run, 0) == map[] && At(run, 1) == map["a" := 10];
    assert "a" !in Pruned(At(run, 1), 11);
  }

  /**
   So do readings that reach the ledger out of order, be it because the clock was set back or
   because the reading is taken before the lock: the entry is pruned while it counts as expired.
   */
  lemma ReadingsOutOfOrderReuse()
    ensures var c := Callback(Sealed("a", 10, "h"), true, 5, 5);
      var d := Callback(Sealed("b", 20, "h"), true, 15, 15);
      AcceptedAt([c, d, c], 0) && AcceptedAt([c, d, c], 2)
  {
    var c := Callback(Sealed("a", 10, "h"), true, 5, 5);
    var d := Callback(Sealed("b", 20, "h"), true, 15, 15);
    var run := [c, d, c];
    assert At(run, 0) == map[] && At(run, 1) == map["a" := 10];
    assert Pruned(At(run, 1), 15) == map[];
    assert At(run, 2) == map["b" := 20];
    assert "a" != "b" by { assert "a"[0] != "b"[0]; }
  }
}
