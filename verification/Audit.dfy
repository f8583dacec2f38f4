/**
 The hash-chained audit log (`crates/aurix-common/src/audit.rs`).

 Cloned loggers share one chain head behind a lock and one bounded channel, so any interleaving
 of their calls is one sequence of `Log` steps.  Nothing is assumed of the hash but its shape:
 every result either holds, or names two different inputs with equal hashes, or a hash that
 begins with "genesis", among those of the logs at hand.
 */
module Audit {
  import opened Words
  import opened Wrappers

  const EQUALS: byte := 61

  /** Base64 of 32 bytes: 44 characters, the last one `=`. */
  type HashText = h: seq<byte> | |h| == 44 && h[43] == EQUALS witness seq(44, i => 61)

  type Uuid = u: seq<byte> | |u| == 16 witness seq(16, i => 0)

  /** The chain head before the first entry, "genesis" in ASCII. */
  function Genesis(): (g: seq<byte>)
    ensures |g| == 7
  {
    [103, 101, 110, 101, 115, 105, 115]
  }

  /** What a caller logs.  Only details, actor and target go into the hash. */
  datatype Record = Record(
    appId: Option<nat>, actor: Uuid, action: nat, targetType: seq<byte>, targetId: seq<byte>,
    details: seq<byte>, ip: Option<seq<byte>>)

  datatype Entry = Entry(record: Record, previous: seq<byte>, hash: HashText)

  function Data(r: Record): seq<byte> {
    r.details + r.actor + r.targetType + r.targetId
  }

  type Hash = seq<byte> -> HashText

  // ---- chains --------------------------------------------------------------------------------------

  function Head(log: seq<Entry>): seq<byte> {
    if log == [] then Genesis() else log[|log| - 1].hash
  }

  function Input(e: Entry): seq<byte> {
    e.previous + Data(e.record)
  }

  /** Each entry names its predecessor's hash, and its own hash covers that name and its data. */
  ghost predicate IsChain(hash: Hash, log: seq<Entry>) {
    forall i :: 0 <= i < |log| ==> log[i].previous == Head(log[..i]) && log[i].hash == hash(Input(log[i]))
  }

  function DataOf(log: seq<Entry>): seq<seq<byte>> {
    if log == [] then [] else DataOf(log[..|log| - 1]) + [Data(log[|log| - 1].record)]
  }

  lemma {:induction false} DataOfLength(log: seq<Entry>)
    ensures |DataOf(log)| == |log|
    decreases |log|
  {
    if log != [] {
      DataOfLength(log[..|log| - 1]);
    }
  }

  /** Two different inputs hashed by these logs share a hash. */
  ghost predicate Collision(hash: Hash, a: seq<Entry>, b: seq<Entry>) {
    exists i, j :: 0 <= i < |a| && 0 <= j < |b| && Input(a[i]) != Input(b[j]) && hash(Input(a[i])) == hash(Input(b[j]))
  }

  /** A hash of this log begins with the text that stands for no hash. */
  ghost predicate GenesisHash(log: seq<Entry>) {
    exists i :: 0 <= i < |log| && Genesis() <= log[i].hash
  }

  lemma PrefixIsChain(hash: Hash, log: seq<Entry>, n: nat)
    requires IsChain(hash, log) && n <= |log|
    ensures IsChain(hash, log[..n])
  {
    forall i | 0 <= i < n
      ensures log[..n][i].previous == Head(log[..n][..i]) && log[..n][i].hash == hash(Input(log[..n][i]))
    {
      assert log[..n][..i] == log[..i];
    }
  }

  lemma CollisionGrows(hash: Hash, a: seq<Entry>, b: seq<Entry>, m: nat, n: nat)
    requires m <= |a| && n <= |b| && Collision(hash, a[..m], b[..n])
    ensures Collision(hash, a, b)
  {
    var i, j :| 0 <= i < m && 0 <= j < n && Input(a[..m][i]) != Input(b[..n][j])
      && hash(Input(a[..m][i])) == hash(Input(b[..n][j]));
    assert a[..m][i] == a[i] && b[..n][j] == b[j];
  }

  lemma GenesisHashGrows(log: seq<Entry>, n: nat)
    requires n <= |log| && GenesisHash(log[..n])
    ensures GenesisHash(log)
  {
    var i :| 0 <= i < n && Genesis() <= log[..n][i].hash;
    assert log[..n][i] == log[i];
  }

  /** Equal inputs split the same way, except where "genesis" meets a hash. */
  lemma EqualInputsSplit(p: seq<byte>, d: seq<byte>, q: seq<byte>, e: seq<byte>)
    requires p + d == q + e && |p| == |q|
    ensures p == q && d == e
  {
    assert (p + d)[..|p|] == p && (q + e)[..|q|] == q;
    assert (p + d)[|p|..] == d && (q + e)[|q|..] == e;
  }

  lemma GenesisMeetsHash(d: seq<byte>, h: HashText, e: seq<byte>)
    requires Genesis() + d == h + e
    ensures Genesis() <= h
  {
    assert (Genesis() + d)[..7] == Genesis() && (h + e)[..7] == h[..7];
  }

  /** Last entries with equal inputs are both first entries or both later ones, or "genesis" met a hash. */
  lemma PreviousLengths(hash: Hash, a: seq<Entry>, b: seq<Entry>)
    requires IsChain(hash, a) && IsChain(hash, b) && a != [] && b != []
    requires Input(a[|a| - 1]) == Input(b[|b| - 1])
    ensures |a[|a| - 1].previous| == |b[|b| - 1].previous| || GenesisHash(a) || GenesisHash(b)
  {
    var x, y := a[|a| - 1], b[|b| - 1];
    assert x.previous == Head(a[..|a| - 1]) && y.previous == Head(b[..|b| - 1]);
    if |a| == 1 && |b| > 1 {
      GenesisMeetsHash(Data(x.record), b[|b| - 2].hash, Data(y.record));
    } else if |a| > 1 && |b| == 1 {
      GenesisMeetsHash(Data(y.record), a[|a| - 2].hash, Data(x.record));
    }
  }

  /**
   Logs that end in the same hash logged the same data, entry by entry -- or they hold a
   collision, or one of their hashes begins with "genesis".
   */
  lemma {:induction false} EqualHeadsMeanEqualData(hash: Hash, a: seq<Entry>, b: seq<Entry>)
    requires IsChain(hash, a) && IsChain(hash, b) && Head(a) == Head(b)
    ensures DataOf(a) == DataOf(b) || Collision(hash, a, b) || GenesisHash(a) || GenesisHash(b)
    decreases |a| + |b|
  {
    if a != [] && b != [] && !GenesisHash(a) && !GenesisHash(b) {
      var m, n := |a| - 1, |b| - 1;
      var x, y := a[m], b[n];
      if Input(x) == Input(y) {
        PreviousLengths(hash, a, b);
        EqualInputsSplit(x.previous, Data(x.record), y.previous, Data(y.record));
        EqualPrefixes(hash, a, b);
      } else {
        assert Input(a[m]) != Input(b[n]) && hash(Input(a[m])) == hash(Input(b[n]));
      }
    }
  }

  /** The step of the induction: what holds of the logs without their last entries. */
  lemma {:induction false} EqualPrefixes(hash: Hash, a: seq<Entry>, b: seq<Entry>)
    requires IsChain(hash, a) && IsChain(hash, b) && a != [] && b != []
    requires a[|a| - 1].previous == b[|b| - 1].previous
    ensures var m, n := |a| - 1, |b| - 1;
      DataOf(a[..m]) == DataOf(b[..n]) || Collision(hash, a, b) || GenesisHash(a) || GenesisHash(b)
    decreases |a| + |b|, 0
  {
    var m, n := |a| - 1, |b| - 1;
    PrefixIsChain(hash, a, m);
    PrefixIsChain(hash, b, n);
    EqualHeadsMeanEqualData(hash, a[..m], b[..n]);
    if Collision(hash, a[..m], b[..n]) {
      CollisionGrows(hash, a, b, m, n);
    } else if GenesisHash(a[..m]) {
      GenesisHashGrows(a, m);
    } else if GenesisHash(b[..n]) {
      GenesisHashGrows(b, n);
    }
  }

  function Copies(b: byte, n: nat): (s: seq<byte>)
    ensures |s| == n
  {
    seq(n, i => b)
  }

  lemma LongData(actor: Uuid, tail: seq<byte>, r: Record)
    requires actor == Copies(65, 16) && r == Record(None, actor, 0, Copies(65, 19) + [EQUALS], tail, [49], None)
    ensures Data(r) == [49] + Copies(65, 35) + [EQUALS] + tail
  {
    assert Copies(65, 16) + Copies(65, 19) == Copies(65, 35);
  }

  /**
   The last alternative is needed: were some hash to begin with "genesis", one entry and two
   others, all of them such as a caller can log, would reach the same head without a collision.
   */
  lemma GenesisCanBeMistaken() returns (hash: Hash, a: seq<Entry>, b: seq<Entry>)
    ensures IsChain(hash, a) && IsChain(hash, b) && Head(a) == Head(b)
    ensures DataOf(a) != DataOf(b) && !Collision(hash, a, b)
  {
    var actor: Uuid := Copies(65, 16);
    var h0: HashText := Genesis() + [49] + Copies(65, 35) + [EQUALS];
    var h1: HashText := Copies(65, 43) + [EQUALS];
    var short := Record(None, actor, 0, [], [], [49], None);
    var long := Record(None, actor, 0, Copies(65, 19) + [EQUALS], Data(short), [49], None);
    hash := x => if |x| == 24 then h0 else h1;
    a := [Entry(long, Genesis(), h1)];
    b := [Entry(short, Genesis(), h0), Entry(short, h0, h1)];
    LongData(actor, Data(short), long);
    assert |Data(short)| == 17;
    assert Input(a[0]) == Input(b[1]);
    assert a[..0] == [] && b[..0] == [] && b[..1] == [b[0]];
    DataOfLength(a);
    DataOfLength(b);
  }

  /** No hash occurs twice in a chain, or there is a collision or a hash that begins with "genesis". */
  lemma HashesAreDistinct(hash: Hash, log: seq<Entry>, i: nat, j: nat)
    requires IsChain(hash, log) && i < j < |log|
    ensures log[i].hash != log[j].hash || Collision(hash, log, log) || GenesisHash(log)
  {
    if log[i].hash == log[j].hash {
      var a, b := log[..i + 1], log[..j + 1];
      PrefixIsChain(hash, log, i + 1);
      PrefixIsChain(hash, log, j + 1);
      EqualHeadsMeanEqualData(hash, a, b);
      DataOfLength(a);
      DataOfLength(b);
      if Collision(hash, a, b) {
        CollisionGrows(hash, log, log, i + 1, j + 1);
      } else if GenesisHash(a) {
        GenesisHashGrows(log, i + 1);
      } else {
        GenesisHashGrows(log, j + 1);
      }
    }
  }

  // ---- the lossy channel ---------------------------------------------------------------------------

  /** Strictly increasing positions in a log. */
  ghost predicate Positions(kept: seq<nat>, log: seq<Entry>) {
    && (forall i :: 0 <= i < |kept| ==> kept[i] < |log|)
    && (forall i, j :: 0 <= i < j < |kept| ==> kept[i] < kept[j])
  }

  /**
   Two entries received one after the other link up exactly when nothing was dropped between
   them -- or the log holds a collision, or a hash that begins with "genesis".
   */
  lemma LinkMeansNothingDropped(hash: Hash, log: seq<Entry>, kept: seq<nat>, k: nat)
    requires IsChain(hash, log) && Positions(kept, log) && k + 1 < |kept|
    ensures
      || Collision(hash, log, log) || GenesisHash(log)
      || (log[kept[k + 1]].previous == log[kept[k]].hash <==> kept[k + 1] == kept[k] + 1)
  {
    var i, j := kept[k], kept[k + 1];
    assert i < j;
    assert log[j].previous == Head(log[..j]) == log[j - 1].hash;
    if i < j - 1 {
      HashesAreDistinct(hash, log, i, j - 1);
    }
  }

  // ---- what the hash covers ------------------------------------------------------------------------

  /** With the lengths of details and target type fixed, equal data means equal hashed fields. */
  lemma DataDeterminesFields(r: Record, s: Record)
    requires |r.details| == |s.details| && |r.targetType| == |s.targetType|
    ensures Data(r) == Data(s) <==>
      r.details == s.details && r.actor == s.actor && r.targetType == s.targetType && r.targetId == s.targetId
  {
    if Data(r) == Data(s) {
      EqualInputsSplit(r.details + r.actor + r.targetType, r.targetId, s.details + s.actor + s.targetType, s.targetId);
      EqualInputsSplit(r.details + r.actor, r.targetType, s.details + s.actor, s.targetType);
      EqualInputsSplit(r.details, r.actor, s.details, s.actor);
    }
  }

  /** Without them it does not: the fields are concatenated bare. */
  lemma DataIsAmbiguous(r: Record)
    requires r.targetId != []
    ensures var s := r.(targetType := r.targetType + [r.targetId[0]], targetId := r.targetId[1..]);
      s != r && Data(s) == Data(r)
  {
    assert [r.targetId[0]] + r.targetId[1..] == r.targetId;
  }

  // ---- the logger ----------------------------------------------------------------------------------

  /** The chain head behind the shared lock. */
  class Chain {
    const hash: Hash
    var lastHash: seq<byte>
    /** Every entry logged so far. */
    ghost var logged: seq<Entry>

    constructor (hash: Hash)
      ensures this.hash == hash && lastHash == Genesis() && logged == [] && Valid()
    {
      this.hash, lastHash, logged := hash, Genesis(), [];
    }

    ghost predicate Valid()
      reads this
    {
      IsChain(hash, logged) && lastHash == Head(logged)
    }

    /** Under the lock: hash the record onto the head, and make that hash the new head. */
    method Append(record: Record) returns (entry: Entry)
      requires Valid()
      modifies this
      ensures Valid() && logged == old(logged) + [entry]
      ensures entry.record == record && entry.previous == old(lastHash) && entry.hash == lastHash
    {
      var digest := hash(lastHash + Data(record));
      entry := Entry(record, lastHash, digest);
      ChainGrows(hash, logged, entry);
      lastHash, logged := digest, logged + [entry];
    }
  }

  /** A bounded channel: entries are dropped when it is full or closed. */
  class Channel {
    const capacity: nat
    var open: bool
    var queue: seq<Entry>
    /** Positions, in the log, of everything that ever entered the channel. */
    ghost var kept: seq<nat>
    /** How many of those have been received. */
    ghost var taken: nat

    constructor (capacity: nat)
      ensures this.capacity == capacity && open && queue == [] && kept == [] && taken == 0
    {
      this.capacity, open, queue, kept, taken := capacity, true, [], [], 0;
    }

    /** The channel holds, in order, the entries at the positions not yet received. */
    ghost predicate Holds(log: seq<Entry>)
      reads this
    {
      && Positions(kept, log) && |kept| == taken + |queue|
      && forall i :: 0 <= i < |queue| ==> queue[i] == log[kept[taken + i]]
    }

    /** Offer the entry that follows `log`. */
    method TrySend(e: Entry, ghost log: seq<Entry>) returns (ok: bool)
      requires Holds(log)
      modifies this
      ensures Holds(log + [e])
      ensures ok == (open && |old(queue)| < capacity)
      ensures queue == if ok then old(queue) + [e] else old(queue)
      ensures kept == if ok then old(kept) + [|log|] else old(kept)
      ensures open == old(open) && taken == old(taken)
    {
      ok := open && |queue| < capacity;
      if ok {
        queue := queue + [e];
        kept := kept + [|log|];
      }
    }

    /** The consumer takes the oldest entry. */
    method Receive(ghost log: seq<Entry>) returns (e: Option<Entry>)
      requires Holds(log)
      modifies this
      ensures Holds(log) && open == old(open) && kept == old(kept)
      ensures e.None? <==> old(queue) == []
      ensures e.Some? ==> old(taken) < |kept| && e.value == log[kept[old(taken)]] && taken == old(taken) + 1
    {
      if queue == [] {
        return None;
      }
      e := Some(queue[0]);
      queue := queue[1..];
      taken := taken + 1;
    }
  }

  class AuditLogger {
    const chain: Chain
    const channel: Channel

    constructor (chain: Chain, channel: Channel)
      ensures this.chain == chain && this.channel == channel
    {
      this.chain, this.channel := chain, channel;
    }

    /** A clone shares the chain and the channel. */
    method Clone() returns (copy: AuditLogger)
      ensures fresh(copy) && copy.chain == chain && copy.channel == channel
    {
      copy := new AuditLogger(chain, channel);
    }

    /** Append to the chain, then offer the entry to the channel; a full channel loses it. */
    method Log(record: Record)
      requires chain.Valid() && channel.Holds(chain.logged)
      modifies chain, channel
      ensures chain.Valid() && channel.Holds(chain.logged)
      ensures |chain.logged| == |old(chain.logged)| + 1 && old(chain.logged) <= chain.logged
      ensures var e := chain.logged[|chain.logged| - 1];
        && e.record == record && e.previous == old(chain.lastHash) && chain.lastHash == e.hash
        && channel.queue == old(channel.queue)
          + (if channel.open && |old(channel.queue)| < channel.capacity then [e] else [])
    {
      ghost var log := chain.logged;
      var entry := chain.Append(record);
      var sent := channel.TrySend(entry, log);
    }
  }

  lemma ChainGrows(hash: Hash, log: seq<Entry>, e: Entry)
    requires IsChain(hash, log) && e.previous == Head(log) && e.hash == hash(Input(e))
    ensures IsChain(hash, log + [e])
  {
    forall i | 0 <= i < |log + [e]|
      ensures (log + [e])[i].previous == Head((log + [e])[..i])
    {
      assert (log + [e])[..i] == log[..i];
    }
    assert log[..|log|] == log;
  }
}
