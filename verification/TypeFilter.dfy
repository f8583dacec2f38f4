/**
 The `types` parameter of the event stream (`crates/aurix-api/src/webhooks.rs`): a list of public
 event types, or nothing for all of them. The public types are a parameter.
 */
module TypeFilter {
  import opened Wrappers
  import Text
  import EventStream

  const ALL: string := "*"

  function Trimmed(parts: seq<string>): seq<string> {
    if parts == [] then []
    else
      var t := Text.Trim(parts[0]);
      (if t == "" then [] else [t]) + Trimmed(parts[1..])
  }

  /** The entries of the list: trimmed, without empty ones. */
  function Entries(raw: Option<string>): seq<string> {
    if raw.None? || Text.Trim(raw.value) == "" then [] else Trimmed(Text.Split(Text.Trim(raw.value), ','))
  }

  ghost predicate AllPublic(entries: seq<string>, public: set<string>) {
    forall i :: 0 <= i < |entries| ==> entries[i] != ALL && entries[i] in public
  }

  /** The first entry that is no public type decides: a star asks for everything, the rest is refused. */
  ghost predicate Decides(entries: seq<string>, public: set<string>, i: nat) {
    i < |entries| && AllPublic(entries[..i], public) && (entries[i] == ALL || entries[i] !in public)
  }

  function Elements(entries: seq<string>): set<string> {
    set t | t in entries
  }

  ghost predicate IsFilter(entries: seq<string>, public: set<string>, r: Result<EventStream.Filter, string>) {
    match r
    case Ok(Some(types)) => entries != [] && AllPublic(entries, public) && types == Elements(entries)
    case Ok(None) => entries == [] || exists i: nat :: Decides(entries, public, i) && entries[i] == ALL
    case Err(t) => exists i: nat :: Decides(entries, public, i) && entries[i] != ALL && entries[i] == t
  }

  lemma DecidesHere(entries: seq<string>, public: set<string>, i: nat)
    requires Decides(entries, public, i)
    ensures IsFilter(entries, public, if entries[i] == ALL then Ok(None) else Err(entries[i]))
  {
  }

  lemma AllSeen(entries: seq<string>, public: set<string>)
    requires AllPublic(entries, public)
    ensures IsFilter(entries, public, if Elements(entries) == {} then Ok(None) else Ok(Some(Elements(entries))))
  {
    if entries != [] {
      assert entries[0] in Elements(entries);
    }
  }

  lemma OneMore(entries: seq<string>, public: set<string>, i: nat)
    requires i < |entries| && AllPublic(entries[..i], public) && entries[i] != ALL && entries[i] in public
    ensures AllPublic(entries[..i + 1], public) && Elements(entries[..i + 1]) == Elements(entries[..i]) + {entries[i]}
  {
    assert entries[..i + 1] == entries[..i] + [entries[i]];
  }

  /** The loop over the entries. */
  method Collect(entries: seq<string>, public: set<string>) returns (r: Result<EventStream.Filter, string>)
    ensures IsFilter(entries, public, r)
  {
    var types: set<string> := {};
    for i := 0 to |entries|
      invariant AllPublic(entries[..i], public) && types == Elements(entries[..i])
    {
      var t := entries[i];
      if t == ALL {
        DecidesHere(entries, public, i);
        return Ok(None);
      }
      if t !in public {
        DecidesHere(entries, public, i);
        return Err(t);
      }
      OneMore(entries, public, i);
      types := types + {t};
    }
    assert entries[..|entries|] == entries;
    AllSeen(entries, public);
    r := if types == {} then Ok(None) else Ok(Some(types));
  }

  method ParseTypeFilter(raw: Option<string>, public: set<string>) returns (r: Result<EventStream.Filter, string>)
    ensures IsFilter(Entries(raw), public, r)
  {
    if raw.None? {
      return Ok(None);
    }
    var text := Text.Trim(raw.value);
    if text == "" {
      return Ok(None);
    }
    r := Collect(Trimmed(Text.Split(text, ',')), public);
  }

  // ---- round trip --------------------------------------------------------------------------------------

  /** A name that survives being listed. */
  predicate IsClean(name: string) {
    name != "" && ',' !in name && forall i :: 0 <= i < |name| ==> !Text.IsWhitespace(name[i])
  }

  lemma {:induction false} TrimmedOfClean(names: seq<string>)
    requires forall i :: 0 <= i < |names| ==> IsClean(names[i])
    ensures Trimmed(names) == names
    decreases |names|
  {
    if names != [] {
      Text.TrimOfClean(names[0]);
      TrimmedOfClean(names[1..]);
      assert [names[0]] + names[1..] == names;
    }
  }

  lemma {:induction false} JoinIsClean(names: seq<string>)
    requires names != [] && forall i :: 0 <= i < |names| ==> IsClean(names[i])
    ensures var s := Text.Join(names, ',');
      s != "" && forall i :: 0 <= i < |s| ==> !Text.IsWhitespace(s[i])
    decreases |names|
  {
    if |names| > 1 {
      JoinIsClean(names[1..]);
    }
  }

  /** A comma-separated list of names is read back as these names. */
  lemma ListReadsBack(names: seq<string>)
    requires names != [] && forall i :: 0 <= i < |names| ==> IsClean(names[i])
    ensures Entries(Some(Text.Join(names, ','))) == names
  {
    JoinIsClean(names);
    Text.TrimOfClean(Text.Join(names, ','));
    Text.SplitOfJoin(names, ',');
    TrimmedOfClean(names);
  }
}
