/** The site-to-state resolution of `seed_institutes` (db/seed.py): two
    lookup tables built from the states in the database, a three-tier match
    of each site's state name (exact name, normalised name, then the first
    normalised name one contains the other of), and the batching of the
    resolved sites into groups of 100. */
module Seed {
  import opened Options
  import opened Text
  import opened Sequences
  import opened DbUtils

  // ---------------------------------------------------------------------------
  // Insertion-ordered dictionaries from names to state ids
  // ---------------------------------------------------------------------------

  /** One key/value pair of a Python dict. */
  datatype Entry = Entry(key: string, id: int)

  function KeyOf(e: Entry): string { e.key }

  /** `d[k] = v`: an existing key keeps its place and takes the new value; a
      new key goes to the end. */
  function Put(d: seq<Entry>, k: string, v: int): (r: seq<Entry>)
    ensures Keys(r, KeyOf) == if k in Keys(d, KeyOf) then Keys(d, KeyOf) else Keys(d, KeyOf) + [k]
  {
    if d == [] then [Entry(k, v)]
    else
      assert d == [d[0]] + d[1..];
      KeysCons(d[0], d[1..], KeyOf);
      if d[0].key == k then
        KeysCons(Entry(k, v), d[1..], KeyOf);
        [Entry(k, v)] + d[1..]
      else
        var rest := Put(d[1..], k, v);
        KeysCons(d[0], rest, KeyOf);
        [d[0]] + rest
  }

  /** `d.get(k)`. */
  function Get(d: seq<Entry>, k: string): (r: Option<int>)
    ensures r.None? <==> k !in Keys(d, KeyOf)
  {
    if d == [] then None
    else if d[0].key == k then Some(d[0].id)
    else
      assert d == [d[0]] + d[1..];
      KeysCons(d[0], d[1..], KeyOf);
      Get(d[1..], k)
  }

  /** Reading back a key just written gives the value written; other keys
      are unaffected. */
  lemma {:induction false} GetPut(d: seq<Entry>, k: string, v: int, k': string)
    ensures Get(Put(d, k, v), k') == if k' == k then Some(v) else Get(d, k')
  {
    if d != [] && d[0].key != k {
      GetPut(d[1..], k, v, k');
    }
  }

  /** `dict(pairs)` and `{k: v for k, v in pairs}`: the pairs inserted one
      after the other. */
  function DictFromPairs(pairs: seq<Entry>): seq<Entry> {
    if pairs == [] then []
    else
      var last := pairs[|pairs| - 1];
      Put(DictFromPairs(pairs[..|pairs| - 1]), last.key, last.id)
  }

  /** The keys of the dictionary are the keys of the pairs, each once, in the
      order of their first occurrence. */
  lemma {:induction false} DictFromPairsKeys(pairs: seq<Entry>)
    ensures Keys(DictFromPairs(pairs), KeyOf) == Keys(KeepFirstBy(pairs, KeyOf), KeyOf)
    ensures DistinctKeys(DictFromPairs(pairs), KeyOf)
  {
    if pairs != [] {
      var p, last := pairs[..|pairs| - 1], pairs[|pairs| - 1];
      assert pairs == p + [last];
      DictFromPairsKeys(p);
      KeepFirstBySnoc(p, last, KeyOf);
      KeysSnoc(KeepFirstBy(p, KeyOf), last, KeyOf);
      KeepFirstByDistinct(pairs, KeyOf);
      var d := DictFromPairs(pairs);
      assert Keys(d, KeyOf) == Keys(KeepFirstBy(pairs, KeyOf), KeyOf);
      forall i, j | 0 <= i < j < |d| ensures KeyOf(d[i]) != KeyOf(d[j]) {
        assert Keys(d, KeyOf)[i] == KeyOf(KeepFirstBy(pairs, KeyOf)[i]);
        assert Keys(d, KeyOf)[j] == KeyOf(KeepFirstBy(pairs, KeyOf)[j]);
      }
    }
  }

  /** A key no pair has is missing from the dictionary. */
  lemma {:induction false} DictFromPairsMissing(pairs: seq<Entry>, k: string)
    requires forall i :: 0 <= i < |pairs| ==> pairs[i].key != k
    ensures Get(DictFromPairs(pairs), k) == None
  {
    if pairs != [] {
      var p, last := pairs[..|pairs| - 1], pairs[|pairs| - 1];
      DictFromPairsMissing(p, k);
      GetPut(DictFromPairs(p), last.key, last.id, k);
    }
  }

  /** With duplicate keys the LAST pair's value wins. */
  lemma {:induction false} DictFromPairsLastWins(pairs: seq<Entry>, i: nat)
    requires i < |pairs|
    requires forall j :: i < j < |pairs| ==> pairs[j].key != pairs[i].key
    ensures Get(DictFromPairs(pairs), pairs[i].key) == Some(pairs[i].id)
  {
    var p, last := pairs[..|pairs| - 1], pairs[|pairs| - 1];
    GetPut(DictFromPairs(p), last.key, last.id, pairs[i].key);
    if i < |pairs| - 1 {
      DictFromPairsLastWins(p, i);
    }
  }

  // ---------------------------------------------------------------------------
  // The lookup tables
  // ---------------------------------------------------------------------------

  /** A row of the `states` table. */
  datatype StateRow = StateRow(stateId: int, name: string)

  /** A site read from the CSV files. */
  datatype Site = Site(uniName: string, url: string, state: string)

  /** A site with the `state_id` it was resolved to. */
  datatype ResolvedSite = ResolvedSite(site: Site, stateId: int)

  /** `state_name_to_id_map`: state name to id. */
  function ExactMap(rows: seq<StateRow>): seq<Entry> {
    DictFromPairs(seq(|rows|, i requires 0 <= i < |rows| => Entry(rows[i].name, rows[i].stateId)))
  }

  /** `normalized_state_map`: normalised state name to id. */
  function NormalizedMap(rows: seq<StateRow>): seq<Entry> {
    DictFromPairs(seq(|rows|, i requires 0 <= i < |rows| =>
      Entry(NormalizeStateName(Some(rows[i].name)), rows[i].stateId)))
  }

  // ---------------------------------------------------------------------------
  // Resolving one site's state
  // ---------------------------------------------------------------------------

  /** Python's truth value of the looked-up id. The ids are UUIDs
      (db/models.py:39), which are always true, so only `None` is false in
      the source; ids are integers here, and `0` stands for an id that
      tests false, a case the source never meets. */
  predicate Truthy(id: Option<int>) { id.Some? && id.value != 0 }

  /** The loose test of `seed_institutes`: either name occurs in the other, and the
      table's name is longer than 3 characters. */
  predicate PartialMatch(name: string, key: string) {
    (IsSubstring(name, key) || IsSubstring(key, name)) && |key| > 3
  }

  /** The id of the first entry, in table order, that matches loosely. */
  function FirstPartial(entries: seq<Entry>, name: string): (r: Option<int>)
    ensures r.None? <==> forall i :: 0 <= i < |entries| ==> !PartialMatch(name, entries[i].key)
    ensures r.Some? ==>
      exists i :: 0 <= i < |entries| && PartialMatch(name, entries[i].key) && r.value == entries[i].id &&
        forall j :: 0 <= j < i ==> !PartialMatch(name, entries[j].key)
  {
    if entries == [] then None
    else if PartialMatch(name, entries[0].key) then Some(entries[0].id)
    else
      var r := FirstPartial(entries[1..], name);
      assert forall i :: 1 <= i < |entries| ==> entries[i] == entries[1..][i - 1];
      r
  }

  /** The first loose match is the one the search stops at. */
  lemma FirstPartialAt(entries: seq<Entry>, name: string, j: nat)
    requires j < |entries| && PartialMatch(name, entries[j].key)
    requires forall k :: 0 <= k < j ==> !PartialMatch(name, entries[k].key)
    ensures FirstPartial(entries, name) == Some(entries[j].id)
  {
    var r := FirstPartial(entries, name);
    var i :| 0 <= i < |entries| && PartialMatch(name, entries[i].key) && r.value == entries[i].id &&
      forall k :: 0 <= k < i ==> !PartialMatch(name, entries[k].key);
    assert i == j;
  }

  /** The value `state_id` holds after the three lookups of
      `seed_institutes` for a site whose state name is `stateName`. */
  function StateIdOf(exact: seq<Entry>, normalized: seq<Entry>, stateName: string): Option<int> {
    var direct := Get(exact, stateName);
    if Truthy(direct) then direct
    else
      var name := NormalizeStateName(Some(stateName));
      var byName := Get(normalized, name);
      if Truthy(byName) then byName
      else
        match FirstPartial(normalized, name)
        case Some(id) => Some(id)
        case None => byName
  }

  // ---------------------------------------------------------------------------
  // Resolving all sites
  // ---------------------------------------------------------------------------

  /** `data_with_state_id`: the sites whose state resolved, in input order,
      each with its id. */
  function Resolved(exact: seq<Entry>, normalized: seq<Entry>, sites: seq<Site>): seq<ResolvedSite> {
    if sites == [] then []
    else
      var last := sites[|sites| - 1];
      var id := StateIdOf(exact, normalized, last.state);
      Resolved(exact, normalized, sites[..|sites| - 1]) +
        if Truthy(id) then [ResolvedSite(last, id.value)] else []
  }

  /** `unmatched_states`: the state names that did not resolve. */
  function Unmatched(exact: seq<Entry>, normalized: seq<Entry>, sites: seq<Site>): set<string> {
    if sites == [] then {}
    else
      var last := sites[|sites| - 1];
      Unmatched(exact, normalized, sites[..|sites| - 1]) +
        if Truthy(StateIdOf(exact, normalized, last.state)) then {} else {last.state}
  }

  /** The partial-match loop of `seed_institutes`: walks the normalised
      table in order and stops at the first loose match. */
  method SearchPartial(normalized: seq<Entry>, name: string) returns (found: Option<int>)
    ensures found == FirstPartial(normalized, name)
  {
    var j := 0;
    while j < |normalized|
      invariant j <= |normalized|
      invariant forall k :: 0 <= k < j ==> !PartialMatch(name, normalized[k].key)
    {
      var entry := normalized[j];
      if PartialMatch(name, entry.key) {
        FirstPartialAt(normalized, name, j);
        return Some(entry.id);
      }
      j := j + 1;
    }
    return None;
  }

  /** The three-tier lookup of `seed_institutes` for one site: the exact lookup, then the normalised
      lookup, then the search for the first loose match. */
  method ResolveState(exact: seq<Entry>, normalized: seq<Entry>, stateName: string) returns (stateId: Option<int>)
    ensures stateId == StateIdOf(exact, normalized, stateName)
  {
    stateId := Get(exact, stateName);
    if !Truthy(stateId) {
      var name := NormalizeStateName(Some(stateName));
      stateId := Get(normalized, name);
      if !Truthy(stateId) {
        var found := SearchPartial(normalized, name);
        if found.Some? {
          stateId := found;
        }
      }
    }
  }

  /** `seed_institutes` without its database writes: builds both tables, resolves every
      site, collects the unmatched state names, and cuts the resolved sites
      into batches of 100. */
  method ResolveSites(rows: seq<StateRow>, sites: seq<Site>)
    returns (resolved: seq<ResolvedSite>, unmatched: set<string>, batches: seq<seq<ResolvedSite>>)
    ensures resolved == Resolved(ExactMap(rows), NormalizedMap(rows), sites)
    ensures unmatched == Unmatched(ExactMap(rows), NormalizedMap(rows), sites)
    ensures batches == SplitContent(resolved, 100) && Concat(batches) == resolved
  {
    var exact := ExactMap(rows);
    var normalized := NormalizedMap(rows);
    resolved, unmatched := [], {};
    for i := 0 to |sites|
      invariant resolved == Resolved(exact, normalized, sites[..i])
      invariant unmatched == Unmatched(exact, normalized, sites[..i])
    {
      var site := sites[i];
      assert sites[..i + 1][..i] == sites[..i];
      var stateId := ResolveState(exact, normalized, site.state);
      if Truthy(stateId) {
        resolved := resolved + [ResolvedSite(site, stateId.value)];
      } else {
        unmatched := unmatched + {site.state};
      }
    }
    assert sites[..|sites|] == sites;
    batches := SplitContent(resolved, 100);
    SplitContentConcat(resolved, 100);
  }

  // ---------------------------------------------------------------------------
  // Properties of the resolution
  // ---------------------------------------------------------------------------

  /** Tier one: a site whose state name is a state's name gets the id of the
      last state with that name, whatever the other tiers would give. */
  lemma ExactNameWins(rows: seq<StateRow>, stateName: string, i: nat)
    requires i < |rows| && rows[i].name == stateName && rows[i].stateId != 0
    requires forall j :: i < j < |rows| ==> rows[j].name != stateName
    ensures StateIdOf(ExactMap(rows), NormalizedMap(rows), stateName) == Some(rows[i].stateId)
  {
    var pairs := seq(|rows|, j requires 0 <= j < |rows| => Entry(rows[j].name, rows[j].stateId));
    DictFromPairsLastWins(pairs, i);
  }

  /** Tier two: with no state of that exact name, a site gets the id of the
      last state whose normalised name equals its own normalised name. */
  lemma NormalizedNameWins(rows: seq<StateRow>, stateName: string, i: nat)
    requires forall j :: 0 <= j < |rows| ==> rows[j].name != stateName
    requires i < |rows| && rows[i].stateId != 0
    requires NormalizeStateName(Some(rows[i].name)) == NormalizeStateName(Some(stateName))
    requires forall j :: i < j < |rows| ==>
      NormalizeStateName(Some(rows[j].name)) != NormalizeStateName(Some(stateName))
    ensures StateIdOf(ExactMap(rows), NormalizedMap(rows), stateName) == Some(rows[i].stateId)
  {
    var exact := seq(|rows|, j requires 0 <= j < |rows| => Entry(rows[j].name, rows[j].stateId));
    DictFromPairsMissing(exact, stateName);
    var normalized := seq(|rows|, j requires 0 <= j < |rows| =>
      Entry(NormalizeStateName(Some(rows[j].name)), rows[j].stateId));
    DictFromPairsLastWins(normalized, i);
  }

  /** Tier three: with neither the exact nor the normalised name in the
      tables, the site gets the id of the first loose match in table order
      (the order in which the normalised names first occur among the
      states), or no id at all. */
  lemma PartialMatchLast(rows: seq<StateRow>, stateName: string)
    requires forall j :: 0 <= j < |rows| ==> rows[j].name != stateName
    requires forall j :: 0 <= j < |rows| ==>
      NormalizeStateName(Some(rows[j].name)) != NormalizeStateName(Some(stateName))
    ensures StateIdOf(ExactMap(rows), NormalizedMap(rows), stateName) ==
      FirstPartial(NormalizedMap(rows), NormalizeStateName(Some(stateName)))
  {
    var exact := seq(|rows|, j requires 0 <= j < |rows| => Entry(rows[j].name, rows[j].stateId));
    DictFromPairsMissing(exact, stateName);
    var normalized := seq(|rows|, j requires 0 <= j < |rows| =>
      Entry(NormalizeStateName(Some(rows[j].name)), rows[j].stateId));
    DictFromPairsMissing(normalized, NormalizeStateName(Some(stateName)));
  }

  /** The empty name occurs in every name, so a site whose state name
      normalises to "" and is not found otherwise matches the first table
      entry longer than 3 characters, whatever it is. */
  lemma EmptyNameMatchesFirstLongKey(entries: seq<Entry>, i: nat)
    requires i < |entries| && |entries[i].key| > 3
    requires forall j :: 0 <= j < i ==> |entries[j].key| <= 3
    ensures FirstPartial(entries, "") == Some(entries[i].id)
  {
    EmptyIsSubstring(entries[i].key);
    FirstPartialAt(entries, "", i);
  }

  /** Each resolved site is an input site with its state's id, which is
      not 0; each input site whose state resolves is among them. */
  lemma {:induction false} ResolvedMembers(exact: seq<Entry>, normalized: seq<Entry>, sites: seq<Site>)
    ensures |Resolved(exact, normalized, sites)| <= |sites|
    ensures forall r :: r in Resolved(exact, normalized, sites) ==>
      r.site in sites && r.stateId != 0 && StateIdOf(exact, normalized, r.site.state) == Some(r.stateId)
    ensures forall site :: site in sites && Truthy(StateIdOf(exact, normalized, site.state)) ==>
      ResolvedSite(site, StateIdOf(exact, normalized, site.state).value) in Resolved(exact, normalized, sites)
  {
    if sites != [] {
      var p, last := sites[..|sites| - 1], sites[|sites| - 1];
      assert sites == p + [last];
      ResolvedMembers(exact, normalized, p);
      forall site | site in sites && Truthy(StateIdOf(exact, normalized, site.state))
        ensures ResolvedSite(site, StateIdOf(exact, normalized, site.state).value) in Resolved(exact, normalized, sites)
      {
        if site != last {
          assert site in p;
        }
      }
    }
  }

  /** The unmatched names are exactly the state names of the input sites
      that do not resolve. */
  lemma {:induction false} UnmatchedMembers(exact: seq<Entry>, normalized: seq<Entry>, sites: seq<Site>)
    ensures forall name :: name in Unmatched(exact, normalized, sites) <==>
      exists site :: site in sites && site.state == name && !Truthy(StateIdOf(exact, normalized, name))
  {
    if sites != [] {
      var p, last := sites[..|sites| - 1], sites[|sites| - 1];
      assert sites == p + [last];
      UnmatchedMembers(exact, normalized, p);
      forall name | exists site :: site in sites && site.state == name && !Truthy(StateIdOf(exact, normalized, name))
        ensures name in Unmatched(exact, normalized, sites)
      {
        var site :| site in sites && site.state == name && !Truthy(StateIdOf(exact, normalized, name));
        if site != last {
          assert site in p;
        }
      }
    }
  }

  /** Every site ends up either among the resolved sites or with its state
      name among the unmatched names, never both. */
  lemma ResolvedOrUnmatched(exact: seq<Entry>, normalized: seq<Entry>, sites: seq<Site>, site: Site)
    requires site in sites
    ensures (exists id :: ResolvedSite(site, id) in Resolved(exact, normalized, sites)) <==>
      site.state !in Unmatched(exact, normalized, sites)
  {
    ResolvedMembers(exact, normalized, sites);
    UnmatchedMembers(exact, normalized, sites);
    var id := StateIdOf(exact, normalized, site.state);
    if Truthy(id) {
      assert ResolvedSite(site, id.value) in Resolved(exact, normalized, sites);
    }
  }
}
