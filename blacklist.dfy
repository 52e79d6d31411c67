/** `check_against_blacklist`: for each file of a report, the blacklist
    entries that name a system the file counts.

    The test `mt_provider in providers[file][origin]` asks whether the entry
    is a KEY of the origin's dict, so an entry matches a system only when the
    two are equal: a blacklist entry that is only part of a system name does
    not match. Blacklist entries are compared as the bytes of their UTF-8
    encoding, which are equal exactly when the texts are. */
module Blacklist {
  import opened Text
  import opened Dicts
  import opened Providers
  import opened Reader

  /** `mt_providers[file] = matches`, for the files with at least one match. */
  type Warnings = Dict<string, seq<Name>>

  /** The inner loop over the given origins: the entry once for each origin
      whose dict has it as a key. */
  function OriginHits(values: Counts, origins: seq<Name>, entry: Name): (hits: seq<Name>)
    decreases |origins|
  {
    if origins == [] then []
    else
      var origin := origins[|origins| - 1];
      OriginHits(values, origins[..|origins| - 1], entry)
        + (if entry in GetOr(values, origin, Empty()).entries then [entry] else [])
  }

  /** How many of the given origins hold the entry as a system. */
  function HitCount(values: Counts, origins: seq<Name>, entry: Name): (n: nat)
    ensures n <= |origins|
    decreases |origins|
  {
    if origins == [] then 0
    else
      HitCount(values, origins[..|origins| - 1], entry)
        + (if entry in GetOr(values, origins[|origins| - 1], Empty()).entries then 1 else 0)
  }

  /** The inner loop appends the entry once for every origin that holds it,
      and nothing else. */
  lemma {:induction false} OriginHitsCount(values: Counts, origins: seq<Name>, entry: Name)
    ensures |OriginHits(values, origins, entry)| == HitCount(values, origins, entry)
    ensures forall i :: 0 <= i < |OriginHits(values, origins, entry)| ==> OriginHits(values, origins, entry)[i] == entry
    decreases |origins|
  {
    if origins != [] {
      OriginHitsCount(values, origins[..|origins| - 1], entry);
    }
  }

  /** The two inner loops: `matches` for one file, blacklist entry by entry. */
  function MatchesOf(values: Counts, blacklist: seq<Name>): (matches: seq<Name>)
    decreases |blacklist|
  {
    if blacklist == [] then []
    else MatchesOf(values, blacklist[..|blacklist| - 1]) + OriginHits(values, values.keys, blacklist[|blacklist| - 1])
  }

  /** The outer loop over the given files: a file with matches gets them. */
  function WarningsOver(report: Report, blacklist: seq<Name>, files: seq<string>): (w: Warnings)
    decreases |files|
  {
    if files == [] then Empty()
    else
      var prev := WarningsOver(report, blacklist, files[..|files| - 1]);
      var file := files[|files| - 1];
      var matches := MatchesOf(GetOr(report, file, Empty()), blacklist);
      if |matches| > 0 then Put(prev, file, matches) else prev
  }

  /** What `check_against_blacklist` returns for a report. */
  function WarningsOf(report: Report, blacklist: seq<Name>): (w: Warnings) {
    WarningsOver(report, blacklist, report.keys)
  }

  /** `check_against_blacklist`, with its three nested loops. */
  method CheckAgainstBlacklist(providers: Report, blacklist: seq<Name>) returns (mtProviders: Warnings)
    requires ReportValid(providers)
    ensures mtProviders == WarningsOf(providers, blacklist)
  {
    mtProviders := Empty();
    var files := providers.keys;
    for n := 0 to |files|
      invariant mtProviders == WarningsOver(providers, blacklist, files[..n])
    {
      var file := files[n];
      KeyStored(providers, n);
      var values := providers.entries[file];
      var matches: seq<Name> := [];
      for b := 0 to |blacklist|
        invariant matches == MatchesOf(values, blacklist[..b])
      {
        var mtProvider := blacklist[b];
        var origins := values.keys;
        for o := 0 to |origins|
          invariant matches == MatchesOf(values, blacklist[..b]) + OriginHits(values, origins[..o], mtProvider)
        {
          var origin := origins[o];
          KeyStored(values, o);
          if mtProvider in providers.entries[file].entries[origin].entries {
            matches := matches + [mtProvider];
          }
          assert origins[..o + 1][..o] == origins[..o];
        }
        assert origins[..|origins|] == origins;
        assert blacklist[..b + 1][..b] == blacklist[..b];
      }
      assert blacklist[..|blacklist|] == blacklist;
      if |matches| > 0 {
        mtProviders := Put(mtProviders, file, matches);
      }
      assert files[..n + 1][..n] == files[..n];
    }
    assert files[..|files|] == files;
  }

  /** An empty blacklist flags no file. */
  lemma EmptyBlacklist(report: Report)
    ensures WarningsOf(report, []).keys == [] && WarningsOf(report, []).entries == map[]
  {
    EmptyBlacklistOver(report, report.keys);
  }

  lemma {:induction false} EmptyBlacklistOver(report: Report, files: seq<string>)
    ensures WarningsOver(report, [], files) == Empty()
    decreases |files|
  {
    if files != [] {
      EmptyBlacklistOver(report, files[..|files| - 1]);
    }
  }

  /** Over the given files: a file is flagged exactly when it is one of them
      and has matches, and it is flagged with exactly its matches. */
  lemma {:induction false} WarningsOverEntries(report: Report, blacklist: seq<Name>, files: seq<string>)
    ensures Valid(WarningsOver(report, blacklist, files))
    ensures forall f :: f in WarningsOver(report, blacklist, files).entries <==>
      f in files && |MatchesOf(GetOr(report, f, Empty()), blacklist)| > 0
    ensures forall f :: f in WarningsOver(report, blacklist, files).entries ==>
      WarningsOver(report, blacklist, files).entries[f] == MatchesOf(GetOr(report, f, Empty()), blacklist)
    decreases |files|
  {
    if files != [] {
      var init := files[..|files| - 1];
      var file := files[|files| - 1];
      WarningsOverEntries(report, blacklist, init);
      assert files == init + [file];
      var matches := MatchesOf(GetOr(report, file, Empty()), blacklist);
      if |matches| > 0 {
        PutValid(WarningsOver(report, blacklist, init), file, matches);
      }
    }
  }

  /** The flagged files are files of the report, each flagged exactly when its
      match list is not empty, and each with that list. */
  lemma WarningsOfEntries(report: Report, blacklist: seq<Name>, file: string)
    requires ReportValid(report)
    ensures Valid(WarningsOf(report, blacklist))
    ensures file in WarningsOf(report, blacklist).entries <==>
      file in report.entries && |MatchesOf(report.entries[file], blacklist)| > 0
    ensures file in WarningsOf(report, blacklist).entries ==>
      WarningsOf(report, blacklist).entries[file] == MatchesOf(report.entries[file], blacklist)
  {
    WarningsOverEntries(report, blacklist, report.keys);
    KeysListed(report, file);
  }

  /** Each element of the inner loop's hits is the entry, found as a key of
      one of the origins' dicts; and every such origin adds a hit. */
  lemma {:induction false} OriginHitsIff(values: Counts, origins: seq<Name>, entry: Name, x: Name)
    ensures x in OriginHits(values, origins, entry) <==>
      x == entry && exists i :: 0 <= i < |origins| && entry in GetOr(values, origins[i], Empty()).entries
    decreases |origins|
  {
    if origins != [] {
      var init := origins[..|origins| - 1];
      OriginHitsIff(values, init, entry, x);
      if x == entry && exists i :: 0 <= i < |origins| && entry in GetOr(values, origins[i], Empty()).entries {
        var i :| 0 <= i < |origins| && entry in GetOr(values, origins[i], Empty()).entries;
        if i < |init| {
          assert init[i] == origins[i];
        }
      }
      if exists i :: 0 <= i < |init| && entry in GetOr(values, init[i], Empty()).entries {
        var i :| 0 <= i < |init| && entry in GetOr(values, init[i], Empty()).entries;
        assert origins[i] == init[i];
      }
    }
  }

  /** A file's matches are exactly the blacklist entries that equal a system
      counted under one of its origins. */
  lemma {:induction false} MatchesOfIff(values: Counts, blacklist: seq<Name>, x: Name)
    requires Valid(values)
    ensures x in MatchesOf(values, blacklist) <==>
      x in blacklist && exists o :: o in values.entries && x in values.entries[o].entries
    decreases |blacklist|
  {
    if blacklist != [] {
      var init := blacklist[..|blacklist| - 1];
      var last := blacklist[|blacklist| - 1];
      MatchesOfIff(values, init, x);
      OriginHitsIff(values, values.keys, last, x);
      assert blacklist == init + [last];
      if x == last && exists o :: o in values.entries && x in values.entries[o].entries {
        var o :| o in values.entries && x in values.entries[o].entries;
        KeysListed(values, o);
        var i :| 0 <= i < |values.keys| && values.keys[i] == o;
        assert last in GetOr(values, values.keys[i], Empty()).entries;
      }
    }
  }

  /** The matches come in blacklist order: those of a longer blacklist
      extend those of its first part. */
  lemma {:induction false} MatchesInBlacklistOrder(values: Counts, first: seq<Name>, rest: seq<Name>)
    ensures MatchesOf(values, first + rest) == MatchesOf(values, first) + MatchesOf(values, rest)
    decreases |rest|
  {
    if rest == [] {
      assert first + rest == first;
    } else {
      var init := rest[..|rest| - 1];
      MatchesInBlacklistOrder(values, first, init);
      assert (first + rest)[..|first + rest| - 1] == first + init;
    }
  }

  /** An entry is listed once for every origin that counts it: a system seen
      under two origins is listed twice. */
  lemma RepeatsPerOrigin(o1: Name, o2: Name, system: Name, n1: nat, n2: nat)
    requires o1 != o2
    ensures MatchesOf(Dict([o1, o2], map[o1 := Dict([system], map[system := n1]), o2 := Dict([system], map[system := n2])]), [system])
      == [system, system]
  {
    var values := Dict([o1, o2], map[o1 := Dict([system], map[system := n1]), o2 := Dict([system], map[system := n2])]);
    assert [system][..0] == [];
    assert values.keys[..1] == [o1] && [o1][..0] == [];
    assert OriginHits(values, [o1], system) == [system];
    assert OriginHits(values, values.keys, system) == [system, system];
  }

  /** Matching is equality, not containment: an entry that is only part of a
      system name does not flag the file. */
  lemma PartOfNameDoesNotMatch(origin: Name, system: Name, entry: Name, n: nat)
    requires entry != system
    ensures MatchesOf(Dict([origin], map[origin := Dict([system], map[system := n])]), [entry]) == []
  {
    var values := Dict([origin], map[origin := Dict([system], map[system := n])]);
    assert [entry][..0] == [];
    assert values.keys[..0] == [];
    assert OriginHits(values, values.keys, entry) == [];
  }
}
