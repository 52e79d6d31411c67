/** `get_providers`: count the translation providers of one working file.

    Every `origin`/`origin-system` pair the scanner finds bumps one counter per
    system name, shared by all origins, and stores the counter's new value
    under `providers[origin][system]`. Names stay the bytes the scanner
    captured. */
module Providers {
  import opened Text
  import opened Dicts
  import opened Scanner

  type Name = seq<byte>

  /** `providers[origin][system] = count`, each level in insertion order. */
  type Counts = Dict<Name, Dict<Name, nat>>

  /** The two variables of the loop: the nested result and the shared counters. */
  datatype Tally = Tally(providers: Counts, count: map<Name, nat>)

  /** A counter of `defaultdict(int)`: 0 until it is first bumped. */
  function CounterOf(count: map<Name, nat>, system: Name): (n: nat) {
    MapGetOr(count, system, 0)
  }

  /** Both levels of the nested dict are well formed. */
  ghost predicate CountsValid(c: Counts) {
    Valid(c) && forall o :: o in c.entries ==> Valid(c.entries[o])
  }

  /** One run of the loop body: bump the system's counter, then store its value
      under the origin, creating the origin's map on first use. */
  function Step(t: Tally, p: Pair): (r: Tally)
    ensures r.count == t.count[p.system := CounterOf(t.count, p.system) + 1]
  {
    var c: nat := CounterOf(t.count, p.system) + 1;
    var inner := GetOr(t.providers, p.origin, Empty());
    Tally(Put(t.providers, p.origin, Put(inner, p.system, c)), t.count[p.system := c])
  }

  /** The loop over all pairs, one Step per pair from empty dicts. */
  function TallyOf(ps: seq<Pair>): (t: Tally)
    decreases |ps|
  {
    if ps == [] then Tally(Empty(), map[]) else Step(TallyOf(ps[..|ps| - 1]), ps[|ps| - 1])
  }

  /** The loop keeps both levels of the result well formed. */
  lemma {:induction false} TallyValid(ps: seq<Pair>)
    ensures CountsValid(TallyOf(ps).providers)
    decreases |ps|
  {
    if ps != [] {
      var t := TallyOf(ps[..|ps| - 1]);
      var p := ps[|ps| - 1];
      TallyValid(ps[..|ps| - 1]);
      var c: nat := CounterOf(t.count, p.system) + 1;
      var inner := GetOr(t.providers, p.origin, Empty());
      PutValid(inner, p.system, c);
      PutValid(t.providers, p.origin, Put(inner, p.system, c));
    }
  }

  /** What `get_providers` returns for the bytes of a working file. */
  function CountsOf(workingFile: seq<byte>): (c: Counts) {
    TallyOf(Scan(workingFile)).providers
  }

  /** `get_providers`, with the counters defaulting to 0 and the whole match
      list consumed. */
  method GetProviders(workingFile: seq<byte>) returns (providers: Counts)
    ensures providers == CountsOf(workingFile)
    ensures CountsValid(providers)
  {
    var origins := Scan(workingFile);
    providers := Empty();
    var count: map<Name, nat> := map[];
    for n := 0 to |origins|
      invariant Tally(providers, count) == TallyOf(origins[..n])
    {
      var i, j := origins[n].origin, origins[n].system;
      count := count[j := CounterOf(count, j) + 1];
      var inner := GetOr(providers, i, Empty());
      providers := Put(providers, i, Put(inner, j, count[j]));
      assert origins[..n + 1][..n] == origins[..n];
    }
    assert origins[..|origins|] == origins;
    TallyValid(origins);
  }

  /** How many of the pairs name the given system. */
  function Occurrences(ps: seq<Pair>, system: Name): (n: nat)
    decreases |ps|
  {
    if ps == [] then 0
    else Occurrences(ps[..|ps| - 1], system) + (if ps[|ps| - 1].system == system then 1 else 0)
  }

  /** The result holds a count for this origin and system. */
  predicate Has(c: Counts, origin: Name, system: Name) {
    origin in c.entries && system in c.entries[origin].entries
  }

  /** `providers[origin][system]`. */
  function Stored(c: Counts, origin: Name, system: Name): (n: nat)
    requires Has(c, origin, system)
  {
    c.entries[origin].entries[system]
  }

  /** One step stores the bumped counter of its own pair. */
  lemma StepStores(t: Tally, p: Pair)
    ensures Has(Step(t, p).providers, p.origin, p.system)
    ensures Stored(Step(t, p).providers, p.origin, p.system) == CounterOf(t.count, p.system) + 1
  {
  }

  /** One step leaves every other origin/system entry as it was. */
  lemma StepKeeps(t: Tally, p: Pair, origin: Name, system: Name)
    requires Pair(origin, system) != p
    ensures Has(Step(t, p).providers, origin, system) <==> Has(t.providers, origin, system)
    ensures Has(t.providers, origin, system) ==>
      Stored(Step(t, p).providers, origin, system) == Stored(t.providers, origin, system)
  {
  }

  /** The loop after its last pair is one Step after the loop over the pairs before it. */
  lemma TallyOfLast(ps: seq<Pair>)
    requires ps != []
    ensures TallyOf(ps) == Step(TallyOf(ps[..|ps| - 1]), ps[|ps| - 1])
  {
  }

  /** The shared counter of a system is the number of pairs naming it. */
  lemma {:induction false} TallyCounters(ps: seq<Pair>, system: Name)
    ensures CounterOf(TallyOf(ps).count, system) == Occurrences(ps, system)
    decreases |ps|
  {
    if ps != [] {
      TallyCounters(ps[..|ps| - 1], system);
    }
  }

  /** The origins of the result are exactly the origins of the pairs. */
  lemma {:induction false} TallyOrigins(ps: seq<Pair>)
    ensures forall o :: o in TallyOf(ps).providers.entries <==> exists k :: 0 <= k < |ps| && ps[k].origin == o
    decreases |ps|
  {
    if ps != [] {
      var init := ps[..|ps| - 1];
      TallyOrigins(init);
      forall o | exists k :: 0 <= k < |ps| && ps[k].origin == o
        ensures o in TallyOf(ps).providers.entries
      {
        var k :| 0 <= k < |ps| && ps[k].origin == o;
        if k < |init| {
          assert init[k].origin == o;
        }
      }
      forall o | o in TallyOf(ps).providers.entries
        ensures exists k :: 0 <= k < |ps| && ps[k].origin == o
      {
        if o != ps[|ps| - 1].origin {
          var k :| 0 <= k < |init| && init[k].origin == o;
          assert ps[k].origin == o;
        }
      }
    }
  }

  /** A system is counted under an origin exactly when the two appear together in a pair. */
  lemma {:induction false} TallySystems(ps: seq<Pair>, origin: Name, system: Name)
    ensures Has(TallyOf(ps).providers, origin, system) <==> Pair(origin, system) in ps
    decreases |ps|
  {
    if ps != [] {
      var init := ps[..|ps| - 1];
      var last := ps[|ps| - 1];
      TallySystems(init, origin, system);
      TallyOfLast(ps);
      assert Pair(origin, system) in ps <==> Pair(origin, system) in init || Pair(origin, system) == last by {
        assert ps == init + [last];
      }
      if Pair(origin, system) == last {
        StepStores(TallyOf(init), last);
      } else {
        StepKeeps(TallyOf(init), last, origin, system);
      }
    }
  }

  /** The count stored for a pair is the shared counter of its system just after
      the last occurrence k of that pair: the number of pairs naming the system
      up to and including that occurrence. */
  lemma {:induction false} TallyValue(ps: seq<Pair>, k: nat)
    requires k < |ps| && forall m :: k < m < |ps| ==> ps[m] != ps[k]
    ensures Has(TallyOf(ps).providers, ps[k].origin, ps[k].system)
    ensures Stored(TallyOf(ps).providers, ps[k].origin, ps[k].system) == Occurrences(ps[..k + 1], ps[k].system)
    decreases |ps|
  {
    var init := ps[..|ps| - 1];
    var last := ps[|ps| - 1];
    TallyOfLast(ps);
    if k == |ps| - 1 {
      StepStores(TallyOf(init), last);
      TallyCounters(init, last.system);
      assert ps[..k + 1] == ps;
    } else {
      assert init[k] == ps[k];
      forall m | k < m < |init| ensures init[m] != init[k] {
        assert init[m] == ps[m];
      }
      TallyValue(init, k);
      StepKeeps(TallyOf(init), last, ps[k].origin, ps[k].system);
      assert init[..k + 1] == ps[..k + 1];
    }
  }

  /** The index of the last occurrence of a pair. */
  function LastIndex(ps: seq<Pair>, p: Pair): (k: nat)
    requires p in ps
    ensures k < |ps| && ps[k] == p
    ensures forall m :: k < m < |ps| ==> ps[m] != p
    decreases |ps|
  {
    if ps[|ps| - 1] == p then |ps| - 1
    else
      assert p in ps[..|ps| - 1] by {
        var i :| 0 <= i < |ps| && ps[i] == p;
        assert ps[..|ps| - 1][i] == p;
      }
      LastIndex(ps[..|ps| - 1], p)
  }

  /** A prefix names a system no more often than the whole. */
  lemma {:induction false} OccurrencesOfPrefix(ps: seq<Pair>, n: nat, system: Name)
    requires n <= |ps|
    ensures Occurrences(ps[..n], system) <= Occurrences(ps, system)
    decreases |ps|
  {
    if n < |ps| {
      var init := ps[..|ps| - 1];
      assert ps[..n] == init[..n];
      OccurrencesOfPrefix(init, n, system);
    } else {
      assert ps[..n] == ps;
    }
  }

  /** Pairs that include one naming the system name it at least once. */
  lemma {:induction false} OccurrencesAtLeastOne(ps: seq<Pair>, k: nat, system: Name)
    requires k < |ps| && ps[k].system == system
    ensures Occurrences(ps, system) >= 1
    decreases |ps|
  {
    if k < |ps| - 1 {
      assert ps[..|ps| - 1][k] == ps[k];
      OccurrencesAtLeastOne(ps[..|ps| - 1], k, system);
    }
  }

  /** Every stored count is at least 1 and at most the number of pairs naming the system. */
  lemma CountBounds(ps: seq<Pair>, origin: Name, system: Name)
    requires Pair(origin, system) in ps
    ensures Has(TallyOf(ps).providers, origin, system)
    ensures 1 <= Stored(TallyOf(ps).providers, origin, system) <= Occurrences(ps, system)
  {
    var k := LastIndex(ps, Pair(origin, system));
    TallyValue(ps, k);
    OccurrencesOfPrefix(ps, k + 1, system);
    OccurrencesAtLeastOne(ps[..k + 1], k, system);
  }

  /** The counter is shared across origins: the same system under two origins
      is stored as 1 and then 2. */
  lemma SharedCounter(o1: Name, o2: Name, s: Name)
    requires o1 != o2
    ensures Has(TallyOf([Pair(o1, s), Pair(o2, s)]).providers, o1, s)
    ensures Has(TallyOf([Pair(o1, s), Pair(o2, s)]).providers, o2, s)
    ensures Stored(TallyOf([Pair(o1, s), Pair(o2, s)]).providers, o1, s) == 1
    ensures Stored(TallyOf([Pair(o1, s), Pair(o2, s)]).providers, o2, s) == 2
  {
    var ps := [Pair(o1, s), Pair(o2, s)];
    TallyValue(ps, 0);
    TallyValue(ps, 1);
    assert ps[..1] == [Pair(o1, s)];
    assert ps[..2] == ps;
  }

  /** Two identical pairs are stored as one entry with count 2. */
  lemma RepeatedPair(o: Name, s: Name)
    ensures TallyOf([Pair(o, s), Pair(o, s)]).providers.keys == [o]
    ensures TallyOf([Pair(o, s), Pair(o, s)]).providers.entries[o].keys == [s]
    ensures Stored(TallyOf([Pair(o, s), Pair(o, s)]).providers, o, s) == 2
  {
    var ps := [Pair(o, s), Pair(o, s)];
    assert ps[..1] == [Pair(o, s)] && ps[..1][..0] == [];
    assert TallyOf([]) == Tally(Empty(), map[]);
    var t1 := TallyOf(ps[..1]);
    assert t1 == Step(TallyOf([]), Pair(o, s));
    assert t1.providers.keys == [o] && t1.providers.entries[o].keys == [s];
    assert t1.count == map[s := 1];
    TallyValue(ps, 1);
    assert ps[..2] == ps;
  }

  /** A file without any pair gives an empty result. */
  lemma NoPairsNoProviders(workingFile: seq<byte>)
    requires Scan(workingFile) == []
    ensures CountsOf(workingFile).keys == [] && CountsOf(workingFile).entries == map[]
  {
  }

  /** The file holding a single pair: the corrected count stores 1 for it,
      where the code as written raises KeyError on it. */
  lemma SinglePairCounted(p: Pair)
    requires IsPairOfValues(p)
    ensures Scan(RenderAll(PROVIDERS, [p])) == [p]
    ensures CountsOf(RenderAll(PROVIDERS, [p])).keys == [p.origin]
    ensures Has(CountsOf(RenderAll(PROVIDERS, [p])), p.origin, p.system)
    ensures Stored(CountsOf(RenderAll(PROVIDERS, [p])), p.origin, p.system) == 1
  {
    ScanProviders([p]);
    assert [p][..0] == [];
    StepStores(TallyOf([]), p);
  }

  /** What `get_providers` does as written: `count = defaultdict()` has no
      default factory, so the first `count[j] += 1` raises KeyError, and
      `return providers` sits inside the loop, so a file without any pair
      falls off the end and returns None. */
  datatype AsWritten = Returned(result: Option<Dict<Name, Dict<Name, int>>>) | RaisedKeyError(key: Name)

  /** `get_providers` as written, statement by statement. */
  method GetProvidersAsWritten(workingFile: seq<byte>) returns (r: AsWritten)
    ensures r == Returned(None) <==> Scan(workingFile) == []
    ensures Scan(workingFile) != [] ==> r == RaisedKeyError(Scan(workingFile)[0].system)
  {
    var origins := Scan(workingFile);
    var providers: Dict<Name, Dict<Name, int>> := Empty();
    var count: map<Name, int> := map[];
    for n := 0 to |origins|
      invariant count == map[]
    {
      var i, j := origins[n].origin, origins[n].system;
      if j !in count {
        return RaisedKeyError(j);
      }
      var c := MapGetOr(count, j, 0) + 1;
      count := count[j := c];
      var inner := GetOr(providers, i, Empty());
      providers := Put(providers, i, Put(inner, j, c));
      return Returned(Some(providers));
    }
    return Returned(None);
  }
}
