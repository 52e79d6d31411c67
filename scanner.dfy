/** The attribute-pair scanner of `get_providers`: Python's
    `re.compile(b'origin="([^"]+)" origin-system="([^"]+)"').findall(data)`
    written out as a deterministic left-to-right matcher over bytes.

    The pattern has the shape  open `([^"]+)` middle `([^"]+)` `"`  where
    the literal `middle` starts with a quote. Each group is followed by a
    quote, so a group can only end at the first quote after it starts: there
    is exactly one way to match at a given position, and no backtracking.
    The matcher is written for every pattern of that shape; PROVIDERS is the
    one the processor compiles. The pattern has no word boundary, so a match
    may begin in the middle of a longer attribute name. */
module Scanner {
  import opened Text

  const QUOTE: byte := 34

  /** The two literal parts of a pattern  open `([^"]+)` middle `([^"]+)` `"`. */
  datatype Pattern = Pattern(open: seq<byte>, middle: seq<byte>)

  /** The literal between the two groups starts with the quote that ends the first group. */
  predicate WellFormed(pat: Pattern) {
    |pat.middle| > 0 && pat.middle[0] == QUOTE
  }

  /** `origin="([^"]+)" origin-system="([^"]+)"`: `origin="` before the first
      group, and `" origin-system="` (the quote closing the origin, a space, the
      attribute name, `=` and the quote opening the system) between the two. */
  const PROVIDERS: Pattern := Pattern(
    [111, 114, 105, 103, 105, 110, 61, 34],
    [34, 32, 111, 114, 105, 103, 105, 110, 45, 115, 121, 115, 116, 101, 109, 61, 34])

  lemma ProvidersWellFormed()
    ensures WellFormed(PROVIDERS)
  {
  }

  /** The two captured groups of one match, in the order `findall` returns them. */
  datatype Pair = Pair(origin: seq<byte>, system: seq<byte>)

  /** One match: where it starts, one past where it ends, and what it captured. */
  datatype Found = Found(start: nat, end: nat, pair: Pair)

  datatype Option<T> = None | Some(value: T)

  /** A byte string the group `[^"]+` matches. */
  predicate IsValue(v: seq<byte>) {
    |v| > 0 && QUOTE !in v
  }

  predicate IsPairOfValues(p: Pair) {
    IsValue(p.origin) && IsValue(p.system)
  }

  /** The text the whole pattern matches when it captures the given pair. */
  function Render(pat: Pattern, p: Pair): (text: seq<byte>) {
    pat.open + p.origin + pat.middle + p.system + [QUOTE]
  }

  /** The length of the run of non-quote bytes of s starting at index i:
      how far `[^"]+` reaches from there. */
  function RunLength(s: seq<byte>, i: nat): (n: nat)
    requires i <= |s|
    ensures i + n <= |s|
    decreases |s| - i
  {
    if i == |s| || s[i] == QUOTE then 0 else 1 + RunLength(s, i + 1)
  }

  /** The run holds no quote, and stops at a quote or at the end of s. */
  lemma {:induction false} RunLengthStops(s: seq<byte>, i: nat)
    requires i <= |s|
    ensures forall k :: i <= k < i + RunLength(s, i) ==> s[k] != QUOTE
    ensures i + RunLength(s, i) < |s| ==> s[i + RunLength(s, i)] == QUOTE
    decreases |s| - i
  {
    if i < |s| && s[i] != QUOTE {
      RunLengthStops(s, i + 1);
    }
  }

  /** A run that stops at a quote has the length RunLength computes. */
  lemma {:induction false} RunLengthExact(s: seq<byte>, i: nat, n: nat)
    requires i + n < |s|
    requires forall k :: i <= k < i + n ==> s[k] != QUOTE
    requires s[i + n] == QUOTE
    ensures RunLength(s, i) == n
    decreases n
  {
    if n > 0 {
      RunLengthExact(s, i + 1, n - 1);
    }
  }

  /** The pattern tried at position p: the match that starts there, if any.
      MatchAtSound and MatchAtComplete state what a match spans. */
  function MatchAt(pat: Pattern, s: seq<byte>, p: nat): (m: Option<Found>)
    requires p <= |s|
    ensures m.Some? ==> m.value.start == p && p < m.value.end <= |s|
  {
    if !OccursAt(s, pat.open, p) then None
    else
      var a := p + |pat.open|;
      var n := RunLength(s, a);
      if n == 0 || !OccursAt(s, pat.middle, a + n) then None
      else
        var b := a + n + |pat.middle|;
        var k := RunLength(s, b);
        if k == 0 || b + k == |s| then None
        else Some(Found(p, b + k + 1, Pair(s[a..a + n], s[b..b + k])))
  }

  /** The five parts of a pair's text, one after the other, make up that text. */
  lemma RenderJoin(pat: Pattern, s: seq<byte>, p: nat, pair: Pair)
    requires OccursAt(s, pat.open, p)
    requires OccursAt(s, pair.origin, p + |pat.open|)
    requires OccursAt(s, pat.middle, p + |pat.open| + |pair.origin|)
    requires OccursAt(s, pair.system, p + |pat.open| + |pair.origin| + |pat.middle|)
    requires OccursAt(s, [QUOTE], p + |pat.open| + |pair.origin| + |pat.middle| + |pair.system|)
    ensures OccursAt(s, Render(pat, pair), p)
  {
    var o := pat.open;
    var m := pat.middle;
    OccursAtConcat(s, o, pair.origin, p);
    OccursAtConcat(s, o + pair.origin, m, p);
    OccursAtConcat(s, o + pair.origin + m, pair.system, p);
    OccursAtConcat(s, o + pair.origin + m + pair.system, [QUOTE], p);
  }

  /** Where a pair's text occurs, its five parts occur one after the other. */
  lemma RenderSplit(pat: Pattern, s: seq<byte>, p: nat, pair: Pair)
    requires OccursAt(s, Render(pat, pair), p)
    ensures OccursAt(s, pat.open, p)
    ensures OccursAt(s, pair.origin, p + |pat.open|)
    ensures OccursAt(s, pat.middle, p + |pat.open| + |pair.origin|)
    ensures OccursAt(s, pair.system, p + |pat.open| + |pair.origin| + |pat.middle|)
    ensures OccursAt(s, [QUOTE], p + |pat.open| + |pair.origin| + |pat.middle| + |pair.system|)
  {
    var o := pat.open;
    var m := pat.middle;
    OccursAtConcat(s, o + pair.origin + m + pair.system, [QUOTE], p);
    OccursAtConcat(s, o + pair.origin + m, pair.system, p);
    OccursAtConcat(s, o + pair.origin, m, p);
    OccursAtConcat(s, o, pair.origin, p);
  }

  /** The path MatchAt takes when it finds a match, with its positions named:
      `open` at p, a run of length n from a, `middle`, a run of length k from b,
      and the closing quote at b + k. */
  lemma MatchAtPath(pat: Pattern, s: seq<byte>, p: nat) returns (a: nat, n: nat, b: nat, k: nat)
    requires p <= |s| && MatchAt(pat, s, p).Some?
    ensures a == p + |pat.open| && a <= |s| && n == RunLength(s, a) && n > 0
    ensures OccursAt(s, pat.open, p) && OccursAt(s, pat.middle, a + n)
    ensures b == a + n + |pat.middle| && b <= |s| && k == RunLength(s, b) && k > 0 && b + k < |s|
    ensures MatchAt(pat, s, p) == Some(Found(p, b + k + 1, Pair(s[a..a + n], s[b..b + k])))
  {
    a := p + |pat.open|;
    n := RunLength(s, a);
    b := a + n + |pat.middle|;
    k := RunLength(s, b);
  }

  /** A run that is not empty is a value, and one that stops before the end stops at a quote. */
  lemma RunIsValue(s: seq<byte>, a: nat)
    requires a <= |s| && RunLength(s, a) > 0
    ensures IsValue(s[a..a + RunLength(s, a)])
    ensures a + RunLength(s, a) < |s| ==> s[a + RunLength(s, a)] == QUOTE
  {
    RunLengthStops(s, a);
    var v := s[a..a + RunLength(s, a)];
    forall i | 0 <= i < |v| ensures v[i] != QUOTE {
      assert v[i] == s[a + i];
    }
  }

  /** A match captures a pair of values and spans its text. */
  lemma MatchAtSound(pat: Pattern, s: seq<byte>, p: nat)
    requires p <= |s| && MatchAt(pat, s, p).Some?
    ensures IsPairOfValues(MatchAt(pat, s, p).value.pair)
    ensures OccursAt(s, Render(pat, MatchAt(pat, s, p).value.pair), p)
    ensures MatchAt(pat, s, p).value.end == p + |Render(pat, MatchAt(pat, s, p).value.pair)|
  {
    var a, n, b, k := MatchAtPath(pat, s, p);
    RunIsValue(s, a);
    RunIsValue(s, b);
    assert s[b + k..b + k + 1] == [QUOTE];
    RenderJoin(pat, s, p, Pair(s[a..a + n], s[b..b + k]));
  }

  /** Where a value stands followed by a quote, `[^"]+` reaches exactly to its end. */
  lemma ValueRun(s: seq<byte>, a: nat, v: seq<byte>)
    requires IsValue(v) && OccursAt(s, v, a) && a + |v| < |s| && s[a + |v|] == QUOTE
    ensures RunLength(s, a) == |v|
  {
    forall i | a <= i < a + |v| ensures s[i] != QUOTE {
      OccursAtIndex(s, v, a, i - a);
    }
    RunLengthExact(s, a, |v|);
  }

  /** Where the parts of a pair of values stand, each run reaches exactly to the end of its value. */
  lemma ValueRuns(pat: Pattern, s: seq<byte>, pair: Pair, a: nat, b: nat, e: nat)
    requires WellFormed(pat) && IsPairOfValues(pair)
    requires b == a + |pair.origin| + |pat.middle| && e == b + |pair.system|
    requires OccursAt(s, pair.origin, a)
    requires OccursAt(s, pat.middle, a + |pair.origin|)
    requires OccursAt(s, pair.system, b)
    requires OccursAt(s, [QUOTE], e)
    ensures RunLength(s, a) == |pair.origin| && RunLength(s, b) == |pair.system| && e < |s|
  {
    OccursAtIndex(s, pat.middle, a + |pair.origin|, 0);
    ValueRun(s, a, pair.origin);
    OccursAtIndex(s, [QUOTE], e, 0);
    ValueRun(s, b, pair.system);
  }

  /** MatchAt along its successful path, with the run lengths named. */
  lemma MatchAtFound(pat: Pattern, s: seq<byte>, p: nat, a: nat, n: nat, b: nat, k: nat)
    requires p <= |s| && OccursAt(s, pat.open, p)
    requires a == p + |pat.open| && n == RunLength(s, a) && n > 0
    requires OccursAt(s, pat.middle, a + n)
    requires b == a + n + |pat.middle| && k == RunLength(s, b) && k > 0 && b + k < |s|
    ensures MatchAt(pat, s, p) == Some(Found(p, b + k + 1, Pair(s[a..a + n], s[b..b + k])))
  {
  }

  /** Where the five parts of a pair of values stand one after the other,
      the pattern matches them and captures that pair. */
  lemma MatchAtParts(pat: Pattern, s: seq<byte>, p: nat, pair: Pair, a: nat, b: nat, e: nat)
    requires WellFormed(pat) && IsPairOfValues(pair)
    requires a == p + |pat.open| && b == a + |pair.origin| + |pat.middle| && e == b + |pair.system|
    requires OccursAt(s, pat.open, p)
    requires OccursAt(s, pair.origin, a)
    requires OccursAt(s, pat.middle, a + |pair.origin|)
    requires OccursAt(s, pair.system, b)
    requires OccursAt(s, [QUOTE], e)
    ensures MatchAt(pat, s, p) == Some(Found(p, e + 1, pair))
  {
    ValueRuns(pat, s, pair, a, b, e);
    MatchAtFound(pat, s, p, a, |pair.origin|, b, |pair.system|);
  }

  /** Wherever the text of a pair of values stands, the pattern matches
      exactly that text and captures exactly that pair. */
  lemma MatchAtComplete(pat: Pattern, s: seq<byte>, p: nat, pair: Pair, end: nat)
    requires WellFormed(pat)
    requires IsPairOfValues(pair) && OccursAt(s, Render(pat, pair), p) && end == p + |Render(pat, pair)|
    ensures MatchAt(pat, s, p) == Some(Found(p, end, pair))
  {
    RenderSplit(pat, s, p, pair);
    var a := p + |pat.open|;
    var b := a + |pair.origin| + |pat.middle|;
    assert end == b + |pair.system| + 1;
    MatchAtParts(pat, s, p, pair, a, b, b + |pair.system|);
  }

  /** `findall` from position pos: try the pattern at each position in turn;
      after a match, go on from its end, so that matches never overlap. */
  function FindAll(pat: Pattern, s: seq<byte>, pos: nat): (fs: seq<Found>)
    requires pos <= |s|
    decreases |s| - pos
  {
    if pos == |s| then []
    else
      match MatchAt(pat, s, pos)
      case Some(f) =>
        var rest := FindAll(pat, s, f.end);
        [f] + rest
      case None => FindAll(pat, s, pos + 1)
  }

  /** Where a match starts, `findall` reports it and goes on from its end. */
  lemma FindAllAtMatch(pat: Pattern, s: seq<byte>, pos: nat)
    requires pos < |s| && MatchAt(pat, s, pos).Some?
    ensures FindAll(pat, s, pos) == [MatchAt(pat, s, pos).value] + FindAll(pat, s, MatchAt(pat, s, pos).value.end)
  {
  }

  /** Where no match starts, `findall` moves on by one byte. */
  lemma FindAllAtNoMatch(pat: Pattern, s: seq<byte>, pos: nat)
    requires pos < |s| && MatchAt(pat, s, pos).None?
    ensures FindAll(pat, s, pos) == FindAll(pat, s, pos + 1)
  {
  }

  /** The matches `findall` reports lie between pos and the end of s, come
      left to right without overlapping, and capture pairs of values. */
  lemma {:induction false} FindAllSpans(pat: Pattern, s: seq<byte>, pos: nat)
    requires pos <= |s|
    ensures forall i :: 0 <= i < |FindAll(pat, s, pos)| ==>
      pos <= FindAll(pat, s, pos)[i].start < FindAll(pat, s, pos)[i].end <= |s|
    ensures forall i :: 0 <= i < |FindAll(pat, s, pos)| ==> IsPairOfValues(FindAll(pat, s, pos)[i].pair)
    ensures forall i :: 0 < i < |FindAll(pat, s, pos)| ==> FindAll(pat, s, pos)[i - 1].end <= FindAll(pat, s, pos)[i].start
    decreases |s| - pos
  {
    if pos < |s| {
      var m := MatchAt(pat, s, pos);
      if m.Some? {
        MatchAtSound(pat, s, pos);
        FindAllAtMatch(pat, s, pos);
        FindAllSpans(pat, s, m.value.end);
        var rest := FindAll(pat, s, m.value.end);
        assert forall i :: 0 < i < |rest| + 1 ==> FindAll(pat, s, pos)[i] == rest[i - 1];
      } else {
        FindAllAtNoMatch(pat, s, pos);
        FindAllSpans(pat, s, pos + 1);
      }
    }
  }

  /** Each match `findall` reports is the one the pattern finds at its start. */
  lemma {:induction false} FindAllReportsMatches(pat: Pattern, s: seq<byte>, pos: nat)
    requires pos <= |s|
    ensures forall f :: f in FindAll(pat, s, pos) ==> f.start <= |s| && MatchAt(pat, s, f.start) == Some(f)
    decreases |s| - pos
  {
    if pos < |s| {
      var m := MatchAt(pat, s, pos);
      if m.Some? {
        FindAllAtMatch(pat, s, pos);
        FindAllReportsMatches(pat, s, m.value.end);
      } else {
        FindAllAtNoMatch(pat, s, pos);
        FindAllReportsMatches(pat, s, pos + 1);
      }
    }
  }

  /** The matches `findall` reports never overlap and come left to right. */
  lemma {:induction false} FindAllOrdered(pat: Pattern, s: seq<byte>, pos: nat, i: nat, j: nat)
    requires pos <= |s| && i < j < |FindAll(pat, s, pos)|
    ensures FindAll(pat, s, pos)[i].end <= FindAll(pat, s, pos)[j].start
    decreases j - i
  {
    FindAllSpans(pat, s, pos);
    if i + 1 < j {
      FindAllOrdered(pat, s, pos, i + 1, j);
    }
  }

  /** Position q lies within one of the matches fs. */
  predicate Covers(fs: seq<Found>, q: nat) {
    exists i :: 0 <= i < |fs| && fs[i].start <= q < fs[i].end
  }

  /** A position covered by the first match or by the later ones is covered by all of them. */
  lemma CoversCons(f: Found, rest: seq<Found>, q: nat)
    requires f.start <= q < f.end || Covers(rest, q)
    ensures Covers([f] + rest, q)
  {
    if !(f.start <= q < f.end) {
      var i :| 0 <= i < |rest| && rest[i].start <= q < rest[i].end;
      assert ([f] + rest)[i + 1] == rest[i];
    } else {
      assert ([f] + rest)[0] == f;
    }
  }

  /** Every position where the pattern matches lies within a match that
      `findall` reports: it reports the leftmost match, then the leftmost
      one that does not overlap it, and so on. */
  lemma {:induction false} FindAllCoversEveryMatch(pat: Pattern, s: seq<byte>, pos: nat, q: nat)
    requires pos <= q < |s| && MatchAt(pat, s, q).Some?
    ensures Covers(FindAll(pat, s, pos), q)
    decreases |s| - pos
  {
    var m := MatchAt(pat, s, pos);
    if m.Some? {
      var f := m.value;
      FindAllAtMatch(pat, s, pos);
      if q >= f.end {
        FindAllCoversEveryMatch(pat, s, f.end, q);
      }
      CoversCons(f, FindAll(pat, s, f.end), q);
    } else {
      assert q != pos;
      FindAllAtNoMatch(pat, s, pos);
      FindAllCoversEveryMatch(pat, s, pos + 1, q);
    }
  }

  /** The captured pairs of a list of matches, in order. */
  function Pairs(fs: seq<Found>): (ps: seq<Pair>)
    ensures |ps| == |fs|
    ensures forall i :: 0 <= i < |fs| ==> ps[i] == fs[i].pair
  {
    if fs == [] then [] else [fs[0].pair] + Pairs(fs[1..])
  }

  lemma PairsCons(f: Found, rest: seq<Found>)
    ensures Pairs([f] + rest) == [f.pair] + Pairs(rest)
  {
    assert ([f] + rest)[1..] == rest;
  }

  /** What `findall` returns: the captured pairs of the matches, in order. */
  function ScanWith(pat: Pattern, s: seq<byte>): (ps: seq<Pair>) {
    Pairs(FindAll(pat, s, 0))
  }

  /** The pairs `get_providers` finds in the bytes of a file. */
  function Scan(s: seq<byte>): (ps: seq<Pair>) {
    ScanWith(PROVIDERS, s)
  }

  /** Every captured origin and system is non-empty and holds no quote. */
  lemma ScannedPairsAreValues(s: seq<byte>)
    ensures forall p :: p in Scan(s) ==> IsPairOfValues(p)
  {
    FindAllSpans(PROVIDERS, s, 0);
  }

  /** The texts of a sequence of pairs, one after the other. */
  function RenderAll(pat: Pattern, ps: seq<Pair>): (text: seq<byte>) {
    if ps == [] then [] else Render(pat, ps[0]) + RenderAll(pat, ps[1..])
  }

  /** Where the text of a pair of values stands, `findall` reports its match
      and goes on from its end. */
  lemma FindAllAtRender(pat: Pattern, s: seq<byte>, pos: nat, p: Pair, end: nat)
    requires WellFormed(pat)
    requires IsPairOfValues(p) && OccursAt(s, Render(pat, p), pos) && end == pos + |Render(pat, p)|
    ensures end <= |s| && FindAll(pat, s, pos) == [Found(pos, end, p)] + FindAll(pat, s, end)
  {
    MatchAtComplete(pat, s, pos, p, end);
    FindAllAtMatch(pat, s, pos);
  }

  /** The rendered text of pairs starts with the text of the first pair. */
  lemma RenderAllStep(pat: Pattern, s: seq<byte>, pos: nat, ps: seq<Pair>)
    requires ps != [] && OccursAt(s, RenderAll(pat, ps), pos)
    ensures OccursAt(s, Render(pat, ps[0]), pos)
    ensures OccursAt(s, RenderAll(pat, ps[1..]), pos + |Render(pat, ps[0])|)
    ensures |RenderAll(pat, ps)| == |Render(pat, ps[0])| + |RenderAll(pat, ps[1..])|
  {
    OccursAtConcat(s, Render(pat, ps[0]), RenderAll(pat, ps[1..]), pos);
  }

  /** Scanning from pos, where the rest of s is the rendered text of pairs
      of values, gives back those pairs. */
  lemma {:induction false} FindAllRendered(pat: Pattern, s: seq<byte>, pos: nat, ps: seq<Pair>)
    requires WellFormed(pat)
    requires forall p :: p in ps ==> IsPairOfValues(p)
    requires OccursAt(s, RenderAll(pat, ps), pos) && pos + |RenderAll(pat, ps)| == |s|
    ensures Pairs(FindAll(pat, s, pos)) == ps
    decreases |ps|
  {
    if ps != [] {
      var next := pos + |Render(pat, ps[0])|;
      RenderAllStep(pat, s, pos, ps);
      assert ps[0] in ps;
      FindAllAtRender(pat, s, pos, ps[0], next);
      FindAllRendered(pat, s, next, ps[1..]);
      PairsCons(Found(pos, next, ps[0]), FindAll(pat, s, next));
      assert [ps[0]] + ps[1..] == ps;
    }
  }

  /** Round trip: scanning the rendered text of pairs of values gives back the pairs. */
  lemma ScanRenderAll(pat: Pattern, ps: seq<Pair>)
    requires WellFormed(pat)
    requires forall p :: p in ps ==> IsPairOfValues(p)
    ensures ScanWith(pat, RenderAll(pat, ps)) == ps
  {
    var s := RenderAll(pat, ps);
    assert OccursAt(s, s, 0) by {
      assert s[0..|s|] == s;
    }
    FindAllRendered(pat, s, 0, ps);
  }

  /** The same round trip for the processor's own pattern. */
  lemma ScanProviders(ps: seq<Pair>)
    requires forall p :: p in ps ==> IsPairOfValues(p)
    ensures Scan(RenderAll(PROVIDERS, ps)) == ps
  {
    ProvidersWellFormed();
    ScanRenderAll(PROVIDERS, ps);
  }

  /** No word boundary: a pair whose `origin=` is the tail of a longer
      attribute name (here `xorigin=`) is still found. */
  lemma MatchesInsideLongerName(p: Pair)
    requires IsPairOfValues(p)
    ensures Scan([120] + Render(PROVIDERS, p)) == [p]
  {
    var s := [120] + Render(PROVIDERS, p);
    ProvidersWellFormed();
    assert OccursAt(s, Render(PROVIDERS, p), 1) by {
      assert s[1..] == Render(PROVIDERS, p);
    }
    FindAllAtRender(PROVIDERS, s, 1, p, |s|);
    assert !OccursAt(s, PROVIDERS.open, 0) by { assert s[0] != PROVIDERS.open[0]; }
    FindAllAtNoMatch(PROVIDERS, s, 0);
  }
}
