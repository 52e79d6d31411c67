/** Bytes and the handful of string operations the processor uses:
    `needle in haystack`, `str.endswith` and `os.path.basename`. */
module Text {

  newtype byte = b: int | 0 <= b < 256

  /** Python's `needle in haystack` on strings and bytes, as a left-to-right search. */
  predicate Contains<T(==)>(haystack: seq<T>, needle: seq<T>)
    decreases |haystack|
  {
    |needle| <= |haystack| && (haystack[..|needle|] == needle || Contains(haystack[1..], needle))
  }

  /** The needle occurs in the haystack starting at index i. */
  predicate OccursAt<T(==)>(haystack: seq<T>, needle: seq<T>, i: nat) {
    i + |needle| <= |haystack| && haystack[i..i + |needle|] == needle
  }

  /** Each element of an occurrence is the haystack's element at that offset. */
  lemma OccursAtIndex<T>(haystack: seq<T>, needle: seq<T>, i: nat, k: nat)
    requires OccursAt(haystack, needle, i) && k < |needle|
    ensures i + k < |haystack| && haystack[i + k] == needle[k]
  {
    assert haystack[i..i + |needle|][k] == haystack[i + k];
  }

  /** Two words occur one right after the other exactly when their concatenation occurs. */
  lemma OccursAtConcat<T>(s: seq<T>, w1: seq<T>, w2: seq<T>, i: nat)
    ensures OccursAt(s, w1, i) && OccursAt(s, w2, i + |w1|) <==> OccursAt(s, w1 + w2, i)
  {
    if OccursAt(s, w1 + w2, i) {
      assert s[i..i + |w1|] == (w1 + w2)[..|w1|];
      assert s[i + |w1|..i + |w1| + |w2|] == (w1 + w2)[|w1|..];
    }
    if OccursAt(s, w1, i) && OccursAt(s, w2, i + |w1|) {
      assert s[i..i + |w1| + |w2|] == s[i..i + |w1|] + s[i + |w1|..i + |w1| + |w2|];
    }
  }

  /** The search finds the needle exactly when it occurs at some index of the haystack. */
  lemma {:induction false} ContainsIffOccurs<T>(haystack: seq<T>, needle: seq<T>)
    ensures Contains(haystack, needle) <==> exists i: nat :: OccursAt(haystack, needle, i)
    decreases |haystack|
  {
    if |needle| <= |haystack| {
      if haystack[..|needle|] == needle {
        assert OccursAt(haystack, needle, 0);
      } else {
        ContainsIffOccurs(haystack[1..], needle);
        if exists i: nat :: OccursAt(haystack, needle, i) {
          var i: nat :| OccursAt(haystack, needle, i);
          assert i != 0;
          assert haystack[1..][i - 1..i - 1 + |needle|] == haystack[i..i + |needle|];
          assert OccursAt(haystack[1..], needle, i - 1);
        }
        if Contains(haystack[1..], needle) {
          var i: nat :| OccursAt(haystack[1..], needle, i);
          assert haystack[1..][i..i + |needle|] == haystack[i + 1..i + 1 + |needle|];
          assert OccursAt(haystack, needle, i + 1);
        }
      }
    }
  }

  /** The empty string is in every string. */
  lemma EmptyIsContained<T>(haystack: seq<T>)
    ensures Contains(haystack, [])
  {
    assert haystack[..0] == [];
  }

  /** Python's `s.endswith(suffix)`. */
  predicate EndsWith<T(==)>(s: seq<T>, suffix: seq<T>) {
    |suffix| <= |s| && s[|s| - |suffix|..] == suffix
  }

  /** The path separators `os.path` accepts on Windows, where the tool runs. */
  predicate IsSeparator(c: char) {
    c == '/' || c == '\\'
  }

  /** `os.path.basename`: the part of the path after its last separator. */
  function Basename(path: string): (name: string)
    ensures EndsWith(path, name)
    ensures forall c :: c in name ==> !IsSeparator(c)
    ensures |name| < |path| ==> IsSeparator(path[|path| - |name| - 1])
  {
    if path == [] || IsSeparator(path[|path| - 1]) then []
    else
      var init := path[..|path| - 1];
      assert path == init + [path[|path| - 1]];
      Basename(init) + [path[|path| - 1]]
  }
}
