/** Positions of the first and of the last occurrence of a value in a sequence.
    Both are defined by peeling off the LAST element, which matches the way a
    left-to-right scan grows its prefix one element at a time. */
module Occurrences {

  /** Index of the first occurrence of `x` in `s`. */
  function FirstIndex<T(==)>(s: seq<T>, x: T): (i: nat)
    requires x in s
    ensures i < |s| && s[i] == x
    ensures x !in s[..i]
    decreases |s|
  {
    if x in s[..|s| - 1] then FirstIndex(s[..|s| - 1], x) else |s| - 1
  }

  /** Index of the last occurrence of `x` in `s`. */
  function LastIndex<T(==)>(s: seq<T>, x: T): (i: nat)
    requires x in s
    ensures i < |s| && s[i] == x
    ensures x !in s[i + 1..]
    decreases |s|
  {
    if s[|s| - 1] == x then |s| - 1
    else
      assert x in s[..|s| - 1] by {
        var k :| 0 <= k < |s| && s[k] == x;
        assert s[..|s| - 1][k] == x;
      }
      LastIndex(s[..|s| - 1], x)
  }

  /** Appending an element moves neither an earlier first occurrence nor
      the last occurrence of any other value. */
  lemma SnocIndices<T>(s: seq<T>, y: T, x: T)
    requires x in s
    ensures FirstIndex(s + [y], x) == FirstIndex(s, x)
    ensures x != y ==> LastIndex(s + [y], x) == LastIndex(s, x)
  {
    assert (s + [y])[..|s|] == s;
  }

  /** The first occurrence of a value that is new to `s` is the appended slot. */
  lemma SnocFresh<T>(s: seq<T>, y: T)
    ensures FirstIndex(s + [y], y) == |s| || y in s
    ensures LastIndex(s + [y], y) == |s|
  {
    assert (s + [y])[..|s|] == s;
  }

  /** A value occurring once in `s` has the same first and last index. */
  lemma UniqueOccurrence<T>(s: seq<T>, k: nat)
    requires k < |s|
    requires forall i, j :: 0 <= i < j < |s| ==> s[i] != s[j]
    ensures FirstIndex(s, s[k]) == k && LastIndex(s, s[k]) == k
  {
  }
}
