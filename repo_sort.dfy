/**
 * The ordering of repository options: a stable sort by the composite key
 * `location:repository`, compared as strings character by character.
 */
module RepoSort {
  import opened WorkspaceTypes

  /** String order: character by character, a proper prefix first. */
  predicate LexLe(a: string, b: string)
    decreases |a|
  {
    a == [] || (b != [] && (a[0] < b[0] || (a[0] == b[0] && LexLe(a[1..], b[1..]))))
  }

  lemma {:induction false} LexLeTotal(a: string, b: string)
    ensures LexLe(a, b) || LexLe(b, a)
    decreases |a|
  {
    if a != [] && b != [] && a[0] == b[0] {
      LexLeTotal(a[1..], b[1..]);
    }
  }

  lemma {:induction false} LexLeTransitive(a: string, b: string, c: string)
    requires LexLe(a, b) && LexLe(b, c)
    ensures LexLe(a, c)
    decreases |a|
  {
    if a != [] && a[0] == b[0] && b[0] == c[0] {
      LexLeTransitive(a[1..], b[1..], c[1..]);
    }
  }

  /** The sort key of an option. */
  function SortKey(r: RepoOption): string
  {
    r.locationName + ":" + r.repositoryName
  }

  predicate SortedByKey(s: seq<RepoOption>)
  {
    forall i, j | 0 <= i < j < |s| :: LexLe(SortKey(s[i]), SortKey(s[j]))
  }

  /** Every element of a permutation of `s[1..]` plus `x` sorts after `s[0]`, when `x` does. */
  lemma HeadBelowInserted(s: seq<RepoOption>, x: RepoOption, tail: seq<RepoOption>)
    requires SortedByKey(s) && s != [] && LexLe(SortKey(s[0]), SortKey(x))
    requires multiset(tail) == multiset(s[1..]) + multiset{x}
    ensures forall y | y in tail :: LexLe(SortKey(s[0]), SortKey(y))
  {
    forall y | y in tail ensures LexLe(SortKey(s[0]), SortKey(y)) {
      assert y in multiset(tail);
      if y != x {
        assert y in multiset(s[1..]);
        var k :| 0 <= k < |s[1..]| && s[1..][k] == y;
        assert s[k + 1] == y;
      }
    }
  }

  /** An element that does not sort after the head of a sorted list sorts before all of it. */
  lemma BelowSorted(x: RepoOption, s: seq<RepoOption>)
    requires SortedByKey(s) && s != [] && !LexLe(SortKey(s[0]), SortKey(x))
    ensures forall k | 0 <= k < |s| :: LexLe(SortKey(x), SortKey(s[k]))
  {
    LexLeTotal(SortKey(s[0]), SortKey(x));
    forall k | 0 <= k < |s| ensures LexLe(SortKey(x), SortKey(s[k])) {
      if k > 0 {
        LexLeTransitive(SortKey(x), SortKey(s[0]), SortKey(s[k]));
      }
    }
  }

  /** The tail of a sorted list is sorted. */
  lemma TailSorted(s: seq<RepoOption>)
    requires SortedByKey(s) && s != []
    ensures SortedByKey(s[1..])
  {
  }

  /** A head that sorts before every element of a sorted tail keeps the list sorted. */
  lemma ConsSorted(h: RepoOption, t: seq<RepoOption>)
    requires SortedByKey(t)
    requires forall y | y in t :: LexLe(SortKey(h), SortKey(y))
    ensures SortedByKey([h] + t)
  {
  }

  /** Insert `x` after every element whose key is at most its own. */
  function Insert(x: RepoOption, s: seq<RepoOption>): (r: seq<RepoOption>)
    requires SortedByKey(s)
    ensures SortedByKey(r)
    ensures multiset(r) == multiset(s) + multiset{x}
    decreases |s|
  {
    if s == [] then [x]
    else if LexLe(SortKey(s[0]), SortKey(x)) then
      TailSorted(s);
      var tail := Insert(x, s[1..]);
      assert s == [s[0]] + s[1..];
      HeadBelowInserted(s, x, tail);
      ConsSorted(s[0], tail);
      [s[0]] + tail
    else
      BelowSorted(x, s);
      ConsSorted(x, s);
      [x] + s
  }

  /** An insertion sort by key that keeps equal keys in their input order. */
  function SortByKey(s: seq<RepoOption>): (r: seq<RepoOption>)
    ensures SortedByKey(r)
    ensures multiset(r) == multiset(s)
    decreases |s|
  {
    if s == [] then []
    else
      assert s == s[..|s| - 1] + [s[|s| - 1]];
      Insert(s[|s| - 1], SortByKey(s[..|s| - 1]))
  }
}
