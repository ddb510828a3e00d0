/** Python's `sorted(pairs, key=lambda x: x[0])` on (label, item) pairs: a
    stable sort by label in the order of `Text.LexLe`. */
module Sorting {
  import opened Text

  /** The labels never decrease from left to right. */
  predicate SortedByLabel<T>(s: seq<(string, T)>) {
    forall i, j :: 0 <= i < j < |s| ==> LexLe(s[i].0, s[j].0)
  }

  /** The pairs of `s` whose label is `key`, in their order in `s`. */
  function WithLabel<T>(s: seq<(string, T)>, key: string): (r: seq<(string, T)>)
    ensures |r| <= |s|
  {
    if s == [] then []
    else WithLabel(s[..|s| - 1], key) + (if s[|s| - 1].0 == key then [s[|s| - 1]] else [])
  }

  /** `r` is the stable sort of `s` by label: sorted, and for every label the
      pairs carrying it appear in `r` in the order they have in `s`. */
  ghost predicate IsStableSortOf<T>(r: seq<(string, T)>, s: seq<(string, T)>) {
    && SortedByLabel(r)
    && multiset(r) == multiset(s)
    && forall key :: WithLabel(r, key) == WithLabel(s, key)
  }

  lemma {:induction false} WithLabelAppend<T>(a: seq<(string, T)>, b: seq<(string, T)>, key: string)
    ensures WithLabel(a + b, key) == WithLabel(a, key) + WithLabel(b, key)
    decreases |b|
  {
    if b == [] {
      assert a + b == a;
    } else {
      var b' := b[..|b| - 1];
      assert (a + b)[..|a + b| - 1] == a + b';
      WithLabelAppend(a, b', key);
    }
  }

  /** A slice whose labels all differ from `key` has no pair labelled `key`. */
  lemma {:induction false} WithLabelNone<T>(s: seq<(string, T)>, key: string)
    requires forall i :: 0 <= i < |s| ==> s[i].0 != key
    ensures WithLabel(s, key) == []
    decreases |s|
  {
    if s != [] {
      WithLabelNone(s[..|s| - 1], key);
    }
  }

  lemma WithLabelSingle<T>(x: (string, T), key: string)
    ensures WithLabel([x], key) == if x.0 == key then [x] else []
  {
    assert [x][..0] == [];
  }

  /** In sorted pairs, every pair from the first one whose label exceeds
      `x`'s onwards has a label greater than `x`'s. */
  lemma {:induction false} AfterInsertionPoint<T>(r: seq<(string, T)>, j: nat, x: (string, T))
    requires SortedByLabel(r) && j < |r| && !LexLe(r[j].0, x.0)
    ensures forall m :: j <= m < |r| ==> !LexLe(r[m].0, x.0) && LexLe(x.0, r[m].0)
  {
    forall m | j <= m < |r| ensures !LexLe(r[m].0, x.0) && LexLe(x.0, r[m].0) {
      if LexLe(r[m].0, x.0) {
        LexLeTransitive(r[j].0, r[m].0, x.0);
      }
      LexLeTotal(r[m].0, x.0);
    }
  }

  /** Inserting `x` between the pairs at most its label and those above it
      keeps the labels sorted. */
  lemma {:induction false} InsertKeepsSorted<T>(r: seq<(string, T)>, j: nat, x: (string, T))
    requires SortedByLabel(r) && j <= |r|
    requires forall m :: 0 <= m < j ==> LexLe(r[m].0, x.0)
    requires forall m :: j <= m < |r| ==> LexLe(x.0, r[m].0)
    ensures SortedByLabel(r[..j] + [x] + r[j..])
  {
    var r' := r[..j] + [x] + r[j..];
    forall a, b | 0 <= a < b < |r'| ensures LexLe(r'[a].0, r'[b].0) {
      if b < j {
        assert r'[a] == r[a] && r'[b] == r[b];
      } else if a < j && b == j {
        assert r'[a] == r[a];
      } else if a < j && b > j {
        assert r'[a] == r[a] && r'[b] == r[b - 1];
      } else if a == j {
        assert r'[b] == r[b - 1];
      } else {
        assert r'[a] == r[a - 1] && r'[b] == r[b - 1];
      }
    }
  }

  /** Inserting `x` before pairs of other labels only appends it to the pairs
      carrying its own label. */
  lemma {:induction false} InsertKeepsLabelOrder<T>(r: seq<(string, T)>, j: nat, x: (string, T))
    requires j <= |r|
    requires forall m :: j <= m < |r| ==> r[m].0 != x.0
    ensures forall key :: WithLabel(r[..j] + [x] + r[j..], key) == WithLabel(r + [x], key)
  {
    forall key ensures WithLabel(r[..j] + [x] + r[j..], key) == WithLabel(r + [x], key) {
      InsertKeepsKey(r, j, x, key);
    }
  }

  lemma {:induction false} InsertKeepsKey<T>(r: seq<(string, T)>, j: nat, x: (string, T), key: string)
    requires j <= |r|
    requires forall m :: j <= m < |r| ==> r[m].0 != x.0
    ensures WithLabel(r[..j] + [x] + r[j..], key) == WithLabel(r + [x], key)
  {
    assert r == r[..j] + r[j..];
    WithLabelAppend(r[..j] + [x], r[j..], key);
    WithLabelAppend(r[..j], [x], key);
    WithLabelAppend(r, [x], key);
    WithLabelAppend(r[..j], r[j..], key);
    WithLabelSingle(x, key);
    if x.0 == key {
      forall m | 0 <= m < |r[j..]| ensures r[j..][m].0 != key {
        assert r[j..][m] == r[j + m];
      }
      WithLabelNone(r[j..], key);
    }
  }

  /** Appending the same pair to two sequences with the same pairs per label
      keeps them so. */
  lemma {:induction false} AppendKeepsLabelOrder<T>(a: seq<(string, T)>, b: seq<(string, T)>, x: (string, T))
    requires forall key :: WithLabel(a, key) == WithLabel(b, key)
    ensures forall key :: WithLabel(a + [x], key) == WithLabel(b + [x], key)
  {
    forall key ensures WithLabel(a + [x], key) == WithLabel(b + [x], key) {
      WithLabelAppend(a, [x], key);
      WithLabelAppend(b, [x], key);
    }
  }

  /** Inserting `s[i]` at the first position whose label exceeds its own
      keeps the loop invariant of `SortByLabel` for the next prefix. */
  lemma InsertStep<T>(r: seq<(string, T)>, done: seq<(string, T)>, j: nat, x: (string, T))
    requires IsStableSortOf(r, done)
    requires j <= |r| && (forall m :: 0 <= m < j ==> LexLe(r[m].0, x.0))
    requires j < |r| ==> !LexLe(r[j].0, x.0)
    ensures IsStableSortOf(r[..j] + [x] + r[j..], done + [x])
  {
    if j < |r| {
      AfterInsertionPoint(r, j, x);
    }
    forall m | j <= m < |r| ensures r[m].0 != x.0 {
      LexLeReflexive(x.0);
    }
    InsertKeepsSorted(r, j, x);
    InsertKeepsLabelOrder(r, j, x);
    AppendKeepsLabelOrder(r, done, x);
    InsertKeepsPairs(r, j, x);
  }

  lemma InsertKeepsPairs<T>(r: seq<(string, T)>, j: nat, x: (string, T))
    requires j <= |r|
    ensures multiset(r[..j] + [x] + r[j..]) == multiset(r) + multiset{x}
  {
    assert r == r[..j] + r[j..];
  }

  /** The first position of sorted `r` whose label exceeds `x`'s, or `|r|`. */
  method InsertionPoint<T>(r: seq<(string, T)>, x: (string, T)) returns (j: nat)
    ensures j <= |r| && forall m :: 0 <= m < j ==> LexLe(r[m].0, x.0)
    ensures j < |r| ==> !LexLe(r[j].0, x.0)
  {
    j := 0;
    while j < |r| && LexLe(r[j].0, x.0)
      invariant j <= |r|
      invariant forall m :: 0 <= m < j ==> LexLe(r[m].0, x.0)
    {
      j := j + 1;
    }
  }

  /** Sorts `s` by label, keeping pairs with equal labels in their input order. */
  method SortByLabel<T(==)>(s: seq<(string, T)>) returns (r: seq<(string, T)>)
    ensures IsStableSortOf(r, s)
  {
    r := [];
    for i := 0 to |s|
      invariant IsStableSortOf(r, s[..i])
    {
      var x := s[i];
      var j := InsertionPoint(r, x);
      InsertStep(r, s[..i], j, x);
      assert s[..i + 1] == s[..i] + [x];
      r := r[..j] + [x] + r[j..];
    }
    assert s[..|s|] == s;
  }

  /** A stable sort has the length of its input and draws every pair from it. */
  lemma StableSortKeepsPairs<T>(r: seq<(string, T)>, s: seq<(string, T)>)
    requires IsStableSortOf(r, s)
    ensures |r| == |s|
    ensures forall k :: 0 <= k < |r| ==> r[k] in s
  {
    assert |multiset(r)| == |multiset(s)|;
    forall k | 0 <= k < |r| ensures r[k] in s {
      assert r[k] in multiset(r);
    }
  }
}
