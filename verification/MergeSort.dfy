/**
 The merge sort of `sort_list` (stage/cjson/cJSON_Utils.c) on sequences: what it returns
 for elements that have a key.
 */
module MergeSort {
  import opened KeyOrder

  function Merge<T>(a: seq<T>, b: seq<T>, key: T -> string, cs: bool): (r: seq<T>)
    ensures |r| == |a| + |b|
    decreases |a| + |b|
  {
    if a == [] then b
    else if b == [] then a
    else if KeyLess(key(a[0]), key(b[0]), cs) then [a[0]] + Merge(a[1..], b, key, cs)
    else [b[0]] + Merge(a, b[1..], key, cs)
  }

  // Every element is smaller than the next.
  predicate Ascending<T>(s: seq<T>, key: T -> string, cs: bool) {
    forall i {:trigger s[i]} :: 0 <= i < |s| - 1 ==> KeyLess(key(s[i]), key(s[i + 1]), cs)
  }

  function Sort<T>(s: seq<T>, key: T -> string, cs: bool): (r: seq<T>)
    ensures |r| == |s|
    decreases |s|
  {
    if |s| <= 1 || Ascending(s, key, cs) then s
    else
      var mid := (|s| + 1) / 2;
      Merge(Sort(s[..mid], key, cs), Sort(s[mid..], key, cs), key, cs)
  }

  // No element is larger than a later one.
  ghost predicate Sorted<T>(s: seq<T>, key: T -> string, cs: bool) {
    forall i, j :: 0 <= i < j < |s| ==> !KeyLess(key(s[j]), key(s[i]), cs)
  }

  lemma {:induction false} MergePermutes<T>(a: seq<T>, b: seq<T>, key: T -> string, cs: bool)
    ensures multiset(Merge(a, b, key, cs)) == multiset(a) + multiset(b)
    decreases |a| + |b|
  {
    if a != [] && b != [] {
      assert a == [a[0]] + a[1..];
      assert b == [b[0]] + b[1..];
      if KeyLess(key(a[0]), key(b[0]), cs) {
        MergePermutes(a[1..], b, key, cs);
      } else {
        MergePermutes(a, b[1..], key, cs);
      }
    }
  }

  lemma InMerge<T>(a: seq<T>, b: seq<T>, key: T -> string, cs: bool, x: T)
    requires x in Merge(a, b, key, cs)
    ensures x in a || x in b
  {
    MergePermutes(a, b, key, cs);
    assert x in multiset(Merge(a, b, key, cs));
  }

  // x is not larger than anything in s.
  ghost predicate NotAfter<T>(x: T, s: seq<T>, key: T -> string, cs: bool) {
    forall i :: 0 <= i < |s| ==> !KeyLess(key(s[i]), key(x), cs)
  }

  lemma HeadNotAfter<T>(x: T, s: seq<T>, key: T -> string, cs: bool)
    requires Sorted(s, key, cs) && s != [] && !KeyLess(key(s[0]), key(x), cs)
    ensures NotAfter(x, s, key, cs)
  {
    forall i | 0 <= i < |s| ensures !KeyLess(key(s[i]), key(x), cs) {
      if i > 0 {
        NotLessTransitive(key(x), key(s[0]), key(s[i]), cs);
      }
    }
  }

  lemma SortedCons<T>(x: T, s: seq<T>, key: T -> string, cs: bool)
    requires Sorted(s, key, cs) && NotAfter(x, s, key, cs)
    ensures Sorted([x] + s, key, cs)
  {
  }

  lemma {:induction false} MergeSorts<T>(a: seq<T>, b: seq<T>, key: T -> string, cs: bool)
    requires Sorted(a, key, cs) && Sorted(b, key, cs)
    ensures Sorted(Merge(a, b, key, cs), key, cs)
    decreases |a| + |b|
  {
    if a != [] && b != [] {
      KeyLessTotal(key(a[0]), key(b[0]), cs);
      if KeyLess(key(a[0]), key(b[0]), cs) {
        MergeSorts(a[1..], b, key, cs);
        MergedNotAfter(a[0], a[1..], b, key, cs, a);
        SortedCons(a[0], Merge(a[1..], b, key, cs), key, cs);
      } else {
        MergeSorts(a, b[1..], key, cs);
        MergedNotAfter(b[0], a, b[1..], key, cs, b);
        SortedCons(b[0], Merge(a, b[1..], key, cs), key, cs);
      }
    }
  }

  lemma MergedNotAfter<T>(x: T, a: seq<T>, b: seq<T>, key: T -> string, cs: bool, from: seq<T>)
    requires Sorted(a, key, cs) && Sorted(b, key, cs)
    requires Sorted(from, key, cs) && from != [] && from[0] == x && (a == from[1..] || b == from[1..])
    requires a != from[1..] ==> a != [] && !KeyLess(key(a[0]), key(x), cs)
    requires b != from[1..] ==> b != [] && !KeyLess(key(b[0]), key(x), cs)
    ensures NotAfter(x, Merge(a, b, key, cs), key, cs)
  {
    var m := Merge(a, b, key, cs);
    if a != from[1..] {
      HeadNotAfter(x, a, key, cs);
    }
    if b != from[1..] {
      HeadNotAfter(x, b, key, cs);
    }
    forall i | 0 <= i < |m| ensures !KeyLess(key(m[i]), key(x), cs) {
      InMerge(a, b, key, cs, m[i]);
      assert m[i] in a ==> exists j :: 0 <= j < |a| && a[j] == m[i];
    }
  }

  lemma {:induction false} AscendingSorted<T>(s: seq<T>, key: T -> string, cs: bool)
    requires Ascending(s, key, cs)
    ensures forall i, j :: 0 <= i < j < |s| ==> KeyLess(key(s[i]), key(s[j]), cs)
    ensures Sorted(s, key, cs)
    decreases |s|
  {
    if |s| > 0 {
      var n := |s| - 1;
      assert Ascending(s[..n], key, cs);
      AscendingSorted(s[..n], key, cs);
      forall i | 0 <= i < n ensures KeyLess(key(s[i]), key(s[n]), cs) {
        if i < n - 1 {
          assert KeyLess(key(s[..n][i]), key(s[..n][n - 1]), cs);
          KeyLessTransitive(key(s[i]), key(s[n - 1]), key(s[n]), cs);
        }
      }
      forall i, j | 0 <= i < j < |s| ensures KeyLess(key(s[i]), key(s[j]), cs) && !KeyLess(key(s[j]), key(s[i]), cs) {
        if j < n {
          assert KeyLess(key(s[..n][i]), key(s[..n][j]), cs);
        }
        KeyLessTotal(key(s[i]), key(s[j]), cs);
      }
    }
  }

  /** The result is a permutation of the list in ascending order. */
  lemma {:induction false} SortSorts<T>(s: seq<T>, key: T -> string, cs: bool)
    ensures Sorted(Sort(s, key, cs), key, cs)
    ensures multiset(Sort(s, key, cs)) == multiset(s)
    decreases |s|
  {
    hide Sorted, KeyLess, Ascending, Merge;
    if |s| <= 1 {
      ShortSorted(s, key, cs);
    } else if Ascending(s, key, cs) {
      AscendingSorted(s, key, cs);
    } else {
      var mid := (|s| + 1) / 2;
      var a, b := s[..mid], s[mid..];
      SortSorts(a, key, cs);
      SortSorts(b, key, cs);
      MergeSorts(Sort(a, key, cs), Sort(b, key, cs), key, cs);
      MergePermutes(Sort(a, key, cs), Sort(b, key, cs), key, cs);
      assert s == a + b;
    }
  }

  lemma ShortSorted<T>(s: seq<T>, key: T -> string, cs: bool)
    requires |s| <= 1
    ensures Sorted(s, key, cs)
  {
  }
}
