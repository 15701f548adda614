/**
 Lists of siblings as cJSON links them (stage/cjson/cJSON.c, stage/cjson/cJSON_Utils.c): what is reachable
 through `next`, and where the back link of the first sibling leads. Appending follows that link, sorting
 does not keep it.
 */
module JsonSiblings {
  import opened Basics
  import opened KeyOrder
  import opened MergeSort

  // Nowhere, to the sibling at an index, or to an item that has left the list.
  datatype Back = Nowhere | To(i: nat) | Astray

  datatype Siblings<T> = Siblings(items: seq<T>, back: Back)

  function LastOf(n: nat): Back {
    if n == 0 then Nowhere else To(n - 1)
  }

  // The first sibling points back to the last one.
  predicate Right<T>(l: Siblings<T>) {
    l.back == LastOf(|l.items|)
  }

  // `add_item_to_array`: the item is linked behind the one that the first back link leads to. Nothing is
  // known of the outcome if that one is not in the list anymore.
  function Append<T>(l: Siblings<T>, x: T): Option<Siblings<T>> {
    if l.items == [] then Some(Siblings([x], To(0)))
    else
      match l.back
      case Nowhere => Some(l)
      case Astray => None
      case To(i) => if i < |l.items| then Some(Siblings(l.items[..i + 1] + [x], To(i + 1))) else None
  }

  // `cJSON_DetachItemViaPointer`: only when the last sibling goes is the first back link set.
  function Remove<T>(l: Siblings<T>, k: nat): Siblings<T>
    requires k < |l.items|
  {
    Siblings(l.items[..k] + l.items[k + 1..],
             if |l.items| == 1 then Nowhere
             else if k == |l.items| - 1 then To(k - 1)
             else
               match l.back
               case To(i) => if i == k then Astray else if i > k then To(i - 1) else To(i)
               case b => b)
  }

  // ----- sorting -----

  // Each element with its index.
  function Tagged<T>(s: seq<T>): (r: seq<(T, nat)>)
    ensures |r| == |s| && forall i :: 0 <= i < |s| ==> r[i] == (s[i], i)
  {
    seq(|s|, i requires 0 <= i < |s| => (s[i], i))
  }

  function Untagged<T>(s: seq<(T, nat)>): (r: seq<T>)
    ensures |r| == |s| && forall i :: 0 <= i < |s| ==> r[i] == s[i].0
  {
    seq(|s|, i requires 0 <= i < |s| => s[i].0)
  }

  function TagKey<T>(key: T -> string): ((T, nat)) -> string {
    (p: (T, nat)) => key(p.0)
  }

  // Where the element that was at i has come to lie.
  function Place<T>(r: seq<(T, nat)>, i: nat): (p: nat)
    ensures p <= |r| && (p < |r| ==> r[p].1 == i) && forall x :: 0 <= x < p ==> r[x].1 != i
  {
    if r == [] || r[0].1 == i then 0
    else
      var p := Place(r[1..], i);
      assert forall x :: 1 <= x < |r| ==> r[x] == r[1..][x - 1];
      p + 1
  }

  function SortTagged<T>(s: seq<T>, key: T -> string, cs: bool): (r: seq<(T, nat)>)
    ensures |r| == |s|
  {
    Sort(Tagged(s), TagKey(key), cs)
  }

  // `sort_object`: the back link of the first sibling is kept while it stays the first.
  function SortSiblings<T>(l: Siblings<T>, key: T -> string, cs: bool): (r: Siblings<T>)
    ensures |r.items| == |l.items|
  {
    var r := SortTagged(l.items, key, cs);
    Siblings(Untagged(r),
             if r == [] || r[0].1 != 0 then Nowhere
             else
               match l.back
               case To(i) => To(Place(r, i))
               case b => b)
  }

  // ----- what sorting does -----

  function Mapped<S, T>(s: seq<S>, f: S -> T): (r: seq<T>)
    ensures |r| == |s|
  {
    seq(|s|, i requires 0 <= i < |s| => f(s[i]))
  }

  lemma MappedCons<S, T>(x: S, s: seq<S>, f: S -> T)
    ensures Mapped([x] + s, f) == [f(x)] + Mapped(s, f)
  {
  }

  lemma MappedHead<S, T>(s: seq<S>, f: S -> T)
    requires s != []
    ensures Mapped(s, f)[0] == f(s[0]) && Mapped(s, f)[1..] == Mapped(s[1..], f)
  {
  }

  lemma MappedSplit<S, T>(s: seq<S>, f: S -> T, k: nat)
    requires k <= |s|
    ensures Mapped(s, f)[..k] == Mapped(s[..k], f) && Mapped(s, f)[k..] == Mapped(s[k..], f)
  {
  }

  // The elements of s have the keys of their images.
  ghost predicate SameKeys<S, T>(s: seq<S>, f: S -> T, ks: S -> string, kt: T -> string) {
    forall i :: 0 <= i < |s| ==> ks(s[i]) == kt(f(s[i]))
  }

  lemma KeysCons<S, T>(x: S, s: seq<S>, f: S -> T, ks: S -> string, kt: T -> string)
    requires ks(x) == kt(f(x)) && SameKeys(s, f, ks, kt)
    ensures SameKeys([x] + s, f, ks, kt)
  {
  }

  lemma KeysHead<S, T>(s: seq<S>, f: S -> T, ks: S -> string, kt: T -> string)
    requires SameKeys(s, f, ks, kt) && s != []
    ensures ks(s[0]) == kt(f(s[0])) && SameKeys(s[1..], f, ks, kt)
  {
  }

  lemma {:induction false} MergeMapped<S, T>(a: seq<S>, b: seq<S>, f: S -> T, ks: S -> string, kt: T -> string, cs: bool)
    requires SameKeys(a, f, ks, kt) && SameKeys(b, f, ks, kt)
    ensures Merge(Mapped(a, f), Mapped(b, f), kt, cs) == Mapped(Merge(a, b, ks, cs), f)
    ensures SameKeys(Merge(a, b, ks, cs), f, ks, kt)
    decreases |a| + |b|
  {
    hide KeyLess, Mapped, SameKeys;
    if a != [] && b != [] {
      MappedHead(a, f);
      MappedHead(b, f);
      KeysHead(a, f, ks, kt);
      KeysHead(b, f, ks, kt);
      if KeyLess(ks(a[0]), ks(b[0]), cs) {
        MergeMapped(a[1..], b, f, ks, kt, cs);
        MappedCons(a[0], Merge(a[1..], b, ks, cs), f);
        KeysCons(a[0], Merge(a[1..], b, ks, cs), f, ks, kt);
      } else {
        MergeMapped(a, b[1..], f, ks, kt, cs);
        MappedCons(b[0], Merge(a, b[1..], ks, cs), f);
        KeysCons(b[0], Merge(a, b[1..], ks, cs), f, ks, kt);
      }
    }
  }

  lemma AscendingMapped<S, T>(s: seq<S>, f: S -> T, ks: S -> string, kt: T -> string, cs: bool)
    requires SameKeys(s, f, ks, kt)
    ensures Ascending(s, ks, cs) <==> Ascending(Mapped(s, f), kt, cs)
  {
    hide KeyLess;
    var t := Mapped(s, f);
    assert forall i :: 0 <= i < |s| ==> t[i] == f(s[i]);
    if Ascending(t, kt, cs) {
      forall i | 0 <= i < |s| - 1 ensures KeyLess(ks(s[i]), ks(s[i + 1]), cs) {
        assert KeyLess(kt(t[i]), kt(t[i + 1]), cs);
      }
    }
  }

  lemma KeysSplit<S, T>(s: seq<S>, f: S -> T, ks: S -> string, kt: T -> string, k: nat)
    requires SameKeys(s, f, ks, kt) && k <= |s|
    ensures SameKeys(s[..k], f, ks, kt) && SameKeys(s[k..], f, ks, kt)
  {
  }

  /** Sorting does not look at more than the keys. */
  lemma {:induction false} SortMapped<S, T>(s: seq<S>, f: S -> T, ks: S -> string, kt: T -> string, cs: bool)
    requires SameKeys(s, f, ks, kt)
    ensures Sort(Mapped(s, f), kt, cs) == Mapped(Sort(s, ks, cs), f)
    ensures SameKeys(Sort(s, ks, cs), f, ks, kt)
    decreases |s|
  {
    hide Merge, KeyLess, Mapped, SameKeys, Ascending;
    AscendingMapped(s, f, ks, kt, cs);
    if |s| > 1 && !Ascending(s, ks, cs) {
      var mid := (|s| + 1) / 2;
      MappedSplit(s, f, mid);
      KeysSplit(s, f, ks, kt, mid);
      SortMapped(s[..mid], f, ks, kt, cs);
      SortMapped(s[mid..], f, ks, kt, cs);
      MergeMapped(Sort(s[..mid], ks, cs), Sort(s[mid..], ks, cs), f, ks, kt, cs);
    }
  }

  // Sorting with tags permutes the elements and their indices.
  lemma SortTaggedIs<T>(s: seq<T>, key: T -> string, cs: bool)
    ensures var r := SortTagged(s, key, cs);
            && Untagged(r) == Sort(s, key, cs)
            && (forall i :: 0 <= i < |r| ==> r[i].1 < |s| && r[i].0 == s[r[i].1])
            && (forall i :: 0 <= i < |s| ==> Place(r, i) < |r|)
            && (forall i, j :: 0 <= i < j < |r| ==> r[i].1 != r[j].1)
  {
    hide Sort;
    var t, r := Tagged(s), SortTagged(s, key, cs);
    var first := (p: (T, nat)) => p.0;
    assert Mapped(t, first) == s && Mapped(r, first) == Untagged(r);
    SortMapped(t, first, TagKey(key), key, cs);
    SortSorts(t, TagKey(key), cs);
    forall i | 0 <= i < |r| ensures r[i].1 < |s| && r[i].0 == s[r[i].1] {
      assert r[i] in multiset(r);
      assert r[i] in t;
    }
    forall i | 0 <= i < |s| ensures Place(r, i) < |r| {
      assert t[i] in multiset(t);
      assert t[i] in r;
    }
    forall i, j | 0 <= i < j < |r| ensures r[i].1 != r[j].1 {
      if r[i].1 == r[j].1 {
        assert r[i] == r[j];
        Twice(r, i, j);
        Once(s, r[i].1);
        assert false;
      }
    }
  }

  lemma Twice<T>(r: seq<T>, i: nat, j: nat)
    requires i < j < |r| && r[i] == r[j]
    ensures multiset(r)[r[i]] >= 2
  {
    assert r == r[..j] + [r[j]] + r[j + 1..];
    assert r[i] in r[..j];
    assert r[i] in multiset(r[..j]);
  }

  lemma Once<T>(s: seq<T>, i: nat)
    requires i < |s|
    ensures multiset(Tagged(s))[(s[i], i)] == 1
  {
    var t := Tagged(s);
    assert t == t[..i] + [t[i]] + t[i + 1..];
    assert t[i] !in t[..i] && t[i] !in t[i + 1..];
    assert t[i] !in multiset(t[..i]) && t[i] !in multiset(t[i + 1..]);
  }

  // The siblings in order; where the first back link leads, if it was right before.
  lemma SortSiblingsIs<T>(l: Siblings<T>, key: T -> string, cs: bool)
    ensures SortSiblings(l, key, cs).items == Sort(l.items, key, cs)
    ensures forall x :: x in SortSiblings(l, key, cs).items ==> x in l.items
  {
    hide Sort;
    SortTaggedIs(l.items, key, cs);
  }

  lemma PlaceTagged<T>(s: seq<T>, i: nat)
    requires i < |s|
    ensures Place(Tagged(s), i) == i
  {
    hide Place;
    var t := Tagged(s);
    assert t[i].1 == i;
    var p := Place(t, i);
    assert p < |t| ==> t[p].1 == p;
  }

  lemma TaggedAscending<T>(s: seq<T>, key: T -> string, cs: bool)
    requires Ascending(s, key, cs)
    ensures SortTagged(s, key, cs) == Tagged(s)
  {
    hide KeyLess, Merge;
    var t := Tagged(s);
    forall i | 0 <= i < |t| - 1 ensures KeyLess(TagKey(key)(t[i]), TagKey(key)(t[i + 1]), cs) {
      assert KeyLess(key(s[i]), key(s[i + 1]), cs);
    }
    assert Ascending(t, TagKey(key), cs);
  }

  // A list in ascending order is left as it is.
  lemma SortKept<T>(l: Siblings<T>, key: T -> string, cs: bool)
    requires Ascending(l.items, key, cs) && (l.back.To? ==> l.back.i < |l.items|) && (l.items == [] ==> l.back == Nowhere)
    ensures SortSiblings(l, key, cs) == l
  {
    hide SortTagged, Ascending, Place;
    var t := Tagged(l.items);
    TaggedAscending(l.items, key, cs);
    assert Untagged(t) == l.items;
    if l.back.To? {
      PlaceTagged(l.items, l.back.i);
    }
  }

  // The first and the last sibling are the same after sorting.
  ghost predicate EndsKept<T>(s: seq<T>, key: T -> string, cs: bool) {
    var r := SortTagged(s, key, cs);
    s != [] ==> r[0].1 == 0 && r[|r| - 1].1 == |s| - 1
  }

  /** After sorting, the first back link is right if and only if neither the first nor the last sibling has
      changed. Otherwise there is none, or it leads to a sibling that is not the last one. */
  lemma SortedRight<T>(l: Siblings<T>, key: T -> string, cs: bool)
    requires Right(l)
    ensures Right(SortSiblings(l, key, cs)) <==> EndsKept(l.items, key, cs)
    ensures var r := SortSiblings(l, key, cs); r.back.Nowhere? || (r.back.To? && r.back.i < |r.items|)
  {
    hide Sort;
    SortTaggedIs(l.items, key, cs);
    var r := SortTagged(l.items, key, cs);
    if l.items != [] {
      assert Place(r, |l.items| - 1) < |r|;
    }
  }

  /** Appending to a sorted list: the item arrives behind all the others if and only if neither the first nor
      the last sibling has changed. Otherwise it is dropped, or it takes the place of all that follow the former last one. */
  lemma AppendSorted<T>(l: Siblings<T>, x: T, key: T -> string, cs: bool)
    requires Right(l)
    ensures var s := SortSiblings(l, key, cs);
            var r := Append(s, x);
            && r.Some?
            && (r.value.items == s.items + [x] <==> EndsKept(l.items, key, cs))
            && (!EndsKept(l.items, key, cs) ==>
                 r.value == s || (s.back.To? && s.back.i < |s.items| - 1 && r.value.items == s.items[..s.back.i + 1] + [x]))
  {
    hide SortSiblings, EndsKept;
    SortedRight(l, key, cs);
    var s := SortSiblings(l, key, cs);
    if s.items != [] && s.back.To? {
      assert s.items[..|s.items|] == s.items;
    }
  }

  // ----- which ends sorting changes -----

  ghost predicate DifferentKeys<T>(s: seq<T>, key: T -> string, cs: bool) {
    forall i, j :: 0 <= i < |s| && 0 <= j < |s| && i != j ==> KeyLess(key(s[i]), key(s[j]), cs) || KeyLess(key(s[j]), key(s[i]), cs)
  }

  ghost predicate FirstLeast<T>(s: seq<T>, key: T -> string, cs: bool) {
    forall i :: 0 < i < |s| ==> KeyLess(key(s[0]), key(s[i]), cs)
  }

  ghost predicate LastGreatest<T>(s: seq<T>, key: T -> string, cs: bool) {
    forall i :: 0 <= i < |s| - 1 ==> KeyLess(key(s[i]), key(s[|s| - 1]), cs)
  }

  /** With different keys: the first sibling stays the first if and only if its key is the least, and the last
      one stays the last if and only if its key is the greatest. */
  lemma EndsByKeys<T>(s: seq<T>, key: T -> string, cs: bool)
    requires DifferentKeys(s, key, cs) && s != []
    ensures var r := SortTagged(s, key, cs);
            && (r[0].1 == 0 <==> FirstLeast(s, key, cs))
            && (r[|r| - 1].1 == |s| - 1 <==> LastGreatest(s, key, cs))
  {
    hide Sort, KeyLess;
    SortTaggedIs(s, key, cs);
    var r, n := SortTagged(s, key, cs), |s| - 1;
    SortSorts(Tagged(s), TagKey(key), cs);
    forall i | 0 <= i < |s| && i != r[0].1 ensures KeyLess(key(s[r[0].1]), key(s[i]), cs) {
      var p := Place(r, i);
      assert !KeyLess(TagKey(key)(r[p]), TagKey(key)(r[0]), cs);
    }
    forall i | 0 <= i < |s| && i != r[n].1 ensures KeyLess(key(s[i]), key(s[r[n].1]), cs) {
      var p := Place(r, i);
      assert !KeyLess(TagKey(key)(r[n]), TagKey(key)(r[p]), cs);
    }
    if FirstLeast(s, key, cs) && r[0].1 != 0 {
      KeyLessTotal(key(s[0]), key(s[r[0].1]), cs);
    }
    if LastGreatest(s, key, cs) && r[n].1 != n {
      KeyLessTotal(key(s[n]), key(s[r[n].1]), cs);
    }
  }

  // ----- lists of one kind and of another -----

  // The same list, with an image in the place of each sibling.
  function Image<S, T>(l: Siblings<S>, f: S -> T): Siblings<T> {
    Siblings(Mapped(l.items, f), l.back)
  }

  /** What the operations do to a list of items, they do to the list of what is in the items. */
  lemma ImageEdited<S, T>(l: Siblings<S>, x: S, k: nat, f: S -> T)
    ensures Append(Image(l, f), f(x)) == if Append(l, x).None? then None else Some(Image(Append(l, x).value, f))
    ensures k < |l.items| ==> Remove(Image(l, f), k) == Image(Remove(l, k), f)
  {
    var s, t := l.items, Mapped(l.items, f);
    assert forall i :: 0 <= i < |s| ==> t[i] == f(s[i]);
    assert Mapped([x], f) == [f(x)];
    if l.back.To? && l.back.i < |s| {
      assert Mapped(s[..l.back.i + 1] + [x], f) == t[..l.back.i + 1] + [f(x)];
    }
    if k < |s| {
      assert Mapped(s[..k] + s[k + 1..], f) == t[..k] + t[k + 1..];
    }
  }

  lemma ImageSorted<S, T>(l: Siblings<S>, f: S -> T, ks: S -> string, kt: T -> string, cs: bool)
    requires SameKeys(l.items, f, ks, kt)
    ensures SortSiblings(Image(l, f), kt, cs) == Image(SortSiblings(l, ks, cs), f)
  {
    hide Sort, Place;
    var g := (p: (S, nat)) => (f(p.0), p.1);
    var s, t := Tagged(l.items), Tagged(Mapped(l.items, f));
    assert Mapped(s, g) == t;
    SortMapped(s, g, TagKey(ks), TagKey(kt), cs);
    var r, u := SortTagged(l.items, ks, cs), SortTagged(Mapped(l.items, f), kt, cs);
    assert u == Mapped(r, g);
    assert forall i :: 0 <= i < |r| ==> u[i] == (f(r[i].0), r[i].1);
    assert Untagged(u) == Mapped(Untagged(r), f);
    if l.back.To? {
      PlaceMapped(r, u, l.back.i);
    }
  }

  lemma PlaceMapped<S, T>(r: seq<(S, nat)>, u: seq<(T, nat)>, i: nat)
    requires |r| == |u| && forall x :: 0 <= x < |r| ==> u[x].1 == r[x].1
    ensures Place(u, i) == Place(r, i)
  {
    hide Place;
    assert forall x :: 0 <= x < |r| ==> u[x].1 == r[x].1;
  }
}
