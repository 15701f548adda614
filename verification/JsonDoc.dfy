/**
 Trees with the back links of their objects, and `compare_json` (stage/cjson/cJSON_Utils.c), which sorts the
 objects that it compares. Arrays always have right back links: they are not sorted.
 */
module JsonDoc {
  import opened KeyOrder
  import opened MergeSort
  import opened JsonSiblings
  import opened JsonValue
  import opened JsonCompare

  type Atom = j: Json | !j.Array? && !j.Object? witness Null

  datatype Entry = Entry(key: string, value: Doc)

  datatype Doc =
    | Leaf(atom: Atom)
    | Items(items: seq<Doc>)
    | Members(members: seq<Entry>, back: Back)

  // What is reachable through `child` and `next`.
  function Strip(d: Doc): Json
    decreases d
  {
    match d
    case Leaf(j) => j
    case Items(items) => Array(seq(|items|, i requires 0 <= i < |items| => Strip(items[i])))
    case Members(ms, _) => Object(seq(|ms|, i requires 0 <= i < |ms| => Member(ms[i].key, Strip(ms[i].value))))
  }

  // A tree with right back links, as the parser and `cJSON_Duplicate` make it.
  function Fresh(j: Json): Doc
    decreases j
  {
    match j
    case Array(items) => Items(seq(|items|, i requires 0 <= i < |items| => Fresh(items[i])))
    case Object(ms) => Members(seq(|ms|, i requires 0 <= i < |ms| => Entry(ms[i].key, Fresh(ms[i].value))), LastOf(|ms|))
    case _ => Leaf(j)
  }

  lemma {:induction false} StripFresh(j: Json)
    ensures Strip(Fresh(j)) == j
    decreases j
  {
    match j
    case Array(items) =>
      forall i | 0 <= i < |items| ensures Strip(Fresh(items[i])) == items[i] {
        StripFresh(items[i]);
      }
      assert Strip(Fresh(j)).items == items;
    case Object(ms) =>
      forall i | 0 <= i < |ms| ensures Member(ms[i].key, Strip(Fresh(ms[i].value))) == ms[i] {
        StripFresh(ms[i].value);
      }
      assert Strip(Fresh(j)).members == ms;
    case _ =>
  }

  function EntryKey(e: Entry): string {
    e.key
  }

  function StripEntry(e: Entry): Member {
    Member(e.key, Strip(e.value))
  }

  lemma StripMembers(ms: seq<Entry>, back: Back)
    ensures Strip(Members(ms, back)) == Object(Mapped(ms, StripEntry))
    ensures forall i :: 0 <= i < |ms| ==> Mapped(ms, StripEntry)[i] == Member(ms[i].key, Strip(ms[i].value))
  {
    assert Strip(Members(ms, back)).members == Mapped(ms, StripEntry);
  }

  // ----- `compare_json` -----

  function SortEntries(ms: seq<Entry>, back: Back, cs: bool): (r: Siblings<Entry>)
    ensures |r.items| == |ms| && forall i :: 0 <= i < |r.items| ==> r.items[i] in ms
  {
    SortSiblingsIs(Siblings(ms, back), EntryKey, cs);
    SortSiblings(Siblings(ms, back), EntryKey, cs)
  }

  // Both trees afterwards, and whether they are the same. Objects are sorted as far as the comparison gets.
  function Compared(a: Doc, b: Doc, cs: bool): (Doc, Doc, bool)
    decreases a, 2
  {
    match (a, b)
    case (Leaf(x), Leaf(y)) => (a, b, Same(x, y, cs))
    case (Items(xs), Items(ys)) =>
      var r := ComparedItems(a, xs, ys, cs);
      (Items(r.0), Items(r.1), r.2)
    case (Members(ms, p), Members(ns, q)) =>
      var x, y := SortEntries(ms, p, cs), SortEntries(ns, q, cs);
      var r := ComparedMembers(a, x.items, y.items, cs);
      (Members(r.0, x.back), Members(r.1, y.back), r.2)
    case _ => (a, b, false)
  }

  function ComparedItems(parent: Doc, xs: seq<Doc>, ys: seq<Doc>, cs: bool): (seq<Doc>, seq<Doc>, bool)
    requires parent.Items? && forall i :: 0 <= i < |xs| ==> xs[i] in parent.items
    decreases parent, 1, |xs|
  {
    if xs == [] || ys == [] then (xs, ys, xs == [] && ys == [])
    else
      var r := Compared(xs[0], ys[0], cs);
      if !r.2 then ([r.0] + xs[1..], [r.1] + ys[1..], false)
      else
        var t := ComparedItems(parent, xs[1..], ys[1..], cs);
        ([r.0] + t.0, [r.1] + t.1, t.2)
  }

  function ComparedMembers(parent: Doc, xs: seq<Entry>, ys: seq<Entry>, cs: bool): (seq<Entry>, seq<Entry>, bool)
    requires parent.Members? && forall i :: 0 <= i < |xs| ==> xs[i] in parent.members
    decreases parent, 1, |xs|
  {
    if xs == [] || ys == [] then (xs, ys, xs == [] && ys == [])
    else if Fold(xs[0].key, cs) != Fold(ys[0].key, cs) then (xs, ys, false)
    else
      var r := Compared(xs[0].value, ys[0].value, cs);
      var x, y := Entry(xs[0].key, r.0), Entry(ys[0].key, r.1);
      if !r.2 then ([x] + xs[1..], [y] + ys[1..], false)
      else
        var t := ComparedMembers(parent, xs[1..], ys[1..], cs);
        ([x] + t.0, [y] + t.1, t.2)
  }

  /** `compare_json` */
  method CompareJson(a: Doc, b: Doc, cs: bool) returns (a': Doc, b': Doc, eq: bool)
    ensures (a', b', eq) == Compared(a, b, cs)
    decreases a, 2
  {
    a', b' := a, b;
    match (a, b)
    case (Leaf(x), Leaf(y)) =>
      if Kind(x) != Kind(y) {
        return a, b, false;
      }
      if x.Number? {
        return a, b, x.n == y.n;
      }
      return a, b, x.String? ==> x.s == y.s;
    case (Items(_), Items(_)) => a', b', eq := CompareItems(a, b, cs);
    case (Members(_, _), Members(_, _)) => a', b', eq := CompareMembers(a, b, cs);
    case _ => return a, b, false;
  }

  // What has been compared already, in front of the rest.
  function Prefixed<T>(x: seq<T>, y: seq<T>, r: (seq<T>, seq<T>, bool)): (seq<T>, seq<T>, bool) {
    (x + r.0, y + r.1, r.2)
  }

  lemma PrefixedNil<T>(r: (seq<T>, seq<T>, bool))
    ensures Prefixed([], [], r) == r
  {
    assert [] + r.0 == r.0 && [] + r.1 == r.1;
  }

  lemma PrefixedStep<T>(x: seq<T>, y: seq<T>, c: T, d: T, r: (seq<T>, seq<T>, bool))
    ensures Prefixed(x, y, ([c] + r.0, [d] + r.1, r.2)) == Prefixed(x + [c], y + [d], r)
  {
    assert x + ([c] + r.0) == x + [c] + r.0 && y + ([d] + r.1) == y + [d] + r.1;
  }

  method CompareItems(a: Doc, b: Doc, cs: bool) returns (a': Doc, b': Doc, eq: bool)
    requires a.Items? && b.Items?
    ensures (a', b', eq) == Compared(a, b, cs)
    decreases a, 1
  {
    hide Compared;
    var xs, ys: seq<Doc> := [], [];
    var i := 0;
    ghost var want := ComparedItems(a, a.items, b.items, cs);
    assert a.items[0..] == a.items && b.items[0..] == b.items;
    PrefixedNil(want);
    while i < |a.items| && i < |b.items|
      invariant i <= |a.items| && i <= |b.items|
      invariant want == Prefixed(xs, ys, ComparedItems(a, a.items[i..], b.items[i..], cs))
    {
      assert a.items[i..][0] == a.items[i] && a.items[i..][1..] == a.items[i + 1..];
      assert b.items[i..][0] == b.items[i] && b.items[i..][1..] == b.items[i + 1..];
      var c, d, identical := CompareJson(a.items[i], b.items[i], cs);
      if !identical {
        ItemsCompared(a, b, cs);
        PrefixedStep(xs, ys, c, d, (a.items[i + 1..], b.items[i + 1..], false));
        return Items(xs + [c] + a.items[i + 1..]), Items(ys + [d] + b.items[i + 1..]), false;
      }
      PrefixedStep(xs, ys, c, d, ComparedItems(a, a.items[i + 1..], b.items[i + 1..], cs));
      xs, ys, i := xs + [c], ys + [d], i + 1;
    }
    ItemsCompared(a, b, cs);
    return Items(xs + a.items[i..]), Items(ys + b.items[i..]), !(i < |a.items| || i < |b.items|);
  }

  lemma ItemsCompared(a: Doc, b: Doc, cs: bool)
    requires a.Items? && b.Items?
    ensures var r := ComparedItems(a, a.items, b.items, cs); Compared(a, b, cs) == (Items(r.0), Items(r.1), r.2)
  {
  }

  // The rest of the comparison from i on, by the next entry of each.
  lemma MembersStep(parent: Doc, xs: seq<Entry>, ys: seq<Entry>, i: nat, cs: bool)
    requires parent.Members? && forall i :: 0 <= i < |xs| ==> xs[i] in parent.members
    requires i <= |xs| && i <= |ys|
    ensures var t := ComparedMembers(parent, xs[i..], ys[i..], cs);
            if i == |xs| || i == |ys| then t == (xs[i..], ys[i..], i == |xs| && i == |ys|)
            else if Fold(xs[i].key, cs) != Fold(ys[i].key, cs) then t == (xs[i..], ys[i..], false)
            else
              var r := Compared(xs[i].value, ys[i].value, cs);
              var u := if r.2 then ComparedMembers(parent, xs[i + 1..], ys[i + 1..], cs) else (xs[i + 1..], ys[i + 1..], false);
              t == ([Entry(xs[i].key, r.0)] + u.0, [Entry(ys[i].key, r.1)] + u.1, u.2)
  {
    hide Compared;
    if i < |xs| && i < |ys| {
      assert xs[i..][0] == xs[i] && xs[i..][1..] == xs[i + 1..];
      assert ys[i..][0] == ys[i] && ys[i..][1..] == ys[i + 1..];
    }
  }

  method CompareMembers(a: Doc, b: Doc, cs: bool) returns (a': Doc, b': Doc, eq: bool)
    requires a.Members? && b.Members?
    ensures (a', b', eq) == Compared(a, b, cs)
    decreases a, 1
  {
    hide Compared, ComparedMembers, SortEntries;
    var x, y := SortEntries(a.members, a.back, cs), SortEntries(b.members, b.back, cs);
    var us, vs := x.items, y.items;
    MembersCompared(a, b, cs);
    var xs, ys, i := [], [], 0;
    ghost var want := ComparedMembers(a, us, vs, cs);
    assert us[0..] == us && vs[0..] == vs;
    PrefixedNil(want);
    while i < |us| && i < |vs|
      invariant i <= |us| && i <= |vs|
      invariant want == Prefixed(xs, ys, ComparedMembers(a, us[i..], vs[i..], cs))
    {
      MembersStep(a, us, vs, i, cs);
      if Fold(us[i].key, cs) != Fold(vs[i].key, cs) {
        return Members(xs + us[i..], x.back), Members(ys + vs[i..], y.back), false;
      }
      assert us[i] in a.members;
      var c, d, identical := CompareJson(us[i].value, vs[i].value, cs);
      var e, f := Entry(us[i].key, c), Entry(vs[i].key, d);
      PrefixedStep(xs, ys, e, f, if identical then ComparedMembers(a, us[i + 1..], vs[i + 1..], cs) else (us[i + 1..], vs[i + 1..], false));
      xs, ys, i := xs + [e], ys + [f], i + 1;
      if !identical {
        return Members(xs + us[i..], x.back), Members(ys + vs[i..], y.back), false;
      }
    }
    MembersStep(a, us, vs, i, cs);
    return Members(xs + us[i..], x.back), Members(ys + vs[i..], y.back), !(i < |us| || i < |vs|);
  }

  lemma MembersCompared(a: Doc, b: Doc, cs: bool)
    requires a.Members? && b.Members?
    ensures var x, y := SortEntries(a.members, a.back, cs), SortEntries(b.members, b.back, cs);
            var r := ComparedMembers(a, x.items, y.items, cs);
            Compared(a, b, cs) == (Members(r.0, x.back), Members(r.1, y.back), r.2)
  {
  }

  // ----- the verdict -----

  /** `compare_json` decides `Same`. */
  lemma {:induction false} ComparedSame(a: Doc, b: Doc, cs: bool)
    ensures Compared(a, b, cs).2 == Same(Strip(a), Strip(b), cs)
    decreases a, 2
  {
    match (a, b)
    case (Items(_), Items(_)) => ArraysSame(a, b, cs);
    case (Members(_, _), Members(_, _)) => MembersSame(a, b, cs);
    case _ =>
  }

  lemma StripItems(items: seq<Doc>)
    ensures var j := Strip(Items(items)); j.Array? && |j.items| == |items| && forall i :: 0 <= i < |items| ==> j.items[i] == Strip(items[i])
  {
  }

  lemma ElementsSame(a: Json, b: Json, cs: bool)
    requires a.Array? && b.Array?
    ensures Same(a, b, cs) <==> |a.items| == |b.items| && forall i :: 0 <= i < |a.items| ==> Same(a.items[i], b.items[i], cs)
  {
  }

  lemma {:induction false} ArraysSame(a: Doc, b: Doc, cs: bool)
    requires a.Items? && b.Items?
    ensures Compared(a, b, cs).2 == Same(Strip(a), Strip(b), cs)
    decreases a, 1
  {
    hide Strip, Same, Compared;
    ItemsCompared(a, b, cs);
    StripItems(a.items);
    StripItems(b.items);
    ElementsSame(Strip(a), Strip(b), cs);
    ItemsSame(a, a.items, b.items, cs);
  }

  lemma {:induction false} ItemsSame(parent: Doc, xs: seq<Doc>, ys: seq<Doc>, cs: bool)
    requires parent.Items? && forall i :: 0 <= i < |xs| ==> xs[i] in parent.items
    ensures ComparedItems(parent, xs, ys, cs).2 <==> |xs| == |ys| && forall i :: 0 <= i < |xs| ==> Same(Strip(xs[i]), Strip(ys[i]), cs)
    decreases parent, 1, |xs|
  {
    hide Same, Strip, Compared;
    if xs != [] && ys != [] {
      ComparedSame(xs[0], ys[0], cs);
      ItemsSame(parent, xs[1..], ys[1..], cs);
    }
  }

  lemma {:induction false} EntriesSame(parent: Doc, xs: seq<Entry>, ys: seq<Entry>, cs: bool)
    requires parent.Members? && forall i :: 0 <= i < |xs| ==> xs[i] in parent.members
    ensures ComparedMembers(parent, xs, ys, cs).2 <==>
            |xs| == |ys| && forall i :: 0 <= i < |xs| ==> Fold(xs[i].key, cs) == Fold(ys[i].key, cs) && Same(Strip(xs[i].value), Strip(ys[i].value), cs)
    decreases parent, 1, |xs|
  {
    hide Same, Strip, Compared;
    if xs != [] && ys != [] {
      if Fold(xs[0].key, cs) == Fold(ys[0].key, cs) {
        assert xs[0] in parent.members;
        ComparedSame(xs[0].value, ys[0].value, cs);
      }
      EntriesSame(parent, xs[1..], ys[1..], cs);
    }
  }

  // Sorting the entries sorts what is reachable.
  lemma SortStripped(ms: seq<Entry>, back: Back, cs: bool)
    ensures SortMembers(Mapped(ms, StripEntry), cs) == Mapped(SortEntries(ms, back, cs).items, StripEntry)
  {
    hide Sort, SortSiblings;
    SortSiblingsIs(Siblings(ms, back), EntryKey, cs);
    SortMapped(ms, StripEntry, EntryKey, KeyOf, cs);
  }

  lemma {:induction false} MembersSame(a: Doc, b: Doc, cs: bool)
    requires a.Members? && b.Members?
    ensures Compared(a, b, cs).2 == Same(Strip(a), Strip(b), cs)
    decreases a, 1
  {
    hide Strip, Compared, SortEntries, SortMembers, Mapped, Same;
    var x, y := SortEntries(a.members, a.back, cs), SortEntries(b.members, b.back, cs);
    MembersCompared(a, b, cs);
    StripMembers(a.members, a.back);
    StripMembers(b.members, b.back);
    SortStripped(a.members, a.back, cs);
    SortStripped(b.members, b.back, cs);
    StripMembers(x.items, x.back);
    StripMembers(y.items, y.back);
    EntriesSame(a, x.items, y.items, cs);
    ObjectsSame(Strip(a), Strip(b), cs);
  }

  lemma ObjectsSame(a: Json, b: Json, cs: bool)
    requires a.Object? && b.Object?
    ensures var x, y := SortMembers(a.members, cs), SortMembers(b.members, cs);
            Same(a, b, cs) <==> |x| == |y| && forall i :: 0 <= i < |x| ==> Fold(x[i].key, cs) == Fold(y[i].key, cs) && Same(x[i].value, y[i].value, cs)
  {
    hide SortMembers;
    SortedMembers(a.members, cs);
  }

  // ----- what becomes of the first tree -----

  // Replacing x by y does not show: different keys stay different and the meaning is the same.
  ghost predicate Unmoved(x: Doc, y: Doc, v: View) {
    Unique(Strip(x), v.cs) ==> Unique(Strip(y), v.cs) && MeaningOf(Strip(y), v) == MeaningOf(Strip(x), v)
  }

  /** Comparing does not change what a tree means. */
  lemma {:induction false} ComparedMeaning(a: Doc, b: Doc, cs: bool, v: View)
    ensures Unmoved(a, Compared(a, b, cs).0, v)
    decreases a, 2
  {
    match (a, b)
    case (Items(_), Items(_)) => ArraysMeaning(a, b, cs, v);
    case (Members(_, _), Members(_, _)) => MembersUnmoved(a, b, cs, v);
    case _ =>
  }

  lemma {:induction false} ItemsUnmoved(parent: Doc, xs: seq<Doc>, ys: seq<Doc>, cs: bool, v: View)
    requires parent.Items? && forall i :: 0 <= i < |xs| ==> xs[i] in parent.items
    ensures var r := ComparedItems(parent, xs, ys, cs).0; |r| == |xs| && forall i :: 0 <= i < |xs| ==> Unmoved(xs[i], r[i], v)
    decreases parent, 1, |xs|
  {
    hide Unmoved, Compared;
    forall i | 0 <= i < |xs| ensures Unmoved(xs[i], xs[i], v) {
      StaysUnmoved(xs[i], v);
    }
    if xs != [] && ys != [] {
      ComparedMeaning(xs[0], ys[0], cs, v);
      ItemsUnmoved(parent, xs[1..], ys[1..], cs, v);
    }
  }

  lemma StaysUnmoved(x: Doc, v: View)
    ensures Unmoved(x, x, v)
  {
  }

  lemma {:induction false} ArraysMeaning(a: Doc, b: Doc, cs: bool, v: View)
    requires a.Items? && b.Items?
    ensures Unmoved(a, Compared(a, b, cs).0, v)
    decreases a, 1
  {
    hide Compared, Strip, MeaningOf;
    ItemsCompared(a, b, cs);
    var r := ComparedItems(a, a.items, b.items, cs).0;
    ItemsUnmoved(a, a.items, b.items, cs, v);
    StripItems(a.items);
    StripItems(r);
    var x, y := Strip(Items(a.items)), Strip(Items(r));
    if Unique(x, v.cs) {
      ItemsEqual(x.items, y.items, v);
      forall i | 0 <= i < |r| ensures Unique(y.items[i], v.cs) && MeaningOf(x.items[i], v) == MeaningOf(y.items[i], v) {
        assert Unique(x.items[i], v.cs) && Unmoved(a.items[i], r[i], v);
      }
    }
  }

  lemma {:induction false} EntriesUnmoved(parent: Doc, xs: seq<Entry>, ys: seq<Entry>, cs: bool, v: View)
    requires parent.Members? && forall i :: 0 <= i < |xs| ==> xs[i] in parent.members
    ensures var r := ComparedMembers(parent, xs, ys, cs).0;
            |r| == |xs| && forall i :: 0 <= i < |xs| ==> r[i].key == xs[i].key && Unmoved(xs[i].value, r[i].value, v)
    decreases parent, 1, |xs|
  {
    hide Unmoved, Compared;
    forall i | 0 <= i < |xs| ensures Unmoved(xs[i].value, xs[i].value, v) {
      StaysUnmoved(xs[i].value, v);
    }
    if xs != [] && ys != [] && Fold(xs[0].key, cs) == Fold(ys[0].key, cs) {
      assert xs[0] in parent.members;
      ComparedMeaning(xs[0].value, ys[0].value, cs, v);
      EntriesUnmoved(parent, xs[1..], ys[1..], cs, v);
    }
  }

  lemma {:induction false} MembersUnmoved(a: Doc, b: Doc, cs: bool, v: View)
    requires a.Members? && b.Members?
    ensures Unmoved(a, Compared(a, b, cs).0, v)
    decreases a, 1
  {
    hide Compared, ComparedMembers, SortEntries, Strip, Mapped, SortMembers, Sort;
    MembersCompared(a, b, cs);
    var x, y := SortEntries(a.members, a.back, cs), SortEntries(b.members, b.back, cs);
    var r := ComparedMembers(a, x.items, y.items, cs).0;
    EntriesUnmoved(a, x.items, y.items, cs, v);
    StripMembers(a.members, a.back);
    StripMembers(x.items, x.back);
    StripMembers(r, x.back);
    SortStripped(a.members, a.back, cs);
    if Unique(Strip(a), v.cs) {
      SortedUnmoved(Mapped(a.members, StripEntry), cs, v);
      ValuesUnmoved(Mapped(x.items, StripEntry), Mapped(r, StripEntry), v);
    }
  }

  lemma SortedUnmoved(ms: seq<Member>, cs: bool, v: View)
    requires Unique(Object(ms), v.cs)
    ensures Unique(Object(SortMembers(ms, cs)), v.cs) && MeaningOf(Object(SortMembers(ms, cs)), v) == MeaningOf(Object(ms), v)
  {
    hide SortMembers, MembersMeaning;
    SortedMembers(ms, cs);
    PermutedDistinct(ms, SortMembers(ms, cs), v.cs);
    MeaningOrder(ms, SortMembers(ms, cs), v);
    forall i | 0 <= i < |ms| ensures Unique(SortMembers(ms, cs)[i].value, v.cs) {
      assert SortMembers(ms, cs)[i] in ms;
    }
  }

  lemma ValuesUnmoved(xs: seq<Member>, ys: seq<Member>, v: View)
    requires Unique(Object(xs), v.cs) && |xs| == |ys|
    requires forall i :: 0 <= i < |xs| ==> ys[i].key == xs[i].key && Unique(ys[i].value, v.cs) && MeaningOf(ys[i].value, v) == MeaningOf(xs[i].value, v)
    ensures Unique(Object(ys), v.cs) && MeaningOf(Object(ys), v) == MeaningOf(Object(xs), v)
  {
    ZipAll(xs, ys, v);
  }

  // ----- trees in order -----

  // In every object the keys ascend.
  ghost predicate InOrder(j: Json, cs: bool)
    decreases j
  {
    match j
    case Array(items) => forall i :: 0 <= i < |items| ==> InOrder(items[i], cs)
    case Object(ms) => Ascending(ms, KeyOf, cs) && forall i :: 0 <= i < |ms| ==> InOrder(ms[i].value, cs)
    case _ => true
  }

  /** Comparing a tree in order leaves it as it is, back links included. */
  lemma {:induction false} ComparedInOrder(j: Json, b: Doc, cs: bool)
    requires InOrder(j, cs)
    ensures Compared(Fresh(j), b, cs).0 == Fresh(j)
    decreases j, 2
  {
    match (Fresh(j), b)
    case (Items(xs), Items(ys)) => ItemsInOrder(j, 0, ys, cs); assert xs[0..] == xs;
    case (Members(ms, p), Members(_, _)) => MembersInOrder(j, b, cs);
    case _ =>
  }

  lemma {:induction false} ItemsInOrder(j: Json, i: nat, ys: seq<Doc>, cs: bool)
    requires j.Array? && InOrder(j, cs) && i <= |j.items|
    ensures var xs := Fresh(j).items[i..]; ComparedItems(Fresh(j), xs, ys, cs).0 == xs
    decreases j, 1, |j.items| - i
  {
    hide Compared;
    var xs := Fresh(j).items[i..];
    if xs != [] && ys != [] {
      assert xs[0] == Fresh(j.items[i]) && xs[1..] == Fresh(j).items[i + 1..];
      ComparedInOrder(j.items[i], ys[0], cs);
      ItemsInOrder(j, i + 1, ys[1..], cs);
    }
  }

  lemma {:induction false} EntriesInOrder(j: Json, i: nat, ys: seq<Entry>, cs: bool)
    requires j.Object? && InOrder(j, cs) && i <= |j.members|
    ensures var xs := Fresh(j).members[i..]; ComparedMembers(Fresh(j), xs, ys, cs).0 == xs
    decreases j, 1, |j.members| - i
  {
    hide Compared;
    var xs := Fresh(j).members[i..];
    if xs != [] && ys != [] && Fold(xs[0].key, cs) == Fold(ys[0].key, cs) {
      assert xs[0] == Entry(j.members[i].key, Fresh(j.members[i].value)) && xs[1..] == Fresh(j).members[i + 1..];
      ComparedInOrder(j.members[i].value, ys[0].value, cs);
      EntriesInOrder(j, i + 1, ys[1..], cs);
    }
  }

  lemma {:induction false} MembersInOrder(j: Json, b: Doc, cs: bool)
    requires j.Object? && InOrder(j, cs) && b.Members?
    ensures Compared(Fresh(j), b, cs).0 == Fresh(j)
    decreases j, 1, |j.members| + 1
  {
    hide Compared, ComparedMembers, KeyLess;
    var a := Fresh(j);
    forall i | 0 <= i < |a.members| - 1 ensures KeyLess(EntryKey(a.members[i]), EntryKey(a.members[i + 1]), cs) {
      assert KeyLess(KeyOf(j.members[i]), KeyOf(j.members[i + 1]), cs);
    }
    SortKept(Siblings(a.members, a.back), EntryKey, cs);
    MembersCompared(a, b, cs);
    EntriesInOrder(j, 0, SortEntries(b.members, b.back, cs).items, cs);
    assert a.members[0..] == a.members;
  }
}
