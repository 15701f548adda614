/**
 Where JSON Merge Patch round trips of stage/cjson/cJSON_Utils.c end: `generate_merge_patch` sorts by one order
 and compares by another. On objects without objects in them, exactly the keys are lost whose new value comes
 into the patch before their removal.
 */
module JsonMergeLimits {
  import opened Basics
  import opened KeyOrder
  import opened JsonValue
  import opened JsonCompare
  import opened JsonPatch
  import opened JsonPlace
  import opened JsonOps
  import opened JsonDiff
  import opened JsonDiffLaw
  import opened JsonMerge
  import opened JsonMergeDiff

  // ----- merging members that are not objects -----

  ghost predicate Flat(ms: seq<Member>) {
    forall i :: 0 <= i < |ms| ==> !ms[i].value.Object?
  }

  // What becomes of the value f of a key k, whatever the patch says about it, and however often.
  function Fate(f: Option<Meaning>, pm: seq<Member>, k: string, v: View): Option<Meaning>
    decreases |pm|
  {
    if pm == [] then f
    else
      var g := if Fold(pm[0].key, v.cs) != k then f else if pm[0].value.Null? then None else Some(MeaningOf(pm[0].value, v));
      Fate(g, pm[1..], k, v)
  }

  lemma {:induction false} FateAppend(f: Option<Meaning>, a: seq<Member>, b: seq<Member>, k: string, v: View)
    ensures Fate(f, a + b, k, v) == Fate(Fate(f, a, k, v), b, k, v)
    decreases |a|
  {
    hide MeaningOf;
    if a == [] {
      assert a + b == b;
    } else {
      assert (a + b)[0] == a[0] && (a + b)[1..] == a[1..] + b;
      var g := if Fold(a[0].key, v.cs) != k then f else if a[0].value.Null? then None else Some(MeaningOf(a[0].value, v));
      FateAppend(g, a[1..], b, k, v);
    }
  }

  lemma RoundFate(ms: seq<Member>, m: Member, k: string, v: View)
    requires DistinctKeys(ms, v.cs) && !m.value.Object?
    ensures var i := Lookup(ms, m.key, v.cs);
            var rest := if i < |ms| then Without(ms, i) else ms;
            var ns := if m.value.Null? then rest else rest + [Member(m.key, m.value)];
            && DistinctKeys(ns, v.cs)
            && Find(MembersMeaning(ns, v), k) == Fate(Find(MembersMeaning(ms, v), k), [m], k, v)
  {
    hide MembersMeaning, Lookup, Without, MeaningOf;
    assert [m][1..] == [];
    var i := Lookup(ms, m.key, v.cs);
    LookupMeaning(ms, m.key, v);
    if m.value.Null? {
      if i < |ms| {
        MembersWithout(ms, i, v);
        WithoutDistinct(ms, i, v.cs);
      }
    } else {
      PutMember(ms, m.key, m.value, v);
    }
  }

  /** Merging, key by key: the last word of the patch about a key counts. */
  lemma {:induction false} FlatMerge(ms: seq<Member>, pm: seq<Member>, k: string, v: View)
    requires DistinctKeys(ms, v.cs) && Flat(pm)
    ensures DistinctKeys(MergeMembers(ms, pm, v.cs), v.cs)
    ensures Find(MembersMeaning(MergeMembers(ms, pm, v.cs), v), k) == Fate(Find(MembersMeaning(ms, v), k), pm, k, v)
    decreases |pm|
  {
    hide MembersMeaning, Lookup, Without, MeaningOf, DistinctKeys;
    if pm != [] {
      RoundFate(ms, pm[0], k, v);
      assert pm == [pm[0]] + pm[1..];
      FateAppend(Find(MembersMeaning(ms, v), k), [pm[0]], pm[1..], k, v);
      MergeStep(ms, pm, 0, v.cs);
      assert pm[0..] == pm;
      var i := Lookup(ms, pm[0].key, v.cs);
      var rest := if i < |ms| then Without(ms, i) else ms;
      FlatMerge(if pm[0].value.Null? then rest else rest + [Member(pm[0].key, pm[0].value)], pm[1..], k, v);
    }
  }

  // ----- the walk -----

  // The walk comes to the new value of k while k is still to come in xs.
  predicate Late(xs: seq<Member>, ys: seq<Member>, k: string, cs: bool)
    decreases |xs| + |ys|
  {
    xs != [] && ys != [] &&
    if StrLess(xs[0].key, ys[0].key) then Late(xs[1..], ys, k, cs)
    else if StrLess(ys[0].key, xs[0].key) then
      (Fold(ys[0].key, cs) == k && exists i :: 0 <= i < |xs| && Fold(xs[i].key, cs) == k) || Late(xs, ys[1..], k, cs)
    else Late(xs[1..], ys[1..], k, cs)
  }

  // Two objects without objects in them, and no new value is null.
  ghost predicate FlatPair(from: Json, to: Json, cs: bool) {
    && from.Object? && to.Object? && Unique(from, cs) && Unique(to, cs) && OneCase(from, to, cs)
    && Flat(from.members) && Flat(to.members) && forall i :: 0 <= i < |to.members| ==> !to.members[i].value.Null?
  }

  // What is left of both.
  ghost predicate Ahead(from: Json, to: Json, xs: seq<Member>, ys: seq<Member>, cs: bool) {
    FlatPair(from, to, cs) && MembersOf(xs, from) && MembersOf(ys, to) && DistinctKeys(xs, cs) && DistinctKeys(ys, cs)
  }

  function ValueIn(ms: seq<Member>, k: string, v: View): Option<Meaning> {
    Find(MembersMeaning(ms, v), k)
  }

  lemma ValueTail(ms: seq<Member>, k: string, v: View)
    requires ms != [] && DistinctKeys(ms, v.cs)
    ensures DistinctKeys(ms[1..], v.cs)
    ensures Fold(ms[0].key, v.cs) == k ==> ValueIn(ms, k, v) == Some(MeaningOf(ms[0].value, v)) && ValueIn(ms[1..], k, v) == None
    ensures Fold(ms[0].key, v.cs) != k ==> ValueIn(ms, k, v) == ValueIn(ms[1..], k, v)
  {
    hide MeaningOf;
    HeadMeaning(ms, v);
  }

  lemma ValueKey(ms: seq<Member>, k: string, v: View)
    requires DistinctKeys(ms, v.cs)
    ensures ValueIn(ms, k, v).Some? <==> exists i :: 0 <= i < |ms| && Fold(ms[i].key, v.cs) == k
  {
    hide MembersMeaning, MeaningOf;
    KeysMeaning(ms, v);
  }

  // The value of k after the walk: gone with `from`, come with `to`; lost if it is late.
  ghost predicate Settled(f: Option<Meaning>, r: Option<Meaning>, xs: seq<Member>, ys: seq<Member>, k: string, v: View) {
    r == if ValueIn(ys, k, v).None? then (if ValueIn(xs, k, v).None? then f else None)
         else if Late(xs, ys, k, v.cs) then None
         else ValueIn(ys, k, v)
  }

  // A common key: nothing if the values are the same, else the new value.
  lemma CommonFate(from: Json, to: Json, x: Member, y: Member, f: Option<Meaning>, k: string, cs: bool)
    requires FlatPair(from, to, cs) && x in from.members && y in to.members && x.key == y.key
    requires Fold(x.key, cs) == k ==> f == Some(MeaningOf(x.value, View(cs, false)))
    ensures Fate(f, CommonPatch(x.value, y.value, y.key, cs), k, View(cs, false)) ==
            if Fold(y.key, cs) == k then Some(MeaningOf(y.value, View(cs, false))) else f
  {
    hide MeaningOf, Same, OneCase;
    MemberUnique(from, x, cs);
    MemberUnique(to, y, cs);
    SameMeaning(x.value, y.value, cs);
    assert !y.value.Object? && !y.value.Null?;
    assert MergeDiff(x.value, y.value, false) == Some(y.value);
    assert [Member(y.key, y.value)][1..] == [];
  }

  lemma {:induction false} WalkFate(from: Json, to: Json, xs: seq<Member>, ys: seq<Member>, f: Option<Meaning>, k: string, cs: bool)
    requires Ahead(from, to, xs, ys, cs)
    requires ValueIn(xs, k, View(cs, false)).Some? && ValueIn(ys, k, View(cs, false)).Some? ==> f == ValueIn(xs, k, View(cs, false))
    ensures Settled(f, Fate(f, WalkMembers(from, xs, ys, cs), k, View(cs, false)), xs, ys, k, View(cs, false))
    decreases |xs| + |ys|
  {
    hide MeaningOf, MembersMeaning, DistinctKeys, FlatPair, StrLess, CommonPatch;
    var v := View(cs, false);
    if xs != [] {
      ValueTail(xs, k, v);
      assert xs[0] in from.members;
    }
    if ys != [] {
      ValueTail(ys, k, v);
      assert ys[0] in to.members;
    }
    ValueKey(xs, k, v);
    if xs == [] && ys == [] {
      NoValue(k, v);
    } else if ys == [] || (xs != [] && StrLess(xs[0].key, ys[0].key)) {
      WalkRemoves(from, to, xs, ys, f, k, cs);
    } else if xs == [] || StrLess(ys[0].key, xs[0].key) {
      WalkAdds(from, to, xs, ys, f, k, cs);
    } else {
      WalkBoth(from, to, xs, ys, f, k, cs);
    }
  }

  lemma NoValue(k: string, v: View)
    ensures ValueIn([], k, v) == None
  {
  }

  lemma FateOne(f: Option<Meaning>, m: Member, rest: seq<Member>, k: string, v: View)
    ensures Fate(f, [m] + rest, k, v) ==
            Fate(if Fold(m.key, v.cs) != k then f else if m.value.Null? then None else Some(MeaningOf(m.value, v)), rest, k, v)
  {
    hide MeaningOf;
    assert ([m] + rest)[1..] == rest;
  }

  lemma {:induction false} WalkRemoves(from: Json, to: Json, xs: seq<Member>, ys: seq<Member>, f: Option<Meaning>, k: string, cs: bool)
    requires Ahead(from, to, xs, ys, cs) && xs != [] && (ys != [] ==> StrLess(xs[0].key, ys[0].key))
    requires ValueIn(xs, k, View(cs, false)).Some? && ValueIn(ys, k, View(cs, false)).Some? ==> f == ValueIn(xs, k, View(cs, false))
    ensures Settled(f, Fate(f, WalkMembers(from, xs, ys, cs), k, View(cs, false)), xs, ys, k, View(cs, false))
    decreases |xs| + |ys|, 0
  {
    hide MeaningOf, MembersMeaning, DistinctKeys, FlatPair, StrLess, CommonPatch;
    var v := View(cs, false);
    ValueTail(xs, k, v);
    var g := if Fold(xs[0].key, cs) != k then f else None;
    FateOne(f, Member(xs[0].key, Null), WalkMembers(from, xs[1..], ys, cs), k, v);
    WalkFate(from, to, xs[1..], ys, g, k, cs);
    if ys == [] {
      NoValue(k, v);
    } else if Fold(xs[0].key, cs) == k {
      NeverLate(xs[1..], ys, k, v);
    }
  }

  // What is not to come in xs is not late.
  lemma {:induction false} NeverLate(xs: seq<Member>, ys: seq<Member>, k: string, v: View)
    requires DistinctKeys(xs, v.cs) && ValueIn(xs, k, v) == None
    ensures !Late(xs, ys, k, v.cs)
    decreases |xs| + |ys|
  {
    hide MembersMeaning, DistinctKeys, StrLess;
    if xs != [] && ys != [] {
      ValueTail(xs, k, v);
      ValueKey(xs, k, v);
      NeverLate(xs[1..], ys, k, v);
      NeverLate(xs, ys[1..], k, v);
      NeverLate(xs[1..], ys[1..], k, v);
    }
  }

  // A key that does not come in ys is not late.
  lemma {:induction false} NoNewValue(xs: seq<Member>, ys: seq<Member>, k: string, v: View)
    requires DistinctKeys(ys, v.cs) && ValueIn(ys, k, v) == None
    ensures !Late(xs, ys, k, v.cs)
    decreases |xs| + |ys|
  {
    hide MembersMeaning, DistinctKeys, StrLess;
    if xs != [] && ys != [] {
      ValueTail(ys, k, v);
      NoNewValue(xs[1..], ys, k, v);
      NoNewValue(xs, ys[1..], k, v);
      NoNewValue(xs[1..], ys[1..], k, v);
    }
  }

  lemma {:induction false} WalkAdds(from: Json, to: Json, xs: seq<Member>, ys: seq<Member>, f: Option<Meaning>, k: string, cs: bool)
    requires Ahead(from, to, xs, ys, cs) && ys != [] && (xs != [] ==> StrLess(ys[0].key, xs[0].key))
    requires ValueIn(xs, k, View(cs, false)).Some? && ValueIn(ys, k, View(cs, false)).Some? ==> f == ValueIn(xs, k, View(cs, false))
    ensures Settled(f, Fate(f, WalkMembers(from, xs, ys, cs), k, View(cs, false)), xs, ys, k, View(cs, false))
    decreases |xs| + |ys|, 0
  {
    hide MeaningOf, MembersMeaning, DistinctKeys, StrLess, CommonPatch;
    var v := View(cs, false);
    ValueTail(ys, k, v);
    ValueKey(xs, k, v);
    if xs != [] {
      StrLessTotal(xs[0].key, ys[0].key);
    }
    assert ys[0] in to.members && !ys[0].value.Null?;
    var g := if Fold(ys[0].key, cs) != k then f else Some(MeaningOf(ys[0].value, v));
    FateOne(f, ys[0], WalkMembers(from, xs, ys[1..], cs), k, v);
    WalkFate(from, to, xs, ys[1..], g, k, cs);
    if Fold(ys[0].key, cs) == k {
      NoNewValue(xs, ys[1..], k, v);
    }
  }

  lemma {:induction false} WalkBoth(from: Json, to: Json, xs: seq<Member>, ys: seq<Member>, f: Option<Meaning>, k: string, cs: bool)
    requires Ahead(from, to, xs, ys, cs) && xs != [] && ys != [] && !StrLess(xs[0].key, ys[0].key) && !StrLess(ys[0].key, xs[0].key)
    requires ValueIn(xs, k, View(cs, false)).Some? && ValueIn(ys, k, View(cs, false)).Some? ==> f == ValueIn(xs, k, View(cs, false))
    ensures Settled(f, Fate(f, WalkMembers(from, xs, ys, cs), k, View(cs, false)), xs, ys, k, View(cs, false))
    decreases |xs| + |ys|, 0
  {
    hide MeaningOf, MembersMeaning, DistinctKeys, FlatPair, StrLess, CommonPatch;
    var v := View(cs, false);
    ValueTail(xs, k, v);
    ValueTail(ys, k, v);
    StrLessTotal(xs[0].key, ys[0].key);
    assert xs[0] in from.members && ys[0] in to.members;
    CommonFate(from, to, xs[0], ys[0], f, k, cs);
    FateAppend(f, CommonPatch(xs[0].value, ys[0].value, ys[0].key, cs), WalkMembers(from, xs[1..], ys[1..], cs), k, v);
    var g := if Fold(ys[0].key, cs) == k then Some(MeaningOf(ys[0].value, v)) else f;
    WalkFate(from, to, xs[1..], ys[1..], g, k, cs);
    if Fold(ys[0].key, cs) == k {
      NoNewValue(xs[1..], ys[1..], k, v);
    }
  }

  // ----- the round trip -----

  // Generate, then merge into a copy.
  function RoundTrip(from: Json, to: Json, cs: bool): Json {
    match MergeDiff(from, to, cs)
    case None => from
    case Some(p) => MergeValue(Some(from), p, cs)
  }

  lemma RoundTripMembers(from: Json, to: Json, cs: bool)
    requires from.Object? && to.Object?
    ensures RoundTrip(from, to, cs) == Object(MergeMembers(from.members, WalkMembers(from, Ordered(from, cs), Ordered(to, cs), cs), cs))
  {
    hide WalkMembers, Ordered;
  }

  lemma {:induction false} WalkFlat(from: Json, to: Json, xs: seq<Member>, ys: seq<Member>, cs: bool)
    requires from.Object? && to.Object? && MembersOf(xs, from) && MembersOf(ys, to) && Flat(to.members)
    ensures Flat(WalkMembers(from, xs, ys, cs))
    decreases |xs| + |ys|
  {
    hide StrLess, Same;
    if ys != [] {
      assert ys[0] in to.members;
    }
    if xs == [] && ys == [] {
    } else if ys == [] || (xs != [] && StrLess(xs[0].key, ys[0].key)) {
      WalkFlat(from, to, xs[1..], ys, cs);
    } else if xs == [] || StrLess(ys[0].key, xs[0].key) {
      WalkFlat(from, to, xs, ys[1..], cs);
    } else {
      WalkFlat(from, to, xs[1..], ys[1..], cs);
      assert MergeDiff(xs[0].value, ys[0].value, false) == Some(ys[0].value);
      assert Flat(CommonPatch(xs[0].value, ys[0].value, ys[0].key, cs));
    }
  }

  lemma OrderedValue(j: Json, k: string, cs: bool)
    requires j.Object? && Unique(j, cs)
    ensures DistinctKeys(Ordered(j, cs), cs) && ValueIn(Ordered(j, cs), k, View(cs, false)) == ValueIn(j.members, k, View(cs, false))
  {
    hide MembersMeaning, SortMembers, Strict;
    SortedMembers(j.members, cs);
    assert Ordered(j, cs) == SortMembers(j.members, cs);
    MeaningOrder(j.members, Ordered(j, cs), View(cs, false));
  }

  // One key of the round trip.
  lemma KeyRoundTrip(from: Json, to: Json, k: string, cs: bool)
    requires FlatPair(from, to, cs)
    ensures var late := Late(Ordered(from, cs), Ordered(to, cs), k, cs);
            && RoundTrip(from, to, cs).Object?
            && ValueIn(RoundTrip(from, to, cs).members, k, View(cs, false)) == (if late then None else ValueIn(to.members, k, View(cs, false)))
            && (late ==> ValueIn(to.members, k, View(cs, false)).Some?)
  {
    hide MeaningOf, MembersMeaning, WalkMembers, Ordered, Late, Unique, OneCase, DistinctKeys, Fate;
    var v, xs, ys := View(cs, false), Ordered(from, cs), Ordered(to, cs);
    RoundTripMembers(from, to, cs);
    OrderedValue(from, k, cs);
    OrderedValue(to, k, cs);
    WalkFlat(from, to, xs, ys, cs);
    UniqueDistinct(from, cs);
    FlatMerge(from.members, WalkMembers(from, xs, ys, cs), k, v);
    WalkFate(from, to, xs, ys, ValueIn(from.members, k, v), k, cs);
    if ValueIn(to.members, k, v).None? {
      NoNewValue(xs, ys, k, v);
    }
  }

  lemma UniqueDistinct(j: Json, cs: bool)
    requires j.Object? && Unique(j, cs)
    ensures DistinctKeys(j.members, cs)
  {
  }

  // No common key is late.
  ghost predicate NoneLate(from: Json, to: Json, cs: bool)
    requires from.Object? && to.Object?
  {
    forall k :: !Late(Ordered(from, cs), Ordered(to, cs), k, cs)
  }

  lemma LateLost(from: Json, to: Json, k: string, cs: bool)
    requires FlatPair(from, to, cs) && Late(Ordered(from, cs), Ordered(to, cs), k, cs)
    ensures MeaningOf(RoundTrip(from, to, cs), View(cs, false)) != MeaningOf(to, View(cs, false))
  {
    hide Unique, OneCase, Flat, RoundTrip, Ordered, MembersMeaning, MeaningOf;
    KeyRoundTrip(from, to, k, cs);
    ObjectMeaning(RoundTrip(from, to, cs), View(cs, false));
    ObjectMeaning(to, View(cs, false));
  }

  lemma NoneLateKept(from: Json, to: Json, cs: bool)
    requires FlatPair(from, to, cs) && NoneLate(from, to, cs)
    ensures MeaningOf(RoundTrip(from, to, cs), View(cs, false)) == MeaningOf(to, View(cs, false))
  {
    hide Unique, OneCase, Flat, RoundTrip, Ordered, MembersMeaning, MeaningOf;
    var v, r := View(cs, false), RoundTrip(from, to, cs);
    KeyRoundTrip(from, to, "", cs);
    ObjectMeaning(r, v);
    ObjectMeaning(to, v);
    forall k ensures Find(MembersMeaning(r.members, v), k) == Find(MembersMeaning(to.members, v), k) {
      KeyRoundTrip(from, to, k, cs);
      assert !Late(Ordered(from, cs), Ordered(to, cs), k, cs);
    }
    SameMaps(MembersMeaning(r.members, v), MembersMeaning(to.members, v));
  }

  /** Objects without objects in them, no two keys the same but for their case, no new nulls: the round trip
      leads to `to` if and only if no common key is late. */
  lemma FlatRoundTrip(from: Json, to: Json, cs: bool)
    requires FlatPair(from, to, cs)
    ensures MeaningOf(RoundTrip(from, to, cs), View(cs, false)) == MeaningOf(to, View(cs, false)) <==> NoneLate(from, to, cs)
  {
    hide Unique, OneCase, Flat, RoundTrip, Ordered, MeaningOf;
    if NoneLate(from, to, cs) {
      NoneLateKept(from, to, cs);
    } else {
      var k :| Late(Ordered(from, cs), Ordered(to, cs), k, cs);
      LateLost(from, to, k, cs);
    }
  }

  lemma ObjectMeaning(j: Json, v: View)
    requires j.Object?
    ensures MeaningOf(j, v) == MObject(MembersMeaning(j.members, v))
  {
  }

  // ----- a key that is lost -----

  const SMALL := Member("a", Number(1))
  const CAPITAL := Member("B", Number(1))

  lemma ExampleKeys()
    ensures StrLess("B", "a") && KeyLess("a", "B", false) && Fold("a", false) == "a" && Fold("B", false) == "b"
  {
    assert Lower("a") == "a" && Lower("B") == "b";
    assert StrLess("a", "b");
  }

  lemma ExampleOrder()
    ensures Ordered(Object([SMALL, CAPITAL]), false) == [SMALL, CAPITAL] && Ordered(Object([CAPITAL]), false) == [CAPITAL]
  {
    ExampleKeys();
    var ms := [SMALL, CAPITAL];
    assert KeyLess(KeyOf(ms[0]), KeyOf(ms[1]), false);
  }

  /** {"a":1,"B":1} to {"B":1} without regard to case: 'a' is smaller than 'B' when sorting, and larger when
      comparing. The member "B" is lost. */
  lemma LostExample()
    ensures var from, to := Object([SMALL, CAPITAL]), Object([CAPITAL]);
            FlatPair(from, to, false) && MeaningOf(RoundTrip(from, to, false), View(false, false)) != MeaningOf(to, View(false, false))
  {
    hide MeaningOf, RoundTrip, StrLess, Ordered, KeyLess;
    var from, to := Object([SMALL, CAPITAL]), Object([CAPITAL]);
    var xs := [SMALL, CAPITAL];
    ExampleKeys();
    ExampleOrder();
    StrLessTotal("a", "B");
    assert Fold(xs[1].key, false) == "b";
    assert Late(xs, [CAPITAL], "b", false);
    ExamplePair(from, to);
    LateLost(from, to, "b", false);
  }

  lemma ExamplePair(from: Json, to: Json)
    requires from == Object([SMALL, CAPITAL]) && to == Object([CAPITAL])
    ensures FlatPair(from, to, false)
  {
    ExampleKeys();
    assert DistinctKeys(from.members, false) && DistinctKeys(to.members, false);
    forall m, n | m in from.members + to.members && n in from.members + to.members && Fold(m.key, false) == Fold(n.key, false) ensures m.key == n.key {
      assert m in [SMALL, CAPITAL] && n in [SMALL, CAPITAL];
    }
  }
}
