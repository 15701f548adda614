/**
 Applying the patches from one tree to another gives the other (stage/cjson/cJSON_Utils.c,
 `create_patches` and `apply_patch`).
 */
module JsonDiffLaw {
  import opened Basics
  import opened KeyOrder
  import opened JsonValue
  import opened JsonCompare
  import opened JsonPointer
  import opened JsonPatch
  import opened JsonPlace
  import opened JsonOps
  import opened JsonDiff

  // ----- when the patches do their work -----

  ghost function KeySet(ms: seq<Member>, cs: bool): set<string> {
    set i | 0 <= i < |ms| :: Fold(ms[i].key, cs)
  }

  // Keys that differ only in case do not meet.
  ghost predicate ClearKeys(keys: set<string>, cs: bool) {
    forall k :: k in keys ==> Clear(keys, k, cs)
  }

  // The keys at the end of a path survive `decode_pointer_inplace`; in no object does the case of a
  // key matter; array indices fit into `size_t`.
  ghost predicate Patchable(from: Json, to: Json, cs: bool)
    decreases from
  {
    if Replaces(from, to) then true
    else if from.Array? then
      |from.items| <= SIZE_LIMIT && forall i :: 0 <= i < |from.items| && i < |to.items| ==> Patchable(from.items[i], to.items[i], cs)
    else if from.Object? then
      && ClearKeys(KeySet(from.members, cs) + KeySet(to.members, cs), cs)
      && (forall m :: m in from.members && Fold(m.key, cs) !in KeySet(to.members, cs) ==> Survives(m.key))
      && (forall n :: n in to.members && Fold(n.key, cs) !in KeySet(from.members, cs) ==> Survives(n.key))
      && (forall m, n :: m in from.members && n in to.members && Fold(m.key, cs) == Fold(n.key, cs) ==>
            Patchable(m.value, n.value, cs) && (Replaces(m.value, n.value) ==> Survives(m.key)))
    else true
  }

  // The outcome r of patching a document with meaning m: success, and x in the place.
  ghost predicate Done(m: Meaning, ps: seq<Step>, x: Meaning, r: (Json, nat), v: View)
    requires Has(m, ps, v.cs)
  {
    r.1 == 0 && Unique(r.0, v.cs) && MeaningOf(r.0, v) == MPut(m, ps, x, v.cs)
  }

  lemma DoneThen(m: Meaning, ps: seq<Step>, x: Meaning, j: Json, y: Meaning, p: seq<Json>, j0: Json, q: seq<Json>, v: View)
    requires Has(m, ps, v.cs) && Done(m, ps, x, (j, 0), v) && ApplyAll(j0, p, v.cs) == (j, 0)
    ensures Has(MeaningOf(j, v), ps, v.cs) && MGet(MeaningOf(j, v), ps, v.cs) == x
    ensures Done(MeaningOf(j, v), ps, y, ApplyAll(j, q, v.cs), v) ==> Done(m, ps, y, ApplyAll(j0, p + q, v.cs), v)
  {
    hide MeaningOf, Unique, Has, MGet, MPut, ApplyAll;
    PutGet(m, ps, x, y, v.cs);
    ApplyAppend(j0, p, q, v.cs);
  }

  lemma DoneNothing(j: Json, ps: seq<Step>, v: View)
    requires Unique(j, v.cs) && Has(MeaningOf(j, v), ps, v.cs)
    ensures Done(MeaningOf(j, v), ps, MGet(MeaningOf(j, v), ps, v.cs), ApplyAll(j, [], v.cs), v)
  {
    PutSame(MeaningOf(j, v), ps, v.cs);
  }

  lemma ApplyOne(j: Json, p: Json, cs: bool)
    ensures Apply(j, p, cs).1 == 0 ==> ApplyAll(j, [p], cs) == Apply(j, p, cs)
  {
    hide Apply;
    assert [p][1..] == [];
    var r := Apply(j, p, cs);
    assert r == (r.0, r.1);
  }

  // ----- arrays -----

  lemma {:induction false} RemovalsApply(j: Json, ps: seq<Step>, i: nat, n: nat, v: View)
    requires Unique(j, v.cs) && SmallIndices(ps) && Has(MeaningOf(j, v), ps, v.cs)
    requires var c := MGet(MeaningOf(j, v), ps, v.cs); c.MArray? && |c.items| == i + n
    requires n > 0 ==> i < SIZE_LIMIT
    ensures Done(MeaningOf(j, v), ps, MArray(MGet(MeaningOf(j, v), ps, v.cs).items[..i]),
                 ApplyAll(j, seq(n, _ => Patch("remove", PathText(ps) + "/" + Encode(Decimal(i)), None)), v.cs), v)
    decreases n
  {
    hide MeaningOf, Unique, Has, MGet, MPut, ApplyAll, Apply, Patch, PathText, Encode, Decimal;
    var m := MeaningOf(j, v);
    var items := MGet(m, ps, v.cs).items;
    var patch := Patch("remove", PathText(ps) + "/" + Encode(Decimal(i)), None);
    if n == 0 {
      assert items[..i] == items;
      DoneNothing(j, ps, v);
      assert seq(0, _ => patch) == [];
    } else {
      PlainText(Decimal(i));
      ApplyRemove(j, ps, Index(i), v);
      ApplyOne(j, patch, v.cs);
      var j1 := Apply(j, patch, v.cs).0;
      var tail := seq(n - 1, _ => patch);
      assert seq(n, _ => patch) == [patch] + tail;
      DoneThen(m, ps, MArray(Without(items, i)), j1, MArray(items[..i]), [patch], j, tail, v);
      RemovalsApply(j1, ps, i, n - 1, v);
      assert Without(items, i)[..i] == items[..i];
    }
  }

  ghost function Meanings(items: seq<Json>, v: View): seq<Meaning> {
    seq(|items|, i requires 0 <= i < |items| => MeaningOf(items[i], v))
  }

  lemma {:induction false} AppendsApply(j: Json, ps: seq<Step>, items: seq<Json>, v: View)
    requires Unique(j, v.cs) && SmallIndices(ps) && Has(MeaningOf(j, v), ps, v.cs) && MGet(MeaningOf(j, v), ps, v.cs).MArray?
    requires forall i :: 0 <= i < |items| ==> Unique(items[i], v.cs)
    ensures Done(MeaningOf(j, v), ps, MArray(MGet(MeaningOf(j, v), ps, v.cs).items + Meanings(items, v)),
                 ApplyAll(j, Appends(PathText(ps), items), v.cs), v)
    decreases |items|
  {
    hide MeaningOf, Unique, Has, MGet, MPut, ApplyAll, Apply, Patch, PathText, Encode;
    var m := MeaningOf(j, v);
    var had := MGet(m, ps, v.cs).items;
    if items == [] {
      assert had + Meanings(items, v) == had;
      DoneNothing(j, ps, v);
      assert Appends(PathText(ps), items) == [];
    } else {
      PlainText("-");
      var patch := Patch("add", PathText(ps) + "/" + Encode("-"), Some(items[0]));
      ApplyAppendItem(j, ps, items[0], v);
      ApplyOne(j, patch, v.cs);
      var j1 := Apply(j, patch, v.cs).0;
      var tail := Appends(PathText(ps), items[1..]);
      assert Appends(PathText(ps), items) == [patch] + tail;
      var has := had + [MeaningOf(items[0], v)];
      DoneThen(m, ps, MArray(has), j1, MArray(has + Meanings(items[1..], v)), [patch], j, tail, v);
      AppendsApply(j1, ps, items[1..], v);
      assert has + Meanings(items[1..], v) == had + Meanings(items, v);
    }
  }

  // An array in the middle of its patches: the first i elements are those of `to` already.
  ghost function Mixed(from: Json, to: Json, i: nat, v: View): Meaning
    requires from.Array? && to.Array? && i <= |from.items| && i <= |to.items|
  {
    MArray(Meanings(to.items[..i] + from.items[i..], v))
  }

  lemma MixedStep(from: Json, to: Json, i: nat, v: View)
    requires from.Array? && to.Array? && i < |from.items| && i < |to.items|
    ensures CanStep(Mixed(from, to, i, v), Index(i), v.cs) && StepTo(Mixed(from, to, i, v), Index(i), v.cs) == MeaningOf(from.items[i], v)
    ensures StepPut(Mixed(from, to, i, v), Index(i), MeaningOf(to.items[i], v), v.cs) == Mixed(from, to, i + 1, v)
  {
    hide MeaningOf;
    var a, b := to.items[..i] + from.items[i..], to.items[..i + 1] + from.items[i + 1..];
    assert a[i := to.items[i]] == b;
    assert Meanings(a, v)[i := MeaningOf(to.items[i], v)] == Meanings(b, v);
  }

  lemma MixedEnds(from: Json, to: Json, i: nat, v: View)
    requires from.Array? && to.Array? && i <= |from.items| && i <= |to.items|
    ensures Mixed(from, to, 0, v) == MeaningOf(from, v) && Mixed(from, to, i, v).MArray?
    ensures |Mixed(from, to, i, v).items| == |from.items|
    ensures MArray(Mixed(from, to, i, v).items[..i] + Meanings(to.items[i..], v)) == MeaningOf(to, v)
  {
    assert to.items[..0] + from.items[0..] == from.items;
    assert Mixed(from, to, i, v).items[..i] + Meanings(to.items[i..], v) == Meanings(to.items, v);
  }

  lemma {:induction false} ItemsApply(j: Json, ps: seq<Step>, from: Json, to: Json, i: nat, v: View)
    requires from.Array? && to.Array? && i <= |from.items| && i <= |to.items| && !v.raw
    requires Unique(j, v.cs) && Unique(from, v.cs) && Unique(to, v.cs) && Patchable(from, to, v.cs) && SmallIndices(ps)
    requires Has(MeaningOf(j, v), ps, v.cs) && MGet(MeaningOf(j, v), ps, v.cs) == Mixed(from, to, i, v)
    ensures Done(MeaningOf(j, v), ps, MeaningOf(to, v), ApplyAll(j, DiffItems(PathText(ps), from, to, i, v.cs), v.cs), v)
    decreases from, 2, |from.items| - i
  {
    hide MeaningOf, Has, MGet, MPut, ApplyAll, Diff, Patch, PathText, Encode, Decimal, Mixed, Appends;
    var m := MeaningOf(j, v);
    if i < |from.items| && i < |to.items| {
      var qs := ps + [Index(i)];
      MixedStep(from, to, i, v);
      PutBelow(m, ps, Index(i), MeaningOf(to.items[i], v), v.cs);
      assert qs[..|qs| - 1] == ps;
      DiffApplies(j, qs, from.items[i], to.items[i], v);
      PathSnoc(ps, Index(i));
      var p := Diff(PathText(ps) + "/" + Decimal(i), from.items[i], to.items[i], v.cs);
      var j1 := ApplyAll(j, p, v.cs).0;
      DoneThen(m, ps, Mixed(from, to, i + 1, v), j1, MeaningOf(to, v), p, j, DiffItems(PathText(ps), from, to, i + 1, v.cs), v);
      ItemsApply(j1, ps, from, to, i + 1, v);
    } else {
      ItemsEnd(j, ps, from, to, i, v);
    }
  }

  lemma ItemsEnd(j: Json, ps: seq<Step>, from: Json, to: Json, i: nat, v: View)
    requires from.Array? && to.Array? && (i == |from.items| <= |to.items| || i == |to.items| <= |from.items|)
    requires Unique(j, v.cs) && Unique(to, v.cs) && |from.items| <= SIZE_LIMIT && SmallIndices(ps)
    requires Has(MeaningOf(j, v), ps, v.cs) && MGet(MeaningOf(j, v), ps, v.cs) == Mixed(from, to, i, v)
    ensures Done(MeaningOf(j, v), ps, MeaningOf(to, v), ApplyAll(j, DiffItems(PathText(ps), from, to, i, v.cs), v.cs), v)
  {
    hide MeaningOf, Has, MGet, MPut, ApplyAll, Diff, Patch, PathText, Encode, Decimal, Mixed, Appends;
    var m := MeaningOf(j, v);
    MixedEnds(from, to, i, v);
    var n := |from.items| - i;
    var p := seq(n, _ => Patch("remove", PathText(ps) + "/" + Encode(Decimal(i)), None));
    var q := Appends(PathText(ps), to.items[i..]);
    RemovalsApply(j, ps, i, n, v);
    var r := ApplyAll(j, p, v.cs);
    assert r == (r.0, 0);
    DoneThen(m, ps, MArray(Mixed(from, to, i, v).items[..i]), r.0, MeaningOf(to, v), p, j, q, v);
    AppendsApply(r.0, ps, to.items[i..], v);
  }

  // ----- objects -----

  // An object c in the middle of its patches: d is done, the members xs and ys have not been looked
  // at, and the goal is to be reached.
  ghost predicate Between(c: Meaning, d: map<string, Meaning>, xs: seq<Member>, ys: seq<Member>, goal: Meaning, v: View) {
    var x, y := MembersMeaning(xs, v), MembersMeaning(ys, v);
    c == MObject(d + x) && goal == MObject(d + y) && d.Keys !! x.Keys && d.Keys !! y.Keys
  }

  // The members of `all` that are not left are smaller than the others.
  ghost predicate Passed(all: seq<Member>, left: seq<Member>, others: seq<Member>, cs: bool) {
    forall m, n :: m in all && n in others && Fold(m.key, cs) !in KeySet(left, cs) ==> KeyLess(m.key, n.key, cs)
  }

  // Sorted members with different keys.
  ghost predicate Ascends(xs: seq<Member>, j: Json, cs: bool) {
    MembersOf(xs, j) && DistinctKeys(xs, cs) && Strict(xs, cs)
  }

  lemma HeadMeaning(xs: seq<Member>, v: View)
    requires xs != [] && DistinctKeys(xs, v.cs)
    ensures Fold(xs[0].key, v.cs) !in MembersMeaning(xs[1..], v)
    ensures MembersMeaning(xs, v) == MembersMeaning(xs[1..], v)[Fold(xs[0].key, v.cs) := MeaningOf(xs[0].value, v)]
  {
    hide MeaningOf;
    if Fold(xs[0].key, v.cs) in MembersMeaning(xs[1..], v) {
      var i := MeaningKey(xs[1..], v, Fold(xs[0].key, v.cs));
      assert false;
    }
  }

  lemma KeysMeaning(xs: seq<Member>, v: View)
    requires DistinctKeys(xs, v.cs)
    ensures MembersMeaning(xs, v).Keys == KeySet(xs, v.cs)
  {
    hide MembersMeaning;
    forall k | k in MembersMeaning(xs, v) ensures k in KeySet(xs, v.cs) {
      var i := MeaningKey(xs, v, k);
    }
    forall k | k in KeySet(xs, v.cs) ensures k in MembersMeaning(xs, v) {
      var i :| 0 <= i < |xs| && Fold(xs[i].key, v.cs) == k;
      MeaningLookup(xs, v, i);
    }
  }

  // The key of a member below all that is left is not among the keys of the other object.
  lemma NotAmong(all: seq<Member>, left: seq<Member>, others: seq<Member>, n: Member, cs: bool)
    requires Passed(all, left, others, cs) && n in others && Strict(left, cs)
    requires left != [] ==> KeyLess(n.key, left[0].key, cs)
    ensures Fold(n.key, cs) !in KeySet(left, cs) && Fold(n.key, cs) !in KeySet(all, cs)
  {
    hide KeyLess;
    if Fold(n.key, cs) in KeySet(left, cs) {
      var i :| 0 <= i < |left| && Fold(left[i].key, cs) == Fold(n.key, cs);
      if i > 0 {
        KeyLessTransitive(n.key, left[0].key, left[i].key, cs);
      }
      KeyLessTotal(n.key, left[i].key, cs);
      assert false;
    }
    if Fold(n.key, cs) in KeySet(all, cs) {
      var i :| 0 <= i < |all| && Fold(all[i].key, cs) == Fold(n.key, cs);
      KeyLessTotal(all[i].key, n.key, cs);
      assert false;
    }
  }

  // Dropping the first member that is left.
  lemma PassedNext(all: seq<Member>, left: seq<Member>, others: seq<Member>, rest: seq<Member>, cs: bool)
    requires Passed(all, left, others, cs) && left != []
    requires forall n :: n in rest ==> n in others && KeyLess(left[0].key, n.key, cs)
    ensures Passed(all, left[1..], rest, cs)
  {
    hide KeyLess;
    forall m, n | m in all && n in rest && Fold(m.key, cs) !in KeySet(left[1..], cs) ensures KeyLess(m.key, n.key, cs) {
      if Fold(m.key, cs) in KeySet(left, cs) {
        var i :| 0 <= i < |left| && Fold(left[i].key, cs) == Fold(m.key, cs);
        KeyLessCongruent(left[0].key, m.key, n.key, cs);
      }
    }
  }

  lemma KeyLessCongruent(a: string, b: string, c: string, cs: bool)
    requires Fold(a, cs) == Fold(b, cs) && KeyLess(a, c, cs)
    ensures KeyLess(b, c, cs)
  {
  }

  // Fewer others.
  lemma PassedFewer(all: seq<Member>, left: seq<Member>, others: seq<Member>, cs: bool)
    requires Passed(all, left, others, cs) && others != []
    ensures Passed(all, left, others[1..], cs)
  {
    hide KeyLess;
  }

  lemma AscendsTail(xs: seq<Member>, j: Json, cs: bool)
    requires Ascends(xs, j, cs) && xs != []
    ensures Ascends(xs[1..], j, cs) && forall n :: n in xs[1..] ==> n in xs && KeyLess(xs[0].key, n.key, cs)
  {
    hide KeyLess;
  }

  // The document j while the members of an object in a place are patched.
  ghost predicate Patching(j: Json, ps: seq<Step>, from: Json, to: Json, d: map<string, Meaning>, xs: seq<Member>, ys: seq<Member>, v: View) {
    && !v.raw && from.Object? && to.Object?
    && Unique(j, v.cs) && Unique(from, v.cs) && Unique(to, v.cs) && Patchable(from, to, v.cs) && SmallIndices(ps)
    && Ascends(xs, from, v.cs) && Ascends(ys, to, v.cs)
    && Passed(from.members, xs, ys, v.cs) && Passed(to.members, ys, xs, v.cs)
    && d.Keys <= KeySet(from.members, v.cs) + KeySet(to.members, v.cs)
    && Has(MeaningOf(j, v), ps, v.cs) && Between(MGet(MeaningOf(j, v), ps, v.cs), d, xs, ys, MeaningOf(to, v), v)
  }

  // Any member may be taken out.
  lemma PatchingClear(j: Json, ps: seq<Step>, from: Json, to: Json, d: map<string, Meaning>, xs: seq<Member>, ys: seq<Member>, k: string, v: View)
    requires Patching(j, ps, from, to, d, xs, ys, v) && Fold(k, v.cs) in KeySet(from.members, v.cs)
    ensures MGet(MeaningOf(j, v), ps, v.cs).MObject? && Clear(MGet(MeaningOf(j, v), ps, v.cs).members.Keys, k, v.cs)
  {
    hide MeaningOf, Unique, Survives, Strict, KeyLess, MembersMeaning, Has, MGet;
    KeysMeaning(xs, v);
    var keys := KeySet(from.members, v.cs) + KeySet(to.members, v.cs);
    assert MembersMeaning(xs, v).Keys <= keys by {
      forall x | x in KeySet(xs, v.cs) ensures x in KeySet(from.members, v.cs) {
        var i :| 0 <= i < |xs| && Fold(xs[i].key, v.cs) == x;
        assert xs[i] in from.members;
      }
    }
    assert Clear(keys, Fold(k, v.cs), v.cs);
  }

  lemma BelowAll(m: Member, ys: seq<Member>, cs: bool)
    requires Strict(ys, cs) && (ys != [] ==> KeyLess(m.key, ys[0].key, cs))
    ensures forall n :: n in ys ==> KeyLess(m.key, n.key, cs)
  {
    hide KeyLess;
    forall n | n in ys ensures KeyLess(m.key, n.key, cs) {
      var i :| 0 <= i < |ys| && ys[i] == n;
      if i > 0 {
        KeyLessTransitive(m.key, ys[0].key, n.key, cs);
      }
    }
  }

  // The smallest member that is left is in one object only.
  lemma DropSmallest(from: Json, to: Json, xs: seq<Member>, ys: seq<Member>, cs: bool)
    requires Ascends(xs, from, cs) && Ascends(ys, to, cs) && Passed(from.members, xs, ys, cs) && Passed(to.members, ys, xs, cs)
    requires xs != [] && (ys != [] ==> KeyLess(xs[0].key, ys[0].key, cs))
    ensures Ascends(xs[1..], from, cs) && Passed(from.members, xs[1..], ys, cs) && Passed(to.members, ys, xs[1..], cs)
    ensures xs[0] in from.members && Fold(xs[0].key, cs) in KeySet(from.members, cs)
    ensures Fold(xs[0].key, cs) !in KeySet(to.members, cs) && Fold(xs[0].key, cs) !in KeySet(ys, cs)
  {
    hide KeyLess, Passed, Strict, DistinctKeys;
    NotAmong(to.members, ys, xs, xs[0], cs);
    BelowAll(xs[0], ys, cs);
    PassedNext(from.members, xs, ys, ys, cs);
    PassedFewer(to.members, ys, xs, cs);
    AscendsTail(xs, from, cs);
    assert xs[0] in from.members;
  }

  // The smallest members that are left have the same key.
  lemma DropBoth(from: Json, to: Json, xs: seq<Member>, ys: seq<Member>, cs: bool)
    requires Ascends(xs, from, cs) && Ascends(ys, to, cs) && Passed(from.members, xs, ys, cs) && Passed(to.members, ys, xs, cs)
    requires xs != [] && ys != [] && Fold(xs[0].key, cs) == Fold(ys[0].key, cs)
    ensures Ascends(xs[1..], from, cs) && Ascends(ys[1..], to, cs)
    ensures Passed(from.members, xs[1..], ys[1..], cs) && Passed(to.members, ys[1..], xs[1..], cs)
    ensures xs[0] in from.members && ys[0] in to.members && Fold(xs[0].key, cs) in KeySet(from.members, cs)
  {
    hide KeyLess, Passed, Strict, DistinctKeys;
    AscendsTail(xs, from, cs);
    AscendsTail(ys, to, cs);
    forall n | n in ys[1..] ensures KeyLess(xs[0].key, n.key, cs) {
      KeyLessCongruent(ys[0].key, xs[0].key, n.key, cs);
    }
    forall n | n in xs[1..] ensures KeyLess(ys[0].key, n.key, cs) {
      KeyLessCongruent(xs[0].key, ys[0].key, n.key, cs);
    }
    PassedNext(from.members, xs, ys, ys[1..], cs);
    PassedNext(to.members, ys, xs, xs[1..], cs);
    assert xs[0] in from.members && ys[0] in to.members;
  }

  lemma BetweenRemove(c: Meaning, d: map<string, Meaning>, xs: seq<Member>, ys: seq<Member>, goal: Meaning, v: View)
    requires Between(c, d, xs, ys, goal, v) && xs != [] && DistinctKeys(xs, v.cs)
    ensures CanStep(c, Key(xs[0].key), v.cs) && Between(Removed(c, Key(xs[0].key), v.cs), d, xs[1..], ys, goal, v)
  {
    hide MembersMeaning, MeaningOf;
    HeadMeaning(xs, v);
    var x, k := MembersMeaning(xs[1..], v), Fold(xs[0].key, v.cs);
    assert (d + MembersMeaning(xs, v)) - {k} == d + x;
  }

  // A member of `to` is put in, whether or not it is in the object already.
  lemma BetweenPut(c: Meaning, d: map<string, Meaning>, xs: seq<Member>, ys: seq<Member>, left: seq<Member>, goal: Meaning, v: View)
    requires Between(c, d, xs, ys, goal, v) && ys != [] && DistinctKeys(xs, v.cs) && DistinctKeys(ys, v.cs)
    requires var k := Fold(ys[0].key, v.cs);
             (left == xs && k !in MembersMeaning(xs, v)) || (xs != [] && left == xs[1..] && Fold(xs[0].key, v.cs) == k)
    ensures var k, y := Fold(ys[0].key, v.cs), MeaningOf(ys[0].value, v);
            Between(MObject(c.members[k := y]), d[k := y], left, ys[1..], goal, v)
  {
    hide MembersMeaning, MeaningOf;
    HeadMeaning(ys, v);
    var k, y := Fold(ys[0].key, v.cs), MeaningOf(ys[0].value, v);
    if left != xs {
      HeadMeaning(xs, v);
    }
    assert (d + MembersMeaning(xs, v))[k := y] == d[k := y] + MembersMeaning(left, v);
    assert d + MembersMeaning(ys, v) == d[k := y] + MembersMeaning(ys[1..], v);
  }

  lemma RemoveStep(j: Json, ps: seq<Step>, from: Json, to: Json, d: map<string, Meaning>, xs: seq<Member>, ys: seq<Member>, v: View)
    returns (j1: Json, x: Meaning)
    requires Patching(j, ps, from, to, d, xs, ys, v)
    requires xs != [] && (ys != [] ==> KeyLess(xs[0].key, ys[0].key, v.cs))
    ensures Apply(j, Patch("remove", PathText(ps) + "/" + Encode(xs[0].key), None), v.cs) == (j1, 0)
    ensures Done(MeaningOf(j, v), ps, x, (j1, 0), v) && Patching(j1, ps, from, to, d, xs[1..], ys, v)
  {
    hide MeaningOf, Unique, Apply, Patch, PathText, Encode, KeyLess, Passed, Strict, DistinctKeys, Has, MGet, MPut, KeySet, Between, Clear, ClearKeys,
      Survives, Removed, CanStep;
    var m, key := MeaningOf(j, v), xs[0].key;
    var c := MGet(m, ps, v.cs);
    DropSmallest(from, to, xs, ys, v.cs);
    BetweenRemove(c, d, xs, ys, MeaningOf(to, v), v);
    PatchingClear(j, ps, from, to, d, xs, ys, key, v);
    ApplyRemove(j, ps, Key(key), v);
    x := Removed(c, Key(key), v.cs);
    j1 := Apply(j, Patch("remove", PathText(ps) + "/" + Encode(key), None), v.cs).0;
    PutGet(m, ps, x, x, v.cs);
  }

  lemma AddStep(j: Json, ps: seq<Step>, from: Json, to: Json, d: map<string, Meaning>, xs: seq<Member>, ys: seq<Member>, v: View)
    returns (j1: Json, x: Meaning, e: map<string, Meaning>)
    requires Patching(j, ps, from, to, d, xs, ys, v)
    requires ys != [] && (xs != [] ==> KeyLess(ys[0].key, xs[0].key, v.cs))
    ensures Apply(j, Patch("add", PathText(ps) + "/" + Encode(ys[0].key), Some(ys[0].value)), v.cs) == (j1, 0)
    ensures Done(MeaningOf(j, v), ps, x, (j1, 0), v) && Patching(j1, ps, from, to, e, xs, ys[1..], v)
  {
    hide MeaningOf, Unique, Apply, Patch, PathText, Encode, KeyLess, Passed, Strict, DistinctKeys, Has, MGet, MPut, KeySet, Between, Clear, ClearKeys,
      Survives;
    var m, key, y := MeaningOf(j, v), ys[0].key, MeaningOf(ys[0].value, v);
    var c := MGet(m, ps, v.cs);
    DropSmallest(to, from, ys, xs, v.cs);
    KeysMeaning(xs, v);
    IsObject(c, d, xs, ys, MeaningOf(to, v), v);
    BetweenPut(c, d, xs, ys, xs, MeaningOf(to, v), v);
    MemberUnique(to, ys[0], v.cs);
    ApplyAdd(j, ps, key, ys[0].value, v);
    x, e := MObject(c.members[Fold(key, v.cs) := y]), d[Fold(key, v.cs) := y];
    j1 := Apply(j, Patch("add", PathText(ps) + "/" + Encode(key), Some(ys[0].value)), v.cs).0;
    PutGet(m, ps, x, x, v.cs);
  }

  lemma IsObject(c: Meaning, d: map<string, Meaning>, xs: seq<Member>, ys: seq<Member>, goal: Meaning, v: View)
    requires Between(c, d, xs, ys, goal, v)
    ensures c.MObject?
  {
  }

  lemma MemberUnique(j: Json, m: Member, cs: bool)
    requires Unique(j, cs) && j.Object? && m in j.members
    ensures Unique(m.value, cs)
  {
  }

  // The values of a common key can be patched in their place.
  lemma CommonReady(j: Json, ps: seq<Step>, from: Json, to: Json, d: map<string, Meaning>, xs: seq<Member>, ys: seq<Member>, v: View)
    requires Patching(j, ps, from, to, d, xs, ys, v)
    requires xs != [] && ys != [] && Fold(xs[0].key, v.cs) == Fold(ys[0].key, v.cs)
    ensures var m, qs := MeaningOf(j, v), ps + [Key(xs[0].key)];
            && SmallIndices(qs) && Has(m, qs, v.cs) && MGet(m, qs, v.cs) == MeaningOf(xs[0].value, v)
            && Unique(xs[0].value, v.cs) && Unique(ys[0].value, v.cs) && xs[0] in from.members
            && Patchable(xs[0].value, ys[0].value, v.cs) && (Replaces(xs[0].value, ys[0].value) ==> CanReplace(m, qs, v.cs))
  {
    hide MeaningOf, Unique, KeyLess, Passed, Strict, DistinctKeys, Has, MGet, KeySet, Between, Clear, ClearKeys, Survives, CanStep, StepTo;
    var m, key := MeaningOf(j, v), xs[0].key;
    var qs := ps + [Key(key)];
    DropBoth(from, to, xs, ys, v.cs);
    BetweenHead(MGet(m, ps, v.cs), d, xs, ys, MeaningOf(to, v), v);
    PatchingClear(j, ps, from, to, d, xs, ys, key, v);
    MemberUnique(from, xs[0], v.cs);
    MemberUnique(to, ys[0], v.cs);
    PutBelow(m, ps, Key(key), m, v.cs);
    assert qs[..|qs| - 1] == ps && qs[|qs| - 1] == Key(key);
  }

  lemma {:induction false} CommonStep(j: Json, ps: seq<Step>, from: Json, to: Json, d: map<string, Meaning>, xs: seq<Member>, ys: seq<Member>, v: View)
    returns (j1: Json, x: Meaning, e: map<string, Meaning>)
    requires Patching(j, ps, from, to, d, xs, ys, v)
    requires xs != [] && ys != [] && Fold(xs[0].key, v.cs) == Fold(ys[0].key, v.cs)
    ensures ApplyAll(j, Diff(PathText(ps) + "/" + Encode(xs[0].key), xs[0].value, ys[0].value, v.cs), v.cs) == (j1, 0)
    ensures Done(MeaningOf(j, v), ps, x, (j1, 0), v) && Patching(j1, ps, from, to, e, xs[1..], ys[1..], v)
    decreases from, 1
  {
    hide MeaningOf, Unique, ApplyAll, Diff, PathText, Encode, KeyLess, Passed, Strict, DistinctKeys, Has, MGet, MPut, KeySet, Between, Clear, ClearKeys,
      Survives, Patchable, CanReplace, Replaces;
    var m, key, y := MeaningOf(j, v), xs[0].key, MeaningOf(ys[0].value, v);
    var c, qs := MGet(m, ps, v.cs), ps + [Key(key)];
    CommonReady(j, ps, from, to, d, xs, ys, v);
    DiffApplies(j, qs, xs[0].value, ys[0].value, v);
    PathSnoc(ps, Key(key));
    DropBoth(from, to, xs, ys, v.cs);
    IsObject(c, d, xs, ys, MeaningOf(to, v), v);
    BetweenPut(c, d, xs, ys, xs[1..], MeaningOf(to, v), v);
    BetweenHead(c, d, xs, ys, MeaningOf(to, v), v);
    PutBelow(m, ps, Key(key), y, v.cs);
    x, e := MObject(c.members[Fold(key, v.cs) := y]), d[Fold(key, v.cs) := y];
    var r := ApplyAll(j, Diff(PathText(ps) + "/" + Encode(key), xs[0].value, ys[0].value, v.cs), v.cs);
    j1 := r.0;
    assert r == (j1, 0);
    PutGet(m, ps, x, x, v.cs);
  }

  lemma BetweenHead(c: Meaning, d: map<string, Meaning>, xs: seq<Member>, ys: seq<Member>, goal: Meaning, v: View)
    requires Between(c, d, xs, ys, goal, v) && xs != [] && DistinctKeys(xs, v.cs)
    ensures CanStep(c, Key(xs[0].key), v.cs) && StepTo(c, Key(xs[0].key), v.cs) == MeaningOf(xs[0].value, v)
  {
    hide MembersMeaning, MeaningOf;
    HeadMeaning(xs, v);
  }

  lemma {:induction false} MembersApply(j: Json, ps: seq<Step>, from: Json, to: Json, d: map<string, Meaning>, xs: seq<Member>, ys: seq<Member>, v: View)
    requires Patching(j, ps, from, to, d, xs, ys, v)
    ensures Done(MeaningOf(j, v), ps, MeaningOf(to, v), ApplyAll(j, DiffMembers(PathText(ps), from, xs, ys, v.cs), v.cs), v)
    decreases from, 2, |xs| + |ys|
  {
    hide MeaningOf, Unique, ApplyAll, Apply, Diff, Patch, PathText, Encode, KeyLess, Passed, Strict, DistinctKeys, MGet, MPut, KeySet, Patchable, MembersMeaning;
    var m, path, goal := MeaningOf(j, v), PathText(ps), MeaningOf(to, v);
    if xs == [] && ys == [] {
      NothingLeft(j, ps, d, goal, v);
      DoneNothing(j, ps, v);
    } else if ys == [] || (xs != [] && KeyLess(xs[0].key, ys[0].key, v.cs)) {
      var p := [Patch("remove", path + "/" + Encode(xs[0].key), None)];
      var j1, x := RemoveStep(j, ps, from, to, d, xs, ys, v);
      ApplyOne(j, p[0], v.cs);
      DoneThen(m, ps, x, j1, goal, p, j, DiffMembers(path, from, xs[1..], ys, v.cs), v);
      MembersApply(j1, ps, from, to, d, xs[1..], ys, v);
    } else if xs == [] || KeyLess(ys[0].key, xs[0].key, v.cs) {
      var p := [Patch("add", path + "/" + Encode(ys[0].key), Some(ys[0].value))];
      var j1, x, e := AddStep(j, ps, from, to, d, xs, ys, v);
      ApplyOne(j, p[0], v.cs);
      DoneThen(m, ps, x, j1, goal, p, j, DiffMembers(path, from, xs, ys[1..], v.cs), v);
      MembersApply(j1, ps, from, to, e, xs, ys[1..], v);
    } else {
      KeyLessTotal(xs[0].key, ys[0].key, v.cs);
      var p := Diff(path + "/" + Encode(xs[0].key), xs[0].value, ys[0].value, v.cs);
      var j1, x, e := CommonStep(j, ps, from, to, d, xs, ys, v);
      DoneThen(m, ps, x, j1, goal, p, j, DiffMembers(path, from, xs[1..], ys[1..], v.cs), v);
      MembersApply(j1, ps, from, to, e, xs[1..], ys[1..], v);
    }
  }

  lemma NothingLeft(j: Json, ps: seq<Step>, d: map<string, Meaning>, goal: Meaning, v: View)
    requires Has(MeaningOf(j, v), ps, v.cs) && Between(MGet(MeaningOf(j, v), ps, v.cs), d, [], [], goal, v)
    ensures MGet(MeaningOf(j, v), ps, v.cs) == goal
  {
  }

  lemma {:induction false} DiffApplies(j: Json, ps: seq<Step>, from: Json, to: Json, v: View)
    requires Unique(j, v.cs) && Unique(from, v.cs) && Unique(to, v.cs) && SmallIndices(ps) && !v.raw
    requires Has(MeaningOf(j, v), ps, v.cs) && MGet(MeaningOf(j, v), ps, v.cs) == MeaningOf(from, v)
    requires Patchable(from, to, v.cs) && (Replaces(from, to) ==> CanReplace(MeaningOf(j, v), ps, v.cs))
    ensures Done(MeaningOf(j, v), ps, MeaningOf(to, v), ApplyAll(j, Diff(PathText(ps), from, to, v.cs), v.cs), v)
    decreases from, 3
  {
    hide Unique, Has, MGet, MPut, ApplyAll, Apply, Patch, PathText, DiffItems, DiffMembers, Patchable, Ordered, CanReplace;
    if Replaces(from, to) {
      ApplyReplace(j, ps, to, v);
      ApplyOne(j, Patch("replace", PathText(ps), Some(to)), v.cs);
    } else if from.Array? {
      MixedEnds(from, to, 0, v);
      ItemsApply(j, ps, from, to, 0, v);
    } else if from.Object? {
      StartMembers(j, ps, from, to, v);
      MembersApply(j, ps, from, to, map[], Ordered(from, v.cs), Ordered(to, v.cs), v);
    } else {
      DoneNothing(j, ps, v);
    }
  }

  lemma StartMembers(j: Json, ps: seq<Step>, from: Json, to: Json, v: View)
    requires from.Object? && to.Object? && !v.raw && Patchable(from, to, v.cs)
    requires Unique(j, v.cs) && Unique(from, v.cs) && Unique(to, v.cs) && SmallIndices(ps)
    requires Has(MeaningOf(j, v), ps, v.cs) && MGet(MeaningOf(j, v), ps, v.cs) == MeaningOf(from, v)
    ensures Patching(j, ps, from, to, map[], Ordered(from, v.cs), Ordered(to, v.cs), v)
  {
    hide MembersMeaning, Has, MGet, Strict, SortMembers, Patchable, DistinctKeys, KeySet, KeyLess;
    var xs, ys := Ordered(from, v.cs), Ordered(to, v.cs);
    OrderedAscends(from, v);
    OrderedAscends(to, v);
    NonePassed(from, xs, ys, v.cs);
    NonePassed(to, ys, xs, v.cs);
    assert map[] + MembersMeaning(xs, v) == MembersMeaning(from.members, v);
    assert map[] + MembersMeaning(ys, v) == MembersMeaning(to.members, v);
  }

  lemma OrderedAscends(j: Json, v: View)
    requires j.Object? && Unique(j, v.cs)
    ensures var xs := Ordered(j, v.cs);
            && Ascends(xs, j, v.cs) && MembersMeaning(xs, v) == MembersMeaning(j.members, v)
            && forall m :: m in j.members ==> m in xs
  {
    hide MembersMeaning, Strict, SortMembers;
    var xs := Ordered(j, v.cs);
    assert xs == SortMembers(j.members, v.cs);
    SortedMembers(j.members, v.cs);
    MeaningOrder(j.members, xs, v);
    forall m | m in j.members ensures m in xs {
      assert m in multiset(xs);
    }
  }

  lemma NonePassed(j: Json, xs: seq<Member>, ys: seq<Member>, cs: bool)
    requires j.Object? && forall m :: m in j.members ==> m in xs
    ensures Passed(j.members, xs, ys, cs)
  {
    forall m | m in j.members ensures Fold(m.key, cs) in KeySet(xs, cs) {
      var i :| 0 <= i < |xs| && xs[i] == m;
    }
  }

  /** For all trees with different keys in every object: the patches from one tree to the other,
      applied to a tree that means the first (a duplicate of it), succeed and leave one that means
      the second. */
  lemma PatchLaw(j: Json, from: Json, to: Json, cs: bool)
    requires Unique(j, cs) && Unique(from, cs) && Unique(to, cs) && Patchable(from, to, cs)
    requires MeaningOf(j, View(cs, false)) == MeaningOf(from, View(cs, false))
    ensures var r := ApplyAll(j, Diff("", from, to, cs), cs);
            r.1 == 0 && Unique(r.0, cs) && MeaningOf(r.0, View(cs, false)) == MeaningOf(to, View(cs, false))
  {
    hide MeaningOf, Unique, Diff, ApplyAll, Patchable;
    DiffApplies(j, [], from, to, View(cs, false));
  }
}
