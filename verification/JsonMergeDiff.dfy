/**
 Generating a JSON Merge Patch (stage/cjson/cJSON_Utils.c, `generate_merge_patch`): the merge
 of the patch leads from one tree to the other.
 */
module JsonMergeDiff {
  import opened Basics
  import opened KeyOrder
  import opened MergeSort
  import opened JsonValue
  import opened JsonCompare
  import opened JsonPlace
  import opened JsonOps
  import opened JsonDiff
  import opened JsonDiffLaw
  import opened JsonMerge
  import opened JsonMergeWalk
  import JsonDoc

  // ----- nulls -----

  // Every null member of t, outside of arrays, is a null member of f in the same place.
  ghost predicate NullsKept(f: Option<Meaning>, t: Meaning)
    decreases t
  {
    t.MObject? ==> forall k :: k in t.members ==> NullKept(f, t, k)
  }

  ghost predicate NullKept(f: Option<Meaning>, t: Meaning, k: string)
    requires t.MObject? && k in t.members
    decreases t, 0
  {
    if t.members[k] == MNull then Find(Members(f), k) == Some(MNull) else NullsKept(Find(Members(f), k), t.members[k])
  }

  ghost predicate KeptKey(f: Option<Meaning>, y: Meaning) {
    if y == MNull then f == Some(MNull) else NullsKept(f, y)
  }

  lemma {:induction false} KeepsOwn(m: Meaning)
    ensures NullsKept(Some(m), m)
    decreases m
  {
    if m.MObject? {
      forall k | k in m.members ensures NullKept(Some(m), m, k) {
        KeepsOwn(m.members[k]);
      }
    }
  }

  // Two objects are equal if they are so in every key.
  lemma MergedIs(f: Option<Meaning>, p: Meaning, t: Meaning)
    requires p.MObject? && t.MObject?
    requires forall k :: MergedKey(Find(Members(f), k), Find(p.members, k)) == Find(t.members, k) <==>
                         (k in t.members ==> NullKept(f, t, k))
    ensures Merged(f, p) == t <==> NullsKept(f, t)
  {
    hide Merged;
    MergedMembers(f, p, "");
    if Merged(f, p) == t {
      forall k | k in t.members ensures NullKept(f, t, k) {
        MergedMembers(f, p, k);
      }
    }
    if NullsKept(f, t) {
      forall k ensures Find(Merged(f, p).members, k) == Find(t.members, k) {
        MergedMembers(f, p, k);
        assert k in t.members ==> NullKept(f, t, k);
      }
      SameMaps(Merged(f, p).members, t.members);
    }
  }

  // A tree merged into nothing, or into something that is not an object.
  lemma {:induction false} MergedFresh(f: Option<Meaning>, t: Meaning)
    requires f.None? || !f.value.MObject? || !t.MObject?
    ensures Merged(f, t) == t <==> NullsKept(f, t)
    decreases t
  {
    if t.MObject? {
      forall k ensures MergedKey(Find(Members(f), k), Find(t.members, k)) == Find(t.members, k) <==> (k in t.members ==> NullKept(f, t, k)) {
        if k in t.members {
          MergedFresh(None, t.members[k]);
        }
      }
      MergedIs(f, t, t);
    }
  }

  // ----- `generate_merge_patch` -----

  // What the patch has to say about a key with value f in `from` and t in `to`.
  ghost predicate KeyOk(f: Option<Meaning>, t: Option<Meaning>, p: Option<Meaning>) {
    match (f, t)
    case (None, _) => p == t
    case (Some(_), None) => p == Some(MNull)
    case (Some(x), Some(y)) =>
      if x == y then p == None
      else p.Some? && (p.value == MNull <==> y == MNull) && (Merged(f, p.value) == y <==> NullsKept(f, y))
  }

  lemma KeyMerged(f: Option<Meaning>, t: Option<Meaning>, p: Option<Meaning>)
    requires KeyOk(f, t, p)
    ensures MergedKey(f, p) == t <==> (t.Some? ==> KeptKey(f, t.value))
  {
    if t.Some? {
      if f.None? {
        MergedFresh(None, t.value);
      } else if f == t {
        KeepsOwn(t.value);
      }
    }
  }

  lemma KeyAbsent(f: Option<Meaning>, t: Option<Meaning>)
    requires KeyOk(f, t, None)
    ensures f == t
  {
  }

  /** A patch that is right in every key leads to `to` if and only if the nulls of `to` are kept. */
  lemma PatchMerged(f: Meaning, t: Meaning, p: Meaning)
    requires f.MObject? && t.MObject? && p.MObject?
    requires forall k :: KeyOk(Find(f.members, k), Find(t.members, k), Find(p.members, k))
    ensures Merged(Some(f), p) == t <==> NullsKept(Some(f), t)
    ensures p.members == map[] ==> f == t
  {
    hide Merged, KeyOk, NullsKept, MergedKey;
    forall k ensures MergedKey(Find(Members(Some(f)), k), Find(p.members, k)) == Find(t.members, k) <==>
                     (k in t.members ==> NullKept(Some(f), t, k))
    {
      KeyMerged(Find(f.members, k), Find(t.members, k), Find(p.members, k));
    }
    MergedIs(Some(f), p, t);
    if p.members == map[] {
      forall k ensures Find(f.members, k) == Find(t.members, k) {
        KeyAbsent(Find(f.members, k), Find(t.members, k));
      }
      SameMaps(f.members, t.members);
    }
  }

  ghost predicate Lowercase(j: Json)
    decreases j
  {
    match j
    case Array(items) => forall i :: 0 <= i < |items| ==> Lowercase(items[i])
    case Object(ms) => forall i :: 0 <= i < |ms| ==> Lower(ms[i].key) == ms[i].key && Lowercase(ms[i].value)
    case _ => true
  }

  function KeyList(ms: seq<Member>): (r: seq<string>)
    ensures |r| == |ms| && forall i :: 0 <= i < |ms| ==> r[i] == ms[i].key
  {
    seq(|ms|, i requires 0 <= i < |ms| => ms[i].key)
  }

  // No two keys are the same but for their case.
  ghost predicate OneCase(from: Json, to: Json, cs: bool)
    requires from.Object? && to.Object?
  {
    forall m, n :: m in from.members + to.members && n in from.members + to.members && Fold(m.key, cs) == Fold(n.key, cs) ==> m.key == n.key
  }

  // The generator sorts by one order of keys and compares by another, `strcmp`; below the first
  // level it always ignores case. All common keys are paired nevertheless.
  ghost predicate Orderly(from: Json, to: Json, cs: bool, v: View)
    decreases from
  {
    from.Object? && to.Object? ==>
      && OneCase(from, to, cs) && PairsAll(KeyList(Ordered(from, cs)), KeyList(Ordered(to, cs)))
      && (forall m, n :: m in from.members && n in to.members && m.key == n.key ==>
            (cs == v.cs || (Lowercase(m.value) && Lowercase(n.value))) && Orderly(m.value, n.value, false, v))
  }

  // The case of keys does not matter in lower-case trees.
  lemma {:induction false} LowerView(j: Json, raw: bool)
    requires Lowercase(j)
    ensures MeaningOf(j, View(true, raw)) == MeaningOf(j, View(false, raw)) && (Unique(j, true) ==> Unique(j, false))
    decreases j, 1
  {
    match j
    case Array(items) =>
      forall i | 0 <= i < |items|
        ensures MeaningOf(items[i], View(true, raw)) == MeaningOf(items[i], View(false, raw)) && (Unique(items[i], true) ==> Unique(items[i], false))
      {
        LowerView(items[i], raw);
      }
    case Object(ms) => LowerMembers(ms, raw);
    case _ =>
  }

  lemma {:induction false} LowerMembers(ms: seq<Member>, raw: bool)
    requires forall i :: 0 <= i < |ms| ==> Lower(ms[i].key) == ms[i].key && Lowercase(ms[i].value)
    ensures MembersMeaning(ms, View(true, raw)) == MembersMeaning(ms, View(false, raw))
    ensures forall i :: 0 <= i < |ms| && Unique(ms[i].value, true) ==> Unique(ms[i].value, false)
    decreases ms, 0
  {
    if ms != [] {
      LowerView(ms[0].value, raw);
      LowerMembers(ms[1..], raw);
      assert forall i :: 1 <= i < |ms| ==> ms[i] == ms[1..][i - 1];
    }
  }

  lemma SameLevel(x: Json, y: Json, cs: bool, v: View)
    requires !v.raw && (cs ==> v.cs) && Unique(x, v.cs) && Unique(y, v.cs) && (cs == v.cs || (Lowercase(x) && Lowercase(y)))
    ensures Same(x, y, cs) <==> MeaningOf(x, v) == MeaningOf(y, v)
  {
    hide Same, MeaningOf, Unique, Lowercase;
    if cs != v.cs {
      LowerView(x, false);
      LowerView(y, false);
    }
    SameMeaning(x, y, cs);
  }

  // ----- the keys of the patch -----

  ghost predicate KeyState(f: map<string, Meaning>, t: map<string, Meaning>, p: map<string, Meaning>, left: set<string>, k: string) {
    if k in left then k !in p else KeyOk(Find(f, k), Find(t, k), Find(p, k))
  }

  ghost predicate KeysState(f: map<string, Meaning>, t: map<string, Meaning>, p: map<string, Meaning>, left: set<string>) {
    forall k :: KeyState(f, t, p, left, k)
  }

  lemma KeyAdvance(f: map<string, Meaning>, t: map<string, Meaning>, p: map<string, Meaning>, left: set<string>, k: string, q: Option<Meaning>)
    requires KeysState(f, t, p, left) && k in left && KeyOk(Find(f, k), Find(t, k), q)
    ensures k !in p && KeysState(f, t, if q.Some? then p[k := q.value] else p, left - {k})
  {
    hide KeyOk;
    assert KeyState(f, t, p, left, k);
    var r := if q.Some? then p[k := q.value] else p;
    forall x ensures KeyState(f, t, r, left - {k}, x) {
      assert KeyState(f, t, p, left, x);
    }
  }

  // A key among xs that is in the object j is among ys as well.
  ghost predicate Awaits(xs: seq<Member>, j: Json, ys: seq<Member>, cs: bool)
    requires j.Object?
  {
    forall i :: 0 <= i < |xs| && Fold(xs[i].key, cs) in KeySet(j.members, cs) ==> Fold(xs[i].key, cs) in KeySet(ys, cs)
  }

  // What is left of both objects.
  ghost predicate Left(a: Json, b: Json, xs: seq<Member>, ys: seq<Member>, cs: bool) {
    && a.Object? && b.Object? && MembersOf(xs, a) && MembersOf(ys, b) && DistinctKeys(xs, cs) && DistinctKeys(ys, cs)
    && Awaits(xs, b, ys, cs) && Awaits(ys, a, xs, cs)
  }

  // The patch pm in the middle of its generation.
  ghost predicate Generating(from: Json, to: Json, pm: seq<Member>, xs: seq<Member>, ys: seq<Member>, cs: bool, v: View) {
    && from.Object? && to.Object? && !v.raw && (cs ==> v.cs)
    && Unique(from, v.cs) && Unique(to, v.cs) && Orderly(from, to, cs, v) && Unique(Object(pm), v.cs)
    && Left(from, to, xs, ys, v.cs) && PairsAll(KeyList(xs), KeyList(ys))
    && KeysState(MembersMeaning(from.members, v), MembersMeaning(to.members, v), MembersMeaning(pm, v), KeySet(xs, v.cs) + KeySet(ys, v.cs))
  }

  // Keys are the same key in both views.
  lemma OneKey(from: Json, to: Json, m: Member, n: Member, cs: bool, v: View)
    requires from.Object? && to.Object? && (cs ==> v.cs) && OneCase(from, to, cs)
    requires m in from.members + to.members && n in from.members + to.members
    ensures Fold(m.key, v.cs) == Fold(n.key, v.cs) <==> m.key == n.key
  {
  }

  // A key that is not among ys as a string is not among them in the view either.
  lemma NotAmong(from: Json, to: Json, m: Member, ys: seq<Member>, cs: bool, v: View)
    requires from.Object? && to.Object? && (cs ==> v.cs) && OneCase(from, to, cs)
    requires m in from.members + to.members && m.key !in KeyList(ys)
    requires MembersOf(ys, from) || MembersOf(ys, to)
    ensures Fold(m.key, v.cs) !in KeySet(ys, v.cs)
  {
    hide OneCase;
    forall i | 0 <= i < |ys| ensures Fold(ys[i].key, v.cs) != Fold(m.key, v.cs) {
      assert ys[i] in from.members + to.members;
      OneKey(from, to, ys[i], m, cs, v);
      assert KeyList(ys)[i] == ys[i].key;
    }
  }

  // The first key is in one object alone.
  lemma LeftAlone(a: Json, b: Json, xs: seq<Member>, ys: seq<Member>, cs: bool)
    requires Left(a, b, xs, ys, cs) && xs != [] && Fold(xs[0].key, cs) !in KeySet(ys, cs)
    ensures Left(a, b, xs[1..], ys, cs) && Fold(xs[0].key, cs) !in KeySet(b.members, cs)
  {
    KeyTail(xs, cs);
    forall i | 0 <= i < |ys| && Fold(ys[i].key, cs) in KeySet(a.members, cs) ensures Fold(ys[i].key, cs) in KeySet(xs[1..], cs) {
    }
  }

  // The first keys are the same.
  lemma LeftBoth(a: Json, b: Json, xs: seq<Member>, ys: seq<Member>, cs: bool)
    requires Left(a, b, xs, ys, cs) && xs != [] && ys != [] && xs[0].key == ys[0].key
    ensures Left(a, b, xs[1..], ys[1..], cs)
  {
    KeyTail(xs, cs);
    KeyTail(ys, cs);
    forall i | 0 <= i < |xs[1..]| && Fold(xs[1..][i].key, cs) in KeySet(b.members, cs) ensures Fold(xs[1..][i].key, cs) in KeySet(ys[1..], cs) {
      assert xs[1..][i] == xs[i + 1];
    }
    forall i | 0 <= i < |ys[1..]| && Fold(ys[1..][i].key, cs) in KeySet(a.members, cs) ensures Fold(ys[1..][i].key, cs) in KeySet(xs[1..], cs) {
      assert ys[1..][i] == ys[i + 1];
    }
  }

  lemma LeftTurned(a: Json, b: Json, xs: seq<Member>, ys: seq<Member>, cs: bool)
    requires Left(a, b, xs, ys, cs)
    ensures Left(b, a, ys, xs, cs)
  {
  }

  lemma KeyListTail(xs: seq<Member>)
    requires xs != []
    ensures KeyList(xs)[1..] == KeyList(xs[1..]) && KeyList(xs)[0] == xs[0].key
  {
  }

  // One step of the walk.
  lemma WalkStep(xs: seq<Member>, ys: seq<Member>)
    requires PairsAll(KeyList(xs), KeyList(ys))
    ensures xs != [] && (ys != [] ==> StrLess(xs[0].key, ys[0].key)) ==> xs[0].key !in KeyList(ys) && PairsAll(KeyList(xs[1..]), KeyList(ys))
    ensures ys != [] && (xs != [] ==> StrLess(ys[0].key, xs[0].key)) ==> ys[0].key !in KeyList(xs) && PairsAll(KeyList(xs), KeyList(ys[1..]))
    ensures xs != [] && ys != [] && xs[0].key == ys[0].key ==> PairsAll(KeyList(xs[1..]), KeyList(ys[1..]))
  {
    hide StrLess;
    if xs != [] {
      KeyListTail(xs);
    }
    if ys != [] {
      KeyListTail(ys);
    }
    if xs != [] && ys != [] {
      StrLessTotal(xs[0].key, ys[0].key);
    }
  }

  lemma KeyTail(xs: seq<Member>, cs: bool)
    requires xs != [] && DistinctKeys(xs, cs)
    ensures Fold(xs[0].key, cs) in KeySet(xs, cs) && KeySet(xs[1..], cs) == KeySet(xs, cs) - {Fold(xs[0].key, cs)}
  {
    var tail := xs[1..];
    forall k | k in KeySet(xs, cs) && k != Fold(xs[0].key, cs) ensures k in KeySet(tail, cs) {
      var i :| 0 <= i < |xs| && Fold(xs[i].key, cs) == k;
      assert tail[i - 1] == xs[i];
    }
  }

  lemma MemberMeaning(j: Json, m: Member, v: View)
    requires j.Object? && Unique(j, v.cs) && m in j.members
    ensures Find(MembersMeaning(j.members, v), Fold(m.key, v.cs)) == Some(MeaningOf(m.value, v))
  {
    hide MembersMeaning;
    var i :| 0 <= i < |j.members| && j.members[i] == m;
    MeaningLookup(j.members, v, i);
  }

  lemma NoMemberMeaning(j: Json, key: string, v: View)
    requires j.Object? && Unique(j, v.cs) && Fold(key, v.cs) !in KeySet(j.members, v.cs)
    ensures Find(MembersMeaning(j.members, v), Fold(key, v.cs)) == None
  {
    hide MembersMeaning;
    KeysMeaning(j.members, v);
  }

  lemma AppendPatch(pm: seq<Member>, key: string, x: Json, v: View)
    requires Unique(Object(pm), v.cs) && Unique(x, v.cs) && Fold(key, v.cs) !in MembersMeaning(pm, v)
    ensures Unique(Object(pm + [Member(key, x)]), v.cs)
    ensures MembersMeaning(pm + [Member(key, x)], v) == MembersMeaning(pm, v)[Fold(key, v.cs) := MeaningOf(x, v)]
  {
    hide MembersMeaning;
    MembersAppend(pm, Member(key, x), v);
    AppendDistinct(pm, Member(key, x), v);
  }

  // The first key is in `from` only: null.
  lemma GenerateRemove(from: Json, to: Json, pm: seq<Member>, xs: seq<Member>, ys: seq<Member>, cs: bool, v: View)
    requires Generating(from, to, pm, xs, ys, cs, v)
    requires xs != [] && (ys != [] ==> StrLess(xs[0].key, ys[0].key))
    ensures Generating(from, to, pm + [Member(xs[0].key, Null)], xs[1..], ys, cs, v)
  {
    hide MembersMeaning, MeaningOf, Unique, DistinctKeys, StrLess, Awaits, KeySet, OneCase, PairsAll, KeyList, Ordered, KeyOk, KeysState;
    var x, k := xs[0], Fold(xs[0].key, v.cs);
    WalkStep(xs, ys);
    NotAmong(from, to, x, ys, cs, v);
    LeftAlone(from, to, xs, ys, v.cs);
    KeyTail(xs, v.cs);
    MemberMeaning(from, x, v);
    NoMemberMeaning(to, x.key, v);
    OkRemoved(Find(MembersMeaning(from.members, v), k), v);
    KeyAdvance(MembersMeaning(from.members, v), MembersMeaning(to.members, v), MembersMeaning(pm, v), KeySet(xs, v.cs) + KeySet(ys, v.cs), k, Some(MNull));
    NullUnique(v.cs);
    AppendPatch(pm, x.key, Null, v);
    assert MeaningOf(Null, v) == MNull by { NullMeaning(v); }
    assert KeySet(xs[1..], v.cs) + KeySet(ys, v.cs) == KeySet(xs, v.cs) + KeySet(ys, v.cs) - {k};
  }

  lemma OkRemoved(f: Option<Meaning>, v: View)
    requires f.Some?
    ensures KeyOk(f, None, Some(MNull))
  {
  }

  lemma NullMeaning(v: View)
    ensures MeaningOf(Null, v) == MNull
  {
  }

  // The first key is in `to` only: its value.
  lemma GenerateAdd(from: Json, to: Json, pm: seq<Member>, xs: seq<Member>, ys: seq<Member>, cs: bool, v: View)
    requires Generating(from, to, pm, xs, ys, cs, v)
    requires ys != [] && (xs != [] ==> StrLess(ys[0].key, xs[0].key))
    ensures Generating(from, to, pm + [Member(ys[0].key, ys[0].value)], xs, ys[1..], cs, v)
  {
    hide MembersMeaning, MeaningOf, Unique, DistinctKeys, StrLess, Awaits, KeySet, OneCase, PairsAll, KeyList, Ordered, KeyOk, KeysState;
    var y, k := ys[0], Fold(ys[0].key, v.cs);
    WalkStep(xs, ys);
    NotAmong(from, to, y, xs, cs, v);
    LeftTurned(from, to, xs, ys, v.cs);
    LeftAlone(to, from, ys, xs, v.cs);
    LeftTurned(to, from, ys[1..], xs, v.cs);
    KeyTail(ys, v.cs);
    MemberMeaning(to, y, v);
    NoMemberMeaning(from, y.key, v);
    OkAdded(Some(MeaningOf(y.value, v)));
    KeyAdvance(MembersMeaning(from.members, v), MembersMeaning(to.members, v), MembersMeaning(pm, v), KeySet(xs, v.cs) + KeySet(ys, v.cs), k,
               Some(MeaningOf(y.value, v)));
    MemberUnique(to, y, v.cs);
    AppendPatch(pm, y.key, y.value, v);
    assert KeySet(xs, v.cs) + KeySet(ys[1..], v.cs) == KeySet(xs, v.cs) + KeySet(ys, v.cs) - {k};
  }

  lemma OkAdded(t: Option<Meaning>)
    ensures KeyOk(None, t, t)
  {
  }

  // The values of a common key can be compared, and patched.
  lemma GenerateCommon(from: Json, to: Json, pm: seq<Member>, xs: seq<Member>, ys: seq<Member>, cs: bool, v: View)
    requires Generating(from, to, pm, xs, ys, cs, v)
    requires xs != [] && ys != [] && xs[0].key == ys[0].key
    ensures xs[0] in from.members && Unique(xs[0].value, v.cs) && Unique(ys[0].value, v.cs) && Orderly(xs[0].value, ys[0].value, false, v)
    ensures Same(xs[0].value, ys[0].value, cs) <==> MeaningOf(xs[0].value, v) == MeaningOf(ys[0].value, v)
  {
    hide MembersMeaning, MeaningOf, Unique, DistinctKeys, StrLess, Awaits, KeySet, KeysState, Same, Lowercase, PairsAll, KeyList, Ordered, OneCase;
    MemberUnique(from, xs[0], v.cs);
    MemberUnique(to, ys[0], v.cs);
    SameLevel(xs[0].value, ys[0].value, cs, v);
  }

  // A common key: nothing, or the patch for its values.
  lemma GenerateBoth(from: Json, to: Json, pm: seq<Member>, xs: seq<Member>, ys: seq<Member>, q: Option<Json>, cs: bool, v: View)
    requires Generating(from, to, pm, xs, ys, cs, v)
    requires xs != [] && ys != [] && xs[0].key == ys[0].key && UniqueIfAny(q, v.cs)
    requires KeyOk(Some(MeaningOf(xs[0].value, v)), Some(MeaningOf(ys[0].value, v)), Meant(q, v))
    ensures Generating(from, to, if q.Some? then pm + [Member(ys[0].key, q.value)] else pm, xs[1..], ys[1..], cs, v)
  {
    hide MembersMeaning, MeaningOf, Unique, DistinctKeys, Awaits, KeySet, Orderly, PairsAll, KeyList, KeyOk, KeysState;
    var x, y, k := xs[0], ys[0], Fold(ys[0].key, v.cs);
    WalkStep(xs, ys);
    LeftBoth(from, to, xs, ys, v.cs);
    KeyTail(xs, v.cs);
    KeyTail(ys, v.cs);
    MemberMeaning(from, x, v);
    MemberMeaning(to, y, v);
    KeyAdvance(MembersMeaning(from.members, v), MembersMeaning(to.members, v), MembersMeaning(pm, v), KeySet(xs, v.cs) + KeySet(ys, v.cs), k, Meant(q, v));
    if q.Some? {
      AppendPatch(pm, y.key, q.value, v);
    }
    assert KeySet(xs[1..], v.cs) + KeySet(ys[1..], v.cs) == KeySet(xs, v.cs) + KeySet(ys, v.cs) - {k};
  }

  lemma GenerateStart(from: Json, to: Json, cs: bool, v: View)
    requires from.Object? && to.Object? && !v.raw && (cs ==> v.cs) && Unique(from, v.cs) && Unique(to, v.cs) && Orderly(from, to, cs, v)
    ensures Generating(from, to, [], Ordered(from, cs), Ordered(to, cs), cs, v)
  {
    hide MeaningOf, MembersMeaning, DistinctKeys, Ordered, KeyOk, KeySet, OneCase, PairsAll, KeyList;
    var xs, ys := Ordered(from, cs), Ordered(to, cs);
    OrderedMembers(from, cs, v.cs);
    OrderedMembers(to, cs, v.cs);
    EmptyUnique(v);
    KeysMeaning(from.members, v);
    KeysMeaning(to.members, v);
    StartKeys(MembersMeaning(from.members, v), MembersMeaning(to.members, v));
  }

  lemma StartKeys(f: map<string, Meaning>, t: map<string, Meaning>)
    ensures KeysState(f, t, map[], f.Keys + t.Keys)
  {
  }

  lemma EmptyUnique(v: View)
    ensures Unique(Object([]), v.cs) && MembersMeaning([], v) == map[]
  {
  }

  // Sorting keeps the keys, in any view.
  lemma OrderedMembers(j: Json, cs: bool, ds: bool)
    requires j.Object? && DistinctKeys(j.members, ds)
    ensures var xs := Ordered(j, cs);
            DistinctKeys(xs, ds) && KeySet(xs, ds) == KeySet(j.members, ds)
  {
    hide SortMembers, DistinctKeys, Strict;
    var xs := Ordered(j, cs);
    assert xs == SortMembers(j.members, cs);
    SortedMembers(j.members, cs);
    PermutedDistinct(j.members, xs, ds);
    forall i | 0 <= i < |j.members| ensures j.members[i] in xs {
      assert j.members[i] in multiset(xs);
    }
    KeySubset(xs, j.members, ds);
    KeySubset(j.members, xs, ds);
  }

  lemma KeySubset(a: seq<Member>, b: seq<Member>, cs: bool)
    requires forall i :: 0 <= i < |a| ==> a[i] in b
    ensures KeySet(a, cs) <= KeySet(b, cs)
  {
    forall k | k in KeySet(a, cs) ensures k in KeySet(b, cs) {
      var i :| 0 <= i < |a| && Fold(a[i].key, cs) == k;
      var j :| 0 <= j < |b| && b[j] == a[i];
    }
  }

  lemma GenerateEnd(from: Json, to: Json, pm: seq<Member>, cs: bool, v: View)
    requires Generating(from, to, pm, [], [], cs, v)
    ensures pm == [] ==> MeaningOf(from, v) == MeaningOf(to, v)
    ensures Merged(Some(MeaningOf(from, v)), MeaningOf(Object(pm), v)) == MeaningOf(to, v) <==> NullsKept(Some(MeaningOf(from, v)), MeaningOf(to, v))
  {
    hide MembersMeaning, Merged, NullsKept, KeyOk, Unique, Orderly, Left;
    var f, t, p := MembersMeaning(from.members, v), MembersMeaning(to.members, v), MembersMeaning(pm, v);
    forall k ensures KeyOk(Find(f, k), Find(t, k), Find(p, k)) {
      assert KeyState(f, t, p, KeySet([], v.cs) + KeySet([], v.cs), k);
    }
    PatchMerged(MObject(f), MObject(t), MObject(p));
    EmptyUnique(v);
  }

  // The contract of a generated patch.
  ghost predicate Generated(from: Json, to: Json, r: Option<Json>, v: View) {
    var f, t := MeaningOf(from, v), MeaningOf(to, v);
    match r
    case None => f == t
    case Some(p) =>
      && Unique(p, v.cs) && (MeaningOf(p, v) == MNull <==> t == MNull)
      && (Merged(Some(f), MeaningOf(p, v)) == t <==> NullsKept(Some(f), t))
  }

  // `compare_json`; the order in which it leaves members does not matter here.
  method CompareValues(a: Json, b: Json, cs: bool) returns (eq: bool)
    ensures eq == Same(a, b, cs)
  {
    var x, y := JsonDoc.Fresh(a), JsonDoc.Fresh(b);
    JsonDoc.StripFresh(a);
    JsonDoc.StripFresh(b);
    JsonDoc.ComparedSame(x, y, cs);
    x, y, eq := JsonDoc.CompareJson(x, y, cs);
  }

  // ----- the patch that is generated, also if not all common keys are paired -----

  function MergeDiff(from: Json, to: Json, cs: bool): Option<Json>
    decreases from, 3
  {
    if !to.Object? || !from.Object? then Some(to)
    else
      var pm := WalkMembers(from, Ordered(from, cs), Ordered(to, cs), cs);
      if pm == [] then None else Some(Object(pm))
  }

  function CommonPatch(x: Json, y: Json, key: string, cs: bool): seq<Member>
    decreases x, 4
  {
    if Same(x, y, cs) then []
    else
      match MergeDiff(x, y, false)
      case None => []
      case Some(p) => [Member(key, p)]
  }

  function WalkMembers(from: Json, xs: seq<Member>, ys: seq<Member>, cs: bool): seq<Member>
    requires MembersOf(xs, from)
    decreases from, 2, |xs| + |ys|
  {
    if xs == [] && ys == [] then []
    else if ys == [] || (xs != [] && StrLess(xs[0].key, ys[0].key)) then
      [Member(xs[0].key, Null)] + WalkMembers(from, xs[1..], ys, cs)
    else if xs == [] || StrLess(ys[0].key, xs[0].key) then
      [ys[0]] + WalkMembers(from, xs, ys[1..], cs)
    else
      CommonPatch(xs[0].value, ys[0].value, ys[0].key, cs) + WalkMembers(from, xs[1..], ys[1..], cs)
  }

  // The rest of the walk from i and k on, by the next key of each.
  lemma WalkMembersStep(from: Json, xs: seq<Member>, ys: seq<Member>, i: nat, k: nat, cs: bool)
    requires MembersOf(xs, from) && i <= |xs| && k <= |ys|
    ensures WalkMembers(from, xs[i..], ys[k..], cs) ==
            if i == |xs| && k == |ys| then []
            else if k == |ys| || (i < |xs| && StrLess(xs[i].key, ys[k].key)) then [Member(xs[i].key, Null)] + WalkMembers(from, xs[i + 1..], ys[k..], cs)
            else if i == |xs| || StrLess(ys[k].key, xs[i].key) then [ys[k]] + WalkMembers(from, xs[i..], ys[k + 1..], cs)
            else CommonPatch(xs[i].value, ys[k].value, ys[k].key, cs) + WalkMembers(from, xs[i + 1..], ys[k + 1..], cs)
  {
    hide StrLess, CommonPatch;
    if i < |xs| {
      assert xs[i..][0] == xs[i] && xs[i..][1..] == xs[i + 1..];
    }
    if k < |ys| {
      assert ys[k..][0] == ys[k] && ys[k..][1..] == ys[k + 1..];
    }
  }

  /** `generate_merge_patch`. No patch means that there is no difference; a patch leads from one tree
      to the other if and only if the null members of the other are null already. */
  method GenerateMergePatch(from: Json, to: Json, cs: bool, ghost v: View) returns (r: Option<Json>)
    requires cs ==> v.cs
    ensures r == MergeDiff(from, to, cs)
    ensures !v.raw && Unique(from, v.cs) && Unique(to, v.cs) && Orderly(from, to, cs, v) ==> Generated(from, to, r, v)
    decreases from
  {
    hide MeaningOf, Unique, Merged, NullsKept, Orderly, Generating, Ordered, Same, KeyOk, WalkMembers, StrLess;
    ghost var fine := !v.raw && Unique(from, v.cs) && Unique(to, v.cs) && Orderly(from, to, cs, v);
    if !to.Object? || !from.Object? {
      NotBothObjects(from, to, v);
      return Some(to);
    }
    var xs, ys, pm := Ordered(from, cs), Ordered(to, cs), [];
    var i, k := 0, 0;
    if fine {
      GenerateStart(from, to, cs, v);
    }
    assert xs[0..] == xs && ys[0..] == ys;
    ghost var all := WalkMembers(from, xs, ys, cs);
    assert pm + all == all;
    while i < |xs| || k < |ys|
      invariant i <= |xs| && k <= |ys| && pm + WalkMembers(from, xs[i..], ys[k..], cs) == all
      invariant fine ==> Generating(from, to, pm, xs[i..], ys[k..], cs, v)
      decreases |xs| - i + |ys| - k
    {
      WalkMembersStep(from, xs, ys, i, k, cs);
      ghost var before := pm;
      if k == |ys| || (i < |xs| && StrLess(xs[i].key, ys[k].key)) {
        Assoc(before, [Member(xs[i].key, Null)], WalkMembers(from, xs[i + 1..], ys[k..], cs));
        if fine {
          GenerateRemove(from, to, pm, xs[i..], ys[k..], cs, v);
        }
        pm := pm + [Member(xs[i].key, Null)];
        i := i + 1;
      } else if i == |xs| || StrLess(ys[k].key, xs[i].key) {
        Assoc(before, [ys[k]], WalkMembers(from, xs[i..], ys[k + 1..], cs));
        if fine {
          GenerateAdd(from, to, pm, xs[i..], ys[k..], cs, v);
        }
        pm := pm + [Member(ys[k].key, ys[k].value)];
        k := k + 1;
      } else {
        StrLessTotal(xs[i].key, ys[k].key);
        assert xs[i] in from.members;
        if fine {
          GenerateCommon(from, to, pm, xs[i..], ys[k..], cs, v);
        }
        var p: Option<Json> := None;
        var same := CompareValues(xs[i].value, ys[k].value, cs);
        if !same {
          p := GenerateMergePatch(xs[i].value, ys[k].value, false, v);
        }
        if fine {
          GeneratedOk(xs[i].value, ys[k].value, p, same, v);
          GenerateBoth(from, to, pm, xs[i..], ys[k..], p, cs, v);
        }
        if p.Some? {
          pm := pm + [Member(ys[k].key, p.value)];
        }
        Assoc(before, CommonPatch(xs[i].value, ys[k].value, ys[k].key, cs), WalkMembers(from, xs[i + 1..], ys[k + 1..], cs));
        assert before + [] == before;
        i, k := i + 1, k + 1;
      }
    }
    WalkMembersStep(from, xs, ys, i, k, cs);
    assert pm + [] == pm;
    if fine {
      GenerateEnd(from, to, pm, cs, v);
      GeneratedObject(from, to, pm, cs, v);
    }
    return if pm == [] then None else Some(Object(pm));
  }

  lemma GeneratedOk(x: Json, y: Json, p: Option<Json>, same: bool, v: View)
    requires same <==> MeaningOf(x, v) == MeaningOf(y, v)
    requires if same then p.None? else Generated(x, y, p, v)
    ensures UniqueIfAny(p, v.cs) && KeyOk(Some(MeaningOf(x, v)), Some(MeaningOf(y, v)), Meant(p, v))
  {
    hide MeaningOf, Merged, NullsKept, Unique;
  }

  lemma GeneratedObject(from: Json, to: Json, pm: seq<Member>, cs: bool, v: View)
    requires Generating(from, to, pm, [], [], cs, v)
    ensures Unique(Object(pm), v.cs) && MeaningOf(Object(pm), v) != MNull && MeaningOf(to, v) != MNull
  {
    hide Unique, Orderly, KeysState, Left;
  }

  lemma NotBothObjects(from: Json, to: Json, v: View)
    requires !(from.Object? && to.Object?)
    ensures Unique(to, v.cs) ==> Generated(from, to, Some(to), v)
  {
    MergedFresh(Some(MeaningOf(from, v)), MeaningOf(to, v));
  }

  // In lower case, both orders are the same.
  lemma LowerPairs(from: Json, to: Json, cs: bool)
    requires from.Object? && to.Object? && Lowercase(from) && Lowercase(to)
    ensures OneCase(from, to, cs) && PairsAll(KeyList(Ordered(from, cs)), KeyList(Ordered(to, cs)))
  {
    hide Ordered, PairsAll, StrLess;
    LowerSorted(from, cs);
    LowerSorted(to, cs);
    SortedPairs(KeyList(Ordered(from, cs)), KeyList(Ordered(to, cs)));
  }

  lemma LowerSorted(j: Json, cs: bool)
    requires j.Object? && Lowercase(j)
    ensures var xs := KeyList(Ordered(j, cs)); forall i, k :: 0 <= i < k < |xs| ==> !StrLess(xs[k], xs[i])
  {
    hide Sort, StrLess;
    var s := Ordered(j, cs);
    assert s == Sort(j.members, KeyOf, cs);
    SortSorts(j.members, KeyOf, cs);
    forall i, k | 0 <= i < k < |s| ensures !StrLess(s[k].key, s[i].key) {
      assert s[i] in j.members && s[k] in j.members;
      assert !KeyLess(KeyOf(s[k]), KeyOf(s[i]), cs);
    }
  }

  // Lower-case keys meet all conditions on keys, in both variants.
  lemma {:induction false} LowerOrderly(from: Json, to: Json, cs: bool, v: View)
    requires Lowercase(from) && Lowercase(to)
    ensures Orderly(from, to, cs, v)
    decreases from
  {
    if from.Object? && to.Object? {
      LowerPairs(from, to, cs);
      forall m, n | m in from.members && n in to.members && m.key == n.key
        ensures Lowercase(m.value) && Lowercase(n.value) && Orderly(m.value, n.value, false, v)
      {
        LowerOrderly(m.value, n.value, false, v);
      }
    }
  }

  lemma RoundTrips(from: Json, to: Json, copy: Json, p: Option<Json>, r: Json, v: View)
    requires Generated(from, to, p, v) && MeaningOf(copy, v) == MeaningOf(from, v)
    requires if p.None? then r == copy else MeaningOf(r, v) == Merged(Some(MeaningOf(copy, v)), MeaningOf(p.value, v))
    ensures Reaches(from, to, r, v)
  {
    hide MeaningOf, Merged, NullsKept, Unique;
    KeepsOwn(MeaningOf(to, v));
  }

  ghost predicate Reaches(from: Json, to: Json, r: Json, v: View) {
    MeaningOf(r, v) == MeaningOf(to, v) <==> NullsKept(Some(MeaningOf(from, v)), MeaningOf(to, v))
  }

  // The conditions of the round trip: different keys, and an order of keys that does not depend on case.
  ghost predicate Mergeable(from: Json, to: Json, copy: Json, cs: bool) {
    && Unique(from, cs) && Unique(to, cs) && Unique(copy, cs) && Orderly(from, to, cs, View(cs, false))
    && MeaningOf(copy, View(cs, false)) == MeaningOf(from, View(cs, false))
  }

  /** Generate, then merge onto a tree that means the same as `from` (a duplicate of it): the outcome
      means what `to` means, if and only if the null members of `to` are null in `from` already. */
  method MergeRoundTrip(from: Json, to: Json, copy: Json, cs: bool) returns (r: Json)
    ensures Mergeable(from, to, copy, cs) ==> Reaches(from, to, r, View(cs, false))
  {
    hide MeaningOf, Unique, Orderly, Merged, Generated, Reaches;
    ghost var v, fine := View(cs, false), Mergeable(from, to, copy, cs);
    var p := GenerateMergePatch(from, to, cs, v);
    if p.None? {
      r := copy;
    } else {
      if fine {
        GeneratedUnique(from, to, p.value, v);
      }
      r := MergePatch(Some(copy), p.value, cs, v);
    }
    if fine {
      RoundTrips(from, to, copy, p, r, v);
    }
  }

  lemma GeneratedUnique(from: Json, to: Json, p: Json, v: View)
    requires Generated(from, to, Some(p), v)
    ensures Unique(p, v.cs)
  {
  }
}
