/**
 JSON Merge Patch in stage/cjson/cJSON_Utils.c: `merge_patch` computes the merge of section 2
 of RFC 7396.
 */
module JsonMerge {
  import opened Basics
  import opened KeyOrder
  import opened JsonValue
  import opened JsonCompare
  import opened JsonPatch
  import opened JsonPlace
  import opened JsonOps

  // ----- section 2 of RFC 7396 -----

  function Find(t: map<string, Meaning>, k: string): Option<Meaning> {
    if k in t then Some(t[k]) else None
  }

  function Members(t: Option<Meaning>): map<string, Meaning> {
    if t.Some? && t.value.MObject? then t.value.members else map[]
  }

  ghost function Merged(t: Option<Meaning>, p: Meaning): Meaning
    decreases p
  {
    if !p.MObject? then p
    else
      var f := Members(t);
      MObject(map k | k in f.Keys + p.members.Keys && (k in p.members ==> p.members[k] != MNull) ::
                if k in p.members then Merged(Find(f, k), p.members[k]) else f[k])
  }

  // One key of a merge: where it is not in the patch it stays, null takes it away.
  ghost function MergedKey(f: Option<Meaning>, p: Option<Meaning>): Option<Meaning> {
    if p.None? then f else if p.value == MNull then None else Some(Merged(f, p.value))
  }

  lemma MergedMembers(t: Option<Meaning>, p: Meaning, k: string)
    requires p.MObject?
    ensures Merged(t, p).MObject? && Find(Merged(t, p).members, k) == MergedKey(Find(Members(t), k), Find(p.members, k))
  {
  }

  lemma SameMaps(a: map<string, Meaning>, b: map<string, Meaning>)
    requires forall k :: Find(a, k) == Find(b, k)
    ensures a == b
  {
    forall k ensures k in a <==> k in b {
      assert Find(a, k) == Find(b, k);
    }
    forall k | k in a ensures a[k] == b[k] {
      assert Find(a, k) == Find(b, k);
    }
    assert a.Keys == b.Keys;
  }

  // ----- `merge_patch` -----

  ghost function Meant(j: Option<Json>, v: View): Option<Meaning> {
    match j
    case None => None
    case Some(x) => Some(MeaningOf(x, v))
  }

  ghost predicate UniqueIfAny(j: Option<Json>, cs: bool) {
    j.Some? ==> Unique(j.value, cs)
  }

  // The members of a target in the middle of the merge of a patch, of which p has been merged.
  ghost predicate Merging(t: Option<Meaning>, p: map<string, Meaning>, ms: seq<Member>, v: View) {
    Unique(Object(ms), v.cs) && MembersMeaning(ms, v) == Merged(t, MObject(p)).members
  }

  lemma MergeNone(t: Option<Meaning>, ms: seq<Member>, v: View)
    requires Unique(Object(ms), v.cs) && MembersMeaning(ms, v) == Members(t)
    ensures Merging(t, map[], ms, v)
  {
    hide Unique, MembersMeaning;
    forall k ensures Find(MembersMeaning(ms, v), k) == Find(Merged(t, MObject(map[])).members, k) {
      MergedMembers(t, MObject(map[]), k);
    }
    SameMaps(MembersMeaning(ms, v), Merged(t, MObject(map[])).members);
  }

  // One more key in the patch.
  lemma MergeExtend(t: Option<Meaning>, p: map<string, Meaning>, k: string, m: Meaning)
    requires k !in p
    ensures Merged(t, MObject(p)).MObject? && Merged(t, MObject(p[k := m])).MObject?
    ensures Find(Merged(t, MObject(p)).members, k) == Find(Members(t), k)
    ensures var before, after := Merged(t, MObject(p)).members, Merged(t, MObject(p[k := m])).members;
            after == if m == MNull then before - {k} else before[k := Merged(Find(Members(t), k), m)]
  {
    hide Merged;
    MergedMembers(t, MObject(p), k);
    MergedMembers(t, MObject(p[k := m]), k);
    var before, after := Merged(t, MObject(p)).members, Merged(t, MObject(p[k := m])).members;
    var result := if m == MNull then before - {k} else before[k := Merged(Find(Members(t), k), m)];
    forall x ensures Find(after, x) == Find(result, x) {
      MergedMembers(t, MObject(p), x);
      MergedMembers(t, MObject(p[k := m]), x);
    }
    SameMaps(after, result);
  }

  lemma MergeDelete(t: Option<Meaning>, p: map<string, Meaning>, ms: seq<Member>, key: string, i: nat, v: View)
    requires Merging(t, p, ms, v) && Fold(key, v.cs) !in p && i == Lookup(ms, key, v.cs)
    ensures Merging(t, p[Fold(key, v.cs) := MNull], if i < |ms| then Without(ms, i) else ms, v)
  {
    hide MembersMeaning, Merged, Lookup;
    MergeExtend(t, p, Fold(key, v.cs), MNull);
    LookupMeaning(ms, key, v);
    if i < |ms| {
      MembersWithout(ms, i, v);
      WithoutDistinct(ms, i, v.cs);
    } else {
      assert MembersMeaning(ms, v) - {Fold(key, v.cs)} == MembersMeaning(ms, v);
    }
  }

  lemma MergePut(t: Option<Meaning>, p: map<string, Meaning>, ms: seq<Member>, key: string, i: nat, x: Json, m: Meaning, v: View)
    requires Merging(t, p, ms, v) && Fold(key, v.cs) !in p && i == Lookup(ms, key, v.cs) && m != MNull
    requires Unique(x, v.cs) && MeaningOf(x, v) == Merged(if i < |ms| then Some(MeaningOf(ms[i].value, v)) else None, m)
    ensures Merging(t, p[Fold(key, v.cs) := m], (if i < |ms| then Without(ms, i) else ms) + [Member(key, x)], v)
  {
    hide MembersMeaning, Merged, Lookup;
    MergeExtend(t, p, Fold(key, v.cs), m);
    LookupMeaning(ms, key, v);
    PutMember(ms, key, x, v);
  }

  lemma PrefixMeaning(ms: seq<Member>, i: nat, v: View)
    requires DistinctKeys(ms, v.cs) && i < |ms|
    ensures Fold(ms[i].key, v.cs) !in MembersMeaning(ms[..i], v)
    ensures MembersMeaning(ms[..i + 1], v) == MembersMeaning(ms[..i], v)[Fold(ms[i].key, v.cs) := MeaningOf(ms[i].value, v)]
  {
    if Fold(ms[i].key, v.cs) in MembersMeaning(ms[..i], v) {
      var x := MeaningKey(ms[..i], v, Fold(ms[i].key, v.cs));
      assert false;
    }
    assert ms[..i + 1] == ms[..i] + [ms[i]];
    MembersAppend(ms[..i], ms[i], v);
  }

  // One round of the loop.
  lemma RoundDelete(t: Option<Meaning>, patch: Json, i: nat, ms: seq<Member>, k: nat, v: View)
    requires patch.Object? && Unique(patch, v.cs) && i < |patch.members| && patch.members[i].value == Null
    requires Merging(t, MembersMeaning(patch.members[..i], v), ms, v) && k == Lookup(ms, patch.members[i].key, v.cs)
    ensures Merging(t, MembersMeaning(patch.members[..i + 1], v), if k < |ms| then Without(ms, k) else ms, v)
  {
    hide MembersMeaning, Merged, Lookup, Merging;
    PrefixMeaning(patch.members, i, v);
    MergeDelete(t, MembersMeaning(patch.members[..i], v), ms, patch.members[i].key, k, v);
  }

  lemma RoundPut(t: Option<Meaning>, patch: Json, i: nat, ms: seq<Member>, k: nat, x: Json, v: View)
    requires patch.Object? && Unique(patch, v.cs) && i < |patch.members| && patch.members[i].value != Null
    requires Merging(t, MembersMeaning(patch.members[..i], v), ms, v) && k == Lookup(ms, patch.members[i].key, v.cs)
    requires Unique(x, v.cs)
    requires MeaningOf(x, v) == Merged(Meant(if k < |ms| then Some(ms[k].value) else None, v), MeaningOf(patch.members[i].value, v))
    ensures Merging(t, MembersMeaning(patch.members[..i + 1], v), (if k < |ms| then Without(ms, k) else ms) + [Member(patch.members[i].key, x)], v)
  {
    hide MembersMeaning, Merged, Lookup, Merging;
    PrefixMeaning(patch.members, i, v);
    MergePut(t, MembersMeaning(patch.members[..i], v), ms, patch.members[i].key, k, x, MeaningOf(patch.members[i].value, v), v);
  }

  lemma RoundUnique(t: Option<Meaning>, p: map<string, Meaning>, patch: Json, i: nat, ms: seq<Member>, k: nat, v: View)
    requires patch.Object? && Unique(patch, v.cs) && i < |patch.members| && Merging(t, p, ms, v)
    ensures Unique(patch.members[i].value, v.cs) && (k < |ms| ==> Unique(ms[k].value, v.cs))
  {
  }

  // ----- the tree that `merge_patch` leaves, also if keys of the patch are not different -----

  function MergeValue(target: Option<Json>, patch: Json, cs: bool): Json
    decreases patch, 1
  {
    if !patch.Object? then patch
    else Object(MergeMembers(if target.Some? && target.value.Object? then target.value.members else [], patch.members, cs))
  }

  function MergeMembers(ms: seq<Member>, ps: seq<Member>, cs: bool): seq<Member>
    decreases ps, 0
  {
    if ps == [] then ms
    else
      var i := Lookup(ms, ps[0].key, cs);
      var rest := if i < |ms| then Without(ms, i) else ms;
      var former := if i < |ms| then Some(ms[i].value) else None;
      MergeMembers(if ps[0].value.Null? then rest else rest + [Member(ps[0].key, MergeValue(former, ps[0].value, cs))], ps[1..], cs)
  }

  lemma MergeStep(ms: seq<Member>, ps: seq<Member>, i: nat, cs: bool)
    requires i <= |ps|
    ensures i == |ps| ==> MergeMembers(ms, ps[i..], cs) == ms
    ensures i < |ps| ==>
              var k := Lookup(ms, ps[i].key, cs);
              var rest := if k < |ms| then Without(ms, k) else ms;
              var former := if k < |ms| then Some(ms[k].value) else None;
              MergeMembers(ms, ps[i..], cs) ==
              MergeMembers(if ps[i].value.Null? then rest else rest + [Member(ps[i].key, MergeValue(former, ps[i].value, cs))], ps[i + 1..], cs)
  {
    hide Lookup, Without, MergeValue;
    if i < |ps| {
      assert ps[i..][0] == ps[i] && ps[i..][1..] == ps[i + 1..];
    }
  }

  /** `merge_patch` is the merge of RFC 7396. */
  method MergePatch(target: Option<Json>, patch: Json, cs: bool, ghost v: View) returns (r: Json)
    requires v.cs == cs
    ensures r == MergeValue(target, patch, cs)
    ensures UniqueIfAny(target, cs) && Unique(patch, cs) ==> Unique(r, cs) && MeaningOf(r, v) == Merged(Meant(target, v), MeaningOf(patch, v))
    decreases patch
  {
    hide MembersMeaning, Lookup, Merged, Unique, Merging, Without, MergeMembers;
    if !patch.Object? {
      NotMerged(Meant(target, v), MeaningOf(patch, v));
      return patch;
    }
    var ms := if target.Some? && target.value.Object? then target.value.members else [];
    ghost var t := Meant(target, v);
    ghost var unique := UniqueIfAny(target, cs) && Unique(patch, cs);
    if unique {
      StartMerge(target, ms, patch, v);
    }
    var i := 0;
    ghost var all := MergeMembers(ms, patch.members, cs);
    assert patch.members[0..] == patch.members;
    while i < |patch.members|
      invariant i <= |patch.members| && all == MergeMembers(ms, patch.members[i..], cs)
      invariant unique ==> Merging(t, MembersMeaning(patch.members[..i], v), ms, v)
    {
      var m := patch.members[i];
      MergeStep(ms, patch.members, i, cs);
      var k := GetObjectItem(ms, m.key, cs);
      ghost var before := ms;
      if unique {
        RoundUnique(t, MembersMeaning(patch.members[..i], v), patch, i, ms, k, v);
      }
      var former := if k < |ms| then Some(ms[k].value) else None;
      if k < |ms| {
        ms := Without(ms, k);
      }
      if m.value.Null? {
        if unique {
          RoundDelete(t, patch, i, before, k, v);
        }
      } else {
        var x := MergePatch(former, m.value, cs, v);
        ms := ms + [Member(m.key, x)];
        if unique {
          RoundPut(t, patch, i, before, k, x, v);
        }
      }
      i := i + 1;
    }
    MergeStep(ms, patch.members, i, cs);
    if unique {
      EndMerge(t, patch, ms, v);
    }
    return Object(ms);
  }

  lemma EndMerge(t: Option<Meaning>, patch: Json, ms: seq<Member>, v: View)
    requires patch.Object? && Merging(t, MembersMeaning(patch.members[..|patch.members|], v), ms, v)
    ensures Unique(Object(ms), v.cs) && MeaningOf(Object(ms), v) == Merged(t, MeaningOf(patch, v))
  {
    hide MembersMeaning, Merged, Unique;
    assert patch.members[..|patch.members|] == patch.members;
    MergedMembers(t, MeaningOf(patch, v), "");
  }

  lemma NotMerged(t: Option<Meaning>, p: Meaning)
    requires !p.MObject?
    ensures Merged(t, p) == p
  {
  }

  lemma StartMerge(target: Option<Json>, ms: seq<Member>, patch: Json, v: View)
    requires UniqueIfAny(target, v.cs) && ms == (if target.Some? && target.value.Object? then target.value.members else []) && patch.Object?
    ensures Merging(Meant(target, v), MembersMeaning(patch.members[..0], v), ms, v)
  {
    hide Merged;
    assert patch.members[..0] == [];
    MergeNone(Meant(target, v), ms, v);
  }
}
