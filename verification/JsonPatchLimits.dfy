/**
 Where JSON Patch round trips of stage/cjson/cJSON_Utils.c end: keys that do not survive
 `decode_pointer_inplace`, and keys that differ only in case.
 */
module JsonPatchLimits {
  import opened Basics
  import opened KeyOrder
  import opened JsonValue
  import opened JsonCompare
  import opened JsonPointer
  import opened JsonPatch
  import opened JsonPlace
  import opened JsonOps
  import opened JsonDiff
  import opened JsonDiffLaw

  /** To add one member to an empty object works if and only if its key survives. */
  lemma SingleKeyLaw(k: string, x: Json)
    requires Unique(x, true)
    ensures var to := Object([Member(k, x)]);
            var r := ApplyAll(Object([]), Diff("", Object([]), to, true), true);
            r.1 == 0 && (MeaningOf(r.0, View(true, false)) == MeaningOf(to, View(true, false)) <==> Survives(k))
  {
    hide Encode, DecodeInPlace, Survives;
    var v, from, to := View(true, false), Object([]), Object([Member(k, x)]);
    var patch := Patch("add", "/" + Encode(k), Some(x));
    SinglePatch(k, x);
    var r := Apply(from, patch, true);
    AddToEmpty(k, x);
    ApplyOne(from, patch, true);
    DecodeKey(k);
    SingleMeaning(k, x, v);
    SingleMeaning(DecodeInPlace(Encode(k)), x, v);
    if k != DecodeInPlace(Encode(k)) {
      assert k in map[k := MeaningOf(x, v)] && k !in map[DecodeInPlace(Encode(k)) := MeaningOf(x, v)];
    }
  }

  lemma SingleMeaning(k: string, x: Json, v: View)
    requires v.cs
    ensures MeaningOf(Object([Member(k, x)]), v) == MObject(map[k := MeaningOf(x, v)])
  {
    var ms := [Member(k, x)];
    assert ms[1..] == [];
    assert MembersMeaning(ms, v) == MembersMeaning([], v)[k := MeaningOf(x, v)];
    assert MembersMeaning([], v) == map[];
  }

  lemma SinglePatch(k: string, x: Json)
    ensures Diff("", Object([]), Object([Member(k, x)]), true) == [Patch("add", "/" + Encode(k), Some(x))]
  {
    hide Patch, Encode;
    var to := Object([Member(k, x)]);
    assert Ordered(Object([]), true) == [] && Ordered(to, true) == to.members by {
      SortedMembers([], true);
      SortedMembers(to.members, true);
      var s := SortMembers(to.members, true);
      assert s[0] in to.members && s == [s[0]];
    }
    assert to.members[1..] == [];
    assert "" + "/" + Encode(k) == "/" + Encode(k);
  }

  lemma AddToEmpty(k: string, x: Json)
    ensures Apply(Object([]), Patch("add", "/" + Encode(k), Some(x)), true) == (Object([Member(DecodeInPlace(Encode(k)), x)]), 0)
  {
    hide Encode, DecodeInPlace, Patch, Apply;
    var p := "/" + Encode(k);
    ApplyComposed(Object([]), "add", p, Some(x), true);
    EncodeOneToken(k);
    LastSlashIs("", Encode(k));
    assert "" + "/" + Encode(k) == p;
    assert p[..0] == "";
    assert GetPointer(Object([]), "", true) == Some([]);
    assert [] + [Member(DecodeInPlace(Encode(k)), x)] == [Member(DecodeInPlace(Encode(k)), x)];
  }

  /** A key with '/' comes out as another one: the member "/" is added as "~". */
  lemma SlashKey()
    ensures Encode("/") == "~1" && DecodeInPlace("~1") == "~" && !Survives("/")
  {
    assert Encode("/") == "~1" + Encode("/"[1..]);
    var b := "~1"[1 := '/'];
    assert DecodeFrom("~1", 0, 0) == DecodeFrom(b, 1, 2) == b[..1];
  }

  lemma RemoveFromRoot(ms: seq<Member>, k: string)
    requires Survives(k) && Lookup(ms, k, false) < |ms|
    ensures Apply(Object(ms), Patch("remove", "/" + Encode(k), None), true) == (Object(Without(ms, Lookup(ms, k, false))), 0)
  {
    hide Encode, DecodeInPlace, Patch, Apply, Survives, Lookup, Without;
    var j, p := Object(ms), "/" + Encode(k);
    ApplyComposed(j, "remove", p, None, true);
    DecodeKey(k);
    EncodeOneToken(k);
    LastSlashIs("", Encode(k));
    assert "" + "/" + Encode(k) == p;
    assert p[..0] == "";
    assert GetPointer(j, "", true) == Some([]);
  }

  /** "remove" ignores case: of keys that differ only in case it takes out the first. So it removes
      the member meant if and only if no member before it has such a key. */
  lemma RemoveMeant(ms: seq<Member>, i: nat)
    requires Unique(Object(ms), true) && i < |ms| && Survives(ms[i].key)
    ensures var r := Apply(Object(ms), Patch("remove", "/" + Encode(ms[i].key), None), true);
            && r.1 == 0
            && (MeaningOf(r.0, EXACT) == MObject(MembersMeaning(ms, EXACT) - {ms[i].key}) <==>
                forall x :: 0 <= x < i ==> Lower(ms[x].key) != Lower(ms[i].key))
  {
    hide Encode, Patch, Apply, Survives, Lookup, Without, MembersMeaning;
    var k := ms[i].key;
    var q := Lookup(ms, k, false);
    assert Fold(ms[i].key, false) == Fold(k, false);
    RemoveFromRoot(ms, k);
    MembersWithout(ms, q, EXACT);
    MeaningLookup(ms, EXACT, i);
    MeaningLookup(ms, EXACT, q);
    if q != i {
      assert Fold(ms[q].key, true) != Fold(ms[i].key, true);
      assert k in MembersMeaning(ms, EXACT) - {ms[q].key};
    }
  }
}
