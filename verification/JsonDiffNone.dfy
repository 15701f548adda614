/**
 When there is nothing to patch (stage/cjson/cJSON_Utils.c, `create_patches`).
 */
module JsonDiffNone {
  import opened KeyOrder
  import opened JsonValue
  import opened JsonCompare
  import opened JsonPointer
  import opened JsonOps
  import opened JsonDiff

  /** No patches are generated if and only if `compare_json` finds no difference. */
  lemma {:induction false} NothingToPatch(path: string, from: Json, to: Json, cs: bool)
    ensures Diff(path, from, to, cs) == [] <==> Same(from, to, cs)
    decreases from, 3
  {
    hide DiffItems, DiffMembers, Patch, SortMembers;
    if !Replaces(from, to) {
      match from
      case Array(items) =>
        NoItems(path, from, to, 0, cs);
      case Object(members) =>
        NoMembers(path, from, Ordered(from, cs), Ordered(to, cs), cs);
      case _ =>
    }
  }

  lemma {:induction false} NoItems(path: string, from: Json, to: Json, i: nat, cs: bool)
    requires from.Array? && to.Array? && i <= |from.items| && i <= |to.items|
    ensures DiffItems(path, from, to, i, cs) == [] <==>
            |from.items| == |to.items| && forall k :: i <= k < |from.items| ==> Same(from.items[k], to.items[k], cs)
    decreases from, 2, |from.items| - i
  {
    hide Diff, Same, Patch;
    if i < |from.items| && i < |to.items| {
      NothingToPatch(path + "/" + Decimal(i), from.items[i], to.items[i], cs);
      NoItems(path, from, to, i + 1, cs);
    }
  }

  lemma {:induction false} NoMembers(path: string, from: Json, xs: seq<Member>, ys: seq<Member>, cs: bool)
    requires MembersOf(xs, from)
    ensures DiffMembers(path, from, xs, ys, cs) == [] <==>
            |xs| == |ys| && forall k :: 0 <= k < |xs| ==> Fold(xs[k].key, cs) == Fold(ys[k].key, cs) && Same(xs[k].value, ys[k].value, cs)
    decreases from, 2, |xs| + |ys|
  {
    hide Diff, Same, Patch, KeyLess;
    if xs != [] && ys != [] {
      KeyTotal(xs[0].key, ys[0].key, cs);
      if !KeyLess(xs[0].key, ys[0].key, cs) && !KeyLess(ys[0].key, xs[0].key, cs) {
        NothingToPatch(path + "/" + Encode(xs[0].key), xs[0].value, ys[0].value, cs);
        NoMembers(path, from, xs[1..], ys[1..], cs);
        assert forall k :: 1 <= k < |xs| ==> xs[k] == xs[1..][k - 1];
        assert forall k :: 1 <= k < |ys| ==> ys[k] == ys[1..][k - 1];
      }
    }
  }

  lemma KeyTotal(a: string, b: string, cs: bool)
    ensures Fold(a, cs) == Fold(b, cs) <==> !KeyLess(a, b, cs) && !KeyLess(b, a, cs)
  {
    StrLessTotal(Fold(a, cs), Fold(b, cs));
  }
}
