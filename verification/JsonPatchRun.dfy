/**
 Generated patches on documents (stage/cjson/cJSON_Utils.c, `cJSONUtils_GeneratePatches` and
 `cJSONUtils_ApplyPatches`): they contain no tests, so all back links stay right and nothing gets lost.
 */
module JsonPatchRun {
  import opened Basics
  import opened KeyOrder
  import opened JsonValue
  import opened JsonPointer
  import opened JsonPatch
  import opened JsonOps
  import opened JsonDiff
  import opened JsonDiffLaw
  import Docs = JsonDocument
  import Law = JsonDocLaw
  import JsonDoc

  // A patch composed for an addition, a removal or a replacement.
  ghost predicate Edit(p: Json) {
    exists op, path, value :: op in ["add", "remove", "replace"] && p == Patch(op, path, value)
  }

  ghost predicate Edits(ps: seq<Json>) {
    forall i :: 0 <= i < |ps| ==> Edit(ps[i])
  }

  lemma IsEdit(op: string, path: string, value: Option<Json>)
    requires op in ["add", "remove", "replace"]
    ensures Edit(Patch(op, path, value))
  {
    hide Patch;
  }

  lemma {:induction false} DiffEdits(path: string, from: Json, to: Json, cs: bool)
    ensures Edits(Diff(path, from, to, cs))
    decreases from, 3
  {
    hide Patch, DiffItems, DiffMembers, Edit;
    if Replaces(from, to) {
      IsEdit("replace", path, Some(to));
    } else if from.Array? {
      ItemsEdits(path, from, to, 0, cs);
    } else if from.Object? {
      MembersEdits(path, from, Ordered(from, cs), Ordered(to, cs), cs);
    }
  }

  lemma {:induction false} ItemsEdits(path: string, from: Json, to: Json, i: nat, cs: bool)
    requires from.Array? && to.Array? && i <= |from.items| && i <= |to.items|
    ensures Edits(DiffItems(path, from, to, i, cs))
    decreases from, 2, |from.items| - i
  {
    hide Patch, Diff, Edit, Encode, Decimal;
    if i < |from.items| && i < |to.items| {
      DiffEdits(path + "/" + Decimal(i), from.items[i], to.items[i], cs);
      ItemsEdits(path, from, to, i + 1, cs);
    } else {
      IsEdit("remove", path + "/" + Encode(Decimal(i)), None);
      forall x | x in to.items[i..] ensures Edit(Patch("add", path + "/" + Encode("-"), Some(x))) {
        IsEdit("add", path + "/" + Encode("-"), Some(x));
      }
    }
  }

  lemma {:induction false} MembersEdits(path: string, from: Json, xs: seq<Member>, ys: seq<Member>, cs: bool)
    requires MembersOf(xs, from)
    ensures Edits(DiffMembers(path, from, xs, ys, cs))
    decreases from, 2, |xs| + |ys|
  {
    hide Patch, Diff, Edit, Encode, KeyLess;
    if xs == [] && ys == [] {
    } else if ys == [] || (xs != [] && KeyLess(xs[0].key, ys[0].key, cs)) {
      IsEdit("remove", path + "/" + Encode(xs[0].key), None);
      MembersEdits(path, from, xs[1..], ys, cs);
    } else if xs == [] || KeyLess(ys[0].key, xs[0].key, cs) {
      IsEdit("add", path + "/" + Encode(ys[0].key), Some(ys[0].value));
      MembersEdits(path, from, xs, ys[1..], cs);
    } else {
      assert xs[0] in from.members;
      DiffEdits(path + "/" + Encode(xs[0].key), xs[0].value, ys[0].value, cs);
      MembersEdits(path, from, xs[1..], ys[1..], cs);
    }
  }

  lemma EditTidy(j: Json, p: Json, cs: bool)
    requires Edit(p)
    ensures Law.Tidy(j, p, cs)
  {
    hide Patch, Field, Law.TestInOrder;
    var op, path, value :| op in ["add", "remove", "replace"] && p == Patch(op, path, value);
    PatchFields(op, path, value, cs);
  }

  lemma {:induction false} EditsTidy(j: Json, ps: seq<Json>, cs: bool)
    requires Edits(ps)
    ensures Law.AllTidy(j, ps, cs)
    decreases |ps|
  {
    hide Edit, Law.Tidy;
    if ps != [] {
      EditTidy(j, ps[0], cs);
      EditsTidy(Apply(j, ps[0], cs).0, ps[1..], cs);
    }
  }

  /** JSON Patch is a correct diff of documents: applied to a document with right back links that means
      `from`, the patches return 0 and leave one with right back links that means `to`. */
  lemma PatchRun(j: Json, from: Json, to: Json, cs: bool)
    requires Unique(j, cs) && Unique(from, cs) && Unique(to, cs) && Patchable(from, to, cs)
    requires MeaningOf(j, View(cs, false)) == MeaningOf(from, View(cs, false))
    ensures var r := Docs.ApplyAll(JsonDoc.Fresh(j), Diff("", from, to, cs), cs);
            && r.Done? && r.status == 0 && r.doc == JsonDoc.Fresh(JsonDoc.Strip(r.doc))
            && MeaningOf(JsonDoc.Strip(r.doc), View(cs, false)) == MeaningOf(to, View(cs, false))
  {
    hide MeaningOf, Unique, Diff, ApplyAll, Docs.ApplyAll, Patchable, Law.AllTidy, Edits, JsonDoc.Fresh, JsonDoc.Strip;
    PatchLaw(j, from, to, cs);
    DiffEdits("", from, to, cs);
    EditsTidy(j, Diff("", from, to, cs), cs);
    Law.RunAgrees(j, Diff("", from, to, cs), cs);
    JsonDoc.StripFresh(ApplyAll(j, Diff("", from, to, cs), cs).0);
  }
}
