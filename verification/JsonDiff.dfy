/**
 Generating a JSON Patch (stage/cjson/cJSON_Utils.c, `create_patches`,
 `cJSONUtils_GeneratePatches`).
 */
module JsonDiff {
  import opened Basics
  import opened KeyOrder
  import opened JsonValue
  import opened JsonCompare
  import opened JsonPointer
  import opened JsonOps

  // ----- the patches -----

  // A node is replaced as a whole.
  predicate Replaces(from: Json, to: Json) {
    Kind(from) != Kind(to) || (from.Number? && from.n != to.n) || (from.String? && from.s != to.s)
  }

  function Diff(path: string, from: Json, to: Json, cs: bool): seq<Json>
    decreases from, 3
  {
    if Replaces(from, to) then [Patch("replace", path, Some(to))]
    else if from.Array? then DiffItems(path, from, to, 0, cs)
    else if from.Object? then DiffMembers(path, from, Ordered(from, cs), Ordered(to, cs), cs)
    else []
  }

  ghost predicate MembersOf(xs: seq<Member>, j: Json) {
    j.Object? && forall i :: 0 <= i < |xs| ==> xs[i] in j.members
  }

  // The members as `sort_object` leaves them.
  function Ordered(j: Json, cs: bool): (r: seq<Member>)
    requires j.Object?
    ensures MembersOf(r, j)
  {
    SortedMembers(j.members, cs);
    SortMembers(j.members, cs)
  }

  // Elements that both have; then what is left of `from` goes, what is left of `to` comes.
  function DiffItems(path: string, from: Json, to: Json, i: nat, cs: bool): seq<Json>
    requires from.Array? && to.Array? && i <= |from.items| && i <= |to.items|
    decreases from, 2, |from.items| - i
  {
    if i < |from.items| && i < |to.items| then
      Diff(path + "/" + Decimal(i), from.items[i], to.items[i], cs) + DiffItems(path, from, to, i + 1, cs)
    else seq(|from.items| - i, _ => Patch("remove", path + "/" + Encode(Decimal(i)), None)) + Appends(path, to.items[i..])
  }

  function Appends(path: string, items: seq<Json>): seq<Json> {
    seq(|items|, i requires 0 <= i < |items| => Patch("add", path + "/" + Encode("-"), Some(items[i])))
  }

  // Both lists of members in ascending order.
  function DiffMembers(path: string, from: Json, xs: seq<Member>, ys: seq<Member>, cs: bool): seq<Json>
    requires MembersOf(xs, from)
    decreases from, 2, |xs| + |ys|
  {
    if xs == [] && ys == [] then []
    else if ys == [] || (xs != [] && KeyLess(xs[0].key, ys[0].key, cs)) then
      [Patch("remove", path + "/" + Encode(xs[0].key), None)] + DiffMembers(path, from, xs[1..], ys, cs)
    else if xs == [] || KeyLess(ys[0].key, xs[0].key, cs) then
      [Patch("add", path + "/" + Encode(ys[0].key), Some(ys[0].value))] + DiffMembers(path, from, xs, ys[1..], cs)
    else
      Diff(path + "/" + Encode(xs[0].key), xs[0].value, ys[0].value, cs) + DiffMembers(path, from, xs[1..], ys[1..], cs)
  }

  // ----- `create_patches` -----

  // The array of patches that is being built.
  class Patches {
    var items: seq<Json>

    constructor ()
      ensures items == []
    {
      items := [];
    }

    method Compose(op: string, path: string, suffix: Option<string>, value: Option<Json>)
      modifies this
      ensures items == old(items) + [Patch(op, if suffix.None? then path else path + "/" + Encode(suffix.value), value)]
    {
      var full := path;
      if suffix.Some? {
        full := path + "/" + Encode(suffix.value);
      }
      items := items + [Patch(op, full, value)];
    }

    method Create(path: string, from: Json, to: Json, cs: bool)
      modifies this
      ensures items == old(items) + Diff(path, from, to, cs)
      decreases from, 3
    {
      hide DiffItems, DiffMembers, Patch, SortMembers;
      if Kind(from) != Kind(to) {
        Compose("replace", path, None, Some(to));
        return;
      }
      match from
      case Number(n) =>
        if n != to.n {
          Compose("replace", path, None, Some(to));
        }
      case String(s) =>
        if s != to.s {
          Compose("replace", path, None, Some(to));
        }
      case Array(_) => CreateItems(path, from, to, cs);
      case Object(_) => CreateMembers(path, from, to, cs);
      case _ =>
    }

    method CreateItems(path: string, from: Json, to: Json, cs: bool)
      requires from.Array? && to.Array?
      modifies this
      ensures items == old(items) + DiffItems(path, from, to, 0, cs)
      decreases from, 2
    {
      hide Diff, Patch, Encode, Decimal;
      var index := 0;
      while index < |from.items| && index < |to.items|
        invariant index <= |from.items| && index <= |to.items|
        invariant items + DiffItems(path, from, to, index, cs) == old(items) + DiffItems(path, from, to, 0, cs)
      {
        ghost var before := items;
        Create(path + "/" + Decimal(index), from.items[index], to.items[index], cs);
        Assoc(before, Diff(path + "/" + Decimal(index), from.items[index], to.items[index], cs), DiffItems(path, from, to, index + 1, cs));
        index := index + 1;
      }
      RemoveRest(path, index, |from.items| - index);
      AddRest(path, to.items[index..]);
    }

    // The index does not move while elements are removed.
    method RemoveRest(path: string, index: nat, count: nat)
      modifies this
      ensures items == old(items) + seq(count, _ => Patch("remove", path + "/" + Encode(Decimal(index)), None))
    {
      hide Patch, Encode, Decimal;
      var n := 0;
      while n < count
        invariant n <= count && items == old(items) + seq(n, _ => Patch("remove", path + "/" + Encode(Decimal(index)), None))
      {
        Compose("remove", path, Some(Decimal(index)), None);
        n := n + 1;
      }
    }

    method AddRest(path: string, values: seq<Json>)
      modifies this
      ensures items == old(items) + Appends(path, values)
    {
      hide Patch, Encode;
      ghost var adds := Appends(path, values);
      var n := 0;
      while n < |values|
        invariant n <= |values| && items == old(items) + adds[..n]
      {
        Compose("add", path, Some("-"), Some(values[n]));
        n := n + 1;
      }
    }

    method CreateMembers(path: string, from: Json, to: Json, cs: bool)
      requires from.Object? && to.Object?
      modifies this
      ensures items == old(items) + DiffMembers(path, from, Ordered(from, cs), Ordered(to, cs), cs)
      decreases from, 2
    {
      hide Diff, DiffMembers, Patch, Encode, Ordered, KeyLess;
      var x, y := Ordered(from, cs), Ordered(to, cs);
      var i, k := 0, 0;
      assert x[0..] == x && y[0..] == y;
      while i < |x| || k < |y|
        invariant i <= |x| && k <= |y|
        invariant items + DiffMembers(path, from, x[i..], y[k..], cs) == old(items) + DiffMembers(path, from, x, y, cs)
        decreases |x| - i + |y| - k
      {
        ghost var before := items;
        DiffMembersStep(path, from, x, y, i, k, cs);
        var diff := if i == |x| then 1 else if k == |y| then -1 else CompareKeys(x[i].key, y[k].key, cs);
        if diff == 0 {
          assert x[i] in from.members;
          Create(path + "/" + Encode(x[i].key), x[i].value, y[k].value, cs);
          Assoc(before, Diff(path + "/" + Encode(x[i].key), x[i].value, y[k].value, cs), DiffMembers(path, from, x[i + 1..], y[k + 1..], cs));
          i, k := i + 1, k + 1;
        } else if diff < 0 {
          Compose("remove", path, Some(x[i].key), None);
          Assoc(before, [Patch("remove", path + "/" + Encode(x[i].key), None)], DiffMembers(path, from, x[i + 1..], y[k..], cs));
          i := i + 1;
        } else {
          Compose("add", path, Some(y[k].key), Some(y[k].value));
          Assoc(before, [Patch("add", path + "/" + Encode(y[k].key), Some(y[k].value))], DiffMembers(path, from, x[i..], y[k + 1..], cs));
          k := k + 1;
        }
      }
      DiffMembersEnd(path, from, x, y, cs);
    }
  }

  lemma DiffMembersEnd(path: string, from: Json, x: seq<Member>, y: seq<Member>, cs: bool)
    requires MembersOf(x, from)
    ensures DiffMembers(path, from, x[|x|..], y[|y|..], cs) == []
  {
  }

  // The patches for the members from i and k on, by the next key of each.
  lemma DiffMembersStep(path: string, from: Json, x: seq<Member>, y: seq<Member>, i: nat, k: nat, cs: bool)
    requires MembersOf(x, from) && i <= |x| && k <= |y| && (i < |x| || k < |y|)
    ensures var diff := if i == |x| then 1 else if k == |y| then -1 else CompareKeys(x[i].key, y[k].key, cs);
            DiffMembers(path, from, x[i..], y[k..], cs) ==
            if diff == 0 then
              Diff(path + "/" + Encode(x[i].key), x[i].value, y[k].value, cs) + DiffMembers(path, from, x[i + 1..], y[k + 1..], cs)
            else if diff < 0 then
              [Patch("remove", path + "/" + Encode(x[i].key), None)] + DiffMembers(path, from, x[i + 1..], y[k..], cs)
            else
              [Patch("add", path + "/" + Encode(y[k].key), Some(y[k].value))] + DiffMembers(path, from, x[i..], y[k + 1..], cs)
  {
    hide Diff, Patch, Encode, KeyLess;
    var xs, ys := x[i..], y[k..];
    if i < |x| {
      assert xs[0] == x[i] && xs[1..] == x[i + 1..];
    }
    if k < |y| {
      assert ys[0] == y[k] && ys[1..] == y[k + 1..];
    }
  }

  // The sign of `compare_strings`.
  function CompareKeys(a: string, b: string, cs: bool): int {
    if KeyLess(a, b, cs) then -1 else if KeyLess(b, a, cs) then 1 else 0
  }
}
