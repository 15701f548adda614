/**
 What patches do to documents, compared with what they mean: as long as no test sorts anything, every
 patch has the effect it should have; after a test, an addition arrives only if neither the first
 nor the last member of the object has changed.
 */
module JsonDocLaw {
  import opened Basics
  import opened JsonSiblings
  import opened JsonValue
  import opened JsonCompare
  import opened JsonPointer
  import opened JsonDoc
  import opened JsonDocument

  // ----- documents with right back links -----

  lemma {:induction false} FreshNode(j: Json, a: Address)
    requires IsNode(j, a)
    ensures Strip(Fresh(j)) == j && NodeAt(Fresh(j), a) == Fresh(At(j, a))
    decreases |a|
  {
    StripFresh(j);
    if a != [] {
      FreshChild(j, a[0]);
      FreshNode(Child(j, a[0]), a[1..]);
    }
  }

  lemma FreshChild(j: Json, i: nat)
    requires i < Arity(j)
    ensures j.Array? ==> Fresh(j).Items? && |Fresh(j).items| == |j.items| && Fresh(j).items[i] == Fresh(Child(j, i))
    ensures j.Object? ==> Fresh(j).Members? && |Fresh(j).members| == |j.members| && Fresh(j).members[i] == Entry(j.members[i].key, Fresh(Child(j, i)))
    ensures Strip(Fresh(Child(j, i))) == Child(j, i)
  {
    StripFresh(Child(j, i));
  }

  lemma {:induction false} FreshPut(j: Json, a: Address, x: Json)
    requires IsNode(j, a)
    ensures Strip(Fresh(j)) == j && Put(Fresh(j), a, Fresh(x)) == Fresh(Ideal.Put(j, a, x))
    decreases |a|
  {
    StripFresh(j);
    if a != [] {
      FreshChild(j, a[0]);
      FreshPut(Child(j, a[0]), a[1..], x);
      var c := Ideal.Put(Child(j, a[0]), a[1..], x);
      match j
      case Array(items) => assert Fresh(Array(items[a[0] := c])).items == Fresh(j).items[a[0] := Fresh(c)];
      case Object(ms) => assert Fresh(Object(ms[a[0] := Member(ms[a[0]].key, c)])).members == Fresh(j).members[a[0] := Entry(ms[a[0]].key, Fresh(c))];
    }
  }

  function FreshPair(r: Option<(Json, Json)>): Option<(Doc, Doc)> {
    match r
    case None => None
    case Some(p) => Some((Fresh(p.0), Fresh(p.1)))
  }

  function FreshEntries(ms: seq<Member>): (r: seq<Entry>)
    ensures |r| == |ms|
  {
    seq(|ms|, i requires 0 <= i < |ms| => Entry(ms[i].key, Fresh(ms[i].value)))
  }

  lemma FreshObject(ms: seq<Member>)
    ensures Fresh(Object(ms)) == Members(FreshEntries(ms), LastOf(|ms|))
    ensures Strip(Fresh(Object(ms))) == Object(ms)
    ensures forall i :: 0 <= i < |ms| ==> FreshEntries(ms)[i] == Entry(ms[i].key, Fresh(ms[i].value))
  {
    StripFresh(Object(ms));
    assert Fresh(Object(ms)).members == FreshEntries(ms);
  }

  lemma FreshWithout(ms: seq<Member>, i: nat)
    requires i < |ms|
    ensures Remove(Siblings(FreshEntries(ms), LastOf(|ms|)), i) == Siblings(FreshEntries(Ideal.Without(ms, i)), LastOf(|ms| - 1))
  {
    hide Fresh;
    var es, rest := FreshEntries(ms), Ideal.Without(ms, i);
    assert es[..i] + es[i + 1..] == FreshEntries(rest);
  }

  lemma FreshAppend(ms: seq<Member>, m: Member)
    ensures Append(Siblings(FreshEntries(ms), LastOf(|ms|)), Entry(m.key, Fresh(m.value))) == Some(Siblings(FreshEntries(ms + [m]), LastOf(|ms| + 1)))
  {
    hide Fresh;
    var es, e := FreshEntries(ms), Entry(m.key, Fresh(m.value));
    assert es[..|es|] == es;
    assert es + [e] == FreshEntries(ms + [m]);
    if ms == [] {
      assert es + [e] == [e];
    }
  }

  lemma FreshTakeOut(parent: Json, token: string)
    ensures TakeOut(Fresh(parent), token) == FreshPair(Ideal.TakeOut(parent, token))
  {
    hide Lookup, IndexOf, Token;
    match parent
    case Array(items) =>
      var i := IndexOf(Token(token));
      if i.Some? && i.value < |items| {
        assert Fresh(Array(Ideal.Without(items, i.value))).items == Ideal.Without(Fresh(parent).items, i.value);
      }
    case Object(ms) => FreshTakeMember(ms, token);
    case _ =>
  }

  lemma FreshTakeMember(ms: seq<Member>, token: string)
    ensures TakeOut(Fresh(Object(ms)), token) == FreshPair(Ideal.TakeOut(Object(ms), token))
  {
    hide Lookup, Fresh, Strip, FreshEntries;
    FreshObject(ms);
    var i := Lookup(ms, token, false);
    if i < |ms| {
      FreshWithout(ms, i);
      FreshObject(Ideal.Without(ms, i));
    }
  }

  function FreshResult(r: (Json, nat)): Outcome {
    Done(Fresh(r.0), r.1)
  }

  lemma FreshPutIn(parent: Json, token: string, x: Json, cs: bool)
    ensures PutIn(Fresh(parent), token, Fresh(x), cs) == FreshResult(Ideal.PutIn(parent, token, x, cs))
  {
    hide Lookup, IndexOf, Token, Strip;
    match parent
    case Array(items) =>
      var i, fs := IndexOf(Token(token)), Fresh(parent).items;
      assert Fresh(Array(items + [x])).items == fs + [Fresh(x)];
      if i.Some? && i.value <= |items| {
        assert Fresh(Array(items[..i.value] + [x] + items[i.value..])).items == fs[..i.value] + [Fresh(x)] + fs[i.value..];
      }
    case Object(ms) => FreshMember(ms, token, x, cs);
    case _ =>
  }

  lemma FreshMember(ms: seq<Member>, token: string, x: Json, cs: bool)
    ensures PutIn(Fresh(Object(ms)), token, Fresh(x), cs) == FreshResult(Ideal.PutIn(Object(ms), token, x, cs))
  {
    hide Lookup, Fresh, Strip, FreshEntries, Append, Remove;
    FreshObject(ms);
    var i := Lookup(ms, token, cs);
    var rest := if i < |ms| then Ideal.Without(ms, i) else ms;
    if i < |ms| {
      FreshWithout(ms, i);
    }
    FreshAppend(rest, Member(token, x));
    FreshObject(rest + [Member(token, x)]);
  }

  lemma FreshDetach(j: Json, path: string, cs: bool)
    ensures Detach(Fresh(j), path, cs) == FreshPair(Ideal.Detach(j, path, cs))
  {
    hide Fresh, Strip, TakeOut, Ideal.TakeOut, GetPointer, Ideal.DecodeInPlace, Put, Ideal.Put, NodeAt;
    StripFresh(j);
    var k := Ideal.LastSlash(path);
    if k.Some? {
      var a := GetPointer(j, path[..k.value], cs);
      if a.Some? {
        FreshNode(j, a.value);
        var token := Ideal.DecodeInPlace(path[k.value + 1..]);
        FreshTakeOut(At(j, a.value), token);
        var r := Ideal.TakeOut(At(j, a.value), token);
        if r.Some? {
          FreshPut(j, a.value, r.value.0);
        }
      }
    }
  }

  lemma FreshAdd(j: Json, path: string, x: Json, cs: bool)
    ensures Add(Fresh(j), path, Fresh(x), cs) == FreshResult(Ideal.Add(j, path, x, cs))
  {
    hide Fresh, Strip, PutIn, Ideal.PutIn, GetPointer, Ideal.DecodeInPlace, Put, Ideal.Put, NodeAt;
    StripFresh(j);
    var k := Ideal.LastSlash(path);
    if k.Some? {
      var a := GetPointer(j, path[..k.value], cs);
      if a.Some? {
        FreshNode(j, a.value);
        var token := Ideal.DecodeInPlace(path[k.value + 1..]);
        FreshPutIn(At(j, a.value), token, x, cs);
        FreshPut(j, a.value, Ideal.PutIn(At(j, a.value), token, x, cs).0);
      }
    }
  }

  // The node that a test looks at is in order, if there is one and a value to compare it with.
  ghost predicate TestInOrder(j: Json, path: string, value: Option<Json>, cs: bool) {
    var at := GetPointer(j, path, cs);
    at.Some? && value.Some? ==> InOrder(At(j, at.value), cs)
  }

  lemma FreshTest(j: Json, path: string, value: Option<Json>, cs: bool)
    requires TestInOrder(j, path, value, cs)
    ensures Test(Fresh(j), path, value, cs) == FreshResult(Ideal.ApplyOp(j, "test", path, None, value, cs))
  {
    hide Fresh, Strip, GetPointer, Put, Ideal.Put, NodeAt, Compared, Same, InOrder;
    StripFresh(j);
    var at := GetPointer(j, path, cs);
    if at.Some? && value.Some? {
      var node := At(j, at.value);
      FreshNode(j, at.value);
      ComparedInOrder(node, Fresh(value.value), cs);
      ComparedSame(Fresh(node), Fresh(value.value), cs);
      StripFresh(node);
      StripFresh(value.value);
      FreshPut(j, at.value, node);
      PutBack(j, at.value);
    }
  }

  lemma {:induction false} PutBack(j: Json, a: Address)
    requires IsNode(j, a)
    ensures Ideal.Put(j, a, At(j, a)) == j
    decreases |a|
  {
    if a != [] {
      PutBack(Child(j, a[0]), a[1..]);
    }
  }

  lemma FreshOp(j: Json, op: string, path: string, from: Option<Json>, value: Option<Json>, cs: bool)
    requires op == "test" ==> TestInOrder(j, path, value, cs)
    ensures ApplyOp(Fresh(j), op, path, from, value, cs) == FreshResult(Ideal.ApplyOp(j, op, path, from, value, cs))
  {
    hide Fresh, Detach, Ideal.Detach, Add, Ideal.Add, GetPointer, Strip, NodeAt, Test, TestInOrder, Same;
    StripFresh(j);
    if op == "test" {
      FreshTest(j, path, value, cs);
    } else if op == "remove" {
      FreshInvalid();
      FreshDetach(j, path, cs);
    } else if op == "replace" {
      FreshReplace(j, path, value, cs);
    } else if op == "add" {
      if value.Some? {
        FreshAdd(j, path, value.value, cs);
      }
    } else if op == "move" && from.Some? && Ideal.Text(from.value).Some? {
      FreshMove(j, Ideal.Text(from.value).value, path, cs);
    } else if op == "copy" && from.Some? && Ideal.Text(from.value).Some? {
      var a := GetPointer(j, Ideal.Text(from.value).value, cs);
      if a.Some? {
        FreshNode(j, a.value);
        StripFresh(At(j, a.value));
        FreshAdd(j, path, At(j, a.value), cs);
      }
    }
  }

  lemma FreshInvalid()
    ensures Fresh(Invalid) == Leaf(Invalid)
  {
  }

  lemma FreshReplace(j: Json, path: string, value: Option<Json>, cs: bool)
    ensures ApplyOp(Fresh(j), "replace", path, None, value, cs) == FreshResult(Ideal.ApplyOp(j, "replace", path, None, value, cs))
  {
    hide Fresh, Detach, Ideal.Detach, Add, Ideal.Add;
    FreshDetach(j, path, cs);
    var r := Ideal.Detach(j, path, cs);
    if r.Some? && value.Some? {
      FreshAdd(r.value.0, path, value.value, cs);
    }
  }

  lemma FreshMove(j: Json, from: string, path: string, cs: bool)
    ensures var r, s := Ideal.Detach(j, from, cs), Detach(Fresh(j), from, cs);
            && (r.None? <==> s.None?)
            && (r.Some? ==> Add(s.value.0, path, s.value.1, cs) == FreshResult(Ideal.Add(r.value.0, path, r.value.1, cs)))
  {
    hide Fresh, Detach, Ideal.Detach, Add, Ideal.Add;
    FreshDetach(j, from, cs);
    var r := Ideal.Detach(j, from, cs);
    if r.Some? {
      FreshAdd(r.value.0, path, r.value.1, cs);
    }
  }

  // ----- whole runs -----

  // Whatever a test of this patch compares is in order.
  ghost predicate Tidy(j: Json, patch: Json, cs: bool) {
    var path, op, value := Ideal.Field(patch, "path", cs), Ideal.Field(patch, "op", cs), Ideal.Field(patch, "value", cs);
    op == Some(String("test")) && path.Some? && path.value.String? ==> TestInOrder(j, path.value.s, value, cs)
  }

  ghost predicate AllTidy(j: Json, patches: seq<Json>, cs: bool)
    decreases |patches|
  {
    patches != [] ==> Tidy(j, patches[0], cs) && AllTidy(Ideal.Apply(j, patches[0], cs).0, patches[1..], cs)
  }

  lemma FreshApply(j: Json, patch: Json, cs: bool)
    requires Tidy(j, patch, cs)
    ensures Apply(Fresh(j), patch, cs) == FreshResult(Ideal.Apply(j, patch, cs))
  {
    hide Ideal.Field, ApplyOp, Ideal.ApplyOp, Fresh, TestInOrder;
    var path, op, value, from := Ideal.Field(patch, "path", cs), Ideal.Field(patch, "op", cs), Ideal.Field(patch, "value", cs), Ideal.Field(patch, "from", cs);
    if path.Some? && path.value.String? && op.Some? && op.value.String? {
      FreshOp(j, op.value.s, path.value.s, from, value, cs);
    }
  }

  /** While tests only compare objects that are in order, every run has the effect it should have, and all
      back links stay right. */
  lemma {:induction false} RunAgrees(j: Json, patches: seq<Json>, cs: bool)
    requires AllTidy(j, patches, cs)
    ensures ApplyAll(Fresh(j), patches, cs) == FreshResult(Ideal.ApplyAll(j, patches, cs))
    decreases |patches|
  {
    hide Apply, Ideal.Apply, Fresh, Tidy;
    if patches != [] {
      FreshApply(j, patches[0], cs);
      RunAgrees(Ideal.Apply(j, patches[0], cs).0, patches[1..], cs);
    }
  }
}
