/**
 The status of every operation on a document, wherever its back links lead, is that on its value
 (stage/cjson/cJSON_Utils.c, `apply_patch`), and so is the document after an operation that was refused.
 */
module JsonDocOutcome {
  import opened Basics
  import opened JsonSiblings
  import opened JsonValue
  import opened JsonCompare
  import opened JsonPointer
  import opened JsonDoc
  import opened JsonDocument
  import opened JsonTest
  import opened JsonOutcome

  lemma {:induction false} NodeStrip(d: Doc, a: Address)
    requires IsNode(Strip(d), a)
    ensures Strip(NodeAt(d, a)) == At(Strip(d), a)
    decreases |a|
  {
    if a != [] {
      assert a[0] < Arity(Strip(d)) && IsNode(Child(Strip(d), a[0]), a[1..]);
      match d
      case Items(items) => NodeStrip(items[a[0]], a[1..]);
      case Members(ms, _) => NodeStrip(ms[a[0]].value, a[1..]);
    }
  }

  lemma StripWithout(ms: seq<Entry>, back: Back, back': Back, i: nat)
    requires i < |ms|
    ensures Strip(Members(ms[..i] + ms[i + 1..], back')) == Object(Ideal.Without(Strip(Members(ms, back)).members, i))
  {
    var x := Strip(Members(ms[..i] + ms[i + 1..], back'));
    assert x.members == Ideal.Without(Strip(Members(ms, back)).members, i);
  }

  lemma StripItemsWithout(items: seq<Doc>, i: nat)
    requires i < |items|
    ensures Strip(Items(Ideal.Without(items, i))) == Array(Ideal.Without(Strip(Items(items)).items, i))
  {
    assert Strip(Items(Ideal.Without(items, i))).items == Ideal.Without(Strip(Items(items)).items, i);
  }

  // Taking out does the same to a document and to its value.
  ghost predicate SameTaken(r: Option<(Doc, Doc)>, q: Option<(Json, Json)>) {
    (r.Some? <==> q.Some?) && (r.Some? ==> Strip(r.value.0) == q.value.0 && Strip(r.value.1) == q.value.1)
  }

  lemma TakeStrip(parent: Doc, token: string)
    ensures SameTaken(TakeOut(parent, token), Ideal.TakeOut(Strip(parent), token))
  {
    hide IndexOf, Token, Lookup;
    match parent
    case Items(items) =>
      var i := IndexOf(Token(token));
      if i.Some? && i.value < |items| {
        StripItemsWithout(items, i.value);
      }
    case Members(ms, back) =>
      var i := Lookup(Strip(parent).members, token, false);
      if i < |ms| {
        StripWithout(ms, back, Remove(Siblings(ms, back), i).back, i);
      }
    case Leaf(_) =>
  }

  lemma DetachStrip(d: Doc, path: string, cs: bool)
    ensures SameTaken(Detach(d, path, cs), Ideal.Detach(Strip(d), path, cs))
  {
    hide GetPointer, TakeOut, Ideal.TakeOut, Strip, NodeAt, Put, Ideal.Put, Ideal.DecodeInPlace;
    if Ideal.LastSlash(path).Some? {
      var k := Ideal.LastSlash(path).value;
      var a := GetPointer(Strip(d), path[..k], cs);
      if a.Some? {
        NodeStrip(d, a.value);
        TakeStrip(NodeAt(d, a.value), Ideal.DecodeInPlace(path[k + 1..]));
        var r := TakeOut(NodeAt(d, a.value), Ideal.DecodeInPlace(path[k + 1..]));
        if r.Some? {
          NodePut(d, a.value, r.value.0);
        }
      }
    }
  }

  // The same status on a document and on its value, and the same document unless it is 0.
  ghost predicate SameStatus(r: Outcome, q: (Json, nat)) {
    r.Done? ==> r.status == q.1 && (r.status != 0 ==> Strip(r.doc) == q.0)
  }

  lemma PutStrip(parent: Doc, token: string, value: Doc, cs: bool)
    ensures SameStatus(PutIn(parent, token, value, cs), Ideal.PutIn(Strip(parent), token, Strip(value), cs))
  {
    hide IndexOf, Token, Lookup;
  }

  lemma AddStrip(d: Doc, path: string, value: Doc, cs: bool)
    ensures SameStatus(Add(d, path, value, cs), Ideal.Add(Strip(d), path, Strip(value), cs))
  {
    hide GetPointer, PutIn, Ideal.PutIn, Strip, NodeAt, Put, Ideal.Put, Ideal.DecodeInPlace;
    if Ideal.LastSlash(path).Some? {
      var k := Ideal.LastSlash(path).value;
      var a := GetPointer(Strip(d), path[..k], cs);
      if a.Some? {
        NodeStrip(d, a.value);
        PutStrip(NodeAt(d, a.value), Ideal.DecodeInPlace(path[k + 1..]), value, cs);
      }
    }
  }

  /** Wherever back links lead: unless one leads out of its list, the status of an operation is that on the value of
      the document, and a refused operation other than "test" leaves that value as well. */
  lemma OpStatus(d: Doc, op: string, path: string, from: Option<Json>, value: Option<Json>, cs: bool)
    requires op != "test"
    ensures SameStatus(ApplyOp(d, op, path, from, value, cs), Ideal.ApplyOp(Strip(d), op, path, from, value, cs))
  {
    hide GetPointer, Add, Ideal.Add, Detach, Ideal.Detach, Strip, Fresh, NodeAt;
    DetachStrip(d, path, cs);
    if value.Some? {
      StripFresh(value.value);
      AddStrip(d, path, Fresh(value.value), cs);
      if Detach(d, path, cs).Some? {
        AddStrip(Detach(d, path, cs).value.0, path, Fresh(value.value), cs);
      }
    }
    if from.Some? && Ideal.Text(from.value).Some? {
      var source := Ideal.Text(from.value).value;
      if op == "move" {
        MoveStrip(d, path, source, cs);
      }
      if op == "copy" {
        CopyStrip(d, path, source, cs);
      }
    }
  }

  lemma MoveStrip(d: Doc, path: string, source: string, cs: bool)
    ensures SameTaken(Detach(d, source, cs), Ideal.Detach(Strip(d), source, cs))
    ensures Detach(d, source, cs).Some? ==>
              var r, q := Detach(d, source, cs).value, Ideal.Detach(Strip(d), source, cs).value;
              SameStatus(Add(r.0, path, r.1, cs), Ideal.Add(q.0, path, q.1, cs))
  {
    hide Add, Ideal.Add, Detach, Ideal.Detach, Strip, SameStatus;
    DetachStrip(d, source, cs);
    var r := Detach(d, source, cs);
    if r.Some? {
      AddStrip(r.value.0, path, r.value.1, cs);
    }
  }

  lemma CopyStrip(d: Doc, path: string, source: string, cs: bool)
    ensures var a := GetPointer(Strip(d), source, cs);
            a.Some? ==> SameStatus(Add(d, path, Fresh(Strip(NodeAt(d, a.value))), cs), Ideal.Add(Strip(d), path, At(Strip(d), a.value), cs))
  {
    hide GetPointer, Add, Ideal.Add, Strip, Fresh, NodeAt, SameStatus;
    var a := GetPointer(Strip(d), source, cs);
    if a.Some? {
      NodeStrip(d, a.value);
      StripFresh(At(Strip(d), a.value));
      AddStrip(d, path, Fresh(Strip(NodeAt(d, a.value))), cs);
    }
  }

  /** A run stops at the first patch that is refused, with its status and the document as that patch leaves it. */
  lemma {:induction false} RunStops(d: Doc, before: seq<Json>, patch: Json, after: seq<Json>, cs: bool)
    requires ApplyAll(d, before, cs).Done? && ApplyAll(d, before, cs).status == 0
    ensures var r := Apply(ApplyAll(d, before, cs).doc, patch, cs);
            ApplyAll(d, before + [patch] + after, cs) == if r.Done? && r.status == 0 then ApplyAll(r.doc, after, cs) else r
    decreases |before|
  {
    hide Apply;
    var all := before + [patch] + after;
    if before == [] {
      assert all[0] == patch && all[1..] == after;
    } else {
      assert all[0] == before[0] && all[1..] == before[1..] + [patch] + after;
      RunStops(Apply(d, before[0], cs).doc, before[1..], patch, after, cs);
    }
  }

  /** "add" of a document, at an index of an array: refused with 10 if and only if the index is past the end. */
  lemma AddPastEnd(d: Doc, path: string, n: nat, x: Json, v: View)
    requires Unique(Strip(d), v.cs) && Unique(x, v.cs) && n < SIZE_LIMIT && path != "" && LastName(path) == Decimal(n)
    requires var c := Container(MeaningOf(Strip(d), v), path, v.cs); c.Some? && c.value.MArray?
    ensures var r := ApplyOp(d, "add", path, None, Some(x), v.cs);
            var items := Container(MeaningOf(Strip(d), v), path, v.cs).value.items;
            r.Done? && r.status == (if n <= |items| then 0 else 10) && (n > |items| ==> Strip(r.doc) == Strip(d))
  {
    ArrayDone(d, path, x, v);
    hide ApplyOp, Ideal.ApplyOp, MeaningOf, Unique, Container, LastName, Decimal, Strip;
    AddAtIndex(Strip(d), path, n, None, x, v);
    OpStatus(d, "add", path, None, Some(x), v.cs);
  }

  // An array needs no back link.
  lemma ArrayDone(d: Doc, path: string, x: Json, v: View)
    requires Unique(Strip(d), v.cs) && Unique(x, v.cs) && path != ""
    requires var c := Container(MeaningOf(Strip(d), v), path, v.cs); c.Some? && c.value.MArray?
    ensures ApplyOp(d, "add", path, None, Some(x), v.cs).Done?
  {
    hide GetPointer, Unique, NodeAt, Put, Follow, Ideal.DecodeInPlace, IndexOf, Token, MembersMeaning;
    var k := Ideal.LastSlash(path).value;
    PointerTo(Strip(d), path[..k], x, v);
    var a := GetPointer(Strip(d), path[..k], v.cs).value;
    NodeStrip(d, a);
  }
}
