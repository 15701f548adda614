/**
 Applying a JSON Patch to a document (stage/cjson/cJSON_Utils.c, `apply_patch`, `cJSONUtils_ApplyPatches`).
 "test" sorts the objects that it compares, so later patches see other members first, and additions follow
 back links that are not right anymore.
 */
module JsonDocument {
  import opened Basics
  import opened JsonSiblings
  import opened JsonValue
  import opened JsonCompare
  import opened JsonPointer
  import opened JsonDoc
  import Ideal = JsonPatch

  // ----- editing a tree -----

  // Lookups only follow `child` and `next`.
  function NodeAt(d: Doc, a: Address): Doc
    requires IsNode(Strip(d), a)
    decreases |a|
  {
    if a == [] then d
    else
      assert a[0] < Arity(Strip(d)) && IsNode(Child(Strip(d), a[0]), a[1..]);
      match d
      case Items(items) => NodeAt(items[a[0]], a[1..])
      case Members(ms, _) => NodeAt(ms[a[0]].value, a[1..])
      case Leaf(_) => d
  }

  // The tree with the node at a replaced.
  function Put(d: Doc, a: Address, x: Doc): Doc
    requires IsNode(Strip(d), a)
    decreases |a|
  {
    if a == [] then x
    else
      assert a[0] < Arity(Strip(d)) && IsNode(Child(Strip(d), a[0]), a[1..]);
      match d
      case Items(items) => Items(items[a[0] := Put(items[a[0]], a[1..], x)])
      case Members(ms, back) => Members(ms[a[0] := Entry(ms[a[0]].key, Put(ms[a[0]].value, a[1..], x))], back)
      case Leaf(_) => d
  }

  // The node taken out of a container, and what stays. The case of keys is ignored.
  function TakeOut(parent: Doc, token: string): Option<(Doc, Doc)> {
    match parent
    case Items(items) =>
      var i := IndexOf(Token(token));
      if i.Some? && i.value < |items| then Some((Items(Ideal.Without(items, i.value)), items[i.value])) else None
    case Members(ms, back) =>
      var i := Lookup(Strip(parent).members, token, false);
      if i < |ms| then
        var l := Remove(Siblings(ms, back), i);
        Some((Members(l.items, l.back), ms[i].value))
      else None
    case Leaf(_) => None
  }

  // `detach_path`: what stays of the tree, and the node.
  function Detach(d: Doc, path: string, cs: bool): Option<(Doc, Doc)> {
    match Ideal.LastSlash(path)
    case None => None
    case Some(k) =>
      match GetPointer(Strip(d), path[..k], cs)
      case None => None
      case Some(a) =>
        match TakeOut(NodeAt(d, a), Ideal.DecodeInPlace(path[k + 1..]))
        case None => None
        case Some(r) => Some((Put(d, a, r.0), r.1))
  }

  // The document and the status; or a back link was followed out of its list, and nothing is known.
  datatype Outcome = Done(doc: Doc, status: nat) | Stray

  function PutIn(parent: Doc, token: string, value: Doc, cs: bool): Outcome {
    match parent
    case Items(items) =>
      if token == "-" then Done(Items(items + [value]), 0)
      else
        var i := IndexOf(Token(token));
        if i.None? then Done(parent, 11)
        else if i.value > |items| then Done(parent, 10)
        else Done(Items(items[..i.value] + [value] + items[i.value..]), 0)
    case Members(ms, back) =>
      var i := Lookup(Strip(parent).members, token, cs);
      var l := if i < |ms| then Remove(Siblings(ms, back), i) else Siblings(ms, back);
      match Append(l, Entry(token, value)) {
        case None => Stray
        case Some(r) => Done(Members(r.items, r.back), 0)
      }
    case Leaf(_) => Done(parent, 9)
  }

  // The last part of `apply_patch`.
  function Add(d: Doc, path: string, value: Doc, cs: bool): Outcome {
    match Ideal.LastSlash(path)
    case None => Done(d, 9)
    case Some(k) =>
      match GetPointer(Strip(d), path[..k], cs)
      case None => Done(d, 9)
      case Some(a) =>
        match PutIn(NodeAt(d, a), Ideal.DecodeInPlace(path[k + 1..]), value, cs)
        case Stray => Stray
        case Done(c, status) => if status == 0 then Done(Put(d, a, c), 0) else Done(d, status)
  }

  // ----- `apply_patch` -----

  function Apply(d: Doc, patch: Json, cs: bool): Outcome {
    var path, op, value := Ideal.Field(patch, "path", cs), Ideal.Field(patch, "op", cs), Ideal.Field(patch, "value", cs);
    if path.None? || !path.value.String? then Done(d, 2)
    else if op.None? || !op.value.String? then Done(d, 3)
    else ApplyOp(d, op.value.s, path.value.s, Ideal.Field(patch, "from", cs), value, cs)
  }

  // "test": the node is compared, and its objects are sorted as far as that gets.
  function Test(d: Doc, path: string, value: Option<Json>, cs: bool): Outcome {
    var at := GetPointer(Strip(d), path, cs);
    if at.None? || value.None? then Done(d, 1)
    else
      var r := Compared(NodeAt(d, at.value), Fresh(value.value), cs);
      Done(Put(d, at.value, r.0), if r.2 then 0 else 1)
  }

  function ApplyOp(d: Doc, op: string, path: string, from: Option<Json>, value: Option<Json>, cs: bool): Outcome {
    if op == "test" then Test(d, path, value, cs)
    else if op == "remove" then
      if path == "" then Done(Leaf(Invalid), 0)
      else
        match Detach(d, path, cs)
        case None => Done(d, 13)
        case Some(r) => Done(r.0, 0)
    else if op == "replace" then
      if path == "" then if value.None? then Done(d, 7) else Done(Fresh(value.value), 0)
      else
        match Detach(d, path, cs)
        case None => Done(d, 13)
        case Some(r) => if value.None? then Done(r.0, 7) else Add(r.0, path, Fresh(value.value), cs)
    else if op == "add" then
      if value.None? then Done(d, 7)
      else if path == "" then Done(Fresh(value.value), 0)
      else Add(d, path, Fresh(value.value), cs)
    else if op == "move" then
      if from.None? then Done(d, 4)
      else if Ideal.Text(from.value).None? then Done(d, 5)
      else
        match Detach(d, Ideal.Text(from.value).value, cs)
        case None => Done(d, 5)
        case Some(r) => Add(r.0, path, r.1, cs)
    else if op == "copy" then
      if from.None? then Done(d, 4)
      else if Ideal.Text(from.value).None? then Done(d, 5)
      else
        match GetPointer(Strip(d), Ideal.Text(from.value).value, cs)
        case None => Done(d, 5)
        case Some(a) => Add(d, path, Fresh(Strip(NodeAt(d, a))), cs)
    else Done(d, 3)
  }

  function ApplyAll(d: Doc, patches: seq<Json>, cs: bool): Outcome
    decreases |patches|
  {
    if patches == [] then Done(d, 0)
    else
      match Apply(d, patches[0], cs)
      case Stray => Stray
      case Done(e, status) => if status != 0 then Done(e, status) else ApplyAll(e, patches[1..], cs)
  }

  // The patched document, edited in place. A method that returns no status has followed a back link out of its list.
  class Document {
    var root: Doc

    constructor (j: Json)
      ensures root == Fresh(j)
    {
      root := Fresh(j);
    }

    // The outcome of an operation is r.
    ghost predicate Is(r: Outcome, status: Option<nat>)
      reads this
    {
      if status.None? then r.Stray? else r == Done(root, status.value)
    }

    method DetachPath(path: string, cs: bool) returns (item: Option<Doc>)
      modifies this
      ensures var r := Detach(old(root), path, cs);
              if r.None? then item == None && root == old(root) else item == Some(r.value.1) && root == r.value.0
    {
      var k := Ideal.LastSlash(path);
      if k.None? {
        return None;
      }
      var a := GetItemFromPointer(Strip(root), path[..k.value], cs);
      if a.None? {
        return None;
      }
      var r := TakeOut(NodeAt(root, a.value), Ideal.DecodeInPlace(path[k.value + 1..]));
      if r.None? {
        return None;
      }
      root := Put(root, a.value, r.value.0);
      return Some(r.value.1);
    }

    method AddValue(path: string, value: Doc, cs: bool) returns (status: Option<nat>)
      modifies this
      ensures Is(Add(old(root), path, value, cs), status)
    {
      var k := Ideal.LastSlash(path);
      if k.None? {
        return Some(9);
      }
      var a := GetItemFromPointer(Strip(root), path[..k.value], cs);
      if a.None? {
        return Some(9);
      }
      var r := PutIn(NodeAt(root, a.value), Ideal.DecodeInPlace(path[k.value + 1..]), value, cs);
      if r.Stray? {
        return None;
      }
      if r.status == 0 {
        root := Put(root, a.value, r.doc);
      }
      return Some(r.status);
    }

    method TestValue(path: string, value: Option<Json>, cs: bool) returns (status: nat)
      modifies this
      ensures Test(old(root), path, value, cs) == Done(root, status)
    {
      var at := GetItemFromPointer(Strip(root), path, cs);
      if at.None? || value.None? {
        return 1;
      }
      var node, _, same := CompareJson(NodeAt(root, at.value), Fresh(value.value), cs);
      root := Put(root, at.value, node);
      return if same then 0 else 1;
    }

    /** `apply_patch` */
    method ApplyPatch(patch: Json, cs: bool) returns (status: Option<nat>)
      modifies this
      ensures Is(Apply(old(root), patch, cs), status)
    {
      hide Detach, Add, GetPointer, Test, Fresh, Strip;
      var path := Ideal.Field(patch, "path", cs);
      if path.None? || !path.value.String? {
        return Some(2);
      }
      var op := Ideal.Field(patch, "op", cs);
      if op.None? || !op.value.String? || op.value.s !in ["add", "remove", "replace", "move", "copy", "test"] {
        return Some(3);
      }
      var opcode, p := op.value.s, path.value.s;
      if opcode == "test" {
        var s := TestValue(p, Ideal.Field(patch, "value", cs), cs);
        return Some(s);
      }
      var value: Doc;
      if p == "" {
        if opcode == "remove" {
          root := Leaf(Invalid);
          return Some(0);
        }
        if opcode == "replace" || opcode == "add" {
          var v := Ideal.Field(patch, "value", cs);
          if v.None? {
            return Some(7);
          }
          root := Fresh(v.value);
          return Some(0);
        }
      }
      if opcode == "remove" || opcode == "replace" {
        var item := DetachPath(p, cs);
        if item.None? {
          return Some(13);
        }
        if opcode == "remove" {
          return Some(0);
        }
      }
      if opcode == "move" || opcode == "copy" {
        var from := Ideal.Field(patch, "from", cs);
        if from.None? {
          return Some(4);
        }
        var text := Ideal.Text(from.value);
        if text.None? {
          return Some(5);
        }
        if opcode == "move" {
          var item := DetachPath(text.value, cs);
          if item.None? {
            return Some(5);
          }
          value := item.value;
        } else {
          var at := GetItemFromPointer(Strip(root), text.value, cs);
          if at.None? {
            return Some(5);
          }
          value := Fresh(Strip(NodeAt(root, at.value)));
        }
      } else {
        var v := Ideal.Field(patch, "value", cs);
        if v.None? {
          return Some(7);
        }
        value := Fresh(v.value);
      }
      status := AddValue(p, value, cs);
    }

    /** `cJSONUtils_ApplyPatches` and its case-sensitive variant: up to the first patch that fails. */
    method ApplyPatches(patches: Json, cs: bool) returns (status: Option<nat>)
      modifies this
      ensures !patches.Array? ==> status == Some(1) && root == old(root)
      ensures patches.Array? ==> Is(ApplyAll(old(root), patches.items, cs), status)
    {
      hide Apply;
      if !patches.Array? {
        return Some(1);
      }
      var i := 0;
      while i < |patches.items|
        invariant i <= |patches.items| && ApplyAll(old(root), patches.items, cs) == ApplyAll(root, patches.items[i..], cs)
      {
        status := ApplyPatch(patches.items[i], cs);
        assert patches.items[i..][1..] == patches.items[i + 1..];
        if status != Some(0) {
          return;
        }
        i := i + 1;
      }
      return Some(0);
    }
  }
}
