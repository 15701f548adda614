/**
 What `apply_patch` (stage/cjson/cJSON_Utils.c) does with any path, on the meaning of the document: when an
 operation is refused, with which status, what the document is afterwards, and what it is after success.
 */
module JsonOutcome {
  import opened Basics
  import opened KeyOrder
  import opened JsonValue
  import opened JsonCompare
  import opened JsonPointer
  import opened JsonPatch
  import opened JsonPlace
  import opened JsonOps

  // ----- places named by any path -----

  // What a token leads to: an element by its index, a member by its unescaped key.
  function TokenTo(m: Meaning, t: string, cs: bool): Option<Meaning> {
    match m
    case MArray(items) =>
      var i := IndexOf(t);
      if i.Some? && i.value < |items| then Some(items[i.value]) else None
    case MObject(members) =>
      var k := Unescape(t);
      if k.Some? && Fold(k.value, cs) in members then Some(members[Fold(k.value, cs)]) else None
    case _ => None
  }

  function TokenPut(m: Meaning, t: string, x: Meaning, cs: bool): Meaning
    requires TokenTo(m, t, cs).Some?
  {
    match m
    case MArray(items) => MArray(items[IndexOf(t).value := x])
    case MObject(members) => MObject(members[Fold(Unescape(t).value, cs) := x])
  }

  // What a path leads to, token by token. What does not begin with a slash leads nowhere else.
  function Follow(m: Meaning, p: string, cs: bool): Option<Meaning>
    decreases |p|
  {
    if p == [] || p[0] != '/' then Some(m)
    else
      match TokenTo(m, Token(p[1..]), cs)
      case None => None
      case Some(c) => Follow(c, AfterToken(p[1..]), cs)
  }

  function PutAlong(m: Meaning, p: string, x: Meaning, cs: bool): Meaning
    requires Follow(m, p, cs).Some?
    decreases |p|
  {
    if p == [] || p[0] != '/' then x
    else
      var t := Token(p[1..]);
      TokenPut(m, t, PutAlong(TokenTo(m, t, cs).value, AfterToken(p[1..]), x, cs), cs)
  }

  lemma SelectTo(j: Json, p: string, v: View)
    requires Unique(j, v.cs)
    ensures var i := Select(j, p, v.cs);
            var c := TokenTo(MeaningOf(j, v), Token(p), v.cs);
            && (i.Some? <==> c.Some?)
            && (i.Some? ==> MeaningOf(Child(j, i.value), v) == c.value)
            && (i.Some? && j.Object? ==> Fold(j.members[i.value].key, v.cs) == Fold(Unescape(Token(p)).value, v.cs))
            && (i.Some? && j.Array? ==> IndexOf(Token(p)) == i)
  {
    hide MembersMeaning, IndexOf, Token, Unescape, FirstNamed;
    if j.Object? {
      var i, k := FirstNamed(j.members, p, v.cs), Unescape(Token(p));
      if i < |j.members| {
        MeaningLookup(j.members, v, i);
      } else if k.Some? && Fold(k.value, v.cs) in MembersMeaning(j.members, v) {
        var x := MeaningKey(j.members, v, Fold(k.value, v.cs));
        assert false;
      }
    }
  }

  // A path leads to a node if and only if it leads to a place, and to replace the node is to replace the place.
  lemma {:induction false} PointerTo(j: Json, p: string, x: Json, v: View)
    requires Unique(j, v.cs) && Unique(x, v.cs)
    ensures var a, c := GetPointer(j, p, v.cs), Follow(MeaningOf(j, v), p, v.cs);
            && (a.Some? <==> c.Some?)
            && (a.Some? ==>
                 && IsNode(j, a.value) && Unique(At(j, a.value), v.cs) && MeaningOf(At(j, a.value), v) == c.value
                 && Unique(Put(j, a.value, x), v.cs)
                 && MeaningOf(Put(j, a.value, x), v) == PutAlong(MeaningOf(j, v), p, MeaningOf(x, v), v.cs))
    decreases |p|
  {
    hide Select, AfterToken, MeaningOf, Unique, TokenTo, TokenPut, Token;
    if p != [] && p[0] == '/' {
      SelectTo(j, p[1..], v);
      var i := Select(j, p[1..], v.cs);
      if i.Some? {
        var c := Child(j, i.value);
        ChildUnique(j, i.value, v.cs);
        PointerTo(c, AfterToken(p[1..]), x, v);
        var b := GetPointer(c, AfterToken(p[1..]), v.cs);
        if b.Some? {
          var a := [i.value] + b.value;
          assert a[1..] == b.value;
          PutSelected(j, p[1..], i.value, Put(c, b.value, x), v);
        }
      }
    }
  }

  lemma PutSelected(j: Json, p: string, i: nat, c: Json, v: View)
    requires Unique(j, v.cs) && Unique(c, v.cs) && Select(j, p, v.cs) == Some(i) && i < Arity(j)
    ensures TokenTo(MeaningOf(j, v), Token(p), v.cs).Some?
    ensures var q := if j.Array? then Array(j.items[i := c]) else Object(j.members[i := Member(j.members[i].key, c)]);
            Unique(q, v.cs) && MeaningOf(q, v) == TokenPut(MeaningOf(j, v), Token(p), MeaningOf(c, v), v.cs)
  {
    hide MembersMeaning, IndexOf, Token, Unescape, FirstNamed, Select;
    SelectTo(j, p, v);
    if j.Object? {
      MembersPut(j.members, i, c, v);
    } else if j.Array? {
      assert MeaningOf(Array(j.items[i := c]), v).items == MeaningOf(j, v).items[i := MeaningOf(c, v)];
    }
  }

  // ----- where a path puts something, and what it takes out -----

  // What contains the place that the path names: what its part in front of the last slash leads to.
  function Container(m: Meaning, path: string, cs: bool): Option<Meaning> {
    match LastSlash(path)
    case None => None
    case Some(k) => Follow(m, path[..k], cs)
  }

  // The part behind the last slash, decoded.
  function LastName(path: string): string {
    match LastSlash(path)
    case None => ""
    case Some(k) => DecodeInPlace(path[k + 1..])
  }

  function PutContainer(m: Meaning, path: string, x: Meaning, cs: bool): Meaning
    requires Container(m, path, cs).Some?
  {
    PutAlong(m, path[..LastSlash(path).value], x, cs)
  }

  // There is something to take out of a container: an element, or a member with the key, the case of which
  // does not matter.
  ghost predicate Occupied(c: Meaning, name: string) {
    match c
    case MArray(items) => IndexOf(Token(name)).Some? && IndexOf(Token(name)).value < |items|
    case MObject(members) => exists k :: k in members && Lower(k) == Lower(name)
    case _ => false
  }

  // What is taken out of c is x, and r stays.
  ghost predicate TakenFrom(c: Meaning, name: string, r: Meaning, x: Meaning) {
    match c
    case MArray(items) =>
      IndexOf(Token(name)).Some? &&
      var i := IndexOf(Token(name)).value;
      i < |items| && x == items[i] && r == MArray(items[..i] + items[i + 1..])
    case MObject(members) => exists k :: k in members && Lower(k) == Lower(name) && x == members[k] && r == MObject(members - {k})
    case _ => false
  }

  // Something can be put into a container: behind all elements, at an index up to their number, or under any key.
  ghost predicate Vacant(c: Meaning, name: string) {
    match c
    case MArray(items) => name == "-" || (IndexOf(Token(name)).Some? && IndexOf(Token(name)).value <= |items|)
    case MObject(_) => true
    case _ => false
  }

  function PutInto(c: Meaning, name: string, x: Meaning, cs: bool): Meaning
    requires Vacant(c, name)
  {
    match c
    case MArray(items) =>
      var i := if name == "-" then |items| else IndexOf(Token(name)).value;
      MArray(items[..i] + [x] + items[i..])
    case MObject(members) => MObject(members[Fold(name, cs) := x])
  }

  // The path names a place with something in it.
  ghost predicate HasPlace(m: Meaning, path: string, cs: bool) {
    var c := Container(m, path, cs);
    c.Some? && Occupied(c.value, LastName(path))
  }

  // The document without the place is r; x was in the place.
  ghost predicate WithoutIt(m: Meaning, path: string, cs: bool, r: Meaning, x: Meaning) {
    var c := Container(m, path, cs);
    c.Some? && exists d :: TakenFrom(c.value, LastName(path), d, x) && r == PutContainer(m, path, d, cs)
  }

  // The path names a place that something can be put into.
  ghost predicate HasRoom(m: Meaning, path: string, cs: bool) {
    var c := Container(m, path, cs);
    c.Some? && Vacant(c.value, LastName(path))
  }

  function WithIt(m: Meaning, path: string, x: Meaning, cs: bool): Meaning
    requires HasRoom(m, path, cs)
  {
    PutContainer(m, path, PutInto(Container(m, path, cs).value, LastName(path), x, cs), cs)
  }

  lemma LowerFold(k: string, cs: bool)
    ensures Lower(Fold(k, cs)) == Lower(k)
  {
    assert cs || forall i :: 0 <= i < |k| ==> Lower(Lower(k))[i] == Lower(k)[i];
  }

  // ----- `detach_path` -----

  // The member that is found without regard to case.
  lemma FoundKey(ms: seq<Member>, name: string, v: View)
    requires DistinctKeys(ms, v.cs)
    ensures var i := Lookup(ms, name, false);
            && (i < |ms| <==> exists k :: k in MembersMeaning(ms, v) && Lower(k) == Lower(name))
            && (i < |ms| ==> Fold(ms[i].key, v.cs) in MembersMeaning(ms, v) && Lower(Fold(ms[i].key, v.cs)) == Lower(name))
  {
    hide Lookup, MembersMeaning;
    var i := Lookup(ms, name, false);
    if i < |ms| {
      MeaningLookup(ms, v, i);
      LowerFold(ms[i].key, v.cs);
    } else {
      forall k | k in MembersMeaning(ms, v) ensures Lower(k) != Lower(name) {
        var x := MeaningKey(ms, v, k);
        LowerFold(ms[x].key, v.cs);
      }
    }
  }

  lemma TakeItems(items: seq<Json>, i: nat, v: View)
    requires i < |items| && Unique(Array(items), v.cs)
    ensures var m := MeaningOf(Array(items), v).items;
            Unique(Array(Without(items, i)), v.cs) && MeaningOf(Array(Without(items, i)), v) == MArray(m[..i] + m[i + 1..])
  {
    var m := MeaningOf(Array(items), v).items;
    assert MeaningOf(Array(Without(items, i)), v).items == m[..i] + m[i + 1..];
  }

  lemma TakeOutcome(parent: Json, name: string, v: View)
    requires Unique(parent, v.cs)
    ensures var r := TakeOut(parent, name);
            && (r.Some? <==> Occupied(MeaningOf(parent, v), name))
            && (r.Some? ==> Unique(r.value.0, v.cs) && Unique(r.value.1, v.cs) &&
                            TakenFrom(MeaningOf(parent, v), name, MeaningOf(r.value.0, v), MeaningOf(r.value.1, v)))
  {
    hide MembersMeaning, IndexOf, Token, Lookup, Without;
    match parent
    case Array(items) =>
      var i := IndexOf(Token(name));
      if i.Some? && i.value < |items| {
        TakeItems(items, i.value, v);
      }
    case Object(ms) =>
      FoundKey(ms, name, v);
      var i := Lookup(ms, name, false);
      if i < |ms| {
        MembersWithout(ms, i, v);
        WithoutDistinct(ms, i, v.cs);
        WithoutUnique(ms, i, v.cs);
        MeaningLookup(ms, v, i);
      }
    case _ =>
  }

  lemma WithoutUnique(ms: seq<Member>, i: nat, cs: bool)
    requires i < |ms| && Unique(Object(ms), cs)
    ensures forall x :: 0 <= x < |Without(ms, i)| ==> Unique(Without(ms, i)[x].value, cs)
  {
  }

  /** A node is taken out if and only if there is something in the place. */
  lemma DetachOutcome(j: Json, path: string, v: View)
    requires Unique(j, v.cs)
    ensures var r := Detach(j, path, v.cs);
            && (r.Some? <==> HasPlace(MeaningOf(j, v), path, v.cs))
            && (r.Some? ==> Unique(r.value.0, v.cs) && Unique(r.value.1, v.cs) &&
                            WithoutIt(MeaningOf(j, v), path, v.cs, MeaningOf(r.value.0, v), MeaningOf(r.value.1, v)))
  {
    hide GetPointer, MeaningOf, Unique, Put, TakeOut, DecodeInPlace, PutAlong, Follow, Occupied, TakenFrom;
    if LastSlash(path).Some? {
      var k := LastSlash(path).value;
      PointerTo(j, path[..k], Null, v) by { NullUnique(v.cs); }
      var a := GetPointer(j, path[..k], v.cs);
      if a.Some? {
        var parent, name := At(j, a.value), LastName(path);
        TakeOutcome(parent, name, v);
        var r := TakeOut(parent, name);
        if r.Some? {
          PointerTo(j, path[..k], r.value.0, v);
          assert TakenFrom(Container(MeaningOf(j, v), path, v.cs).value, name, MeaningOf(r.value.0, v), MeaningOf(r.value.1, v));
        }
      }
    }
  }

  // ----- the last part of `apply_patch` -----

  lemma PutOutcome(parent: Json, name: string, x: Json, v: View)
    requires Unique(parent, v.cs) && Unique(x, v.cs)
    ensures var r, c := PutIn(parent, name, x, v.cs), MeaningOf(parent, v);
            && (r.1 == 0 <==> Vacant(c, name))
            && (r.1 == 9 <==> !c.MArray? && !c.MObject?)
            && (r.1 == 11 <==> c.MArray? && name != "-" && IndexOf(Token(name)).None?)
            && (r.1 == 10 <==> c.MArray? && name != "-" && IndexOf(Token(name)).Some? && IndexOf(Token(name)).value > |c.items|)
            && (r.1 == 0 ==> Unique(r.0, v.cs) && MeaningOf(r.0, v) == PutInto(c, name, MeaningOf(x, v), v.cs))
  {
    hide MembersMeaning, IndexOf, Token, Lookup, Without;
    match parent
    case Array(items) =>
      var i := if name == "-" then |items| else if IndexOf(Token(name)).Some? then IndexOf(Token(name)).value else 0;
      if i <= |items| {
        InsertItems(items, i, x, v);
        assert i == |items| ==> items[..i] + [x] + items[i..] == items + [x];
      }
    case Object(ms) =>
      PutKey(parent, name, x, v);
    case _ =>
  }

  lemma InsertItems(items: seq<Json>, i: nat, x: Json, v: View)
    requires i <= |items| && Unique(Array(items), v.cs) && Unique(x, v.cs)
    ensures var q, m := Array(items[..i] + [x] + items[i..]), MeaningOf(Array(items), v).items;
            Unique(q, v.cs) && MeaningOf(q, v) == MArray(m[..i] + [MeaningOf(x, v)] + m[i..])
  {
    var q, m := Array(items[..i] + [x] + items[i..]), MeaningOf(Array(items), v).items;
    assert MeaningOf(q, v).items == m[..i] + [MeaningOf(x, v)] + m[i..];
  }

  /** Something is put into a place if and only if there is room for it; the status says why not. */
  lemma AddOutcome(j: Json, path: string, x: Json, v: View)
    requires Unique(j, v.cs) && Unique(x, v.cs)
    ensures var r := Add(j, path, x, v.cs);
            var m, c := MeaningOf(j, v), Container(MeaningOf(j, v), path, v.cs);
            && (r.1 == 0 <==> HasRoom(m, path, v.cs))
            && (r.1 == 9 <==> c.None? || (!c.value.MArray? && !c.value.MObject?))
            && (r.1 == 11 <==> c.Some? && c.value.MArray? && LastName(path) != "-" && IndexOf(Token(LastName(path))).None?)
            && (r.1 == 10 <==> c.Some? && c.value.MArray? && LastName(path) != "-" && IndexOf(Token(LastName(path))).Some? &&
                               IndexOf(Token(LastName(path))).value > |c.value.items|)
            && (r.1 == 0 ==> Unique(r.0, v.cs) && MeaningOf(r.0, v) == WithIt(m, path, MeaningOf(x, v), v.cs))
            && (r.1 != 0 ==> r.0 == j && r.1 in {9, 10, 11})
  {
    hide GetPointer, MeaningOf, Unique, Put, PutIn, DecodeInPlace, PutAlong, Follow, Vacant, IndexOf, Token;
    if LastSlash(path).Some? {
      var k := LastSlash(path).value;
      PointerTo(j, path[..k], x, v);
      var a := GetPointer(j, path[..k], v.cs);
      if a.Some? {
        var parent, name := At(j, a.value), LastName(path);
        PutOutcome(parent, name, x, v);
        PutStatus(parent, name, x, v.cs);
        var r := PutIn(parent, name, x, v.cs);
        if r.1 == 0 {
          PointerTo(j, path[..k], r.0, v);
        }
      }
    }
  }

  lemma PutStatus(parent: Json, name: string, x: Json, cs: bool)
    ensures PutIn(parent, name, x, cs).1 in {0, 9, 10, 11}
  {
  }

  // ----- the operations -----

  // What is put along a path is there, and can be replaced there.
  lemma {:induction false} FollowPut(m: Meaning, p: string, x: Meaning, cs: bool)
    requires Follow(m, p, cs).Some?
    ensures Follow(PutAlong(m, p, x, cs), p, cs) == Some(x)
    decreases |p|
  {
    hide IndexOf, Token, Unescape, AfterToken;
    if p != [] && p[0] == '/' {
      var t := Token(p[1..]);
      var c := TokenTo(m, t, cs).value;
      FollowPut(c, AfterToken(p[1..]), x, cs);
      assert TokenTo(TokenPut(m, t, PutAlong(c, AfterToken(p[1..]), x, cs), cs), t, cs) == Some(PutAlong(c, AfterToken(p[1..]), x, cs));
    }
  }

  // Where something has been taken out there is room.
  lemma TakenVacant(c: Meaning, name: string, r: Meaning, x: Meaning)
    requires TakenFrom(c, name, r, x)
    ensures Vacant(r, name)
  {
    hide IndexOf, Token;
  }

  lemma TakenRoom(m: Meaning, path: string, cs: bool, r: Meaning, x: Meaning)
    requires WithoutIt(m, path, cs, r, x)
    ensures HasRoom(r, path, cs)
  {
    hide Follow, PutAlong, TakenFrom, Vacant, DecodeInPlace;
    var c := Container(m, path, cs).value;
    var d :| TakenFrom(c, LastName(path), d, x) && r == PutContainer(m, path, d, cs);
    FollowPut(m, path[..LastSlash(path).value], d, cs);
    TakenVacant(c, LastName(path), d, x);
  }

  /** "remove" succeeds if and only if there is something in the place; otherwise nothing changes. */
  lemma RemoveOutcome(j: Json, path: string, from: Option<Json>, value: Option<Json>, v: View)
    requires Unique(j, v.cs)
    ensures var r, m := ApplyOp(j, "remove", path, from, value, v.cs), MeaningOf(j, v);
            && (path == "" ==> r == (Invalid, 0))
            && (path != "" ==> (r.1 == 0 <==> HasPlace(m, path, v.cs)) && (r.1 != 0 ==> r == (j, 13)))
            && (path != "" && r.1 == 0 ==> Unique(r.0, v.cs) && exists x :: WithoutIt(m, path, v.cs, MeaningOf(r.0, v), x))
  {
    hide Detach, MeaningOf, Unique, HasPlace, WithoutIt;
    DetachOutcome(j, path, v);
  }

  /** "replace" succeeds if and only if there is something in the place and a value to put there. Without a value
      the old one is gone nevertheless. */
  lemma ReplaceOutcome(j: Json, path: string, from: Option<Json>, value: Option<Json>, v: View)
    requires Unique(j, v.cs) && (value.Some? ==> Unique(value.value, v.cs))
    ensures var r, m := ApplyOp(j, "replace", path, from, value, v.cs), MeaningOf(j, v);
            && (path == "" ==> r == if value.None? then (j, 7) else (value.value, 0))
            && (path != "" && !HasPlace(m, path, v.cs) ==> r == (j, 13))
            && (path != "" && HasPlace(m, path, v.cs) ==>
                 && r.1 == (if value.None? then 7 else 0) && Unique(r.0, v.cs)
                 && exists d, x :: WithoutIt(m, path, v.cs, d, x) && HasRoom(d, path, v.cs) &&
                                   MeaningOf(r.0, v) == if value.None? then d else WithIt(d, path, MeaningOf(value.value, v), v.cs))
  {
    hide Detach, Add, MeaningOf, Unique, HasPlace, WithoutIt, HasRoom, WithIt, Container;
    DetachOutcome(j, path, v);
    var d := Detach(j, path, v.cs);
    if path != "" && d.Some? {
      var m, x := MeaningOf(d.value.0, v), MeaningOf(d.value.1, v);
      TakenRoom(MeaningOf(j, v), path, v.cs, m, x);
      if value.Some? {
        AddOutcome(d.value.0, path, value.value, v);
      }
      assert WithoutIt(MeaningOf(j, v), path, v.cs, m, x) && HasRoom(m, path, v.cs);
    }
  }

  // Why there is no room: 9 where there is no container, 11 where an array has no such index, 10 where it is
  // past the end.
  ghost predicate Refused(m: Meaning, path: string, cs: bool, status: nat) {
    var c, name := Container(m, path, cs), LastName(path);
    && (status == 9 <==> c.None? || (!c.value.MArray? && !c.value.MObject?))
    && (status == 11 <==> c.Some? && c.value.MArray? && name != "-" && IndexOf(Token(name)).None?)
    && (status == 10 <==> c.Some? && c.value.MArray? && name != "-" && IndexOf(Token(name)).Some? && IndexOf(Token(name)).value > |c.value.items|)
    && status in {0, 9, 10, 11} && (status == 0 <==> HasRoom(m, path, cs))
  }

  /** "add" succeeds if and only if there is a value and room for it; otherwise nothing changes. */
  lemma AddOpOutcome(j: Json, path: string, from: Option<Json>, value: Option<Json>, v: View)
    requires Unique(j, v.cs) && (value.Some? ==> Unique(value.value, v.cs))
    ensures var r, m := ApplyOp(j, "add", path, from, value, v.cs), MeaningOf(j, v);
            && (value.None? ==> r == (j, 7))
            && (value.Some? && path == "" ==> r == (value.value, 0))
            && (value.Some? && path != "" ==>
                 && Refused(m, path, v.cs, r.1) && (r.1 != 0 ==> r.0 == j)
                 && (r.1 == 0 ==> Unique(r.0, v.cs) && MeaningOf(r.0, v) == WithIt(m, path, MeaningOf(value.value, v), v.cs)))
  {
    hide Add, MeaningOf, Unique, HasRoom, WithIt, Container, IndexOf, Token, LastName;
    if value.Some? {
      AddOutcome(j, path, value.value, v);
    }
  }

  /** "move" is refused with 5 if and only if there is nothing in the place that is named. If there is no room
      where it should go to, what has been taken out is gone. */
  lemma MoveOutcome(j: Json, path: string, source: string, value: Option<Json>, v: View)
    requires Unique(j, v.cs)
    ensures var r, m := ApplyOp(j, "move", path, Some(String(source)), value, v.cs), MeaningOf(j, v);
            && (!HasPlace(m, source, v.cs) ==> r == (j, 5))
            && (HasPlace(m, source, v.cs) ==>
                 Unique(r.0, v.cs) &&
                 exists d, x :: WithoutIt(m, source, v.cs, d, x) && Refused(d, path, v.cs, r.1) &&
                                MeaningOf(r.0, v) == if r.1 == 0 then WithIt(d, path, x, v.cs) else d)
  {
    hide Detach, Add, MeaningOf, Unique, HasPlace, WithoutIt, HasRoom, WithIt, Container, IndexOf, Token, LastName;
    DetachOutcome(j, source, v);
    var d := Detach(j, source, v.cs);
    if d.Some? {
      AddOutcome(d.value.0, path, d.value.1, v);
      var r := Add(d.value.0, path, d.value.1, v.cs);
      assert WithoutIt(MeaningOf(j, v), source, v.cs, MeaningOf(d.value.0, v), MeaningOf(d.value.1, v));
      assert Refused(MeaningOf(d.value.0, v), path, v.cs, r.1);
    }
  }

  /** "copy" is refused with 5 if and only if the source leads nowhere, and nothing changes unless it succeeds. */
  lemma CopyOutcome(j: Json, path: string, source: string, value: Option<Json>, v: View)
    requires Unique(j, v.cs)
    ensures var r, m := ApplyOp(j, "copy", path, Some(String(source)), value, v.cs), MeaningOf(j, v);
            var x := Follow(m, source, v.cs);
            && (x.None? ==> r == (j, 5))
            && (x.Some? ==>
                 && Refused(m, path, v.cs, r.1) && (r.1 != 0 ==> r.0 == j)
                 && (r.1 == 0 ==> Unique(r.0, v.cs) && MeaningOf(r.0, v) == WithIt(m, path, x.value, v.cs)))
  {
    hide GetPointer, Add, MeaningOf, Unique, HasRoom, WithIt, Container, IndexOf, Token, LastName, Follow;
    PointerTo(j, source, Null, v) by { NullUnique(v.cs); }
    var a := GetPointer(j, source, v.cs);
    if a.Some? {
      AddOutcome(j, path, At(j, a.value), v);
    }
  }

  /** "test" succeeds if and only if the path leads to a place in which there is what the value means. */
  lemma TestOutcome(j: Json, path: string, from: Option<Json>, value: Option<Json>, cs: bool)
    requires Unique(j, cs) && (value.Some? ==> Unique(value.value, cs))
    ensures var v := View(cs, false);
            var x := Follow(MeaningOf(j, v), path, cs);
            ApplyOp(j, "test", path, from, value, cs) ==
            (j, if x.Some? && value.Some? && x.value == MeaningOf(value.value, v) then 0 else 1)
  {
    hide GetPointer, MeaningOf, Unique, Follow, Same;
    var v := View(cs, false);
    PointerTo(j, path, Null, v) by { NullUnique(cs); }
    var a := GetPointer(j, path, cs);
    if a.Some? && value.Some? {
      SameMeaning(At(j, a.value), value.value, cs);
    }
  }

  predicate IsOperation(op: string) {
    op == "add" || op == "remove" || op == "replace" || op == "move" || op == "copy" || op == "test"
  }

  /** What is no operation, or lacks a path or a source, changes nothing. */
  lemma MalformedOutcome(j: Json, patch: Json, cs: bool)
    ensures var path, op, from := Field(patch, "path", cs), Field(patch, "op", cs), Field(patch, "from", cs);
            && (path.None? || !path.value.String? ==> Apply(j, patch, cs) == (j, 2))
            && (path.Some? && path.value.String? ==>
                 && (op.None? || !op.value.String? || !IsOperation(op.value.s) ==> Apply(j, patch, cs) == (j, 3))
                 && (op.Some? && op.value.String? && (op.value.s == "move" || op.value.s == "copy") && from.None? ==> Apply(j, patch, cs) == (j, 4)))
  {
    hide Field, Detach, Add, GetPointer;
  }

  /** "add" at an index of an array succeeds if and only if the index is at most the length. */
  lemma AddAtIndex(j: Json, path: string, n: nat, from: Option<Json>, x: Json, v: View)
    requires Unique(j, v.cs) && Unique(x, v.cs) && n < SIZE_LIMIT && path != "" && LastName(path) == Decimal(n)
    requires var c := Container(MeaningOf(j, v), path, v.cs); c.Some? && c.value.MArray?
    ensures var r, items := ApplyOp(j, "add", path, from, Some(x), v.cs), Container(MeaningOf(j, v), path, v.cs).value.items;
            r.1 == (if n <= |items| then 0 else 10) && (r.1 != 0 ==> r.0 == j)
  {
    hide ApplyOp, MeaningOf, Unique, Container, IndexOf, Token, LastName, Decimal;
    AddOpOutcome(j, path, from, Some(x), v);
    DecimalIndex(n, "");
    assert Decimal(n) + "" == Decimal(n);
    assert Decimal(n) != "-" by { DecimalIsIndex(n); }
  }

  lemma DecimalIsIndex(n: nat)
    ensures Decimal(n) != "-"
  {
    assert '0' <= Decimal(n)[0];
  }
}
