/**
 What `apply_patch` does with the patches that `create_patches` composes: each one edits a
 single place in the meaning of the document.
 */
module JsonOps {
  import opened Basics
  import opened KeyOrder
  import opened JsonValue
  import opened JsonCompare
  import opened JsonPointer
  import opened JsonPatch
  import opened JsonPlace

  // ----- composed patches -----

  // `compose_patch`
  function Patch(op: string, path: string, value: Option<Json>): Json {
    Object([Member("op", String(op)), Member("path", String(path))] +
           match value { case None => [] case Some(x) => [Member("value", x)] })
  }

  lemma PatchFields(op: string, path: string, value: Option<Json>, cs: bool)
    ensures Field(Patch(op, path, value), "op", cs) == Some(String(op))
    ensures Field(Patch(op, path, value), "path", cs) == Some(String(path))
    ensures Field(Patch(op, path, value), "value", cs) == value
  {
    var ms := Patch(op, path, value).members;
    assert |Fold("op", cs)| == 2 && |Fold("path", cs)| == 4 && |Fold("value", cs)| == 5;
    assert ms[0].key == "op" && ms[1].key == "path" && (|ms| == 3 ==> ms[2].key == "value");
    LookupIs(ms, "op", cs, 0);
    LookupIs(ms, "path", cs, 1);
    LookupIs(ms, "value", cs, 2);
  }

  lemma ApplyComposed(j: Json, op: string, path: string, value: Option<Json>, cs: bool)
    requires op in ["add", "remove", "replace"]
    ensures exists from :: Apply(j, Patch(op, path, value), cs) == ApplyOp(j, op, path, from, value, cs)
  {
    hide Field, Patch, ApplyOp;
    PatchFields(op, path, value, cs);
    var from := Field(Patch(op, path, value), "from", cs);
    assert Apply(j, Patch(op, path, value), cs) == ApplyOp(j, op, path, from, value, cs);
  }

  // ----- the last step of a path -----

  lemma {:induction false} LastSlashIs(p: string, t: string)
    requires '/' !in t
    ensures LastSlash(p + "/" + t) == Some(|p|) && (p + "/" + t)[..|p|] == p && (p + "/" + t)[|p| + 1..] == t
    decreases |t|
  {
    var q := p + "/" + t;
    if t != [] {
      assert t[|t| - 1] in t;
      assert q[..|q| - 1] == p + "/" + t[..|t| - 1];
      LastSlashIs(p, t[..|t| - 1]);
    }
  }

  lemma {:induction false} PathSnoc(ps: seq<Step>, s: Step)
    ensures PathText(ps + [s]) == PathText(ps) + "/" + StepToken(s)
    decreases |ps|
  {
    hide StepToken;
    if ps == [] {
      assert ps + [s] == [s] && [s][1..] == [];
    } else {
      assert (ps + [s])[0] == ps[0] && (ps + [s])[1..] == ps[1..] + [s];
      PathSnoc(ps[1..], s);
      var a, b, c := "/" + StepToken(ps[0]), PathText(ps[1..]), "/" + StepToken(s);
      assert b + "/" + StepToken(s) == b + c && PathText(ps) + "/" + StepToken(s) == PathText(ps) + c;
      assert a + (b + c) == (a + b) + c;
    }
  }

  // Taking the member k of an object with these keys out does not hit another one.
  ghost predicate Clear(keys: set<string>, k: string, cs: bool) {
    cs ==> forall x :: x in keys && Lower(x) == Lower(k) ==> x == k
  }

  // The last step of a path is one that `detach_path` takes as meant.
  ghost predicate StepOk(m: Meaning, s: Step, cs: bool) {
    match s
    case Index(i) => i < SIZE_LIMIT
    case Key(k) => Survives(k) && (m.MObject? ==> Clear(m.members.Keys, k, cs))
  }

  lemma DecodeToken(s: Step)
    requires s.Key? ==> Survives(s.key)
    ensures '/' !in StepToken(s) && DecodeInPlace(StepToken(s)) == if s.Key? then s.key else Decimal(s.i)
  {
    match s
    case Key(k) =>
      EncodeOneToken(k);
      DecodeKey(k);
    case Index(i) =>
      PlainText(Decimal(i));
  }

  lemma PlainText(t: string)
    requires forall i :: 0 <= i < |t| ==> t[i] != '/' && t[i] != '~'
    ensures Encode(t) == t && DecodeInPlace(t) == t
  {
    EncodePlain(t);
    PlainSurvives(t);
    DecodeKey(t);
  }

  // ----- taking out -----

  function Removed(m: Meaning, s: Step, cs: bool): Meaning
    requires CanStep(m, s, cs)
  {
    match s
    case Key(k) => MObject(m.members - {Fold(k, cs)})
    case Index(i) => MArray(Without(m.items, i))
  }

  lemma TakeOutMeaning(parent: Json, s: Step, v: View)
    requires Unique(parent, v.cs) && CanStep(MeaningOf(parent, v), s, v.cs) && StepOk(MeaningOf(parent, v), s, v.cs)
    ensures var r := TakeOut(parent, DecodeInPlace(StepToken(s)));
            && r.Some? && Unique(r.value.0, v.cs) && MeaningOf(r.value.0, v) == Removed(MeaningOf(parent, v), s, v.cs)
            && Unique(r.value.1, v.cs) && MeaningOf(r.value.1, v) == StepTo(MeaningOf(parent, v), s, v.cs)
  {
    hide MembersMeaning, DecodeInPlace, StepToken, Decimal, IndexOf, Survives, Lookup, Clear, Without;
    DecodeToken(s);
    match s
    case Index(i) => TakeItem(parent, i, v);
    case Key(k) => TakeKey(parent, k, v);
  }

  lemma TakeItem(parent: Json, i: nat, v: View)
    requires parent.Array? && i < |parent.items| && i < SIZE_LIMIT && Unique(parent, v.cs)
    ensures var r := TakeOut(parent, Decimal(i));
            && r.Some? && Unique(r.value.0, v.cs) && MeaningOf(r.value.0, v) == Removed(MeaningOf(parent, v), Index(i), v.cs)
            && Unique(r.value.1, v.cs) && MeaningOf(r.value.1, v) == StepTo(MeaningOf(parent, v), Index(i), v.cs)
  {
    hide Decimal, IndexOf;
    DecimalIndex(i, []);
    assert Decimal(i) + [] == Decimal(i);
    assert MeaningOf(Array(Without(parent.items, i)), v).items == Without(MeaningOf(parent, v).items, i);
  }

  lemma TakeKey(parent: Json, k: string, v: View)
    requires parent.Object? && Unique(parent, v.cs) && CanStep(MeaningOf(parent, v), Key(k), v.cs)
    requires Clear(MembersMeaning(parent.members, v).Keys, k, v.cs)
    ensures var r := TakeOut(parent, k);
            && r.Some? && Unique(r.value.0, v.cs) && MeaningOf(r.value.0, v) == Removed(MeaningOf(parent, v), Key(k), v.cs)
            && Unique(r.value.1, v.cs) && MeaningOf(r.value.1, v) == StepTo(MeaningOf(parent, v), Key(k), v.cs)
  {
    hide MembersMeaning, Lookup, Clear;
    var i := LookupClear(parent.members, k, v);
    MembersWithout(parent.members, i, v);
    WithoutDistinct(parent.members, i, v.cs);
    MeaningLookup(parent.members, v, i);
  }

  // Looking a key up without regard to case finds the member meant.
  lemma LookupClear(ms: seq<Member>, k: string, v: View) returns (i: nat)
    requires DistinctKeys(ms, v.cs) && Fold(k, v.cs) in MembersMeaning(ms, v) && Clear(MembersMeaning(ms, v).Keys, k, v.cs)
    ensures i == Lookup(ms, k, false) && i < |ms| && Fold(ms[i].key, v.cs) == Fold(k, v.cs)
  {
    hide MembersMeaning, Lookup;
    i := Lookup(ms, k, false);
    var x := MeaningKey(ms, v, Fold(k, v.cs));
    assert Fold(ms[x].key, false) == Fold(k, false);
    MeaningLookup(ms, v, i);
  }

  /** `detach_path` takes out of the document what is in the place. */
  lemma DetachMeaning(j: Json, ps: seq<Step>, s: Step, v: View)
    requires Unique(j, v.cs) && SmallIndices(ps) && Has(MeaningOf(j, v), ps, v.cs)
    requires CanStep(MGet(MeaningOf(j, v), ps, v.cs), s, v.cs) && StepOk(MGet(MeaningOf(j, v), ps, v.cs), s, v.cs)
    ensures var r := Detach(j, PathText(ps) + "/" + StepToken(s), v.cs);
            && r.Some? && Unique(r.value.0, v.cs)
            && MeaningOf(r.value.0, v) == MPut(MeaningOf(j, v), ps, Removed(MGet(MeaningOf(j, v), ps, v.cs), s, v.cs), v.cs)
            && Unique(r.value.1, v.cs) && MeaningOf(r.value.1, v) == StepTo(MGet(MeaningOf(j, v), ps, v.cs), s, v.cs)
  {
    hide MeaningOf, Unique, TakeOut, Put, GetPointer, StepToken, PathText, DecodeInPlace, Has, MGet, MPut, Removed, CanStep, StepTo, Survives, Clear;
    var a := Locate(j, ps, Null, v) by { NullUnique(v.cs); }
    TakeOutMeaning(At(j, a), s, v);
    var r := TakeOut(At(j, a), DecodeInPlace(StepToken(s)));
    var b := Locate(j, ps, r.value.0, v);
    DecodeToken(s);
    LastSlashIs(PathText(ps), StepToken(s));
  }

  lemma NullUnique(cs: bool)
    ensures Unique(Null, cs)
  {
  }

  // ----- putting in -----

  // Where a value may be put: a key of an object, an index up to the length of an array.
  predicate CanInsert(m: Meaning, s: Step) {
    match s
    case Key(k) => m.MObject?
    case Index(i) => m.MArray? && i <= |m.items|
  }

  function Inserted(m: Meaning, s: Step, x: Meaning, cs: bool): Meaning
    requires CanInsert(m, s)
  {
    match s
    case Key(k) => MObject(m.members[Fold(k, cs) := x])
    case Index(i) => MArray(m.items[..i] + [x] + m.items[i..])
  }

  lemma RemovedInserted(m: Meaning, s: Step, x: Meaning, cs: bool)
    requires CanStep(m, s, cs)
    ensures CanInsert(Removed(m, s, cs), s) && Inserted(Removed(m, s, cs), s, x, cs) == StepPut(m, s, x, cs)
  {
    match s
    case Key(k) => assert (m.members - {Fold(k, cs)})[Fold(k, cs) := x] == m.members[Fold(k, cs) := x];
    case Index(i) => var r := Without(m.items, i); assert r[..i] + [x] + r[i..] == m.items[i := x];
  }

  lemma PutInMeaning(parent: Json, s: Step, x: Json, v: View)
    requires Unique(parent, v.cs) && Unique(x, v.cs) && CanInsert(MeaningOf(parent, v), s)
    requires match s { case Index(i) => i < SIZE_LIMIT case Key(k) => Survives(k) }
    ensures var r := PutIn(parent, DecodeInPlace(StepToken(s)), x, v.cs);
            r.1 == 0 && Unique(r.0, v.cs) && MeaningOf(r.0, v) == Inserted(MeaningOf(parent, v), s, MeaningOf(x, v), v.cs)
  {
    hide MembersMeaning, DecodeInPlace, StepToken, Decimal, IndexOf, Survives, Lookup, Without;
    DecodeToken(s);
    match s
    case Index(i) => PutItem(parent, i, x, v);
    case Key(k) => PutKey(parent, k, x, v);
  }

  lemma PutKey(parent: Json, k: string, x: Json, v: View)
    requires parent.Object? && Unique(parent, v.cs) && Unique(x, v.cs)
    ensures var r := PutIn(parent, k, x, v.cs);
            && r.1 == 0 && Unique(r.0, v.cs)
            && MeaningOf(r.0, v) == Inserted(MeaningOf(parent, v), Key(k), MeaningOf(x, v), v.cs)
  {
    hide MembersMeaning, Lookup;
    PutMember(parent.members, k, x, v);
  }

  lemma PutItem(parent: Json, i: nat, x: Json, v: View)
    requires parent.Array? && i <= |parent.items| && i < SIZE_LIMIT && Unique(parent, v.cs) && Unique(x, v.cs)
    ensures var r := PutIn(parent, Decimal(i), x, v.cs);
            && r.1 == 0 && Unique(r.0, v.cs)
            && MeaningOf(r.0, v) == Inserted(MeaningOf(parent, v), Index(i), MeaningOf(x, v), v.cs)
  {
    hide Decimal, IndexOf;
    DecimalIndex(i, []);
    assert Decimal(i) + [] == Decimal(i);
    var items := parent.items[..i] + [x] + parent.items[i..];
    assert MeaningOf(Array(items), v).items == Inserted(MeaningOf(parent, v), Index(i), MeaningOf(x, v), v.cs).items;
  }

  lemma PutMember(ms: seq<Member>, k: string, x: Json, v: View)
    requires DistinctKeys(ms, v.cs)
    ensures var i := Lookup(ms, k, v.cs);
            var r := (if i < |ms| then Without(ms, i) else ms) + [Member(k, x)];
            DistinctKeys(r, v.cs) && MembersMeaning(r, v) == MembersMeaning(ms, v)[Fold(k, v.cs) := MeaningOf(x, v)]
  {
    hide MembersMeaning, Lookup;
    var i := Lookup(ms, k, v.cs);
    LookupMeaning(ms, k, v);
    var rest := if i < |ms| then Without(ms, i) else ms;
    if i < |ms| {
      MembersWithout(ms, i, v);
      WithoutDistinct(ms, i, v.cs);
    }
    MembersAppend(rest, Member(k, x), v);
    AppendDistinct(rest, Member(k, x), v);
  }

  lemma PutAtEnd(parent: Json, x: Json, v: View)
    requires parent.Array? && Unique(parent, v.cs) && Unique(x, v.cs)
    ensures var r := PutIn(parent, DecodeInPlace("-"), x, v.cs);
            && r.1 == 0 && Unique(r.0, v.cs)
            && MeaningOf(r.0, v) == MArray(MeaningOf(parent, v).items + [MeaningOf(x, v)])
  {
    PlainText("-");
    var items := parent.items + [x];
    assert MeaningOf(Array(items), v).items == MeaningOf(parent, v).items + [MeaningOf(x, v)];
  }

  /** The last part of `apply_patch` puts the value in the place. */
  lemma AddMeaning(j: Json, ps: seq<Step>, s: Step, x: Json, v: View)
    requires Unique(j, v.cs) && Unique(x, v.cs) && SmallIndices(ps) && Has(MeaningOf(j, v), ps, v.cs)
    requires CanInsert(MGet(MeaningOf(j, v), ps, v.cs), s)
    requires match s { case Index(i) => i < SIZE_LIMIT case Key(k) => Survives(k) }
    ensures var r := Add(j, PathText(ps) + "/" + StepToken(s), x, v.cs);
            && r.1 == 0 && Unique(r.0, v.cs)
            && MeaningOf(r.0, v) == MPut(MeaningOf(j, v), ps, Inserted(MGet(MeaningOf(j, v), ps, v.cs), s, MeaningOf(x, v), v.cs), v.cs)
  {
    hide MeaningOf, Unique, PutIn, Put, GetPointer, StepToken, PathText, DecodeInPlace, Has, MGet, MPut, Inserted, CanInsert, Survives;
    var a := Locate(j, ps, x, v);
    PutInMeaning(At(j, a), s, x, v);
    var r := PutIn(At(j, a), DecodeInPlace(StepToken(s)), x, v.cs);
    var b := Locate(j, ps, r.0, v);
    DecodeToken(s);
    LastSlashIs(PathText(ps), StepToken(s));
  }

  lemma AppendMeaning(j: Json, ps: seq<Step>, x: Json, v: View)
    requires Unique(j, v.cs) && Unique(x, v.cs) && SmallIndices(ps) && Has(MeaningOf(j, v), ps, v.cs)
    requires MGet(MeaningOf(j, v), ps, v.cs).MArray?
    ensures var r := Add(j, PathText(ps) + "/" + "-", x, v.cs);
            && r.1 == 0 && Unique(r.0, v.cs)
            && MeaningOf(r.0, v) == MPut(MeaningOf(j, v), ps, MArray(MGet(MeaningOf(j, v), ps, v.cs).items + [MeaningOf(x, v)]), v.cs)
  {
    hide Unique, PutIn, Put, GetPointer, PathText, DecodeInPlace, Has, MGet, MPut;
    var a := Locate(j, ps, x, v);
    PutAtEnd(At(j, a), x, v);
    var r := PutIn(At(j, a), DecodeInPlace("-"), x, v.cs);
    var b := Locate(j, ps, r.0, v);
    LastSlashIs(PathText(ps), "-");
  }

  // ----- the operations -----

  /** "remove" */
  lemma ApplyRemove(j: Json, ps: seq<Step>, s: Step, v: View)
    requires Unique(j, v.cs) && SmallIndices(ps) && Has(MeaningOf(j, v), ps, v.cs)
    requires CanStep(MGet(MeaningOf(j, v), ps, v.cs), s, v.cs) && StepOk(MGet(MeaningOf(j, v), ps, v.cs), s, v.cs)
    ensures var r := Apply(j, Patch("remove", PathText(ps) + "/" + StepToken(s), None), v.cs);
            && r.1 == 0 && Unique(r.0, v.cs)
            && MeaningOf(r.0, v) == MPut(MeaningOf(j, v), ps, Removed(MGet(MeaningOf(j, v), ps, v.cs), s, v.cs), v.cs)
  {
    hide Apply, Patch, MeaningOf, Unique, StepToken, PathText, Detach, Has, MGet, MPut, Removed, CanStep, StepOk;
    DetachMeaning(j, ps, s, v);
    ApplyComposed(j, "remove", PathText(ps) + "/" + StepToken(s), None, v.cs);
  }

  /** "add" of a member */
  lemma ApplyAdd(j: Json, ps: seq<Step>, k: string, x: Json, v: View)
    requires Unique(j, v.cs) && Unique(x, v.cs) && SmallIndices(ps) && Has(MeaningOf(j, v), ps, v.cs)
    requires MGet(MeaningOf(j, v), ps, v.cs).MObject? && Survives(k)
    ensures var r := Apply(j, Patch("add", PathText(ps) + "/" + Encode(k), Some(x)), v.cs);
            && r.1 == 0 && Unique(r.0, v.cs)
            && MeaningOf(r.0, v) == MPut(MeaningOf(j, v), ps, MObject(MGet(MeaningOf(j, v), ps, v.cs).members[Fold(k, v.cs) := MeaningOf(x, v)]), v.cs)
  {
    hide Apply, Patch, MeaningOf, Unique, PathText, Add, Has, MGet, MPut, Survives, Encode;
    AddMeaning(j, ps, Key(k), x, v);
    ApplyComposed(j, "add", PathText(ps) + "/" + Encode(k), Some(x), v.cs);
  }

  /** "add" of an element at the end */
  lemma ApplyAppendItem(j: Json, ps: seq<Step>, x: Json, v: View)
    requires Unique(j, v.cs) && Unique(x, v.cs) && SmallIndices(ps) && Has(MeaningOf(j, v), ps, v.cs)
    requires MGet(MeaningOf(j, v), ps, v.cs).MArray?
    ensures var r := Apply(j, Patch("add", PathText(ps) + "/" + "-", Some(x)), v.cs);
            && r.1 == 0 && Unique(r.0, v.cs)
            && MeaningOf(r.0, v) == MPut(MeaningOf(j, v), ps, MArray(MGet(MeaningOf(j, v), ps, v.cs).items + [MeaningOf(x, v)]), v.cs)
  {
    hide Apply, Patch, MeaningOf, Unique, PathText, Add, Has, MGet, MPut;
    AppendMeaning(j, ps, x, v);
    ApplyComposed(j, "add", PathText(ps) + "/" + "-", Some(x), v.cs);
  }

  // The place can be replaced: it is the root, or its last step is taken as meant.
  ghost predicate CanReplace(m: Meaning, ps: seq<Step>, cs: bool) {
    Has(m, ps, cs) &&
    (ps == [] || (Has(m, ps[..|ps| - 1], cs) && StepOk(MGet(m, ps[..|ps| - 1], cs), ps[|ps| - 1], cs)))
  }

  /** "replace": the node is taken out and the new one put in. */
  lemma ApplyReplace(j: Json, ps: seq<Step>, x: Json, v: View)
    requires Unique(j, v.cs) && Unique(x, v.cs) && SmallIndices(ps) && CanReplace(MeaningOf(j, v), ps, v.cs)
    ensures var r := Apply(j, Patch("replace", PathText(ps), Some(x)), v.cs);
            r.1 == 0 && Unique(r.0, v.cs) && MeaningOf(r.0, v) == MPut(MeaningOf(j, v), ps, MeaningOf(x, v), v.cs)
  {
    hide Apply, Patch, MeaningOf, Unique, Add, Detach, StepToken, StepOk;
    ApplyComposed(j, "replace", PathText(ps), Some(x), v.cs);
    if ps != [] {
      var qs, s := ps[..|ps| - 1], ps[|ps| - 1];
      assert ps == qs + [s];
      ReplaceBelow(j, qs, s, x, v);
      PathSnoc(qs, s);
    }
  }

  lemma {:induction false} HasBelow(m: Meaning, ps: seq<Step>, s: Step, cs: bool)
    requires Has(m, ps, cs) && Has(m, ps + [s], cs)
    ensures CanStep(MGet(m, ps, cs), s, cs)
    decreases |ps|
  {
    if ps == [] {
      assert (ps + [s])[0] == s;
    } else {
      assert (ps + [s])[0] == ps[0] && (ps + [s])[1..] == ps[1..] + [s];
      HasBelow(StepTo(m, ps[0], cs), ps[1..], s, cs);
    }
  }

  lemma ReplaceBelow(j: Json, qs: seq<Step>, s: Step, x: Json, v: View)
    requires Unique(j, v.cs) && Unique(x, v.cs) && SmallIndices(qs)
    requires Has(MeaningOf(j, v), qs, v.cs) && Has(MeaningOf(j, v), qs + [s], v.cs)
    requires StepOk(MGet(MeaningOf(j, v), qs, v.cs), s, v.cs)
    ensures var path := PathText(qs) + "/" + StepToken(s);
            && Detach(j, path, v.cs).Some?
            && var r := Add(Detach(j, path, v.cs).value.0, path, x, v.cs);
               r.1 == 0 && Unique(r.0, v.cs) && MeaningOf(r.0, v) == MPut(MeaningOf(j, v), qs + [s], MeaningOf(x, v), v.cs)
  {
    hide MeaningOf, Unique, Add, Detach, Has, MGet, MPut, PathText, StepToken, Removed, Inserted, CanStep, CanInsert, Survives, Clear;
    var m := MeaningOf(j, v);
    HasBelow(m, qs, s, v.cs);
    var c := MGet(m, qs, v.cs);
    DetachMeaning(j, qs, s, v);
    var d := Detach(j, PathText(qs) + "/" + StepToken(s), v.cs).value.0;
    PutGet(m, qs, Removed(c, s, v.cs), Inserted(Removed(c, s, v.cs), s, MeaningOf(x, v), v.cs), v.cs)
      by { RemovedInserted(c, s, MeaningOf(x, v), v.cs); }
    RemovedInserted(c, s, MeaningOf(x, v), v.cs);
    AddMeaning(d, qs, s, x, v);
    PutBelow(m, qs, s, MeaningOf(x, v), v.cs);
  }

  // The document without the place below fs.
  function WithoutPlace(m: Meaning, fs: seq<Step>, f: Step, cs: bool): Meaning
    requires Has(m, fs, cs) && CanStep(MGet(m, fs, cs), f, cs)
  {
    MPut(m, fs, Removed(MGet(m, fs, cs), f, cs), cs)
  }

  // The document with x put into the place below ps.
  function WithPlace(m: Meaning, ps: seq<Step>, s: Step, x: Meaning, cs: bool): Meaning
    requires Has(m, ps, cs) && CanInsert(MGet(m, ps, cs), s)
  {
    MPut(m, ps, Inserted(MGet(m, ps, cs), s, x, cs), cs)
  }

  // A place that a value can be put into as meant.
  ghost predicate Open(m: Meaning, ps: seq<Step>, s: Step, cs: bool) {
    && SmallIndices(ps) && Has(m, ps, cs) && CanInsert(MGet(m, ps, cs), s)
    && match s { case Index(i) => i < SIZE_LIMIT case Key(k) => Survives(k) }
  }

  /** "move": what is in one place goes, and is put into another one of the document without it. */
  lemma ApplyMove(j: Json, fs: seq<Step>, f: Step, ps: seq<Step>, s: Step, value: Option<Json>, v: View)
    requires Unique(j, v.cs) && SmallIndices(fs) && Has(MeaningOf(j, v), fs, v.cs)
    requires CanStep(MGet(MeaningOf(j, v), fs, v.cs), f, v.cs) && StepOk(MGet(MeaningOf(j, v), fs, v.cs), f, v.cs)
    requires Open(WithoutPlace(MeaningOf(j, v), fs, f, v.cs), ps, s, v.cs)
    ensures var from := Some(String(PathText(fs) + "/" + StepToken(f)));
            var r := ApplyOp(j, "move", PathText(ps) + "/" + StepToken(s), from, value, v.cs);
            && r.1 == 0 && Unique(r.0, v.cs)
            && MeaningOf(r.0, v) == WithPlace(WithoutPlace(MeaningOf(j, v), fs, f, v.cs), ps, s, StepTo(MGet(MeaningOf(j, v), fs, v.cs), f, v.cs), v.cs)
  {
    hide MeaningOf, Unique, Add, Detach, Has, MGet, MPut, PathText, StepToken, Removed, Inserted, CanStep, CanInsert, Survives, StepOk, StepTo;
    DetachMeaning(j, fs, f, v);
    var r := Detach(j, PathText(fs) + "/" + StepToken(f), v.cs).value;
    AddMeaning(r.0, ps, s, r.1, v);
  }

  /** "copy": what is in one place is put into another one as well. */
  lemma ApplyCopy(j: Json, fs: seq<Step>, ps: seq<Step>, s: Step, value: Option<Json>, v: View)
    requires Unique(j, v.cs) && SmallIndices(fs) && Has(MeaningOf(j, v), fs, v.cs) && Open(MeaningOf(j, v), ps, s, v.cs)
    ensures var r := ApplyOp(j, "copy", PathText(ps) + "/" + StepToken(s), Some(String(PathText(fs))), value, v.cs);
            && r.1 == 0 && Unique(r.0, v.cs)
            && MeaningOf(r.0, v) == WithPlace(MeaningOf(j, v), ps, s, MGet(MeaningOf(j, v), fs, v.cs), v.cs)
  {
    hide MeaningOf, Unique, Add, GetPointer, Has, MGet, MPut, PathText, StepToken, Inserted, CanInsert, Survives;
    var a := Locate(j, fs, Null, v) by { NullUnique(v.cs); }
    AddMeaning(j, ps, s, At(j, a), v);
  }

  /** "test" of a place that exists: it succeeds if and only if the value means what is in the place. */
  lemma ApplyTest(j: Json, ps: seq<Step>, from: Option<Json>, x: Json, cs: bool)
    requires Unique(j, cs) && Unique(x, cs) && SmallIndices(ps) && Has(MeaningOf(j, View(cs, false)), ps, cs)
    ensures ApplyOp(j, "test", PathText(ps), from, Some(x), cs) ==
            (j, if MGet(MeaningOf(j, View(cs, false)), ps, cs) == MeaningOf(x, View(cs, false)) then 0 else 1)
  {
    hide MeaningOf, Unique, GetPointer, Has, MGet, PathText, Same;
    var a := Locate(j, ps, x, View(cs, false));
    SameMeaning(At(j, a), x, cs);
  }
}
