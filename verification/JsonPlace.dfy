/**
 Places in the meaning of a document, and how the operations of `apply_patch` act on them.
 */
module JsonPlace {
  import opened Basics
  import opened KeyOrder
  import opened JsonValue
  import opened JsonPointer
  import opened JsonPatch

  datatype Step = Key(key: string) | Index(i: nat)

  // ----- places in a meaning -----

  predicate CanStep(m: Meaning, s: Step, cs: bool) {
    match s
    case Key(k) => m.MObject? && Fold(k, cs) in m.members
    case Index(i) => m.MArray? && i < |m.items|
  }

  function StepTo(m: Meaning, s: Step, cs: bool): Meaning
    requires CanStep(m, s, cs)
  {
    match s
    case Key(k) => m.members[Fold(k, cs)]
    case Index(i) => m.items[i]
  }

  function StepPut(m: Meaning, s: Step, x: Meaning, cs: bool): Meaning
    requires CanStep(m, s, cs)
  {
    match s
    case Key(k) => MObject(m.members[Fold(k, cs) := x])
    case Index(i) => MArray(m.items[i := x])
  }

  predicate Has(m: Meaning, ps: seq<Step>, cs: bool) {
    ps == [] || (CanStep(m, ps[0], cs) && Has(StepTo(m, ps[0], cs), ps[1..], cs))
  }

  function MGet(m: Meaning, ps: seq<Step>, cs: bool): Meaning
    requires Has(m, ps, cs)
  {
    if ps == [] then m else MGet(StepTo(m, ps[0], cs), ps[1..], cs)
  }

  function MPut(m: Meaning, ps: seq<Step>, x: Meaning, cs: bool): Meaning
    requires Has(m, ps, cs)
  {
    if ps == [] then x else StepPut(m, ps[0], MPut(StepTo(m, ps[0], cs), ps[1..], x, cs), cs)
  }

  lemma {:induction false} PutGet(m: Meaning, ps: seq<Step>, x: Meaning, y: Meaning, cs: bool)
    requires Has(m, ps, cs)
    ensures Has(MPut(m, ps, x, cs), ps, cs) && MGet(MPut(m, ps, x, cs), ps, cs) == x
    ensures MPut(MPut(m, ps, x, cs), ps, y, cs) == MPut(m, ps, y, cs)
    decreases |ps|
  {
    if ps != [] {
      PutGet(StepTo(m, ps[0], cs), ps[1..], x, y, cs);
      var z := MPut(StepTo(m, ps[0], cs), ps[1..], x, cs);
      var w := MPut(StepTo(m, ps[0], cs), ps[1..], y, cs);
      assert StepTo(StepPut(m, ps[0], z, cs), ps[0], cs) == z;
      assert StepPut(StepPut(m, ps[0], z, cs), ps[0], w, cs) == StepPut(m, ps[0], w, cs);
    }
  }

  lemma {:induction false} PutSame(m: Meaning, ps: seq<Step>, cs: bool)
    requires Has(m, ps, cs)
    ensures MPut(m, ps, MGet(m, ps, cs), cs) == m
    decreases |ps|
  {
    if ps != [] {
      PutSame(StepTo(m, ps[0], cs), ps[1..], cs);
      assert StepPut(m, ps[0], StepTo(m, ps[0], cs), cs) == m;
    }
  }

  lemma {:induction false} PutBelow(m: Meaning, ps: seq<Step>, s: Step, x: Meaning, cs: bool)
    requires Has(m, ps, cs) && CanStep(MGet(m, ps, cs), s, cs)
    ensures Has(m, ps + [s], cs) && MGet(m, ps + [s], cs) == StepTo(MGet(m, ps, cs), s, cs)
    ensures MPut(m, ps + [s], x, cs) == MPut(m, ps, StepPut(MGet(m, ps, cs), s, x, cs), cs)
    decreases |ps|
  {
    if ps == [] {
      assert ps + [s] == [s] && [s][1..] == [];
    } else {
      assert (ps + [s])[0] == ps[0] && (ps + [s])[1..] == ps[1..] + [s];
      PutBelow(StepTo(m, ps[0], cs), ps[1..], s, x, cs);
    }
  }

  // ----- places in a tree -----

  function StepToken(s: Step): string {
    match s
    case Key(k) => Encode(k)
    case Index(i) => Decimal(i)
  }

  function PathText(ps: seq<Step>): (t: string)
    ensures t == [] || t[0] == '/'
  {
    if ps == [] then "" else "/" + StepToken(ps[0]) + PathText(ps[1..])
  }

  ghost predicate SmallIndices(ps: seq<Step>) {
    forall x :: 0 <= x < |ps| && ps[x].Index? ==> ps[x].i < SIZE_LIMIT
  }

  // A step in the tree follows a step in its meaning.
  lemma SelectStep(j: Json, s: Step, rest: string, v: View) returns (i: nat)
    requires Unique(j, v.cs) && CanStep(MeaningOf(j, v), s, v.cs) && (s.Index? ==> s.i < SIZE_LIMIT)
    requires rest == [] || rest[0] == '/'
    ensures i < Arity(j) && Select(j, StepToken(s) + rest, v.cs) == Some(i) && AfterToken(StepToken(s) + rest) == rest
    ensures MeaningOf(Child(j, i), v) == StepTo(MeaningOf(j, v), s, v.cs)
    ensures s.Index? ==> i == s.i
    ensures s.Key? ==> Fold(j.members[i].key, v.cs) == Fold(s.key, v.cs)
  {
    hide MembersMeaning, Encode, Decimal, IndexOf, Token, AfterToken, FirstNamed, Names;
    match s
    case Index(n) =>
      i := n;
      DecimalIndex(n, rest);
    case Key(k) =>
      i := MeaningKey(j.members, v, Fold(k, v.cs));
      MeaningLookup(j.members, v, i);
      forall x | 0 <= x < |j.members| ensures Names(Encode(k) + rest, j.members[x].key, v.cs) <==> x == i {
        EncodeNames(k, rest, j.members[x].key, v.cs);
        assert x < i ==> Fold(j.members[x].key, v.cs) != Fold(j.members[i].key, v.cs);
        assert i < x ==> Fold(j.members[i].key, v.cs) != Fold(j.members[x].key, v.cs);
      }
      EncodeNames(k, rest, k, v.cs);
      FirstNamedIs(j.members, Encode(k) + rest, v.cs, i);
  }

  /** A pointer to a place leads to a node that means what is in the place, and to replace that
      node is to replace what is in the place. */
  lemma {:induction false} Locate(j: Json, ps: seq<Step>, x: Json, v: View) returns (a: Address)
    requires Unique(j, v.cs) && Unique(x, v.cs) && SmallIndices(ps) && Has(MeaningOf(j, v), ps, v.cs)
    ensures GetPointer(j, PathText(ps), v.cs) == Some(a) && IsNode(j, a)
    ensures Unique(At(j, a), v.cs) && MeaningOf(At(j, a), v) == MGet(MeaningOf(j, v), ps, v.cs)
    ensures Unique(Put(j, a, x), v.cs) && MeaningOf(Put(j, a, x), v) == MPut(MeaningOf(j, v), ps, MeaningOf(x, v), v.cs)
    decreases |ps|
  {
    hide Select, AfterToken, GetPointer, MeaningOf, Unique, StepToken, PathText, CanStep, StepTo, StepPut;
    if ps == [] {
      a := [];
      PointerHere(j, v.cs);
    } else {
      var i := SelectStep(j, ps[0], PathText(ps[1..]), v);
      ChildUnique(j, i, v.cs);
      var b := Locate(Child(j, i), ps[1..], x, v);
      a := [i] + b;
      assert a[1..] == b;
      PointerDown(j, ps, i, b, v.cs);
      PutChild(j, i, ps[0], Put(Child(j, i), b, x), v);
    }
  }

  lemma PointerHere(j: Json, cs: bool)
    ensures GetPointer(j, PathText([]), cs) == Some([])
  {
  }

  lemma PointerDown(j: Json, ps: seq<Step>, i: nat, b: Address, cs: bool)
    requires ps != [] && i < Arity(j)
    requires Select(j, StepToken(ps[0]) + PathText(ps[1..]), cs) == Some(i)
    requires AfterToken(StepToken(ps[0]) + PathText(ps[1..])) == PathText(ps[1..])
    requires GetPointer(Child(j, i), PathText(ps[1..]), cs) == Some(b)
    ensures GetPointer(j, PathText(ps), cs) == Some([i] + b)
  {
    hide PathText, StepToken;
    PathCons(ps);
    PointerStep(j, StepToken(ps[0]) + PathText(ps[1..]), i, b, cs);
  }

  lemma PathCons(ps: seq<Step>)
    requires ps != []
    ensures PathText(ps) == "/" + (StepToken(ps[0]) + PathText(ps[1..]))
  {
    hide StepToken;
  }

  // Replacing one child.
  lemma PutChild(j: Json, i: nat, s: Step, c: Json, v: View)
    requires Unique(j, v.cs) && Unique(c, v.cs) && i < Arity(j) && CanStep(MeaningOf(j, v), s, v.cs)
    requires s.Index? ==> i == s.i
    requires s.Key? ==> Fold(j.members[i].key, v.cs) == Fold(s.key, v.cs)
    ensures var p := match j { case Array(items) => Array(items[i := c]) case Object(ms) => Object(ms[i := Member(ms[i].key, c)]) };
            Unique(p, v.cs) && MeaningOf(p, v) == StepPut(MeaningOf(j, v), s, MeaningOf(c, v), v.cs)
  {
    hide MembersMeaning;
    match j
    case Array(items) =>
    case Object(ms) => MembersPut(ms, i, c, v);
  }

  // ----- members -----

  lemma {:induction false} MembersPut(ms: seq<Member>, i: nat, c: Json, v: View)
    requires DistinctKeys(ms, v.cs) && i < |ms|
    ensures MembersMeaning(ms[i := Member(ms[i].key, c)], v) == MembersMeaning(ms, v)[Fold(ms[i].key, v.cs) := MeaningOf(c, v)]
    decreases |ms|
  {
    var ns := ms[i := Member(ms[i].key, c)];
    if i == 0 {
      assert ns[1..] == ms[1..];
    } else {
      assert ns[1..] == ms[1..][i - 1 := Member(ms[i].key, c)];
      MembersPut(ms[1..], i - 1, c, v);
    }
  }

  lemma {:induction false} MembersWithout(ms: seq<Member>, i: nat, v: View)
    requires DistinctKeys(ms, v.cs) && i < |ms|
    ensures MembersMeaning(Without(ms, i), v) == MembersMeaning(ms, v) - {Fold(ms[i].key, v.cs)}
    decreases |ms|
  {
    var ns := Without(ms, i);
    if i == 0 {
      assert ns == ms[1..];
      if Fold(ms[0].key, v.cs) in MembersMeaning(ms[1..], v) {
        var x := MeaningKey(ms[1..], v, Fold(ms[0].key, v.cs));
        assert false;
      }
    } else {
      assert ns[0] == ms[0] && ns[1..] == Without(ms[1..], i - 1);
      MembersWithout(ms[1..], i - 1, v);
    }
  }

  lemma WithoutDistinct(ms: seq<Member>, i: nat, cs: bool)
    requires DistinctKeys(ms, cs) && i < |ms|
    ensures DistinctKeys(Without(ms, i), cs)
  {
  }

  lemma {:induction false} MembersAppend(ms: seq<Member>, m: Member, v: View)
    requires Fold(m.key, v.cs) !in MembersMeaning(ms, v)
    ensures MembersMeaning(ms + [m], v) == MembersMeaning(ms, v)[Fold(m.key, v.cs) := MeaningOf(m.value, v)]
    decreases |ms|
  {
    if ms == [] {
      assert ms + [m] == [m] && [m][1..] == [];
    } else {
      assert (ms + [m])[0] == ms[0] && (ms + [m])[1..] == ms[1..] + [m];
      MembersAppend(ms[1..], m, v);
    }
  }

  lemma AppendDistinct(ms: seq<Member>, m: Member, v: View)
    requires DistinctKeys(ms, v.cs) && Fold(m.key, v.cs) !in MembersMeaning(ms, v)
    ensures DistinctKeys(ms + [m], v.cs)
  {
    hide MembersMeaning;
    forall i | 0 <= i < |ms| ensures Fold(ms[i].key, v.cs) != Fold(m.key, v.cs) {
      MeaningLookup(ms, v, i);
    }
  }
}
