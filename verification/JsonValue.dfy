/**
 JSON trees as cJSON keeps them, and what they mean regardless of the order of members.
 */
module JsonValue {
  import opened KeyOrder

  datatype Member = Member(key: string, value: Json)

  datatype Json =
    | Invalid
    | False
    | True
    | Null
    | Number(n: int)
    | String(s: string)
    | Raw(s: string)
    | Array(items: seq<Json>)
    | Object(members: seq<Member>)

  // The type code of a node.
  function Kind(j: Json): nat {
    match j
    case Invalid => 0
    case False => 1
    case True => 2
    case Null => 4
    case Number(_) => 8
    case String(_) => 16
    case Array(_) => 32
    case Object(_) => 64
    case Raw(_) => 128
  }

  // What is looked at of a tree: the case of keys, the text of raw nodes.
  datatype View = View(cs: bool, raw: bool)

  const EXACT := View(true, true)

  // Objects are maps, arrays are sequences.
  datatype Meaning =
    | MInvalid
    | MFalse
    | MTrue
    | MNull
    | MNumber(n: int)
    | MString(s: string)
    | MRaw(s: string)
    | MArray(items: seq<Meaning>)
    | MObject(members: map<string, Meaning>)

  function MeaningOf(j: Json, v: View): Meaning
    decreases j, 1
  {
    match j
    case Invalid => MInvalid
    case False => MFalse
    case True => MTrue
    case Null => MNull
    case Number(n) => MNumber(n)
    case String(s) => MString(s)
    case Raw(s) => MRaw(if v.raw then s else "")
    case Array(items) => MArray(seq(|items|, i requires 0 <= i < |items| => MeaningOf(items[i], v)))
    case Object(members) => MObject(MembersMeaning(members, v))
  }

  // The first member with a key counts.
  function MembersMeaning(ms: seq<Member>, v: View): map<string, Meaning>
    decreases ms, 0
  {
    if ms == [] then map[]
    else MembersMeaning(ms[1..], v)[Fold(ms[0].key, v.cs) := MeaningOf(ms[0].value, v)]
  }

  // ----- members with different keys -----

  ghost predicate DistinctKeys(ms: seq<Member>, cs: bool) {
    forall i, j :: 0 <= i < j < |ms| ==> Fold(ms[i].key, cs) != Fold(ms[j].key, cs)
  }

  // In every object of the tree the keys are different.
  ghost predicate Unique(j: Json, cs: bool)
    decreases j
  {
    match j
    case Array(items) => forall i :: 0 <= i < |items| ==> Unique(items[i], cs)
    case Object(members) => DistinctKeys(members, cs) && forall i :: 0 <= i < |members| ==> Unique(members[i].value, cs)
    case _ => true
  }

  lemma {:induction false} MeaningLookup(ms: seq<Member>, v: View, i: nat)
    requires DistinctKeys(ms, v.cs) && i < |ms|
    ensures Fold(ms[i].key, v.cs) in MembersMeaning(ms, v)
    ensures MembersMeaning(ms, v)[Fold(ms[i].key, v.cs)] == MeaningOf(ms[i].value, v)
    decreases |ms|
  {
    if i > 0 {
      MeaningLookup(ms[1..], v, i - 1);
    }
  }

  lemma {:induction false} MeaningKey(ms: seq<Member>, v: View, k: string) returns (i: nat)
    requires k in MembersMeaning(ms, v)
    ensures i < |ms| && Fold(ms[i].key, v.cs) == k
    decreases |ms|
  {
    if k == Fold(ms[0].key, v.cs) {
      i := 0;
    } else {
      i := MeaningKey(ms[1..], v, k);
      i := i + 1;
    }
  }

  /** The meaning of an object does not depend on the order of its members. */
  lemma MeaningOrder(ms: seq<Member>, ns: seq<Member>, v: View)
    requires DistinctKeys(ms, v.cs) && DistinctKeys(ns, v.cs) && multiset(ms) == multiset(ns)
    ensures MembersMeaning(ms, v) == MembersMeaning(ns, v)
  {
    MeaningSubset(ms, ns, v);
    MeaningSubset(ns, ms, v);
    var a, b := MembersMeaning(ms, v), MembersMeaning(ns, v);
    assert a.Keys == b.Keys;
  }

  lemma MeaningSubset(ms: seq<Member>, ns: seq<Member>, v: View)
    requires DistinctKeys(ms, v.cs) && DistinctKeys(ns, v.cs) && multiset(ms) == multiset(ns)
    ensures forall k :: k in MembersMeaning(ms, v) ==>
              k in MembersMeaning(ns, v) && MembersMeaning(ns, v)[k] == MembersMeaning(ms, v)[k]
  {
    forall k | k in MembersMeaning(ms, v)
      ensures k in MembersMeaning(ns, v) && MembersMeaning(ns, v)[k] == MembersMeaning(ms, v)[k]
    {
      var i := MeaningKey(ms, v, k);
      MeaningLookup(ms, v, i);
      assert ms[i] in multiset(ms);
      assert ms[i] in ns;
      var j :| 0 <= j < |ns| && ns[j] == ms[i];
      MeaningLookup(ns, v, j);
    }
  }

  // ----- number of nodes -----

  function Size(j: Json): (n: nat)
    ensures n > 0
    decreases j, 1
  {
    match j
    case Array(items) => 1 + ItemsSize(items)
    case Object(members) => 1 + MembersSize(members)
    case _ => 1
  }

  function ItemsSize(items: seq<Json>): nat
    decreases items, 0
  {
    if items == [] then 0 else Size(items[0]) + ItemsSize(items[1..])
  }

  function MembersSize(ms: seq<Member>): nat
    decreases ms, 0
  {
    if ms == [] then 0 else Size(ms[0].value) + MembersSize(ms[1..])
  }

  lemma {:induction false} ItemSmaller(items: seq<Json>, i: nat)
    requires i < |items|
    ensures Size(items[i]) <= ItemsSize(items)
    decreases |items|
  {
    if i > 0 {
      ItemSmaller(items[1..], i - 1);
    }
  }

  lemma {:induction false} MemberSmaller(ms: seq<Member>, i: nat)
    requires i < |ms|
    ensures Size(ms[i].value) <= MembersSize(ms)
    decreases |ms|
  {
    if i > 0 {
      MemberSmaller(ms[1..], i - 1);
    }
  }
}
