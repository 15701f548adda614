/**
 The two equality tests on trees: `compare_json` sorts members and compares them in
 lock-step (stage/cjson/cJSON_Utils.c), `cJSON_Compare` looks every member of one object up
 in the other (stage/cjson/cJSON.c). Both decide equality of meaning.
 */
module JsonCompare {
  import opened KeyOrder
  import opened MergeSort
  import opened JsonValue

  function KeyOf(m: Member): string {
    m.key
  }

  // `sort_object`
  function SortMembers(ms: seq<Member>, cs: bool): (r: seq<Member>) {
    Sort(ms, KeyOf, cs)
  }

  // ----- sorted members -----

  // Keys strictly ascend.
  ghost predicate Strict(s: seq<Member>, cs: bool) {
    forall i, j :: 0 <= i < j < |s| ==> KeyLess(s[i].key, s[j].key, cs)
  }

  lemma SortedMembers(ms: seq<Member>, cs: bool)
    ensures var s := SortMembers(ms, cs);
            && |s| == |ms| && multiset(s) == multiset(ms)
            && (forall i :: 0 <= i < |s| ==> s[i] in ms)
            && (DistinctKeys(ms, cs) ==> DistinctKeys(s, cs) && Strict(s, cs))
  {
    hide Sort;
    var s := SortMembers(ms, cs);
    SortSorts(ms, KeyOf, cs);
    forall i | 0 <= i < |s| ensures s[i] in ms {
      assert s[i] in multiset(s);
    }
    if DistinctKeys(ms, cs) {
      PermutedDistinct(ms, s, cs);
      forall i, j | 0 <= i < j < |s| ensures KeyLess(s[i].key, s[j].key, cs) {
        assert !KeyLess(KeyOf(s[j]), KeyOf(s[i]), cs);
        KeyLessTotal(s[i].key, s[j].key, cs);
      }
    }
  }

  lemma PermutedDistinct(ms: seq<Member>, s: seq<Member>, cs: bool)
    requires multiset(s) == multiset(ms) && DistinctKeys(ms, cs)
    ensures DistinctKeys(s, cs)
  {
    forall i, j | 0 <= i < j < |s| ensures Fold(s[i].key, cs) != Fold(s[j].key, cs) {
      if Fold(s[i].key, cs) == Fold(s[j].key, cs) {
        assert s[i] in multiset(s) && s[j] in multiset(s);
        var x :| 0 <= x < |ms| && ms[x] == s[i];
        var y :| 0 <= y < |ms| && ms[y] == s[j];
        assert x == y;
        TwiceInMultiset(s, i, j);
        OnceInMultiset(ms, x, cs);
        assert false;
      }
    }
  }

  lemma TwiceInMultiset(s: seq<Member>, i: nat, j: nat)
    requires i < j < |s| && s[i] == s[j]
    ensures multiset(s)[s[i]] >= 2
  {
    assert s == s[..j] + [s[j]] + s[j + 1..];
    assert s[i] in s[..j];
    assert s[i] in multiset(s[..j]);
  }

  lemma OnceInMultiset(ms: seq<Member>, x: nat, cs: bool)
    requires DistinctKeys(ms, cs) && x < |ms|
    ensures multiset(ms)[ms[x]] == 1
  {
    assert ms == ms[..x] + [ms[x]] + ms[x + 1..];
    assert ms[x] !in ms[..x] && ms[x] !in ms[x + 1..];
    assert ms[x] !in multiset(ms[..x]) && ms[x] !in multiset(ms[x + 1..]);
  }

  // ----- `compare_json` -----

  // Member by member, in ascending order of keys, no member left over. Raw text is not looked at.
  predicate Same(a: Json, b: Json, cs: bool)
    decreases a
  {
    match (a, b)
    case (Number(n), Number(m)) => n == m
    case (String(s), String(t)) => s == t
    case (Array(xs), Array(ys)) => |xs| == |ys| && forall i :: 0 <= i < |xs| ==> Same(xs[i], ys[i], cs)
    case (Object(ms), Object(ns)) =>
      SortedMembers(ms, cs);
      var x, y := SortMembers(ms, cs), SortMembers(ns, cs);
      |x| == |y| && forall i :: 0 <= i < |x| ==> x[i] in ms && Fold(x[i].key, cs) == Fold(y[i].key, cs) && Same(x[i].value, y[i].value, cs)
    case _ => Kind(a) == Kind(b)
  }

  // ----- meaning of `compare_json` -----

  // The first i members agree.
  ghost predicate Zipped(a: seq<Member>, b: seq<Member>, i: nat, v: View) {
    && i <= |a| && i <= |b|
    && forall j :: 0 <= j < i ==> Fold(a[j].key, v.cs) == Fold(b[j].key, v.cs) && MeaningOf(a[j].value, v) == MeaningOf(b[j].value, v)
  }

  lemma ZipSmaller(a: seq<Member>, b: seq<Member>, i: nat, v: View)
    requires DistinctKeys(a, v.cs) && DistinctKeys(b, v.cs) && Strict(b, v.cs)
    requires Zipped(a, b, i, v) && i < |a|
    requires i < |b| ==> KeyLess(a[i].key, b[i].key, v.cs)
    ensures MembersMeaning(a, v) != MembersMeaning(b, v)
  {
    var k := Fold(a[i].key, v.cs);
    MeaningLookup(a, v, i);
    if k in MembersMeaning(b, v) {
      var j := MeaningKey(b, v, k);
      if j > i {
        KeyLessTransitive(a[i].key, b[i].key, b[j].key, v.cs);
      }
      if j >= i {
        KeyLessTotal(a[i].key, b[j].key, v.cs);
      }
      assert false;
    }
  }

  // Sorted lists that agree up to i mean the same only if they go on with the same key, or end.
  lemma ZipMismatch(a: seq<Member>, b: seq<Member>, i: nat, v: View)
    requires DistinctKeys(a, v.cs) && DistinctKeys(b, v.cs) && Strict(a, v.cs) && Strict(b, v.cs)
    requires Zipped(a, b, i, v) && (i < |a| || i < |b|)
    requires i < |a| && i < |b| ==> Fold(a[i].key, v.cs) != Fold(b[i].key, v.cs)
    ensures MembersMeaning(a, v) != MembersMeaning(b, v)
  {
    if i < |a| && i < |b| {
      KeyLessTotal(a[i].key, b[i].key, v.cs);
    }
    if i == |b| || (i < |a| && KeyLess(a[i].key, b[i].key, v.cs)) {
      ZipSmaller(a, b, i, v);
    } else {
      ZipSmaller(b, a, i, v);
    }
  }

  lemma ZipValue(a: seq<Member>, b: seq<Member>, i: nat, v: View)
    requires DistinctKeys(a, v.cs) && DistinctKeys(b, v.cs) && i < |a| && i < |b|
    requires Fold(a[i].key, v.cs) == Fold(b[i].key, v.cs) && MeaningOf(a[i].value, v) != MeaningOf(b[i].value, v)
    ensures MembersMeaning(a, v) != MembersMeaning(b, v)
  {
    MeaningLookup(a, v, i);
    MeaningLookup(b, v, i);
  }

  // Where two sorted lists differ first.
  lemma {:induction false} ZipBreaks(a: seq<Member>, b: seq<Member>, v: View)
    requires DistinctKeys(a, v.cs) && DistinctKeys(b, v.cs) && Strict(a, v.cs) && Strict(b, v.cs)
    requires |a| == |b| ==> !Zipped(a, b, |a|, v)
    ensures MembersMeaning(a, v) != MembersMeaning(b, v)
  {
    hide DistinctKeys, Strict, MembersMeaning, MeaningOf;
    var i := 0;
    while i < |a| && i < |b| && Fold(a[i].key, v.cs) == Fold(b[i].key, v.cs) && MeaningOf(a[i].value, v) == MeaningOf(b[i].value, v)
      invariant Zipped(a, b, i, v)
    {
      i := i + 1;
    }
    if i < |a| && i < |b| && Fold(a[i].key, v.cs) == Fold(b[i].key, v.cs) {
      ZipValue(a, b, i, v);
    } else {
      ZipMismatch(a, b, i, v);
    }
  }

  lemma {:induction false} ZipAll(a: seq<Member>, b: seq<Member>, v: View)
    requires |a| == |b| && Zipped(a, b, |a|, v)
    ensures MembersMeaning(a, v) == MembersMeaning(b, v)
    decreases |a|
  {
    if a != [] {
      ZipAll(a[1..], b[1..], v);
    }
  }

  lemma ItemsEqual(a: seq<Json>, b: seq<Json>, v: View)
    ensures MeaningOf(Array(a), v) == MeaningOf(Array(b), v) <==>
              |a| == |b| && forall i :: 0 <= i < |a| ==> MeaningOf(a[i], v) == MeaningOf(b[i], v)
  {
    var x, y := MeaningOf(Array(a), v).items, MeaningOf(Array(b), v).items;
    if x == y {
      forall i | 0 <= i < |a| ensures MeaningOf(a[i], v) == MeaningOf(b[i], v) {
        assert x[i] == y[i];
      }
    }
  }

  /** `compare_json` decides whether two trees mean the same. */
  lemma {:induction false} SameMeaning(a: Json, b: Json, cs: bool)
    requires Unique(a, cs) && Unique(b, cs)
    ensures Same(a, b, cs) <==> MeaningOf(a, View(cs, false)) == MeaningOf(b, View(cs, false))
    decreases a, 1
  {
    if a.Array? && b.Array? {
      ItemsEqual(a.items, b.items, View(cs, false));
      forall i | 0 <= i < |a.items| && i < |b.items|
        ensures Same(a.items[i], b.items[i], cs) <==> MeaningOf(a.items[i], View(cs, false)) == MeaningOf(b.items[i], View(cs, false))
      {
        SameMeaning(a.items[i], b.items[i], cs);
      }
    } else if a.Object? && b.Object? {
      SameMembers(a, b, cs);
    }
  }

  lemma {:induction false} SameMembers(a: Json, b: Json, cs: bool)
    requires a.Object? && b.Object? && Unique(a, cs) && Unique(b, cs)
    ensures Same(a, b, cs) <==> MeaningOf(a, View(cs, false)) == MeaningOf(b, View(cs, false))
    decreases a, 0
  {
    hide SortMembers, MembersMeaning, Strict, DistinctKeys;
    var v := View(cs, false);
    var x, y := SortMembers(a.members, cs), SortMembers(b.members, cs);
    assert DistinctKeys(a.members, cs) && DistinctKeys(b.members, cs);
    SortedMembers(a.members, cs);
    SortedMembers(b.members, cs);
    MeaningOrder(a.members, x, v);
    MeaningOrder(b.members, y, v);
    forall i | 0 <= i < |x| && i < |y|
      ensures Same(x[i].value, y[i].value, cs) <==> MeaningOf(x[i].value, v) == MeaningOf(y[i].value, v)
    {
      assert x[i] in a.members && y[i] in b.members;
      SameMeaning(x[i].value, y[i].value, cs);
    }
    if Same(a, b, cs) {
      ZipAll(x, y, v);
    } else {
      ZipBreaks(x, y, v);
    }
  }

  // ----- `cJSON_Compare` -----

  // `get_object_item`: the index of the first member with a key, |ms| if there is none.
  function Lookup(ms: seq<Member>, key: string, cs: bool): (i: nat)
    ensures i <= |ms| && (i < |ms| ==> Fold(ms[i].key, cs) == Fold(key, cs))
    ensures forall j :: 0 <= j < i ==> Fold(ms[j].key, cs) != Fold(key, cs)
  {
    if ms == [] || Fold(ms[0].key, cs) == Fold(key, cs) then 0
    else
      var i := Lookup(ms[1..], key, cs);
      assert forall j :: 1 <= j < |ms| ==> ms[j] == ms[1..][j - 1];
      i + 1
  }

  // The same without a scan of its own: the first match is the result.
  lemma LookupIs(ms: seq<Member>, key: string, cs: bool, i: nat)
    requires i <= |ms| && (i < |ms| ==> Fold(ms[i].key, cs) == Fold(key, cs))
    requires forall j :: 0 <= j < i ==> Fold(ms[j].key, cs) != Fold(key, cs)
    ensures Lookup(ms, key, cs) == i
  {
  }

  method GetObjectItem(ms: seq<Member>, key: string, cs: bool) returns (i: nat)
    ensures i == Lookup(ms, key, cs)
  {
    i := 0;
    while i < |ms| && Fold(key, cs) != Fold(ms[i].key, cs)
      invariant i <= |ms| && forall j :: 0 <= j < i ==> Fold(ms[j].key, cs) != Fold(key, cs)
    {
      i := i + 1;
    }
    LookupIs(ms, key, cs, i);
  }

  // Every member is looked up in the other object, both ways.
  predicate Equal(a: Json, b: Json, cs: bool)
    decreases Size(a) + Size(b), 1
  {
    match (a, b)
    case (Invalid, Invalid) => false
    case (Number(n), Number(m)) => n == m
    case (String(s), String(t)) => s == t
    case (Raw(s), Raw(t)) => s == t
    case (Array(xs), Array(ys)) =>
      |xs| == |ys| && forall i :: 0 <= i < |xs| ==> (ItemSmaller(xs, i); ItemSmaller(ys, i); Equal(xs[i], ys[i], cs))
    case (Object(ms), Object(ns)) => Covers(a, b, cs) && Covers(b, a, cs)
    case _ => Kind(a) == Kind(b)
  }

  predicate Covers(a: Json, b: Json, cs: bool)
    requires a.Object? && b.Object?
    decreases Size(a) + Size(b), 0
  {
    forall i :: 0 <= i < |a.members| ==> HasPartner(a, i, b, cs)
  }

  predicate HasPartner(a: Json, i: nat, b: Json, cs: bool)
    requires a.Object? && b.Object? && i < |a.members|
    decreases Size(a) + Size(b), -1
  {
    var j := Lookup(b.members, a.members[i].key, cs);
    j < |b.members| && (MemberSmaller(a.members, i); MemberSmaller(b.members, j); Equal(a.members[i].value, b.members[j].value, cs))
  }

  // `same`: the two arguments are one and the same node.
  method Compare(a: Json, b: Json, cs: bool, same: bool) returns (eq: bool)
    requires same ==> a == b
    ensures eq == if same then !a.Invalid? else Equal(a, b, cs)
    decreases Size(a) + Size(b), 2
  {
    if Kind(a) != Kind(b) || a.Invalid? {
      return false;
    }
    if same {
      return true;
    }
    match a
    case Number(n) => return n == b.n;
    case String(s) => return s == b.s;
    case Raw(s) => return s == b.s;
    case Array(_) => eq := CompareElements(a, b, cs);
    case Object(_) =>
      eq := CompareCovers(a, b, cs);
      if eq {
        eq := CompareCovers(b, a, cs);
      }
    case _ => return true;
  }

  method CompareElements(a: Json, b: Json, cs: bool) returns (eq: bool)
    requires a.Array? && b.Array?
    ensures eq == Equal(a, b, cs)
    decreases Size(a) + Size(b), 1
  {
    var i := 0;
    while i < |a.items| && i < |b.items|
      invariant i <= |a.items| && i <= |b.items|
      invariant forall j :: 0 <= j < i ==> Equal(a.items[j], b.items[j], cs)
    {
      ItemSmaller(a.items, i);
      ItemSmaller(b.items, i);
      var same := Compare(a.items[i], b.items[i], cs, false);
      if !same {
        return false;
      }
      i := i + 1;
    }
    return i == |a.items| && i == |b.items|;
  }

  method CompareCovers(a: Json, b: Json, cs: bool) returns (eq: bool)
    requires a.Object? && b.Object?
    ensures eq == Covers(a, b, cs)
    decreases Size(a) + Size(b), 1
  {
    hide Lookup, Equal, Size, MembersSize;
    var i := 0;
    while i < |a.members|
      invariant i <= |a.members| && forall j :: 0 <= j < i ==> HasPartner(a, j, b, cs)
    {
      var j := GetObjectItem(b.members, a.members[i].key, cs);
      if j == |b.members| {
        assert !HasPartner(a, i, b, cs);
        return false;
      }
      PartnersSmaller(a, i, b, j);
      var same := Compare(a.members[i].value, b.members[j].value, cs, false);
      assert same == HasPartner(a, i, b, cs);
      if !same {
        return false;
      }
      i := i + 1;
    }
    return true;
  }

  lemma PartnersSmaller(a: Json, i: nat, b: Json, j: nat)
    requires a.Object? && b.Object? && i < |a.members| && j < |b.members|
    ensures Size(a.members[i].value) + Size(b.members[j].value) < Size(a) + Size(b)
  {
    MemberSmaller(a.members, i);
    MemberSmaller(b.members, j);
  }

  // ----- meaning of `cJSON_Compare` -----

  ghost predicate HasInvalid(j: Json)
    decreases j
  {
    match j
    case Invalid => true
    case Array(items) => exists i :: 0 <= i < |items| && HasInvalid(items[i])
    case Object(members) => exists i :: 0 <= i < |members| && HasInvalid(members[i].value)
    case _ => false
  }

  // Every member up to i has an equal and valid partner in b.
  ghost predicate Covered(a: seq<Member>, i: nat, b: seq<Member>, v: View) {
    i <= |a| &&
    forall j :: 0 <= j < i ==> !HasInvalid(a[j].value) && Fold(a[j].key, v.cs) in MembersMeaning(b, v) &&
                               MembersMeaning(b, v)[Fold(a[j].key, v.cs)] == MeaningOf(a[j].value, v)
  }

  lemma LookupMeaning(ms: seq<Member>, key: string, v: View)
    requires DistinctKeys(ms, v.cs)
    ensures var i := Lookup(ms, key, v.cs);
            if i == |ms| then Fold(key, v.cs) !in MembersMeaning(ms, v)
            else Fold(key, v.cs) in MembersMeaning(ms, v) && MembersMeaning(ms, v)[Fold(key, v.cs)] == MeaningOf(ms[i].value, v)
  {
    hide Lookup, MembersMeaning;
    var i := Lookup(ms, key, v.cs);
    if i < |ms| {
      MeaningLookup(ms, v, i);
    } else if Fold(key, v.cs) in MembersMeaning(ms, v) {
      var j := MeaningKey(ms, v, Fold(key, v.cs));
      assert false;
    }
  }

  // Each object covers the other iff they mean the same and are valid.
  lemma ObjectsEqual(a: Json, b: Json, v: View)
    requires a.Object? && b.Object? && Unique(a, v.cs) && Unique(b, v.cs)
    ensures MeaningOf(a, v) == MeaningOf(b, v) && !HasInvalid(a) <==>
              Covered(a.members, |a.members|, b.members, v) && Covered(b.members, |b.members|, a.members, v)
  {
    if MeaningOf(a, v) == MeaningOf(b, v) && !HasInvalid(a) {
      SameInvalid(a, b, v);
      EqualCovered(a.members, b.members, v);
      EqualCovered(b.members, a.members, v);
    }
    if Covered(a.members, |a.members|, b.members, v) && Covered(b.members, |b.members|, a.members, v) {
      CoveredBoth(a.members, b.members, v);
    }
  }

  lemma EqualCovered(a: seq<Member>, b: seq<Member>, v: View)
    requires DistinctKeys(a, v.cs) && MembersMeaning(a, v) == MembersMeaning(b, v) && !HasInvalid(Object(a))
    ensures Covered(a, |a|, b, v)
  {
    hide MembersMeaning;
    forall j | 0 <= j < |a|
      ensures !HasInvalid(a[j].value) && Fold(a[j].key, v.cs) in MembersMeaning(b, v) &&
              MembersMeaning(b, v)[Fold(a[j].key, v.cs)] == MeaningOf(a[j].value, v)
    {
      MeaningLookup(a, v, j);
      assert HasInvalid(a[j].value) ==> HasInvalid(Object(a));
    }
  }

  lemma {:induction false} SameInvalid(a: Json, b: Json, v: View)
    requires Unique(a, v.cs) && Unique(b, v.cs) && MeaningOf(a, v) == MeaningOf(b, v)
    ensures HasInvalid(a) ==> HasInvalid(b)
    ensures HasInvalid(b) ==> HasInvalid(a)
    decreases Size(a) + Size(b)
  {
    InvalidOver(a, b, v);
    InvalidOver(b, a, v);
  }

  lemma {:induction false} InvalidOver(a: Json, b: Json, v: View)
    requires Unique(a, v.cs) && Unique(b, v.cs) && MeaningOf(a, v) == MeaningOf(b, v)
    ensures HasInvalid(a) ==> HasInvalid(b)
    decreases a
  {
    hide MembersMeaning;
    if a.Array? && HasInvalid(a) {
      ItemsEqual(a.items, b.items, v);
      var i :| 0 <= i < |a.items| && HasInvalid(a.items[i]);
      InvalidOver(a.items[i], b.items[i], v);
    } else if a.Object? && HasInvalid(a) {
      var i :| 0 <= i < |a.members| && HasInvalid(a.members[i].value);
      MeaningLookup(a.members, v, i);
      var j := MeaningKey(b.members, v, Fold(a.members[i].key, v.cs));
      MeaningLookup(b.members, v, j);
      InvalidOver(a.members[i].value, b.members[j].value, v);
    }
  }

  lemma CoveredBoth(a: seq<Member>, b: seq<Member>, v: View)
    requires DistinctKeys(a, v.cs) && DistinctKeys(b, v.cs)
    requires Covered(a, |a|, b, v) && Covered(b, |b|, a, v)
    ensures MembersMeaning(a, v) == MembersMeaning(b, v)
  {
    var x, y := MembersMeaning(a, v), MembersMeaning(b, v);
    forall k | k in x ensures k in y && y[k] == x[k] {
      var i := MeaningKey(a, v, k);
      MeaningLookup(a, v, i);
    }
    forall k | k in y ensures k in x {
      var i := MeaningKey(b, v, k);
      MeaningLookup(b, v, i);
    }
    assert x.Keys == y.Keys;
  }

  /** `cJSON_Compare` decides whether two trees mean the same; a tree with an invalid node equals nothing. */
  lemma {:induction false} EqualMeaning(a: Json, b: Json, cs: bool)
    requires Unique(a, cs) && Unique(b, cs)
    ensures Equal(a, b, cs) <==> MeaningOf(a, View(cs, true)) == MeaningOf(b, View(cs, true)) && !HasInvalid(a)
    decreases Size(a) + Size(b), 1
  {
    var v := View(cs, true);
    if a.Array? && b.Array? {
      ItemsEqual(a.items, b.items, v);
      forall i | 0 <= i < |a.items| && i < |b.items|
        ensures Equal(a.items[i], b.items[i], cs) <==> MeaningOf(a.items[i], v) == MeaningOf(b.items[i], v) && !HasInvalid(a.items[i])
      {
        ItemSmaller(a.items, i);
        ItemSmaller(b.items, i);
        EqualMeaning(a.items[i], b.items[i], cs);
      }
    } else if a.Object? && b.Object? {
      CoversMeaning(a, b, cs);
      CoversMeaning(b, a, cs);
      ObjectsEqual(a, b, v);
    }
  }

  lemma {:induction false} CoversMeaning(a: Json, b: Json, cs: bool)
    requires a.Object? && b.Object? && Unique(a, cs) && Unique(b, cs)
    ensures Covers(a, b, cs) <==> Covered(a.members, |a.members|, b.members, View(cs, true))
    decreases Size(a) + Size(b), 0
  {
    hide MembersMeaning, Lookup;
    var v := View(cs, true);
    forall i | 0 <= i < |a.members|
      ensures HasPartner(a, i, b, cs) <==>
                !HasInvalid(a.members[i].value) && Fold(a.members[i].key, cs) in MembersMeaning(b.members, v) &&
                MembersMeaning(b.members, v)[Fold(a.members[i].key, cs)] == MeaningOf(a.members[i].value, v)
    {
      var j := Lookup(b.members, a.members[i].key, cs);
      LookupMeaning(b.members, a.members[i].key, v);
      if j < |b.members| {
        MemberSmaller(a.members, i);
        MemberSmaller(b.members, j);
        EqualMeaning(a.members[i].value, b.members[j].value, cs);
      }
    }
  }

  // ----- agreement -----

  ghost predicate HasRaw(j: Json)
    decreases j
  {
    match j
    case Raw(_) => true
    case Array(items) => exists i :: 0 <= i < |items| && HasRaw(items[i])
    case Object(members) => exists i :: 0 <= i < |members| && HasRaw(members[i].value)
    case _ => false
  }

  // The two views differ only on raw nodes.
  lemma {:induction false} RawView(j: Json, cs: bool)
    requires !HasRaw(j)
    ensures MeaningOf(j, View(cs, true)) == MeaningOf(j, View(cs, false))
    decreases j, 1
  {
    match j
    case Array(items) =>
      forall i | 0 <= i < |items| ensures MeaningOf(items[i], View(cs, true)) == MeaningOf(items[i], View(cs, false)) {
        assert HasRaw(items[i]) ==> HasRaw(j);
        RawView(items[i], cs);
      }
    case Object(members) => RawMembers(members, cs);
    case _ =>
  }

  lemma {:induction false} RawMembers(ms: seq<Member>, cs: bool)
    requires forall i :: 0 <= i < |ms| ==> !HasRaw(ms[i].value)
    ensures MembersMeaning(ms, View(cs, true)) == MembersMeaning(ms, View(cs, false))
    decreases ms, 0
  {
    if ms != [] {
      RawView(ms[0].value, cs);
      RawMembers(ms[1..], cs);
    }
  }

  // Meanings that keep raw text say more.
  lemma {:induction false} RawCoarser(a: Json, b: Json, cs: bool)
    requires Unique(a, cs) && Unique(b, cs)
    requires MeaningOf(a, View(cs, true)) == MeaningOf(b, View(cs, true))
    ensures MeaningOf(a, View(cs, false)) == MeaningOf(b, View(cs, false))
    decreases a
  {
    hide MembersMeaning;
    var v, w := View(cs, true), View(cs, false);
    if a.Array? {
      ItemsEqual(a.items, b.items, v);
      ItemsEqual(a.items, b.items, w);
      forall i | 0 <= i < |a.items| ensures MeaningOf(a.items[i], w) == MeaningOf(b.items[i], w) {
        RawCoarser(a.items[i], b.items[i], cs);
      }
    } else if a.Object? {
      forall k | k in MembersMeaning(a.members, w)
        ensures k in MembersMeaning(b.members, w) && MembersMeaning(b.members, w)[k] == MembersMeaning(a.members, w)[k]
      {
        var i := MeaningKey(a.members, w, k);
        MeaningLookup(a.members, v, i);
        MeaningLookup(a.members, w, i);
        var j := MeaningKey(b.members, v, k);
        MeaningLookup(b.members, v, j);
        MeaningLookup(b.members, w, j);
        RawCoarser(a.members[i].value, b.members[j].value, cs);
      }
      forall k | k in MembersMeaning(b.members, w) ensures k in MembersMeaning(a.members, w) {
        var j := MeaningKey(b.members, w, k);
        MeaningLookup(b.members, v, j);
        var i := MeaningKey(a.members, v, k);
        MeaningLookup(a.members, w, i);
      }
      assert MembersMeaning(a.members, w).Keys == MembersMeaning(b.members, w).Keys;
    }
  }

  /** `cJSON_Compare` is never the laxer test, and the two agree on trees without raw and invalid nodes. */
  lemma EqualitiesAgree(a: Json, b: Json, cs: bool)
    requires Unique(a, cs) && Unique(b, cs)
    ensures Equal(a, b, cs) ==> Same(a, b, cs)
    ensures !HasRaw(a) && !HasRaw(b) && !HasInvalid(a) ==> (Equal(a, b, cs) <==> Same(a, b, cs))
  {
    hide MeaningOf, HasRaw, HasInvalid, Unique, Equal, Same;
    EqualMeaning(a, b, cs);
    SameMeaning(a, b, cs);
    if MeaningOf(a, View(cs, true)) == MeaningOf(b, View(cs, true)) {
      RawCoarser(a, b, cs);
    }
    if !HasRaw(a) && !HasRaw(b) {
      RawView(a, cs);
      RawView(b, cs);
    }
  }
}
