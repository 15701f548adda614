/**
 What a "test" does to the document (stage/cjson/cJSON_Utils.c, `apply_patch` and `compare_json`): its meaning
 stays, the order of members and the back links do not, and so a later addition can get lost.
 */
module JsonTest {
  import opened Basics
  import opened KeyOrder
  import opened MergeSort
  import opened JsonSiblings
  import opened JsonValue
  import opened JsonCompare
  import opened JsonPointer
  import opened JsonDoc
  import opened JsonDocument
  import opened JsonDocLaw
  import opened JsonOps

  // ----- replacing a node -----

  lemma {:induction false} NodePut(d: Doc, a: Address, x: Doc)
    requires IsNode(Strip(d), a)
    ensures Strip(Put(d, a, x)) == Ideal.Put(Strip(d), a, Strip(x))
    ensures IsNode(Strip(Put(d, a, x)), a) && NodeAt(Put(d, a, x), a) == x
    decreases |a|
  {
    if a != [] {
      assert a[0] < Arity(Strip(d)) && IsNode(Child(Strip(d), a[0]), a[1..]);
      match d
      case Items(items) =>
        NodePut(items[a[0]], a[1..], x);
        assert Strip(Put(d, a, x)).items == Ideal.Put(Strip(d), a, Strip(x)).items;
      case Members(ms, _) =>
        NodePut(ms[a[0]].value, a[1..], x);
        assert Strip(Put(d, a, x)).members == Ideal.Put(Strip(d), a, Strip(x)).members;
    }
  }

  // A pointer leads to the same place whatever is there.
  lemma {:induction false} PointerPut(j: Json, p: string, a: Address, x: Json, cs: bool)
    requires GetPointer(j, p, cs) == Some(a)
    ensures GetPointer(Ideal.Put(j, a, x), p, cs) == Some(a)
    decreases |a|
  {
    hide Select, AfterToken;
    if a != [] {
      var i, c := a[0], Ideal.Put(Child(j, a[0]), a[1..], x);
      assert GetPointer(Child(j, i), AfterToken(p[1..]), cs) == Some(a[1..]) by {
        var r := GetPointer(Child(j, i), AfterToken(p[1..]), cs);
        assert ([i] + r.value)[1..] == r.value;
      }
      PointerPut(Child(j, i), AfterToken(p[1..]), a[1..], x, cs);
      SelectPut(j, p[1..], i, c, cs);
      assert [i] + a[1..] == a;
    }
  }

  lemma SelectPut(j: Json, p: string, i: nat, c: Json, cs: bool)
    requires i < Arity(j)
    ensures var k := match j { case Array(items) => Array(items[i := c]) case Object(ms) => Object(ms[i := Member(ms[i].key, c)]) };
            Select(k, p, cs) == Select(j, p, cs) && Arity(k) == Arity(j) && Child(k, i) == c
  {
    hide IndexOf, Token, FirstNamed;
    if j.Object? {
      NamedPut(j.members, i, c, p, cs);
    }
  }

  lemma {:induction false} NamedPut(ms: seq<Member>, i: nat, c: Json, p: string, cs: bool)
    requires i < |ms|
    ensures FirstNamed(ms[i := Member(ms[i].key, c)], p, cs) == FirstNamed(ms, p, cs)
    decreases |ms|
  {
    hide Names;
    var ns := ms[i := Member(ms[i].key, c)];
    if i > 0 {
      assert ns[1..] == ms[1..][i - 1 := Member(ms[i].key, c)];
      NamedPut(ms[1..], i - 1, c, p, cs);
    } else {
      assert ns[1..] == ms[1..];
    }
  }

  // ----- the meaning stays -----

  lemma {:induction false} PutUnmoved(d: Doc, a: Address, x: Doc, v: View)
    requires IsNode(Strip(d), a) && Unmoved(NodeAt(d, a), x, v)
    ensures Unmoved(d, Put(d, a, x), v)
    decreases |a|
  {
    hide MeaningOf;
    if a != [] {
      assert a[0] < Arity(Strip(d)) && IsNode(Child(Strip(d), a[0]), a[1..]);
      match d
      case Items(items) =>
        PutUnmoved(items[a[0]], a[1..], x, v);
        ItemUnmoved(items, a[0], Put(items[a[0]], a[1..], x), v);
      case Members(ms, back) =>
        PutUnmoved(ms[a[0]].value, a[1..], x, v);
        MemberUnmoved(ms, back, a[0], Put(ms[a[0]].value, a[1..], x), v);
    }
  }

  lemma ItemUnmoved(items: seq<Doc>, i: nat, c: Doc, v: View)
    requires i < |items| && Unmoved(items[i], c, v)
    ensures Unmoved(Items(items), Items(items[i := c]), v)
  {
    hide MeaningOf, Strip;
    StripItems(items);
    StripItems(items[i := c]);
    var x, y := Strip(Items(items)), Strip(Items(items[i := c]));
    if Unique(x, v.cs) {
      assert Unique(x.items[i], v.cs);
      ItemsEqual(x.items, y.items, v);
    }
  }

  lemma MemberUnmoved(ms: seq<Entry>, back: Back, i: nat, c: Doc, v: View)
    requires i < |ms| && Unmoved(ms[i].value, c, v)
    ensures Unmoved(Members(ms, back), Members(ms[i := Entry(ms[i].key, c)], back), v)
  {
    hide MeaningOf, Strip, Mapped;
    var ns := ms[i := Entry(ms[i].key, c)];
    StripMembers(ms, back);
    StripMembers(ns, back);
    var x, y := Mapped(ms, StripEntry), Mapped(ns, StripEntry);
    if Unique(Object(x), v.cs) {
      assert Unique(x[i].value, v.cs);
      ValuesUnmoved(x, y, v);
    }
  }

  /** A test succeeds if and only if the node is the same as the value, and never changes what the document
      means. */
  lemma TestMeaning(d: Doc, path: string, value: Option<Json>, cs: bool, v: View)
    ensures var r, at := Test(d, path, value, cs), GetPointer(Strip(d), path, cs);
            && r.Done? && Unmoved(d, r.doc, v)
            && r.status == if at.Some? && value.Some? && Same(At(Strip(d), at.value), value.value, cs) then 0 else 1
  {
    hide Same, Strip, NodeAt, Put, Compared, Unmoved, Fresh, GetPointer;
    var at := GetPointer(Strip(d), path, cs);
    StaysUnmoved(d, v);
    if at.Some? && value.Some? {
      var node, b := NodeAt(d, at.value), Fresh(value.value);
      ComparedMeaning(node, b, cs, v);
      PutUnmoved(d, at.value, Compared(node, b, cs).0, v);
      ComparedSame(node, b, cs);
      StripNode(d, at.value);
      StripFresh(value.value);
    }
  }

  lemma {:induction false} StripNode(d: Doc, a: Address)
    requires IsNode(Strip(d), a)
    ensures Strip(NodeAt(d, a)) == At(Strip(d), a)
    decreases |a|
  {
    if a != [] {
      assert a[0] < Arity(Strip(d)) && IsNode(Child(Strip(d), a[0]), a[1..]);
      match d
      case Items(items) => StripNode(items[a[0]], a[1..]);
      case Members(ms, _) => StripNode(ms[a[0]].value, a[1..]);
    }
  }

  // ----- an addition after a test -----

  function EntryKeys(es: seq<Entry>): (r: seq<string>)
    ensures |r| == |es| && forall i :: 0 <= i < |es| ==> r[i] == es[i].key
  {
    seq(|es|, i requires 0 <= i < |es| => es[i].key)
  }

  // The keys of the members as `sort_object` leaves them.
  function SortedKeys(ms: seq<Member>, cs: bool): (r: seq<string>)
    ensures |r| == |ms|
  {
    var s := SortMembers(ms, cs);
    seq(|s|, i requires 0 <= i < |s| => s[i].key)
  }

  // What becomes of the keys when k is added to the sorted members: it is dropped if another member has become the first;
  // otherwise it follows the member that was the last one, and takes the place of all behind that.
  ghost predicate AddedKeys(ms: seq<Member>, k: string, keys: seq<string>, cs: bool) {
    var sorted := SortedKeys(ms, cs);
    && (ms == [] ==> keys == [k])
    && (!FirstLeast(ms, KeyOf, cs) ==> keys == sorted)
    && (ms != [] && FirstLeast(ms, KeyOf, cs) ==> exists i :: 0 <= i < |ms| && sorted[i] == ms[|ms| - 1].key && keys == sorted[..i + 1] + [k])
    && (keys == sorted + [k] <==> FirstLeast(ms, KeyOf, cs) && LastGreatest(ms, KeyOf, cs))
  }

  lemma KeysDifferent(ms: seq<Member>, cs: bool)
    requires DistinctKeys(ms, cs)
    ensures DifferentKeys(FreshEntries(ms), EntryKey, cs)
    ensures FirstLeast(FreshEntries(ms), EntryKey, cs) <==> FirstLeast(ms, KeyOf, cs)
    ensures LastGreatest(FreshEntries(ms), EntryKey, cs) <==> LastGreatest(ms, KeyOf, cs)
  {
    hide KeyLess, Fold;
    var es := FreshEntries(ms);
    assert forall i :: 0 <= i < |ms| ==> EntryKey(es[i]) == KeyOf(ms[i]);
    forall i, j | 0 <= i < |es| && 0 <= j < |es| && i != j
      ensures KeyLess(EntryKey(es[i]), EntryKey(es[j]), cs) || KeyLess(EntryKey(es[j]), EntryKey(es[i]), cs)
    {
      KeyLessTotal(ms[i].key, ms[j].key, cs);
      assert i < j ==> Fold(ms[i].key, cs) != Fold(ms[j].key, cs);
      assert j < i ==> Fold(ms[j].key, cs) != Fold(ms[i].key, cs);
    }
    if FirstLeast(es, EntryKey, cs) {
      forall i | 0 < i < |ms| ensures KeyLess(KeyOf(ms[0]), KeyOf(ms[i]), cs) {
        assert KeyLess(EntryKey(es[0]), EntryKey(es[i]), cs);
      }
    }
    if LastGreatest(es, EntryKey, cs) {
      forall i | 0 <= i < |ms| - 1 ensures KeyLess(KeyOf(ms[i]), KeyOf(ms[|ms| - 1]), cs) {
        assert KeyLess(EntryKey(es[i]), EntryKey(es[|ms| - 1]), cs);
      }
    }
  }

  lemma SortedKeysAre(ms: seq<Member>, cs: bool)
    ensures EntryKeys(SortEntries(FreshEntries(ms), LastOf(|ms|), cs).items) == SortedKeys(ms, cs)
  {
    hide Sort, SortSiblings, Fresh, Strip, SortMembers;
    var es := FreshEntries(ms);
    FreshObject(ms);
    StripMembers(es, LastOf(|ms|));
    SortStripped(es, LastOf(|ms|), cs);
    var x := SortEntries(es, LastOf(|ms|), cs).items;
    StripMembers(x, Nowhere);
  }

  // Where the last member comes to lie, and where the first back link leads.
  lemma SortedEnds(ms: seq<Member>, cs: bool) returns (p: nat)
    requires DistinctKeys(ms, cs) && ms != []
    ensures p < |ms| && SortedKeys(ms, cs)[p] == ms[|ms| - 1].key
    ensures p == |ms| - 1 <==> LastGreatest(ms, KeyOf, cs)
    ensures SortEntries(FreshEntries(ms), LastOf(|ms|), cs).back == if FirstLeast(ms, KeyOf, cs) then To(p) else Nowhere
  {
    hide Sort, Fresh, SortMembers, KeyLess, FirstLeast, LastGreatest, DifferentKeys, DistinctKeys, SortedKeys, Strip;
    var fs, n := FreshEntries(ms), |ms|;
    SortedKeysAre(ms, cs);
    KeysDifferent(ms, cs);
    EndsByKeys(fs, EntryKey, cs);
    SortTaggedIs(fs, EntryKey, cs);
    var t := SortTagged(fs, EntryKey, cs);
    p := Place(t, n - 1);
    FreshObject(ms);
    assert t[p].0 == fs[n - 1];
  }

  lemma AppendKeys(es: seq<Entry>, p: nat, k: string, x: Doc)
    requires p < |es|
    ensures Append(Siblings(es, To(p)), Entry(k, x)).Some?
    ensures EntryKeys(Append(Siblings(es, To(p)), Entry(k, x)).value.items) == EntryKeys(es)[..p + 1] + [k]
  {
  }

  // Appending to the entries that comparing leaves.
  lemma AddedAfterSort(ms: seq<Member>, es: seq<Entry>, k: string, x: Doc, cs: bool)
    requires DistinctKeys(ms, cs) && EntryKeys(es) == SortedKeys(ms, cs)
    ensures var r := Append(Siblings(es, SortEntries(FreshEntries(ms), LastOf(|ms|), cs).back), Entry(k, x));
            r.Some? && AddedKeys(ms, k, EntryKeys(r.value.items), cs)
  {
    hide SortEntries, FreshEntries, SortedKeys, FirstLeast, LastGreatest, DistinctKeys;
    var n, sorted, back := |ms|, SortedKeys(ms, cs), SortEntries(FreshEntries(ms), LastOf(|ms|), cs).back;
    assert |es| == n;
    var r := Append(Siblings(es, back), Entry(k, x));
    if n == 0 {
      NoMembers(ms, cs);
      assert sorted == [] && sorted + [k] == [k];
      assert EntryKeys(r.value.items) == [k];
    } else {
      var p := SortedEnds(ms, cs);
      assert |sorted| != |sorted + [k]|;
      if back.To? {
        AppendKeys(es, p, k, x);
        if p == n - 1 {
          assert sorted[..n] == sorted;
        } else {
          assert |sorted[..p + 1] + [k]| != |sorted + [k]|;
        }
      }
    }
  }

  lemma NoMembers(ms: seq<Member>, cs: bool)
    requires ms == []
    ensures FirstLeast(ms, KeyOf, cs) && LastGreatest(ms, KeyOf, cs)
  {
  }

  // The document after a test that succeeds on the object at a.
  lemma TestState(j: Json, p: string, a: Address, ms: seq<Member>, value: Json, cs: bool) returns (es: seq<Entry>)
    requires GetPointer(j, p, cs) == Some(a) && At(j, a) == Object(ms) && Same(Object(ms), value, cs)
    ensures EntryKeys(es) == SortedKeys(ms, cs) && Strip(Fresh(j)) == j
    ensures Test(Fresh(j), p, Some(value), cs) == Done(Put(Fresh(j), a, Members(es, SortEntries(FreshEntries(ms), LastOf(|ms|), cs).back)), 0)
  {
    hide Strip, Put, NodeAt, Compared, ComparedMembers, SortEntries, SortedKeys, FreshEntries, GetPointer, Unmoved;
    assert value.Object?;
    FreshNode(j, a);
    FreshObject(ms);
    FreshObject(value.members);
    var m, b := Fresh(Object(ms)), Fresh(value);
    ComparedSame(m, b, cs);
    StripFresh(value);
    MembersCompared(m, b, cs);
    var x, y := SortEntries(m.members, m.back, cs), SortEntries(b.members, b.back, cs);
    es := ComparedMembers(m, x.items, y.items, cs).0;
    EntriesUnmoved(m, x.items, y.items, cs, EXACT);
    SortedKeysAre(ms, cs);
    assert EntryKeys(es) == EntryKeys(x.items);
  }

  // The sorted keys are keys of members.
  lemma SortedKeysIn(ms: seq<Member>, cs: bool, i: nat)
    requires i < |ms|
    ensures exists m :: m in ms && SortedKeys(ms, cs)[i] == m.key
  {
    hide SortMembers;
    SortedMembers(ms, cs);
    assert SortMembers(ms, cs)[i] in ms;
  }

  // A new key is appended.
  lemma PutNew(ms: seq<Member>, es: seq<Entry>, back: Back, k: string, x: Doc, cs: bool)
    requires EntryKeys(es) == SortedKeys(ms, cs) && Lookup(ms, k, cs) == |ms|
    ensures var r := Append(Siblings(es, back), Entry(k, x));
            PutIn(Members(es, back), k, x, cs) == match r { case None => Stray case Some(l) => Done(Members(l.items, l.back), 0) }
  {
    hide Lookup, Strip, SortedKeys, Append, Mapped;
    StripMembers(es, back);
    var ns := Mapped(es, StripEntry);
    forall i | 0 <= i < |ns| ensures Fold(ns[i].key, cs) != Fold(k, cs) {
      SortedKeysIn(ms, cs, i);
      var m :| m in ms && SortedKeys(ms, cs)[i] == m.key;
      assert EntryKeys(es)[i] == es[i].key;
    }
    LookupIs(ns, k, cs, |ns|);
  }

  // An addition below the node at a.
  lemma AddState(j: Json, p: string, a: Address, m: Doc, k: string, x: Doc, cs: bool)
    requires GetPointer(j, p, cs) == Some(a) && Ideal.Survives(k) && Strip(Fresh(j)) == j
    ensures var d := Put(Fresh(j), a, m);
            && IsNode(Strip(d), a)
            && Add(d, p + "/" + Encode(k), x, cs) ==
               match PutIn(m, k, x, cs) {
                 case Stray => Stray
                 case Done(c, status) => if status == 0 then Done(Put(d, a, c), 0) else Done(d, status)
               }
  {
    hide Strip, Put, NodeAt, PutIn, GetPointer, Ideal.DecodeInPlace, Ideal.Put, Encode, Fresh;
    NodePut(Fresh(j), a, m);
    PointerPut(j, p, a, Strip(m), cs);
    EncodeOneToken(k);
    LastSlashIs(p, Encode(k));
    Ideal.DecodeKey(k);
  }

  lemma Composed(d: Doc, op: string, path: string, value: Json, cs: bool)
    requires path != "" || op == "test"
    ensures op == "test" ==> Apply(d, Patch(op, path, Some(value)), cs) == Test(d, path, Some(value), cs)
    ensures op == "add" ==> Apply(d, Patch(op, path, Some(value)), cs) == Add(d, path, Fresh(value), cs)
  {
    hide Ideal.Field, Patch, Test, Add;
    PatchFields(op, path, Some(value), cs);
  }

  lemma RunOne(d: Doc, q: Json, cs: bool)
    ensures ApplyAll(d, [q], cs) == Apply(d, q, cs)
  {
    hide Apply;
    assert [q][1..] == [];
    var r := Apply(d, q, cs);
    if r.Done? && r.status == 0 {
      assert ApplyAll(r.doc, [], cs) == Done(r.doc, 0);
    }
  }

  lemma RunTwo(d: Doc, p: Json, q: Json, cs: bool)
    requires Apply(d, p, cs).Done? && Apply(d, p, cs).status == 0
    ensures ApplyAll(d, [p, q], cs) == Apply(Apply(d, p, cs).doc, q, cs)
  {
    hide Apply;
    assert [p, q][1..] == [q];
    RunOne(Apply(d, p, cs).doc, q, cs);
  }

  /** An addition after a test: it arrives behind all members if and only if the first member has the least key
      and the last member the greatest. Otherwise it is dropped, or members are lost; success is reported in any case. */
  lemma TestThenAdd(j: Json, p: string, a: Address, ms: seq<Member>, value: Json, k: string, x: Json, cs: bool)
    requires GetPointer(j, p, cs) == Some(a) && At(j, a) == Object(ms) && Same(Object(ms), value, cs)
    requires DistinctKeys(ms, cs) && Ideal.Survives(k) && Lookup(ms, k, cs) == |ms|
    ensures var r := ApplyAll(Fresh(j), [Patch("test", p, Some(value)), Patch("add", p + "/" + Encode(k), Some(x))], cs);
            && r.Done? && r.status == 0 && IsNode(Strip(r.doc), a) && NodeAt(r.doc, a).Members?
            && AddedKeys(ms, k, EntryKeys(NodeAt(r.doc, a).members), cs)
  {
    hide Strip, Put, NodeAt, PutIn, GetPointer, Encode, Fresh, Patch, Apply, Test, Add, Append, SortEntries, FreshEntries, SortedKeys,
         AddedKeys, Lookup, DistinctKeys, Same, ApplyAll;
    var es := TestState(j, p, a, ms, value, cs);
    var back := SortEntries(FreshEntries(ms), LastOf(|ms|), cs).back;
    var m := Members(es, back);
    var d, e := Put(Fresh(j), a, m), Entry(k, Fresh(x));
    Composed(Fresh(j), "test", p, value, cs);
    Composed(d, "add", p + "/" + Encode(k), x, cs);
    RunTwo(Fresh(j), Patch("test", p, Some(value)), Patch("add", p + "/" + Encode(k), Some(x)), cs);
    AddState(j, p, a, m, k, Fresh(x), cs);
    PutNew(ms, es, back, k, Fresh(x), cs);
    AddedAfterSort(ms, es, k, Fresh(x), cs);
    var l := Append(Siblings(es, back), e).value;
    NodePut(d, a, Members(l.items, l.back));
  }

  // ----- documents that lose something -----

  const ONE := Member("b", Number(1))
  const TWO := Member("a", Number(2))

  lemma SameSorted()
    ensures Same(Object([ONE, TWO]), Object([TWO, ONE]), true)
    ensures DistinctKeys([ONE, TWO], true) && KeyLess("a", "b", true)
  {
    var v := View(true, false);
    var x, y := [ONE, TWO], [TWO, ONE];
    assert StrLess("a", "b");
    assert multiset(x) == multiset(y);
    assert Fold("a", true) == "a" && Fold("b", true) == "b";
    assert DistinctKeys(x, true) && DistinctKeys(y, true);
    SameMeaning(Object(x), Object(y), true);
    MeaningOrder(x, y, v);
  }

  /** {"b":1,"a":2} with a test that sorts it and an addition of "c": all succeeds, and there is no "c". */
  lemma DroppedExample()
    ensures var r := ApplyAll(Fresh(Object([ONE, TWO])),
                              [Patch("test", "", Some(Object([TWO, ONE]))), Patch("add", "/c", Some(Number(3)))], true);
            && r.Done? && r.status == 0 && r.doc.Members? && EntryKeys(r.doc.members) == ["a", "b"]
  {
    hide ApplyAll, Patch, Fresh, Same, SortedKeys, KeyLess;
    var ms := [ONE, TWO];
    var j := Object(ms);
    SameSorted();
    KeyC(ms);
    assert GetPointer(j, "", true) == Some([]);
    assert At(j, []) == j;
    assert "" + "/" + "c" == "/c";
    TestThenAdd(j, "", [], ms, Object([TWO, ONE]), "c", Number(3), true);
    KeyLessTotal("a", "b", true);
    assert !KeyLess(KeyOf(ms[0]), KeyOf(ms[1]), true);
    SortedPair(ms);
  }

  lemma KeyC(ms: seq<Member>)
    requires ms == [ONE, TWO]
    ensures Encode("c") == "c" && Ideal.Survives("c") && Lookup(ms, "c", true) == |ms|
  {
    Ideal.PlainSurvives("c");
    Ideal.EncodePlain("c");
    LookupIs(ms, "c", true, 2);
  }

  lemma SortedPair(ms: seq<Member>)
    requires ms == [ONE, TWO]
    ensures SortedKeys(ms, true) == ["a", "b"]
  {
    hide SortMembers, KeyLess;
    SameSorted();
    SortedMembers(ms, true);
    KeyLessTotal("a", "b", true);
    var s := SortMembers(ms, true);
    assert s[0] in ms && s[1] in ms;
    assert KeyLess(s[0].key, s[1].key, true);
    KeyLessTotal(s[0].key, s[1].key, true);
    assert s[0] == TWO && s[1] == ONE;
  }
}
