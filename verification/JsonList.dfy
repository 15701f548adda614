/**
 Sibling lists of cJSON items: doubly linked through `next` and `prev`, sorted in place
 by `sort_list` (stage/cjson/cJSON_Utils.c) and edited by the operations of
 stage/cjson/cJSON.c. Each operation acts on the sequence of items as its name says.
 */
module JsonList {
  import opened KeyOrder
  import opened MergeSort
  import opened JsonValue

  // The type of an item, and its value unless that is in its children.
  datatype Content = Plain(value: Json) | ArrayNode | ObjectNode

  class Item {
    const key: string
    const content: Content
    var next: Item?
    var prev: Item?
    var child: Item?

    constructor (key: string, content: Content)
      ensures this.key == key && this.content == content && next == null && prev == null && child == null
    {
      this.key, this.content := key, content;
      next, prev, child := null, null, null;
    }
  }

  // ----- lists -----

  ghost predicate Distinct(s: seq<Item>) {
    forall i, j :: 0 <= i < j < |s| ==> s[i] != s[j]
  }

  // From lo up to (not including) hi, neighbours of s point to each other.
  ghost predicate Links(s: seq<Item>, lo: nat, hi: nat)
    requires hi <= |s|
    reads s
  {
    forall i {:trigger s[i].next} :: lo <= i < hi - 1 ==> s[i].next == s[i + 1] && s[i + 1].prev == s[i]
  }

  // From head on the items are s[lo..]; nothing is said about the head's own back link.
  ghost predicate ListFrom(head: Item?, s: seq<Item>, lo: nat)
    requires lo <= |s|
    reads s
  {
    && Links(s, lo, |s|)
    && (lo == |s| ==> head == null)
    && (lo < |s| ==> head == s[lo] && s[|s| - 1].next == null)
  }

  ghost predicate List(head: Item?, s: seq<Item>)
    reads s
  {
    Distinct(s) && ListFrom(head, s, 0)
  }

  // ----- sorting -----

  function KeyOf(x: Item): string {
    x.key
  }

  // Of the merged list r, the part from k = i + j on is still to come from a[i..] and b[j..].
  ghost predicate Pending(r: seq<Item>, a: seq<Item>, i: nat, b: seq<Item>, j: nat, cs: bool) {
    && i <= |a| && j <= |b| && |r| == |a| + |b|
    && r[i + j..] == Merge(a[i..], b[j..], KeyOf, cs)
    && Apart(r, i + j, a, i) && Apart(r, i + j, b, j)
  }

  // The items of s from lo on are not among the first k of r.
  ghost predicate Apart(r: seq<Item>, k: nat, s: seq<Item>, lo: nat) {
    forall x, y :: 0 <= x < k && x < |r| && lo <= y < |s| ==> r[x] != s[y]
  }

  lemma PendingStep(r: seq<Item>, a: seq<Item>, i: nat, b: seq<Item>, j: nat, cs: bool)
    requires Pending(r, a, i, b, j, cs) && i < |a| && j < |b|
    requires Distinct(a) && Distinct(b) && Disjoint(a, b)
    ensures i + j < |r|
    ensures KeyLess(a[i].key, b[j].key, cs) ==> r[i + j] == a[i] && Pending(r, a, i + 1, b, j, cs)
    ensures !KeyLess(a[i].key, b[j].key, cs) ==> r[i + j] == b[j] && Pending(r, a, i, b, j + 1, cs)
  {
    assert a[i..][1..] == a[i + 1..] && b[j..][1..] == b[j + 1..];
    assert r[i + j..][1..] == r[i + j + 1..] && r[i + j] == r[i + j..][0];
  }

  ghost predicate Disjoint(a: seq<Item>, b: seq<Item>) {
    forall x, y :: 0 <= x < |a| && 0 <= y < |b| ==> a[x] != b[y]
  }

  // When one of the lists is used up, the other one is the rest.
  lemma PendingRest(r: seq<Item>, a: seq<Item>, i: nat, b: seq<Item>, j: nat, cs: bool)
    requires Pending(r, a, i, b, j, cs)
    ensures i == |a| ==> forall x :: i + j <= x < |r| ==> r[x] == b[x - i]
    ensures j == |b| ==> forall x :: i + j <= x < |r| ==> r[x] == a[x - j]
  {
    if i == |a| {
      assert a[i..] == [];
      forall x | i + j <= x < |r| ensures r[x] == b[x - i] {
        assert r[x] == r[i + j..][x - i - j] == b[j..][x - i - j];
      }
    }
    if j == |b| {
      assert b[j..] == [];
      forall x | i + j <= x < |r| ensures r[x] == a[x - j] {
        assert r[x] == r[i + j..][x - i - j] == a[i..][x - i - j];
      }
    }
  }

  // Hang an item behind the first k items of r. Lists are not affected by links of items
  // outside them, nor by their heads' back links.
  method Attach(tail: Item, item: Item, ghost r: seq<Item>, ghost k: nat,
                ghost a: seq<Item>, ghost i: nat, ghost first: Item?, ghost b: seq<Item>, ghost j: nat, ghost second: Item?)
    requires 0 < k < |r| && r[k] == item && tail == r[k - 1]
    requires Links(r, 0, k) && Distinct(r)
    requires i <= |a| && ListFrom(first, a, i) && (forall x :: i <= x < |a| ==> a[x] != tail && (x > i ==> a[x] != item))
    requires j <= |b| && ListFrom(second, b, j) && (forall x :: j <= x < |b| ==> b[x] != tail && (x > j ==> b[x] != item))
    modifies tail`next, item`prev
    ensures Links(r, 0, k + 1)
    ensures ListFrom(first, a, i) && ListFrom(second, b, j)
  {
    tail.next := item;
    item.prev := tail;
  }

  // The rest of a list is hung behind the first k items of r.
  lemma RestLinked(r: seq<Item>, k: nat, s: seq<Item>, lo: nat, head: Item?)
    requires 0 < k && k + |s| - lo == |r| && lo < |s| && Links(r, 0, k + 1) && ListFrom(head, s, lo)
    requires forall x :: k <= x < |r| ==> r[x] == s[x - k + lo]
    ensures ListFrom(r[0], r, 0)
  {
    forall x | 0 <= x < |r| - 1 ensures r[x].next == r[x + 1] && r[x + 1].prev == r[x] {
      if x >= k {
        assert s[x - k + lo].next == s[x - k + lo + 1];
      }
    }
  }

  // The merge loop: one list is used up, the items taken so far are linked in order.
  method MergeLoop(list1: Item, list2: Item, cs: bool, ghost a: seq<Item>, ghost b: seq<Item>, ghost r: seq<Item>, ghost own: set<Item>)
    returns (result: Item, tail: Item, first: Item?, second: Item?, ghost i: nat, ghost j: nat)
    requires ListFrom(list1, a, 0) && ListFrom(list2, b, 0) && a != [] && b != []
    requires Distinct(a) && Distinct(b) && Disjoint(a, b) && Distinct(r) && Pending(r, a, 0, b, 0, cs)
    requires (forall x :: 0 <= x < |a| ==> a[x] in own) && (forall y :: 0 <= y < |b| ==> b[y] in own)
    requires |r| > 0 && forall x :: 0 <= x < |r| ==> r[x] in own
    modifies own
    ensures i <= |a| && j <= |b| && 0 < i + j && Pending(r, a, i, b, j, cs)
    ensures ListFrom(first, a, i) && ListFrom(second, b, j) && i + j <= |r| && Links(r, 0, i + j)
    ensures (first == null) != (second == null)
    ensures result == r[0] && tail == r[i + j - 1]
    ensures r[0].prev == old(r[0].prev)
  {
    hide Merge, KeyLess, Pending;
    first, second, result, tail := list1, list2, list1, list1;
    i, j := 0, 0;
    var started := false;
    while first != null && second != null
      invariant i <= |a| && j <= |b| && i + j <= |r| && Pending(r, a, i, b, j, cs)
      invariant ListFrom(first, a, i) && ListFrom(second, b, j) && Links(r, 0, i + j)
      invariant first != null || second != null
      invariant started <==> i + j > 0
      invariant started ==> result == r[0] && tail == r[i + j - 1]
      invariant |r| > 0 && r[0].prev == old(r[0].prev)
      decreases |a| + |b| - i - j
    {
      PendingApart(r, a, i, b, j, cs);
      PendingStep(r, a, i, b, j, cs);
      var smaller := if KeyLess(first.key, second.key, cs) then first else second;
      if !started {
        result, started := smaller, true;
      } else {
        Attach(tail, smaller, r, i + j, a, i, first, b, j, second);
      }
      tail := smaller;
      if first == smaller {
        Advance(first, a, i);
        first := first.next;
        i := i + 1;
      } else {
        Advance(second, b, j);
        second := second.next;
        j := j + 1;
      }
    }
  }

  // The merge loop and the two appends after it.
  method MergeLists(list1: Item, list2: Item, cs: bool, ghost a: seq<Item>, ghost b: seq<Item>, ghost own: set<Item>)
    returns (result: Item, ghost r: seq<Item>)
    requires ListFrom(list1, a, 0) && ListFrom(list2, b, 0) && a != [] && b != []
    requires Distinct(a) && Distinct(b) && Disjoint(a, b)
    requires (forall x :: 0 <= x < |a| ==> a[x] in own) && (forall y :: 0 <= y < |b| ==> b[y] in own)
    modifies own
    ensures r == Merge(a, b, KeyOf, cs) && List(result, r)
    ensures (result == a[0] || result == b[0]) && result.prev == old(result.prev)
  {
    hide Merge, KeyLess, Pending;
    MergeHead(a, b, cs);
    r := Merge(a, b, KeyOf, cs);
    MergeDistinct(a, b, cs, own);
    PendingStart(a, b, cs);
    var tail, first, second;
    ghost var i, j;
    result, tail, first, second, i, j := MergeLoop(list1, list2, cs, a, b, r, own);
    PendingApart(r, a, i, b, j, cs);
    PendingRest(r, a, i, b, j, cs);
    if first != null {
      AttachRest(tail, first, r, i + j, a, i);
    }
    if second != null {
      AttachRest(tail, second, r, i + j, b, j);
    }
  }

  lemma Advance(head: Item, s: seq<Item>, lo: nat)
    requires lo < |s| && ListFrom(head, s, lo)
    ensures ListFrom(head.next, s, lo + 1)
  {
  }

  // Hang the rest of a list behind the first k items of r.
  method AttachRest(tail: Item, rest: Item, ghost r: seq<Item>, ghost k: nat, ghost s: seq<Item>, ghost lo: nat)
    requires 0 < k < |r| && tail == r[k - 1] && Links(r, 0, k) && Distinct(r)
    requires lo < |s| && k + |s| - lo == |r| && ListFrom(rest, s, lo)
    requires forall x :: k <= x < |r| ==> r[x] == s[x - k + lo]
    requires forall x :: lo <= x < |s| ==> s[x] != tail && (x > lo ==> s[x] != rest)
    modifies tail`next, rest`prev
    ensures ListFrom(r[0], r, 0)
  {
    Attach(tail, rest, r, k, s, lo, rest, s, lo, rest);
    RestLinked(r, k, s, lo, rest);
  }

  lemma MergeHead(a: seq<Item>, b: seq<Item>, cs: bool)
    requires a != [] && b != []
    ensures var r := Merge(a, b, KeyOf, cs); r != [] && (r[0] == a[0] || r[0] == b[0])
  {
  }

  lemma PendingApart(r: seq<Item>, a: seq<Item>, i: nat, b: seq<Item>, j: nat, cs: bool)
    requires Pending(r, a, i, b, j, cs)
    ensures Apart(r, i + j, a, i) && Apart(r, i + j, b, j)
  {
  }

  lemma PendingStart(a: seq<Item>, b: seq<Item>, cs: bool)
    ensures Pending(Merge(a, b, KeyOf, cs), a, 0, b, 0, cs)
  {
    assert a[0..] == a && b[0..] == b;
  }

  lemma {:induction false} MergeDistinct(a: seq<Item>, b: seq<Item>, cs: bool, own: set<Item>)
    requires Distinct(a) && Distinct(b) && Disjoint(a, b)
    requires (forall x :: 0 <= x < |a| ==> a[x] in own) && (forall y :: 0 <= y < |b| ==> b[y] in own)
    ensures Distinct(Merge(a, b, KeyOf, cs))
    ensures forall x :: 0 <= x < |a| + |b| ==> Merge(a, b, KeyOf, cs)[x] in own
    decreases |a| + |b|
  {
    if a != [] && b != [] {
      if KeyLess(a[0].key, b[0].key, cs) {
        MergeDistinct(a[1..], b, cs, own - {a[0]});
      } else {
        MergeDistinct(a, b[1..], cs, own - {b[0]});
      }
    }
  }

  lemma {:induction false} SortDistinct(s: seq<Item>, cs: bool, own: set<Item>)
    requires Distinct(s) && forall x :: 0 <= x < |s| ==> s[x] in own
    ensures Distinct(Sort(s, KeyOf, cs))
    ensures forall x :: 0 <= x < |s| ==> Sort(s, KeyOf, cs)[x] in own
    decreases |s|
  {
    hide Merge, KeyLess, Ascending;
    if |s| > 1 && !Ascending(s, KeyOf, cs) {
      var mid := (|s| + 1) / 2;
      var a, b := s[..mid], s[mid..];
      var ownA, ownB := Members(a), Members(b);
      SortDistinct(a, cs, ownA);
      SortDistinct(b, cs, ownB);
      MergeDistinct(Sort(a, KeyOf, cs), Sort(b, KeyOf, cs), cs, ownA + ownB);
    }
  }

  ghost function Members(s: seq<Item>): (r: set<Item>)
    ensures forall i :: 0 <= i < |s| ==> s[i] in r
    ensures forall x :: x in r ==> x in s
  {
    set x | x in s
  }

  /** `sort_list`: the same items in the order of `Sort`, linked both ways up to the head's back
      link, which is kept when the head stays and lost when another item becomes the head. */
  method SortList(list: Item?, cs: bool, ghost s: seq<Item>) returns (result: Item?, ghost r: seq<Item>)
    requires List(list, s)
    modifies s
    ensures r == Sort(s, KeyOf, cs) && List(result, r)
    ensures result != null ==> result.prev == if result == list then old(list.prev) else null
    decreases |s|, 1
  {
    hide Merge, KeyLess, Ascending, Sort;
    SortShort(s, cs);
    if list == null || list.next == null {
      return list, s;
    }
    var sorted := IsAscending(list, cs, s);
    if sorted {
      return list, s;
    }
    var second;
    ghost var mid;
    second, mid := Split(list, s);
    ghost var a, b := s[..mid], s[mid..];
    result, r := SortHalves(list, second, cs, a, b);
    SortUnfolds(s, cs);
  }

  lemma SortShort(s: seq<Item>, cs: bool)
    ensures |s| <= 1 || Ascending(s, KeyOf, cs) ==> Sort(s, KeyOf, cs) == s
  {
  }

  lemma SortUnfolds(s: seq<Item>, cs: bool)
    requires |s| > 1 && !Ascending(s, KeyOf, cs)
    ensures var mid := (|s| + 1) / 2;
            Sort(s, KeyOf, cs) == Merge(Sort(s[..mid], KeyOf, cs), Sort(s[mid..], KeyOf, cs), KeyOf, cs)
  {
    hide Merge, KeyLess, Ascending;
  }

  method SortHalves(list1: Item, list2: Item, cs: bool, ghost a: seq<Item>, ghost b: seq<Item>)
    returns (result: Item, ghost r: seq<Item>)
    requires List(list1, a) && List(list2, b) && Disjoint(a, b)
    modifies a, b
    ensures r == Merge(Sort(a, KeyOf, cs), Sort(b, KeyOf, cs), KeyOf, cs) && List(result, r)
    ensures result.prev == if result == list1 then old(list1.prev) else if result == list2 then old(list2.prev) else null
    decreases |a| + |b|, 0
  {
    hide Merge, KeyLess, Sort;
    HalvesSorted(a, b, cs);
    var first, second;
    ghost var ra, rb;
    first, ra := SortList(list1, cs, a);
    second, rb := SortList(list2, cs, b);
    result, r := MergeLists(first, second, cs, ra, rb, Members(a) + Members(b));
  }

  lemma HalvesSorted(a: seq<Item>, b: seq<Item>, cs: bool)
    requires Distinct(a) && Distinct(b) && Disjoint(a, b)
    ensures var ra, rb := Sort(a, KeyOf, cs), Sort(b, KeyOf, cs);
            && Distinct(ra) && Distinct(rb) && Disjoint(ra, rb)
            && (forall x :: 0 <= x < |ra| ==> ra[x] in Members(a)) && (forall x :: 0 <= x < |rb| ==> rb[x] in Members(b))
  {
    hide Merge, KeyLess, Sort;
    SortDistinct(a, cs, Members(a));
    SortDistinct(b, cs, Members(b));
  }

  // Is the list sorted already?
  method IsAscending(list: Item, cs: bool, ghost s: seq<Item>) returns (yes: bool)
    requires List(list, s)
    ensures yes <==> Ascending(s, KeyOf, cs)
  {
    var current: Item? := list;
    ghost var i := 0;
    while current != null && current.next != null && KeyLess(current.key, current.next.key, cs)
      invariant 0 <= i < |s| && current == s[i]
      invariant forall x :: 0 <= x < i ==> KeyLess(s[x].key, s[x + 1].key, cs)
      decreases |s| - i
    {
      current := current.next;
      i := i + 1;
    }
    yes := current == null || current.next == null;
  }

  // Walk two pointers to find the middle, and cut the list there.
  method Split(list: Item, ghost s: seq<Item>) returns (second: Item, ghost mid: nat)
    requires List(list, s) && |s| > 1
    modifies s
    ensures mid == (|s| + 1) / 2
    ensures List(list, s[..mid]) && List(second, s[mid..])
    ensures list.prev == old(list.prev) && second.prev == null
  {
    second := list;
    var current: Item? := list;
    ghost var c := 0;
    mid := 0;
    while current != null
      invariant 0 <= mid < |s| && 0 <= c <= |s| && (c == 2 * mid || (c == |s| && c == 2 * mid - 1))
      invariant second == s[mid]
      invariant current == (if c < |s| then s[c] else null)
      decreases |s| - c
    {
      second := second.next;
      mid := mid + 1;
      current := current.next;
      c := c + 1;
      if current != null {
        current := current.next;
        c := c + 1;
      }
    }
    ghost var a, b := s[..mid], s[mid..];
    assert s[mid - 1].next == s[mid];
    if second.prev != null {
      second.prev.next := null;
      second.prev := null;
    }
    forall i | 0 <= i < |a| - 1 ensures a[i].next == a[i + 1] && a[i + 1].prev == a[i] {
      assert old(s[i].next) == s[i + 1];
    }
    forall i | 0 <= i < |b| - 1 ensures b[i].next == b[i + 1] && b[i + 1].prev == b[i] {
      assert old(s[mid + i].next) == s[mid + i + 1];
    }
  }
}
