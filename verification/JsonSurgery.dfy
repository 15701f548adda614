/**
 Editing the children of an item (stage/cjson/cJSON.c, `add_item_to_array`,
 `cJSON_DetachItemViaPointer`, `cJSON_InsertItemInArray`, `cJSON_ReplaceItemViaPointer`;
 stage/cjson/cJSON_Utils.c, `insert_item_in_array`): each operation acts on the sequence of
 children and keeps the rule that the first child's back link leads to the last child.
 */
module JsonSurgery {
  import opened MergeSort
  import opened JsonSiblings
  import opened JsonList

  // The children of parent are s; the first child's back link may lead anywhere.
  ghost predicate Forward(parent: Item, s: seq<Item>)
    reads parent, s
  {
    Distinct(s) && parent !in s && ListFrom(parent.child, s, 0)
  }

  // Where the back link of the first child leads.
  ghost predicate BackIs(s: seq<Item>, back: Back)
    reads s
  {
    if s == [] then back == Nowhere
    else
      match back
      case Nowhere => s[0].prev == null
      case To(i) => i < |s| && s[0].prev == s[i]
      case Astray => s[0].prev != null && s[0].prev !in s
  }

  // The children of parent as a list of siblings.
  ghost predicate Lists(parent: Item, l: Siblings<Item>)
    reads parent, l.items
  {
    Forward(parent, l.items) && BackIs(l.items, l.back)
  }

  // The children of parent are s, and the first one points back to the last.
  ghost predicate Children(parent: Item, s: seq<Item>)
    reads parent, s
  {
    Lists(parent, Siblings(s, LastOf(|s|)))
  }

  // The item at an index, null past the end.
  method GetItem(parent: Item, index: nat, ghost s: seq<Item>) returns (r: Item?)
    requires Forward(parent, s)
    ensures r == if index < |s| then s[index] else null
  {
    r := parent.child;
    var left := index;
    ghost var i := 0;
    while r != null && left > 0
      invariant 0 <= i <= |s| && i + left == index
      invariant r == if i < |s| then s[i] else null
      decreases left
    {
      left := left - 1;
      r := r.next;
      i := i + 1;
    }
  }

  /** `add_item_to_array`, wherever the back link of the first child leads, if not out of the list. The
      outcome is `Append` exactly if the item leads nowhere itself, or its own links do not matter. */
  method AddItem(parent: Item?, item: Item?, ghost l: Siblings<Item>) returns (ok: bool)
    requires parent != null ==> Lists(parent, l) && item !in l.items && !l.back.Astray?
    modifies parent, item, l.items
    ensures ok <==> parent != null && item != null && parent != item
    ensures ok ==> Append(l, item).Some?
    ensures ok ==> (Lists(parent, Append(l, item).value) <==> l.items == [] || l.back.Nowhere? || old(item.next) == null)
    ensures !ok && parent != null ==> Lists(parent, l)
  {
    if item == null || parent == null || parent == item {
      return false;
    }
    var child := parent.child;
    if child == null {
      parent.child := item;
      item.prev := item;
      item.next := null;
    } else {
      if child.prev != null {
        ghost var s, anchor := l.items, l.back.i;
        ghost var t := s[..anchor + 1] + [item];
        child.prev.next := item;
        item.prev := child.prev;
        parent.child.prev := item;
        forall i | 0 <= i < |t| - 1 ensures t[i].next == t[i + 1] && t[i + 1].prev == t[i] {
          assert i < anchor ==> old(s[i].next) == s[i + 1];
        }
      }
    }
    return true;
  }

  lemma DistinctWithout(s: seq<Item>, k: nat)
    requires Distinct(s) && k < |s|
    ensures Distinct(s[..k] + s[k + 1..]) && s[k] !in s[..k] + s[k + 1..]
    ensures forall i, j {:trigger s[i], s[j]} :: 0 <= i < |s| && 0 <= j < |s| && i != j ==> s[i] != s[j]
  {
  }

  /** `cJSON_DetachItemViaPointer`, wherever the back link of the first child leads: the item leaves the
      siblings and leads nowhere anymore. */
  method Detach(parent: Item?, item: Item?, ghost l: Siblings<Item>, ghost k: nat) returns (r: Item?)
    requires parent != null ==> Lists(parent, l)
    requires parent != null && item != null ==> k < |l.items| && l.items[k] == item
    modifies parent, l.items
    ensures r == if parent == null then null else item
    ensures r != null ==> Lists(parent, Remove(l, k)) && r.prev == null && r.next == null
    ensures r == null && parent != null ==> Lists(parent, l)
  {
    hide Distinct;
    if parent == null || item == null {
      return null;
    }
    ghost var s := l.items;
    ghost var t := s[..k] + s[k + 1..];
    DistinctWithout(s, k);
    assert k > 0 ==> s[k - 1].next == s[k];
    assert k < |s| - 1 ==> s[k].next == s[k + 1];
    if item != parent.child {
      item.prev.next := item.next;
    }
    if item.next != null {
      item.next.prev := item.prev;
    }
    if item == parent.child {
      parent.child := item.next;
    } else if item.next == null {
      parent.child.prev := item.prev;
    }
    item.prev := null;
    item.next := null;
    forall i | 0 <= i < |t| - 1 ensures t[i].next == t[i + 1] && t[i + 1].prev == t[i] {
      if i < k - 1 {
        assert old(s[i].next) == s[i + 1];
      } else if i >= k {
        assert old(s[i + 1].next) == s[i + 2];
      }
    }
    return item;
  }

  lemma DistinctWith(s: seq<Item>, k: nat, item: Item)
    requires Distinct(s) && k <= |s| && item !in s
    ensures Distinct(s[..k] + [item] + s[k..])
    ensures forall i, j {:trigger s[i], s[j]} :: 0 <= i < |s| && 0 <= j < |s| && i != j ==> s[i] != s[j]
  {
  }

  // Link an item in front of the child at k.
  method InsertBefore(parent: Item, after: Item, item: Item, ghost s: seq<Item>, ghost k: nat)
    requires Children(parent, s) && k < |s| && s[k] == after && item !in s && item != parent
    modifies parent, item, s
    ensures Children(parent, s[..k] + [item] + s[k..])
  {
    hide Distinct;
    ghost var t := s[..k] + [item] + s[k..];
    DistinctWith(s, k, item);
    assert k > 0 ==> s[k - 1].next == s[k];
    item.next := after;
    item.prev := after.prev;
    after.prev := item;
    if after == parent.child {
      parent.child := item;
    } else {
      item.prev.next := item;
    }
    forall i | 0 <= i < |t| - 1 ensures t[i].next == t[i + 1] && t[i + 1].prev == t[i] {
      if i < k - 1 {
        assert old(s[i].next) == s[i + 1];
      } else if i > k {
        assert old(s[i - 1].next) == s[i];
      }
    }
  }

  /** `cJSON_InsertItemInArray`: at the index, or at the end when the index is past it. Only there
      does it matter that the item leads nowhere. */
  method InsertItem(parent: Item, which: int, item: Item?, ghost s: seq<Item>) returns (ok: bool)
    requires Children(parent, s) && item !in s && item != parent
    modifies parent, item, s
    ensures ok <==> which >= 0 && item != null
    ensures ok && which < |s| ==> Children(parent, s[..which] + [item] + s[which..])
    ensures ok && which >= |s| ==> (Children(parent, s + [item]) <==> s == [] || old(item.next) == null)
    ensures !ok ==> Children(parent, s)
  {
    if which < 0 || item == null {
      return false;
    }
    var after := GetItem(parent, which, s);
    if after == null {
      ok := AddItem(parent, item, Siblings(s, LastOf(|s|)));
      assert s[..|s|] == s && (s == [] ==> s + [item] == [item]);
      return;
    }
    assert which > 0 ==> s[which - 1].next == s[which];
    if after != parent.child && after.prev == null {
      return false;
    }
    InsertBefore(parent, after, item, s, which);
    return true;
  }

  /** `insert_item_in_array` of cJSON_Utils.c refuses an index past the end. */
  method InsertItemStrict(parent: Item, which: nat, item: Item, ghost s: seq<Item>) returns (ok: bool)
    requires Children(parent, s) && item !in s && item != parent
    modifies parent, item, s
    ensures ok <==> which <= |s|
    ensures which < |s| ==> Children(parent, s[..which] + [item] + s[which..])
    ensures which == |s| ==> (Children(parent, s + [item]) <==> s == [] || old(item.next) == null)
    ensures !ok ==> Children(parent, s)
  {
    var child := parent.child;
    var left := which;
    ghost var i := 0;
    while child != null && left > 0
      invariant 0 <= i <= |s| && i + left == which
      invariant child == if i < |s| then s[i] else null
      decreases left
    {
      child := child.next;
      left := left - 1;
      i := i + 1;
    }
    if left > 0 {
      return false;
    }
    if child == null {
      ok := AddItem(parent, item, Siblings(s, LastOf(|s|)));
      assert s[..|s|] == s && (s == [] ==> s + [item] == [item]);
      return true;
    }
    InsertBefore(parent, child, item, s, which);
    return true;
  }

  /** `cJSON_ReplaceItemViaPointer`: the replacement takes the place of the item. */
  method Replace(parent: Item?, item: Item?, replacement: Item?, ghost s: seq<Item>, ghost k: nat) returns (ok: bool)
    requires parent != null ==> Children(parent, s)
    requires parent != null && item != null && s != [] ==> k < |s| && s[k] == item
    requires replacement == item || (replacement !in s && replacement != parent)
    modifies parent, replacement, s
    ensures ok <==> parent != null && s != [] && item != null && replacement != null
    ensures ok ==> Children(parent, s[k := replacement]) && (replacement != item ==> item.next == null && item.prev == null)
    ensures !ok && parent != null ==> Children(parent, s)
  {
    if parent == null || parent.child == null || replacement == null || item == null {
      return false;
    }
    ghost var t := s[k := replacement];
    assert k > 0 ==> s[k - 1].next == s[k];
    assert k < |s| - 1 ==> s[k].next == s[k + 1];
    if replacement == item {
      assert t == s;
      return true;
    }
    replacement.next := item.next;
    replacement.prev := item.prev;
    if replacement.next != null {
      replacement.next.prev := replacement;
    }
    if parent.child == item {
      if parent.child.prev == parent.child {
        replacement.prev := replacement;
      }
      parent.child := replacement;
    } else {
      if replacement.prev != null {
        replacement.prev.next := replacement;
      }
      if replacement.next == null {
        parent.child.prev := replacement;
      }
    }
    item.next := null;
    item.prev := null;
    forall i | 0 <= i < |t| - 1 ensures t[i].next == t[i + 1] && t[i + 1].prev == t[i] {
      assert old(s[i].next) == s[i + 1];
    }
    return true;
  }

  /** `sort_object`, wherever the back link of the first child leads. */
  method SortObject(parent: Item, cs: bool, ghost l: Siblings<Item>)
    requires Lists(parent, l)
    modifies parent, l.items
    ensures Lists(parent, SortSiblings(l, KeyOf, cs))
  {
    hide Sort, Merge, SortTagged, Place;
    ghost var s, first := l.items, if l.items == [] then null else l.items[0].prev;
    SortDistinct(s, cs, Members(s));
    ghost var r;
    parent.child, r := SortList(parent.child, cs, s);
    SortTaggedIs(s, KeyOf, cs);
    SortedItems(s, r, cs);
    if s != [] {
      SortedBack(l, cs, first);
    }
  }

  lemma SortedItems(s: seq<Item>, r: seq<Item>, cs: bool)
    requires r == Sort(s, KeyOf, cs)
    ensures forall x :: x in r <==> x in s
  {
    hide Sort;
    SortSorts(s, KeyOf, cs);
    forall x ensures x in r <==> x in s {
      assert x in multiset(r) <==> x in multiset(s);
    }
  }

  // The back link that `sort_list` leaves, in terms of the siblings: `first` is where it led before.
  lemma SortedBack(l: Siblings<Item>, cs: bool, first: Item?)
    requires Distinct(l.items) && l.items != []
    requires match l.back { case Nowhere => first == null case To(i) => i < |l.items| && first == l.items[i] case Astray => first != null && first !in l.items }
    requires var r := SortSiblings(l, KeyOf, cs).items; r[0].prev == if r[0] == l.items[0] then first else null
    ensures BackIs(SortSiblings(l, KeyOf, cs).items, SortSiblings(l, KeyOf, cs).back)
  {
    hide Sort;
    SortTaggedIs(l.items, KeyOf, cs);
    var t := SortTagged(l.items, KeyOf, cs);
    var r := SortSiblings(l, KeyOf, cs);
    assert r.items[0] == l.items[0] <==> t[0].1 == 0;
    if l.back.To? {
      assert t[Place(t, l.back.i)].0 == l.items[l.back.i];
    }
    if l.back.Astray? {
      SortSiblingsIs(l, KeyOf, cs);
    }
  }

  /** Appending to a sorted object: what becomes of the item and of the members is `Append` on the sorted
      siblings. */
  method SortThenAdd(parent: Item, cs: bool, item: Item, ghost l: Siblings<Item>) returns (ok: bool)
    requires Lists(parent, l) && Right(l) && item !in l.items && item != parent && item.next == null
    modifies parent, item, l.items
    ensures ok && Append(SortSiblings(l, KeyOf, cs), item).Some?
    ensures Lists(parent, Append(SortSiblings(l, KeyOf, cs), item).value)
  {
    hide SortSiblings, Forward, BackIs, Sort;
    SortObject(parent, cs, l);
    SortSiblingsIs(l, KeyOf, cs);
    SortedRight(l, KeyOf, cs);
    ghost var r := SortSiblings(l, KeyOf, cs);
    assert forall i :: 0 <= i < |r.items| ==> r.items[i] in l.items;
    ok := AddItem(parent, item, r);
  }
}
