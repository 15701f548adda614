/**
 Deep copies (stage/cjson/cJSON.c, `cJSON_Duplicate`): the copy has the shape of the original, shares no
 item with it, and every list of children in it has its back links, also where the original has lost one.
 */
module JsonCopy {
  import opened JsonValue
  import opened JsonSiblings
  import opened JsonList
  import opened JsonSurgery
  import opened JsonDoc

  // An item and what is below it.
  datatype Tree = Tree(node: Item, kids: seq<Tree>)

  ghost function Roots(kids: seq<Tree>): (s: seq<Item>)
    ensures |s| == |kids| && forall i :: 0 <= i < |kids| ==> s[i] == kids[i].node
  {
    seq(|kids|, i requires 0 <= i < |kids| => kids[i].node)
  }

  // All items below the top.
  ghost function Under(t: Tree): set<Item>
    decreases t
  {
    AllOf(t.kids)
  }

  ghost function AllOf(kids: seq<Tree>): set<Item>
    decreases kids
  {
    if kids == [] then {} else AllOf(kids[..|kids| - 1]) + {kids[|kids| - 1].node} + Under(kids[|kids| - 1])
  }

  lemma {:induction false} AllOfHas(kids: seq<Tree>, i: nat)
    requires i < |kids|
    ensures kids[i].node in AllOf(kids) && Under(kids[i]) <= AllOf(kids)
    decreases |kids|
  {
    if i < |kids| - 1 {
      AllOfHas(kids[..|kids| - 1], i);
    }
  }

  // The children of the top are linked in order, and so on below. The first back links may lead anywhere.
  ghost predicate Laid(t: Tree)
    reads t.node`child, Under(t)
    decreases t
  {
    (forall i :: 0 <= i < |t.kids| ==> (AllOfHas(t.kids, i); Laid(t.kids[i]))) &&
    RootsUnder(t) && ListFrom(t.node.child, Roots(t.kids), 0)
  }

  // As `Laid`, and every first child points back to the last one.
  ghost predicate Sound(t: Tree)
    reads t.node`child, Under(t)
    decreases t
  {
    (forall i :: 0 <= i < |t.kids| ==> (AllOfHas(t.kids, i); Sound(t.kids[i]))) &&
    RootsUnder(t) && ListFrom(t.node.child, Roots(t.kids), 0) && BackIs(Roots(t.kids), LastOf(|t.kids|))
  }

  ghost predicate RootsUnder(t: Tree) {
    forall i :: 0 <= i < |t.kids| ==> Roots(t.kids)[i] in Under(t)
  }

  // Trees of the same shape, with the same keys and contents.
  ghost predicate Alike(a: Tree, b: Tree)
    decreases a
  {
    a.node.key == b.node.key && a.node.content == b.node.content && |a.kids| == |b.kids| && forall i :: 0 <= i < |a.kids| ==> Alike(a.kids[i], b.kids[i])
  }

  // Copies of the first children, linked to each other.
  ghost predicate Linked(copy: Item, kids: seq<Tree>)
    reads copy, Roots(kids)
  {
    && Links(Roots(kids), 0, |kids|)
    && (kids == [] ==> copy.child == null)
    && (kids != [] ==> copy.child == kids[0].node && kids[|kids| - 1].node.next == null)
  }

  // No child is below a child, and none is twice there.
  ghost predicate Separate(copy: Item, kids: seq<Tree>) {
    && Distinct(Roots(kids)) && copy !in Roots(kids)
    && forall i, j :: 0 <= i < |kids| && 0 <= j < |kids| ==> kids[i].node !in Under(kids[j]) && copy !in Under(kids[j])
  }

  ghost predicate AllSound(kids: seq<Tree>)
    reads Roots(kids), AllOf(kids)
  {
    forall i :: 0 <= i < |kids| ==> (AllOfHas(kids, i); Sound(kids[i]))
  }

  // Copies of the first children of t hang on a copy of its top.
  ghost predicate Partial(t: Tree, copy: Item, kids: seq<Tree>)
    reads copy, Roots(kids), AllOf(kids)
  {
    && Linked(copy, kids) && Separate(copy, kids) && AllSound(kids)
    && |kids| <= |t.kids| && forall i :: 0 <= i < |kids| ==> Alike(t.kids[i], kids[i])
  }

  lemma AllOfSnoc(kids: seq<Tree>, v: Tree)
    ensures AllOf(kids + [v]) == AllOf(kids) + {v.node} + Under(v)
    ensures Roots(kids + [v]) == Roots(kids) + [v.node]
  {
    assert (kids + [v])[..|kids|] == kids;
  }

  // The next copy is hung behind the last one.
  method Attach(copy: Item, last: Item?, twin: Item, ghost t: Tree, ghost kids: seq<Tree>, ghost v: Tree)
    requires Partial(t, copy, kids) && |kids| < |t.kids| && Alike(t.kids[|kids|], v)
    requires v.node == twin && Sound(v) && twin !in Under(v) && twin.next == null && twin.prev == null
    requires last == if kids == [] then null else kids[|kids| - 1].node
    requires twin != copy && twin !in Roots(kids) && twin !in AllOf(kids) && Under(v) !! AllOf(kids) && copy !in Under(v)
    requires forall i :: 0 <= i < |kids| ==> kids[i].node !in Under(v)
    modifies copy`child, (if last == null then {} else {last})`next, twin`prev
    ensures Partial(t, copy, kids + [v])
  {
    hide Under, AllOf, Alike, Sound;
    ghost var s, more := Roots(kids), kids + [v];
    AllOfSnoc(kids, v);
    RootsIn(kids);
    assert forall i :: 0 <= i < |kids| ==> Sound(kids[i]);
    if last != null {
      last.next := twin;
      twin.prev := last;
    } else {
      copy.child := twin;
    }
    forall i | 0 <= i < |more| ensures Sound(more[i]) {
      assert old(Sound(more[i]));
    }
    forall i | 0 <= i < |more| - 1 ensures more[i].node.next == more[i + 1].node && more[i + 1].node.prev == more[i].node {
      if i < |kids| - 1 {
        assert old(s[i].next) == s[i + 1];
      }
    }
  }

  /** `cJSON_Duplicate` */
  method Duplicate(item: Item, ghost t: Tree, ghost theirs: set<Item>) returns (copy: Item, ghost u: Tree)
    requires t.node == item && Laid(t) && theirs == Under(t)
    ensures u.node == copy && fresh(copy) && fresh(Under(u)) && copy !in Under(u)
    ensures Sound(u) && Alike(t, u) && copy.next == null && copy.prev == null
    decreases t, 2
  {
    hide Partial, Alike, Under, AllOf, Laid, Sound;
    copy := new Item(item.key, item.content);
    assert unchanged(theirs) && unchanged(item);
    ghost var kids;
    var last;
    last, kids := DuplicateKids(copy, item, t, theirs);
    PartialChild(t, copy, kids);
    RootsIn(kids);
    Close(copy, last, t, kids);
    u := Tree(copy, kids);
  }

  method DuplicateKids(copy: Item, item: Item, ghost t: Tree, ghost theirs: set<Item>) returns (last: Item?, ghost kids: seq<Tree>)
    requires t.node == item && Laid(t) && theirs == Under(t) && copy.child == null && copy !in theirs && copy != item
    modifies copy`child
    ensures fresh(AllOf(kids)) && |kids| == |t.kids| && Partial(t, copy, kids) && copy !in AllOf(kids)
    ensures last == if kids == [] then null else kids[|kids| - 1].node
    decreases t, 1
  {
    hide Partial, Alike, Under, AllOf, Laid, Sound;
    LaidFirst(t);
    var child := item.child;
    ghost var mine: set<Item> := {};
    last, kids := null, [];
    NoneYet(t, copy);
    while child != null
      invariant Laid(t) && |kids| <= |t.kids| && child == (if |kids| < |t.kids| then t.kids[|kids|].node else null)
      invariant fresh(mine) && mine == AllOf(kids) && last == (if kids == [] then null else kids[|kids| - 1].node)
      invariant Partial(t, copy, kids) && copy !in mine && (last == null || fresh(last))
      decreases |t.kids| - |kids|
    {
      LaidKid(t, |kids|);
      ghost var v;
      var next := child.next;
      last, v := DuplicateNext(copy, last, child, t, kids, mine);
      kids, mine := kids + [v], mine + {last} + Under(v);
      assert unchanged(theirs) && unchanged(item);
      child := next;
    }
  }

  method DuplicateNext(copy: Item, last: Item?, child: Item, ghost t: Tree, ghost kids: seq<Tree>, ghost mine: set<Item>) returns (twin: Item, ghost v: Tree)
    requires |kids| < |t.kids| && t.kids[|kids|].node == child && Laid(t.kids[|kids|])
    requires Partial(t, copy, kids) && mine == AllOf(kids) && copy !in mine && last == if kids == [] then null else kids[|kids| - 1].node
    modifies copy`child, (if last == null then {} else {last})`next
    ensures v.node == twin && fresh(twin) && fresh(Under(v)) && Partial(t, copy, kids + [v])
    ensures AllOf(kids + [v]) == mine + {twin} + Under(v)
    decreases t, 0
  {
    hide Partial, Alike, Under, AllOf, Laid, Sound;
    RootsIn(kids);
    assert forall o :: o in Roots(kids) ==> o in mine;
    label L:
    twin, v := Duplicate(child, t.kids[|kids|], Under(t.kids[|kids|]));
    assert unchanged@L(copy) && unchanged@L(mine);
    assert unchanged@L(Roots(kids)) && unchanged@L(AllOf(kids));
    assert Partial(t, copy, kids);
    AllOfSnoc(kids, v);
    Attach(copy, last, twin, t, kids, v);
  }

  // The first child points back to the last one.
  method Close(copy: Item, last: Item?, ghost t: Tree, ghost kids: seq<Tree>)
    requires Partial(t, copy, kids) && |kids| == |t.kids| && copy.key == t.node.key && copy.content == t.node.content && last == if kids == [] then null else kids[|kids| - 1].node
    modifies (if copy.child == null then {} else {copy.child})`prev
    ensures Sound(Tree(copy, kids)) && Alike(t, Tree(copy, kids)) && Under(Tree(copy, kids)) == AllOf(kids)
  {
    hide AllOf, Sound, Alike;
    ghost var s, u := Roots(kids), Tree(copy, kids);
    RootsIn(kids);
    assert forall i :: 0 <= i < |kids| ==> Sound(kids[i]);
    if copy.child != null {
      copy.child.prev := last;
    }
    forall i | 0 <= i < |kids| ensures Sound(kids[i]) {
      assert old(Sound(kids[i]));
    }
    assert kids != [] ==> copy.child == s[0] && last == s[|s| - 1];
    assert BackIs(s, LastOf(|s|));
    forall i | 0 <= i < |s| - 1 ensures s[i].next == s[i + 1] && s[i + 1].prev == s[i] {
      assert old(s[i].next) == s[i + 1] && s[0] != s[i + 1];
    }
    assert Links(s, 0, |s|);
    assert ListFrom(copy.child, s, 0);
    SoundIs(u);
    AlikeIs(t, u);
  }

  lemma SoundIs(u: Tree)
    requires forall i :: 0 <= i < |u.kids| ==> Sound(u.kids[i])
    requires ListFrom(u.node.child, Roots(u.kids), 0) && BackIs(Roots(u.kids), LastOf(|u.kids|))
    ensures Sound(u)
  {
    hide AllOf, ListFrom, BackIs;
    RootsIn(u.kids);
  }

  lemma AlikeIs(t: Tree, u: Tree)
    requires t.node.key == u.node.key && t.node.content == u.node.content && |t.kids| == |u.kids| && forall i :: 0 <= i < |t.kids| ==> Alike(t.kids[i], u.kids[i])
    ensures Alike(t, u)
  {
  }

  lemma PartialChild(t: Tree, copy: Item, kids: seq<Tree>)
    requires Partial(t, copy, kids)
    ensures copy.child == if kids == [] then null else kids[0].node
  {
  }

  lemma NoneYet(t: Tree, copy: Item)
    requires copy.child == null
    ensures Partial(t, copy, []) && AllOf([]) == {}
  {
  }

  // What is laid out: the children one after the other.
  lemma LaidFirst(t: Tree)
    requires Laid(t)
    ensures t.node.child == if t.kids == [] then null else t.kids[0].node
  {
    hide Laid, Under, AllOf;
    LaidLevel(t);
    ListKids(t.node.child, t.kids);
  }

  lemma LaidKid(t: Tree, k: nat)
    requires Laid(t) && k < |t.kids|
    ensures Laid(t.kids[k]) && t.kids[k].node.next == if k + 1 < |t.kids| then t.kids[k + 1].node else null
  {
    hide Laid, Under, AllOf;
    LaidLevel(t);
    ListKids(t.node.child, t.kids);
  }

  lemma LaidLevel(t: Tree)
    requires Laid(t)
    ensures ListFrom(t.node.child, Roots(t.kids), 0) && forall i :: 0 <= i < |t.kids| ==> Laid(t.kids[i])
  {
    hide ListFrom, Under, AllOf;
  }

  lemma ListKids(head: Item?, kids: seq<Tree>)
    requires ListFrom(head, Roots(kids), 0)
    ensures head == if kids == [] then null else kids[0].node
    ensures forall i :: 0 <= i < |kids| ==> kids[i].node.next == if i + 1 < |kids| then kids[i + 1].node else null
  {
    var s := Roots(kids);
    forall i | 0 <= i < |kids| ensures kids[i].node.next == if i + 1 < |kids| then kids[i + 1].node else null {
      assert s[i].next == if i + 1 < |s| then s[i + 1] else null;
    }
  }

  lemma RootsIn(kids: seq<Tree>)
    ensures forall i :: 0 <= i < |kids| ==> kids[i].node in AllOf(kids) && Under(kids[i]) <= AllOf(kids)
  {
    forall i | 0 <= i < |kids| ensures kids[i].node in AllOf(kids) && Under(kids[i]) <= AllOf(kids) {
      AllOfHas(kids, i);
    }
  }

  // ----- the value of a tree of items -----

  ghost function JsonOf(t: Tree): Json
    decreases t
  {
    match t.node.content
    case Plain(j) => j
    case ArrayNode => Array(seq(|t.kids|, i requires 0 <= i < |t.kids| => JsonOf(t.kids[i])))
    case ObjectNode => Object(seq(|t.kids|, i requires 0 <= i < |t.kids| => Member(t.kids[i].node.key, JsonOf(t.kids[i]))))
  }

  /** Alike trees have the same value. */
  lemma {:induction false} AlikeValue(a: Tree, b: Tree)
    requires Alike(a, b)
    ensures JsonOf(a) == JsonOf(b)
    decreases a
  {
    forall i | 0 <= i < |a.kids| ensures JsonOf(a.kids[i]) == JsonOf(b.kids[i]) && a.kids[i].node.key == b.kids[i].node.key {
      AlikeValue(a.kids[i], b.kids[i]);
    }
    match a.node.content
    case Plain(_) =>
    case ArrayNode => assert JsonOf(a).items == JsonOf(b).items;
    case ObjectNode => assert JsonOf(a).members == JsonOf(b).members;
  }

  // Items whose value is not in children have none.
  ghost predicate Kinded(t: Tree)
    decreases t
  {
    (t.node.content.Plain? ==> t.kids == [] && !t.node.content.value.Array? && !t.node.content.value.Object?) &&
    forall i :: 0 <= i < |t.kids| ==> Kinded(t.kids[i])
  }

  // The items of t are linked as the document d says, back links included.
  ghost predicate Shows(t: Tree, d: Doc)
    reads t.node`child, Under(t)
    decreases t
  {
    RootsUnder(t) && ListFrom(t.node.child, Roots(t.kids), 0) &&
    match d
    case Leaf(j) => t.node.content == Plain(j)
    case Items(ds) =>
      && t.node.content == ArrayNode && |ds| == |t.kids| && BackIs(Roots(t.kids), LastOf(|t.kids|))
      && forall i :: 0 <= i < |t.kids| ==> (AllOfHas(t.kids, i); Shows(t.kids[i], ds[i]))
    case Members(es, back) =>
      && t.node.content == ObjectNode && |es| == |t.kids| && BackIs(Roots(t.kids), back)
      && forall i :: 0 <= i < |t.kids| ==> (AllOfHas(t.kids, i); es[i].key == t.kids[i].node.key && Shows(t.kids[i], es[i].value))
  }

  /** A tree with right back links shows the document with right back links of its value. So does a copy. */
  lemma {:induction false} SoundShows(t: Tree)
    requires Sound(t) && Kinded(t)
    ensures Shows(t, Fresh(JsonOf(t)))
    decreases t
  {
    hide ListFrom, BackIs, Under, AllOf;
    forall i | 0 <= i < |t.kids| ensures Shows(t.kids[i], Fresh(JsonOf(t.kids[i]))) {
      SoundShows(t.kids[i]);
    }
  }
}
