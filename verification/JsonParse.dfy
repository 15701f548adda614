/**
 The parser (stage/cjson/cJSON.c, `buffer_skip_whitespace`, `parse_number`, `parse_value`,
 `parse_array`, `parse_object`, `cJSON_ParseWithLengthOpts`): on every text, it returns a tree if and only if
 the text begins with a text of that tree and the tree is not nested too deeply. No access is outside of the
 buffer on any input.
 */
module JsonParse {
  import opened Basics
  import opened JsonValue
  import opened JsonString
  import opened JsonPrint
  import opened JsonGrammar

  // `CJSON_NESTING_LIMIT`
  const NESTING_LIMIT := 1000

  // ----- the descent -----

  // Where `buffer_skip_whitespace` stops: not behind the last character.
  function SkipTo(content: string, i: nat): (p: nat)
    requires i <= |content|
    ensures i <= p <= |content| && (i < |content| ==> p < |content|)
  {
    var p := NextSolid(content, i);
    if i < |content| && p == |content| then p - 1 else p
  }

  lemma SkipIs(content: string, i: nat)
    requires i <= |content|
    ensures var p := SkipTo(content, i);
            if NextSolid(content, i) < |content| then p == NextSolid(content, i) && content[p] > ' '
            else p < |content| ==> content[p] <= ' ' && p + 1 == |content|
    decreases |content| - i
  {
    if i < |content| && content[i] <= ' ' {
      SkipIs(content, i + 1);
    }
  }

  lemma SkipTwice(content: string, i: nat)
    requires i <= |content|
    ensures SkipTo(content, SkipTo(content, i)) == SkipTo(content, i)
  {
    hide NextSolid;
    SkipIs(content, i);
    var p := SkipTo(content, i);
    if p < |content| {
      SkipStays(content, p);
    }
  }

  lemma SkipStays(content: string, p: nat)
    requires p < |content| && (content[p] > ' ' || p + 1 == |content|)
    ensures SkipTo(content, p) == p
  {
    assert p + 1 == |content| ==> NextSolid(content, p + 1) == p + 1;
  }

  // ----- the descent -----

  // The tree at i and where its text ends, if so many levels of nesting are left.
  ghost function ValueAt(content: string, strtod: string -> (int, nat), i: nat, levels: nat): (r: Option<(Json, nat)>)
    requires i <= |content| && Sane(strtod)
    ensures r.Some? ==> i < r.value.1 <= |content|
    decreases |content| - i, 1
  {
    if Word(content, i, "null") then Some((Null, i + 4))
    else if Word(content, i, "false") then Some((False, i + 5))
    else if Word(content, i, "true") then Some((True, i + 4))
    else if i == |content| then None
    else if content[i] == '\"' then
      match StringAt(content, i)
      case None => None
      case Some((s, j)) => Some((String(s), j))
    else if content[i] == '-' || '0' <= content[i] <= '9' then
      match NumberAt(content, strtod, i)
      case None => None
      case Some((n, j)) => Some((Number(n), j))
    else if content[i] == '[' then
      match ArrayAt(content, strtod, i, levels)
      case None => None
      case Some((items, j)) => Some((Array(items), j))
    else if content[i] == '{' then
      match ObjectAt(content, strtod, i, levels)
      case None => None
      case Some((ms, j)) => Some((Object(ms), j))
    else None
  }

  ghost function ArrayAt(content: string, strtod: string -> (int, nat), i: nat, levels: nat): (r: Option<(seq<Json>, nat)>)
    requires i < |content| && Sane(strtod)
    ensures r.Some? ==> i < r.value.1 <= |content|
    decreases |content| - i, 0
  {
    var p := SkipTo(content, i + 1);
    if levels == 0 || content[i] != '[' || p == |content| then None
    else if content[p] == ']' then Some(([], p + 1))
    else AllElements(content, strtod, p, levels - 1)
  }

  // One element or more from p on, and the closing bracket.
  ghost function AllElements(content: string, strtod: string -> (int, nat), p: nat, levels: nat): (r: Option<(seq<Json>, nat)>)
    requires p <= |content| && Sane(strtod)
    ensures r.Some? ==> p < r.value.1 <= |content|
    decreases |content| - p, 2
  {
    match ValueAt(content, strtod, p, levels)
    case None => None
    case Some((x, e)) => Joined([x], MoreElements(content, strtod, SkipTo(content, e), levels))
  }

  // What comes at q, behind an element.
  ghost function MoreElements(content: string, strtod: string -> (int, nat), q: nat, levels: nat): (r: Option<(seq<Json>, nat)>)
    requires q <= |content| && Sane(strtod)
    ensures r.Some? ==> q < r.value.1 <= |content|
    decreases |content| - q, 3
  {
    if q == |content| then None
    else if content[q] == ',' then AllElements(content, strtod, SkipTo(content, q + 1), levels)
    else if content[q] == ']' then Some(([], q + 1))
    else None
  }

  ghost function ObjectAt(content: string, strtod: string -> (int, nat), i: nat, levels: nat): (r: Option<(seq<Member>, nat)>)
    requires i < |content| && Sane(strtod)
    ensures r.Some? ==> i < r.value.1 <= |content|
    decreases |content| - i, 0
  {
    var p := SkipTo(content, i + 1);
    if levels == 0 || content[i] != '{' || p == |content| then None
    else if content[p] == '}' then Some(([], p + 1))
    else AllMembers(content, strtod, p, levels - 1)
  }

  // A key, a colon and a value at p, and where they end.
  ghost function MemberAt(content: string, strtod: string -> (int, nat), p: nat, levels: nat): (r: Option<(Member, nat)>)
    requires p <= |content| && Sane(strtod)
    ensures r.Some? ==> p < r.value.1 <= |content|
    decreases |content| - p, 2
  {
    if p == |content| then None
    else
      match StringAt(content, p)
      case None => None
      case Some((key, k)) =>
        var c := SkipTo(content, k);
        if c == |content| || content[c] != ':' then None
        else
          match ValueAt(content, strtod, SkipTo(content, c + 1), levels)
          case None => None
          case Some((x, e)) => Some((Member(key, x), e))
  }

  // One member or more from p on, and the closing brace.
  ghost function AllMembers(content: string, strtod: string -> (int, nat), p: nat, levels: nat): (r: Option<(seq<Member>, nat)>)
    requires p <= |content| && Sane(strtod)
    ensures r.Some? ==> p < r.value.1 <= |content|
    decreases |content| - p, 3
  {
    match MemberAt(content, strtod, p, levels)
    case None => None
    case Some((m, e)) => Joined([m], MoreMembers(content, strtod, SkipTo(content, e), levels))
  }

  ghost function MoreMembers(content: string, strtod: string -> (int, nat), q: nat, levels: nat): (r: Option<(seq<Member>, nat)>)
    requires q <= |content| && Sane(strtod)
    ensures r.Some? ==> q < r.value.1 <= |content|
    decreases |content| - q, 4
  {
    if q == |content| then None
    else if content[q] == ',' then AllMembers(content, strtod, SkipTo(content, q + 1), levels)
    else if content[q] == '}' then Some(([], q + 1))
    else None
  }

  function Joined<T>(done: seq<T>, r: Option<(seq<T>, nat)>): (s: Option<(seq<T>, nat)>)
    ensures s.Some? <==> r.Some?
    ensures s.Some? ==> s.value.1 == r.value.1
  {
    match r
    case None => None
    case Some((rest, end)) => Some((done + rest, end))
  }

  lemma JoinedNil<T>(r: Option<(seq<T>, nat)>)
    ensures Joined([], r) == r
  {
    if r.Some? {
      assert [] + r.value.0 == r.value.0;
    }
  }

  lemma JoinedStep<T>(done: seq<T>, x: T, r: Option<(seq<T>, nat)>)
    ensures Joined(done, Joined([x], r)) == Joined(done + [x], r)
  {
    if r.Some? {
      assert done + ([x] + r.value.0) == done + [x] + r.value.0;
    }
  }

  // ----- what the descent finds -----

  /** The descent finds v if and only if the text begins with a text of v, and v is not nested too deeply. */
  lemma ValueMeaning(content: string, strtod: string -> (int, nat), i: nat, levels: nat, v: Json, j: nat)
    requires i <= |content| && Sane(strtod)
    ensures ValueAt(content, strtod, i, levels) == Some((v, j)) <==> Spells(content, strtod, i, j, v) && Nesting(v) <= levels
  {
    hide *;
    if ValueAt(content, strtod, i, levels) == Some((v, j)) {
      ValueSound(content, strtod, i, levels);
    }
    if Spells(content, strtod, i, j, v) && Nesting(v) <= levels {
      ValueComplete(content, strtod, i, levels, v, j);
    }
  }

  /** A text stands for one tree, and only one beginning of it does. */
  lemma SpellsUnique(content: string, strtod: string -> (int, nat), i: nat, v: Json, j: nat, v': Json, j': nat)
    requires Sane(strtod) && Spells(content, strtod, i, j, v) && Spells(content, strtod, i, j', v')
    ensures v == v' && j == j'
  {
    hide *;
    SpellsStart(content, strtod, i, j, v);
    var levels := Nesting(v) + Nesting(v');
    ValueComplete(content, strtod, i, levels, v, j);
    ValueComplete(content, strtod, i, levels, v', j');
  }

  lemma {:induction false} ValueSound(content: string, strtod: string -> (int, nat), i: nat, levels: nat)
    requires i <= |content| && Sane(strtod)
    ensures var r := ValueAt(content, strtod, i, levels);
            r.Some? ==> Spells(content, strtod, i, r.value.1, r.value.0) && Nesting(r.value.0) <= levels
    decreases |content| - i, 1
  {
    hide Sane, StringAt, NumberAt, ArrayAt, ObjectAt, SpellsItems, SpellsMembers, NextSolid, ItemsNesting, MembersNesting;
    if i < |content| && content[i] == '[' {
      ArraySound(content, strtod, i, levels);
    }
    if i < |content| && content[i] == '{' {
      ObjectSound(content, strtod, i, levels);
    }
  }

  lemma {:induction false} ArraySound(content: string, strtod: string -> (int, nat), i: nat, levels: nat)
    requires i < |content| && content[i] == '[' && Sane(strtod)
    ensures var r := ArrayAt(content, strtod, i, levels);
            r.Some? ==> Spells(content, strtod, i, r.value.1, Array(r.value.0)) && Nesting(Array(r.value.0)) <= levels
    decreases |content| - i, 0
  {
    hide Sane, SkipTo, NextSolid, AllElements, SpellsItems;
    var p := SkipTo(content, i + 1);
    SkipIs(content, i + 1);
    if levels > 0 && p < |content| && content[p] != ']' {
      ElementsSound(content, strtod, i + 1, levels - 1);
    }
  }

  // White space at i, and then elements.
  lemma {:induction false} ElementsSound(content: string, strtod: string -> (int, nat), i: nat, levels: nat)
    requires i <= |content| && Sane(strtod)
    ensures var r := AllElements(content, strtod, SkipTo(content, i), levels);
            r.Some? ==> r.value.0 != [] && SpellsItems(content, strtod, i, r.value.1, r.value.0) && ItemsNesting(r.value.0) <= levels
    decreases |content| - i, 2
  {
    hide Sane, SkipTo, NextSolid, ValueAt, Spells, SpellsItems, Nesting, Follows;
    var p := SkipTo(content, i);
    SkipSolid(content, strtod, i, levels);
    ValueSound(content, strtod, p, levels);
    var v := ValueAt(content, strtod, p, levels);
    if v.Some? {
      var (x, e) := v.value;
      var q := SkipTo(content, e);
      SkipIs(content, e);
      var more := MoreElements(content, strtod, q, levels);
      if more.Some? {
        FollowsAt(content, e, q);
        if content[q] == ',' {
          ElementsSound(content, strtod, q + 1, levels);
        }
        assert ([x] + more.value.0)[1..] == more.value.0;
        SpellsItemsBy(content, strtod, i, more.value.1, [x] + more.value.0, e, q + 1);
      }
    }
  }

  // A value is not found behind white space that goes to the end.
  lemma SkipSolid(content: string, strtod: string -> (int, nat), i: nat, levels: nat)
    requires i <= |content| && Sane(strtod)
    ensures ValueAt(content, strtod, SkipTo(content, i), levels).Some? ==> SkipTo(content, i) == NextSolid(content, i) < |content|
    ensures MemberAt(content, strtod, SkipTo(content, i), levels).Some? ==> SkipTo(content, i) == NextSolid(content, i) < |content|
  {
    hide Sane, SkipTo, NextSolid, NumberAt, ArrayAt, ObjectAt;
    SkipIs(content, i);
  }

  lemma {:induction false} ObjectSound(content: string, strtod: string -> (int, nat), i: nat, levels: nat)
    requires i < |content| && content[i] == '{' && Sane(strtod)
    ensures var r := ObjectAt(content, strtod, i, levels);
            r.Some? ==> Spells(content, strtod, i, r.value.1, Object(r.value.0)) && Nesting(Object(r.value.0)) <= levels
    decreases |content| - i, 0
  {
    hide Sane, SkipTo, NextSolid, AllMembers, SpellsMembers;
    var p := SkipTo(content, i + 1);
    SkipIs(content, i + 1);
    if levels > 0 && p < |content| && content[p] != '}' {
      MembersSound(content, strtod, i + 1, levels - 1);
    }
  }

  // White space at i, and then members.
  lemma {:induction false} MembersSound(content: string, strtod: string -> (int, nat), i: nat, levels: nat)
    requires i <= |content| && Sane(strtod)
    ensures var r := AllMembers(content, strtod, SkipTo(content, i), levels);
            r.Some? ==> r.value.0 != [] && SpellsMembers(content, strtod, i, r.value.1, r.value.0) && MembersNesting(r.value.0) <= levels
    decreases |content| - i, 2
  {
    hide Sane, SkipTo, NextSolid, MemberAt, SpellsMember, SpellsMembers, Nesting, Follows, StringAt;
    var p := SkipTo(content, i);
    var found := MemberAt(content, strtod, p, levels);
    if found.Some? {
      var (m, e) := found.value;
      MemberSound(content, strtod, i, levels);
      var q := SkipTo(content, e);
      SkipIs(content, e);
      var more := MoreMembers(content, strtod, q, levels);
      if more.Some? {
        FollowsAt(content, e, q);
        if content[q] == ',' {
          MembersSound(content, strtod, q + 1, levels);
        }
        assert ([m] + more.value.0)[1..] == more.value.0;
        SpellsMembersBy(content, strtod, i, more.value.1, [m] + more.value.0, e, q + 1);
      }
    }
  }

  lemma {:induction false} MemberSound(content: string, strtod: string -> (int, nat), i: nat, levels: nat)
    requires i <= |content| && Sane(strtod) && MemberAt(content, strtod, SkipTo(content, i), levels).Some?
    ensures var (m, e) := MemberAt(content, strtod, SkipTo(content, i), levels).value;
            SpellsMember(content, strtod, i, e, m) && Nesting(m.value) <= levels
    decreases |content| - i, 1
  {
    hide Sane, SkipTo, NextSolid, ValueAt, Spells, SpellsMember, Nesting, Follows, StringAt;
    SkipSolid(content, strtod, i, levels);
    var p := SkipTo(content, i);
    var (m, e) := MemberAt(content, strtod, p, levels).value;
    var k := StringAt(content, p).value.1;
    SkipIs(content, k);
    FollowsAt(content, k, SkipTo(content, k));
    var c := SkipTo(content, k) + 1;
    SkipSolid(content, strtod, c, levels);
    ValueSound(content, strtod, SkipTo(content, c), levels);
    SpellsMemberBy(content, strtod, i, m, k, c, e);
  }

  // The first character of a text.
  lemma SpellsStart(content: string, strtod: string -> (int, nat), i: nat, j: nat, v: Json)
    requires Sane(strtod) && Spells(content, strtod, i, j, v)
    ensures i < |content| && content[i] > ' ' && content[i] != ']'
  {
    hide Sane, NumberAt, SpellsItems, SpellsMembers, Follows;
    assert Word(content, i, "null") ==> content[i..i + 4][0] == 'n';
    assert Word(content, i, "false") ==> content[i..i + 5][0] == 'f';
    assert Word(content, i, "true") ==> content[i..i + 4][0] == 't';
  }

  lemma SkipSolidIs(content: string, i: nat)
    requires i <= |content| && NextSolid(content, i) < |content|
    ensures SkipTo(content, i) == NextSolid(content, i)
  {
  }

  lemma {:induction false} ValueComplete(content: string, strtod: string -> (int, nat), i: nat, levels: nat, v: Json, j: nat)
    requires i <= |content| && Sane(strtod) && Spells(content, strtod, i, j, v) && Nesting(v) <= levels
    ensures ValueAt(content, strtod, i, levels) == Some((v, j))
    decreases v, 1
  {
    hide Sane, StringAt, NumberAt, ArrayAt, ObjectAt, SpellsItems, SpellsMembers, NextSolid, ItemsNesting, MembersNesting, Follows;
    assert Word(content, i, "null") ==> content[i..i + 4][0] == 'n';
    assert Word(content, i, "false") ==> content[i..i + 5][0] == 'f';
    assert Word(content, i, "true") ==> content[i..i + 4][0] == 't';
    match v
    case String(s) =>
      StringQuote(content, i);
    case Array(items) =>
      ArrayComplete(content, strtod, i, levels, items, j);
    case Object(ms) =>
      ObjectComplete(content, strtod, i, levels, ms, j);
    case _ =>
  }

  lemma StringQuote(content: string, i: nat)
    requires i < |content| && StringAt(content, i).Some?
    ensures content[i] == '\"'
  {
  }

  lemma FollowsSkip(content: string, i: nat, c: char, j: nat)
    requires Follows(content, i, c, j)
    ensures i <= |content| && j == SkipTo(content, i) + 1 <= |content| && content[j - 1] == c
  {
  }

  lemma {:induction false} ArrayComplete(content: string, strtod: string -> (int, nat), i: nat, levels: nat, items: seq<Json>, j: nat)
    requires Sane(strtod) && Spells(content, strtod, i, j, Array(items)) && Nesting(Array(items)) <= levels
    ensures i < |content| && ArrayAt(content, strtod, i, levels) == Some((items, j))
    decreases items, 2
  {
    hide Sane, SkipTo, NextSolid, AllElements, SpellsItems, Follows, ItemsNesting;
    if items == [] {
      FollowsSkip(content, i + 1, ']', j);
    } else {
      ItemsStart(content, strtod, i + 1, j, items);
      SkipSolidIs(content, i + 1);
      ItemsComplete(content, strtod, i + 1, levels - 1, items, j);
    }
  }

  lemma ItemsStart(content: string, strtod: string -> (int, nat), i: nat, j: nat, items: seq<Json>)
    requires Sane(strtod) && items != [] && SpellsItems(content, strtod, i, j, items)
    ensures i <= |content| && NextSolid(content, i) < |content| && content[NextSolid(content, i)] != ']'
  {
    hide Sane, Spells, NextSolid, Follows;
    var e: nat :| Spells(content, strtod, NextSolid(content, i), e, items[0]);
    SpellsStart(content, strtod, NextSolid(content, i), e, items[0]);
  }

  lemma {:induction false} ItemsComplete(content: string, strtod: string -> (int, nat), i: nat, levels: nat, items: seq<Json>, j: nat)
    requires i <= |content| && Sane(strtod) && items != [] && SpellsItems(content, strtod, i, j, items) && ItemsNesting(items) <= levels
    ensures AllElements(content, strtod, SkipTo(content, i), levels) == Some((items, j))
    decreases items, 0
  {
    hide Sane, SkipTo, NextSolid, ValueAt, Spells, Nesting, Follows;
    var p := NextSolid(content, i);
    ItemsStart(content, strtod, i, j, items);
    SkipSolidIs(content, i);
    var e: nat, f: nat :|
      && Spells(content, strtod, p, e, items[0])
      && Follows(content, e, if |items| == 1 then ']' else ',', f)
      && if |items| == 1 then j == f else SpellsItems(content, strtod, f, j, items[1..]);
    ValueComplete(content, strtod, p, levels, items[0], e);
    FollowsSkip(content, e, if |items| == 1 then ']' else ',', f);
    if |items| == 1 {
      assert items == [items[0]] + [];
    } else {
      ItemsComplete(content, strtod, f, levels, items[1..], j);
      assert items == [items[0]] + items[1..];
    }
  }

  lemma {:induction false} ObjectComplete(content: string, strtod: string -> (int, nat), i: nat, levels: nat, ms: seq<Member>, j: nat)
    requires Sane(strtod) && Spells(content, strtod, i, j, Object(ms)) && Nesting(Object(ms)) <= levels
    ensures i < |content| && ObjectAt(content, strtod, i, levels) == Some((ms, j))
    decreases ms, 2
  {
    hide Sane, SkipTo, NextSolid, AllMembers, SpellsMembers, Follows, MembersNesting;
    if ms == [] {
      FollowsSkip(content, i + 1, '}', j);
    } else {
      MembersStart(content, strtod, i + 1, j, ms);
      SkipSolidIs(content, i + 1);
      MembersComplete(content, strtod, i + 1, levels - 1, ms, j);
    }
  }

  lemma MembersStart(content: string, strtod: string -> (int, nat), i: nat, j: nat, ms: seq<Member>)
    requires Sane(strtod) && ms != [] && SpellsMembers(content, strtod, i, j, ms)
    ensures i <= |content| && NextSolid(content, i) < |content| && content[NextSolid(content, i)] != '}'
  {
    hide Sane, Spells, NextSolid, Follows, StringAt;
    StringQuote(content, NextSolid(content, i));
  }

  lemma {:induction false} MembersComplete(content: string, strtod: string -> (int, nat), i: nat, levels: nat, ms: seq<Member>, j: nat)
    requires i <= |content| && Sane(strtod) && ms != [] && SpellsMembers(content, strtod, i, j, ms) && MembersNesting(ms) <= levels
    ensures AllMembers(content, strtod, SkipTo(content, i), levels) == Some((ms, j))
    decreases ms, 0
  {
    hide Sane, SkipTo, NextSolid, MemberAt, SpellsMember, Nesting, Follows, StringAt;
    var e: nat, f: nat :|
      && SpellsMember(content, strtod, i, e, ms[0])
      && Follows(content, e, if |ms| == 1 then '}' else ',', f)
      && if |ms| == 1 then j == f else SpellsMembers(content, strtod, f, j, ms[1..]);
    MemberComplete(content, strtod, i, levels, ms[0], e);
    FollowsSkip(content, e, if |ms| == 1 then '}' else ',', f);
    if |ms| == 1 {
      assert ms == [ms[0]] + [];
    } else {
      MembersComplete(content, strtod, f, levels, ms[1..], j);
      assert ms == [ms[0]] + ms[1..];
    }
  }

  lemma {:induction false} MemberComplete(content: string, strtod: string -> (int, nat), i: nat, levels: nat, m: Member, e: nat)
    requires i <= |content| && Sane(strtod) && SpellsMember(content, strtod, i, e, m) && Nesting(m.value) <= levels
    ensures MemberAt(content, strtod, SkipTo(content, i), levels) == Some((m, e))
    decreases m, 0
  {
    hide Sane, SkipTo, NextSolid, ValueAt, Spells, Nesting, StringAt;
    var k: nat, c: nat :|
      && StringAt(content, NextSolid(content, i)) == Some((m.key, k))
      && Follows(content, k, ':', c)
      && Spells(content, strtod, NextSolid(content, c), e, m.value);
    SkipSolidIs(content, i);
    FollowsSkip(content, k, ':', c);
    SpellsStart(content, strtod, NextSolid(content, c), e, m.value);
    SkipSolidIs(content, c);
    ValueComplete(content, strtod, NextSolid(content, c), levels, m.value, e);
  }

  // ----- the parser -----

  // What comes of reading something that stands at its place or not.
  ghost predicate Got<T>(found: Option<(T, nat)>, r: Option<T>, offset: nat) {
    if found.None? then r == None else r == Some(found.value.0) && offset == found.value.1
  }

  class ParseBuffer {
    const content: string
    const strtod: string -> (int, nat)
    var offset: nat
    var depth: nat

    ghost predicate Valid()
      reads this
    {
      offset <= |content| && depth <= NESTING_LIMIT && Sane(strtod)
    }

    constructor (content: string, strtod: string -> (int, nat))
      requires Sane(strtod)
      ensures Valid() && this.content == content && this.strtod == strtod && offset == 0 && depth == 0
    {
      this.content, this.strtod, offset, depth := content, strtod, 0, 0;
    }

    method SkipWhitespace()
      requires Valid()
      modifies this`offset
      ensures Valid() && offset == SkipTo(content, old(offset))
    {
      hide Sane;
      if offset >= |content| {
        return;
      }
      while offset < |content| && content[offset] <= ' '
        invariant offset <= |content| && NextSolid(content, offset) == NextSolid(content, old(offset))
      {
        offset := offset + 1;
      }
      if offset == |content| {
        offset := offset - 1;
      }
    }

    method ParseNumber() returns (r: Option<int>)
      requires Valid()
      modifies this`offset
      ensures Valid() && Got(NumberAt(content, strtod, old(offset)), r, offset)
    {
      hide Sane, NumberChar, NumberAt, Run;
      var i := 0;
      while i < 63 && offset + i < |content| && NumberChar(content[offset + i])
        invariant i <= 63 && offset + i <= |content| && offset == old(offset)
        invariant Run(content, offset, 63) == i + Run(content, offset + i, 63 - i)
      {
        RunStep(content, offset + i, 63 - i);
        i := i + 1;
      }
      RunStep(content, offset + i, 63 - i);
      var token := content[offset..offset + i];
      NumberIs(content, strtod, offset, token);
      var number := strtod(token);
      if number.1 == 0 {
        return None;
      }
      offset := offset + number.1;
      return Some(number.0);
    }

    method ParseString() returns (r: Option<string>)
      requires Valid() && offset < |content|
      modifies this`offset
      ensures Valid() && Got(StringAt(content, old(offset)), r, offset)
    {
      hide Sane, StringAt;
      var s := JsonString.ParseString(content, offset);
      if s.None? {
        return None;
      }
      offset := s.value.1;
      return Some(s.value.0);
    }

    method ParseValue() returns (r: Option<Json>)
      requires Valid()
      modifies this
      ensures Valid() && Got(ValueAt(content, strtod, old(offset), NESTING_LIMIT - old(depth)), r, offset)
      ensures r.Some? ==> depth == old(depth)
      decreases |content| - offset, 3
    {
      hide Sane, StringAt, NumberAt, ArrayAt, ObjectAt;
      if Word(content, offset, "null") {
        offset := offset + 4;
        return Some(Null);
      }
      if Word(content, offset, "false") {
        offset := offset + 5;
        return Some(False);
      }
      if Word(content, offset, "true") {
        offset := offset + 4;
        return Some(True);
      }
      if offset < |content| && content[offset] == '\"' {
        var s := ParseString();
        return if s.None? then None else Some(String(s.value));
      }
      if offset < |content| && (content[offset] == '-' || '0' <= content[offset] <= '9') {
        var n := ParseNumber();
        return if n.None? then None else Some(Number(n.value));
      }
      if offset < |content| && content[offset] == '[' {
        var items := ParseArray();
        return if items.None? then None else Some(Array(items.value));
      }
      if offset < |content| && content[offset] == '{' {
        var members := ParseObject();
        return if members.None? then None else Some(Object(members.value));
      }
      return None;
    }

    method ParseArray() returns (r: Option<seq<Json>>)
      requires Valid() && offset < |content|
      modifies this
      ensures Valid() && Got(ArrayAt(content, strtod, old(offset), NESTING_LIMIT - old(depth)), r, offset)
      ensures r.Some? ==> depth == old(depth)
      decreases |content| - offset, 2
    {
      hide Sane, SkipTo, AllElements, Joined;
      if depth >= NESTING_LIMIT {
        return None;
      }
      depth := depth + 1;
      if content[offset] != '[' {
        return None;
      }
      offset := offset + 1;
      SkipTwice(content, offset);
      SkipWhitespace();
      var items: seq<Json> := [];
      if offset >= |content| || content[offset] != ']' {
        if offset >= |content| {
          offset := offset - 1;
          return None;
        }
        offset := offset - 1;
        var read := ParseElements();
        if read.None? || offset >= |content| || content[offset] != ']' {
          return None;
        }
        JoinedAll(read.value, offset + 1);
        items := read.value;
      }
      depth := depth - 1;
      offset := offset + 1;
      return Some(items);
    }

    // Elements, from the character in front of the first one to the one behind the last one.
    method ParseElements() returns (r: Option<seq<Json>>)
      requires Valid() && offset < |content|
      modifies this
      ensures Valid() && (r.Some? ==> depth == old(depth))
      ensures var levels := NESTING_LIMIT - old(depth);
              var found := AllElements(content, strtod, SkipTo(content, old(offset) + 1), levels);
              if r.None? then found == None else found == Joined(r.value, MoreElements(content, strtod, offset, levels)) && !CommaAt(content, offset)
      decreases |content| - offset, 1
    {
      hide Sane, SkipTo, ValueAt, Joined;
      var items: seq<Json>, more := [], true;
      ghost var levels: nat := NESTING_LIMIT - depth;
      ghost var found := AllElements(content, strtod, SkipTo(content, offset + 1), levels);
      JoinedNil(found);
      while more
        invariant Valid() && old(offset) <= offset && depth == old(depth)
        invariant if more then offset < |content| else !CommaAt(content, offset)
        invariant found == Joined(items, if more then AllElements(content, strtod, SkipTo(content, offset + 1), levels)
                                         else MoreElements(content, strtod, offset, levels))
        decreases |content| - offset, more
      {
        offset := offset + 1;
        SkipWhitespace();
        ghost var p := offset;
        var x := ParseValue();
        if x.None? {
          JoinedNone(items);
          return None;
        }
        SkipWhitespace();
        JoinedStep(items, x.value, MoreElements(content, strtod, offset, levels));
        items := items + [x.value];
        more := offset < |content| && content[offset] == ',';
      }
      return Some(items);
    }

    method ParseObject() returns (r: Option<seq<Member>>)
      requires Valid() && offset < |content|
      modifies this
      ensures Valid() && Got(ObjectAt(content, strtod, old(offset), NESTING_LIMIT - old(depth)), r, offset)
      ensures r.Some? ==> depth == old(depth)
      decreases |content| - offset, 2
    {
      hide Sane, SkipTo, AllMembers, Joined;
      if depth >= NESTING_LIMIT {
        return None;
      }
      depth := depth + 1;
      if content[offset] != '{' {
        return None;
      }
      offset := offset + 1;
      SkipTwice(content, offset);
      SkipWhitespace();
      var members: seq<Member> := [];
      if offset >= |content| || content[offset] != '}' {
        if offset >= |content| {
          offset := offset - 1;
          return None;
        }
        offset := offset - 1;
        var read := ParseMembers();
        if read.None? || offset >= |content| || content[offset] != '}' {
          return None;
        }
        JoinedAll(read.value, offset + 1);
        members := read.value;
      }
      depth := depth - 1;
      offset := offset + 1;
      return Some(members);
    }

    // Members, from the character in front of the first one to the one behind the last one.
    method ParseMembers() returns (r: Option<seq<Member>>)
      requires Valid() && offset < |content|
      modifies this
      ensures Valid() && (r.Some? ==> depth == old(depth))
      ensures var levels := NESTING_LIMIT - old(depth);
              var found := AllMembers(content, strtod, SkipTo(content, old(offset) + 1), levels);
              if r.None? then found == None else found == Joined(r.value, MoreMembers(content, strtod, offset, levels)) && !CommaAt(content, offset)
      decreases |content| - offset, 1
    {
      hide Sane, SkipTo, MemberAt, Joined;
      var members: seq<Member>, more := [], true;
      ghost var levels: nat := NESTING_LIMIT - depth;
      ghost var found := AllMembers(content, strtod, SkipTo(content, offset + 1), levels);
      JoinedNil(found);
      while more
        invariant Valid() && old(offset) <= offset && depth == old(depth)
        invariant if more then offset < |content| else !CommaAt(content, offset)
        invariant found == Joined(members, if more then AllMembers(content, strtod, SkipTo(content, offset + 1), levels)
                                           else MoreMembers(content, strtod, offset, levels))
        decreases |content| - offset, more
      {
        var m := ParseMember();
        if m.None? {
          JoinedNone(members);
          return None;
        }
        SkipWhitespace();
        JoinedStep(members, m.value, MoreMembers(content, strtod, offset, levels));
        members := members + [m.value];
        more := offset < |content| && content[offset] == ',';
      }
      return Some(members);
    }

    // One member, from the character in front of it to the end of its value.
    method ParseMember() returns (m: Option<Member>)
      requires Valid() && offset < |content|
      modifies this
      ensures Valid() && (m.Some? ==> depth == old(depth) && offset > old(offset))
      ensures Got(MemberAt(content, strtod, SkipTo(content, old(offset) + 1), NESTING_LIMIT - old(depth)), m, offset)
      decreases |content| - offset, 0
    {
      hide Sane, SkipTo, StringAt, ValueAt;
      if offset + 1 >= |content| {
        SkipEnd(content);
        return None;
      }
      offset := offset + 1;
      SkipWhitespace();
      var key := ParseString();
      if key.None? {
        return None;
      }
      SkipWhitespace();
      if offset >= |content| || content[offset] != ':' {
        return None;
      }
      offset := offset + 1;
      SkipWhitespace();
      var x := ParseValue();
      return if x.None? then None else Some(Member(key.value, x.value));
    }
  }

  predicate CommaAt(content: string, i: nat) {
    i < |content| && content[i] == ','
  }

  lemma SkipEnd(content: string)
    ensures SkipTo(content, |content|) == |content|
  {
  }

  lemma JoinedNone<T>(done: seq<T>)
    ensures Joined(done, None) == None
  {
  }

  lemma JoinedAll<T>(done: seq<T>, end: nat)
    ensures Joined(done, Some(([], end))) == Some((done, end)) && Joined(done, None) == None
  {
    assert done + [] == done;
  }

  // ----- `cJSON_ParseWithLengthOpts` -----

  const BOM: string := [0xEF as char, 0xBB as char, 0xBF as char]

  // Where the text begins: a byte order mark is skipped if at least two characters follow it.
  function Start(content: string): (i: nat)
    ensures i <= |content|
  {
    NextSolid(content, if 4 < |content| && content[..3] == BOM then 3 else 0)
  }

  lemma StartExamples()
    ensures Start([0xEF as char, 0xBB as char, 0xBF as char, '1', '\0']) == 3 && Start("\r\n\t 1") == 4
  {
    var t: string := [0xEF as char, 0xBB as char, 0xBF as char, '1', '\0'];
    assert t[..3] == BOM;
    SolidHere(t, 3);
    assert "\r\n\t 1"[..3][0] == '\r' && BOM[0] != '\r';
    SolidAt("\r\n\t 1", 0, 4);
  }

  // From j on there is only white space, and a zero at the end.
  ghost predicate ZeroEnds(content: string, j: nat) {
    j < |content| && Blank(content, j, |content|) && content[|content| - 1] == '\0'
  }

  // The text of a tree that is not nested too deeply, up to j; where required, nothing but white space follows.
  ghost predicate Accepts(content: string, strtod: string -> (int, nat), nullTerminated: bool, v: Json, j: nat)
    requires Sane(strtod)
  {
    && Spells(content, strtod, Start(content), j, v) && Nesting(v) <= 1000
    && (nullTerminated ==> ZeroEnds(content, j))
  }

  lemma EmptyText(content: string, strtod: string -> (int, nat), nullTerminated: bool)
    requires Sane(strtod) && |content| == 0
    ensures forall v, j :: !Accepts(content, strtod, nullTerminated, v, j)
  {
    hide Sane, Spells, Nesting, ZeroEnds;
    forall v, j: nat ensures !Accepts(content, strtod, nullTerminated, v, j) {
      if Accepts(content, strtod, nullTerminated, v, j) {
        SpellsStart(content, strtod, Start(content), j, v);
      }
    }
  }

  // The descent from behind the byte order mark and white space.
  lemma ParsedFrom(content: string, strtod: string -> (int, nat), from: nat, r: Option<Json>, end: nat)
    requires Sane(strtod) && from == (if 4 < |content| && content[..3] == BOM then 3 else 0)
    requires Got(ValueAt(content, strtod, SkipTo(content, from), NESTING_LIMIT), r, end)
    ensures r.Some? ==> end <= |content| && Spells(content, strtod, Start(content), end, r.value) && Nesting(r.value) <= NESTING_LIMIT
    ensures forall v, j :: Spells(content, strtod, Start(content), j, v) && Nesting(v) <= NESTING_LIMIT ==> r == Some(v) && j == end
  {
    hide Sane, Spells, Nesting, SkipTo, NextSolid, ValueAt;
    if r.Some? {
      SkipSolid(content, strtod, from, NESTING_LIMIT);
      ValueMeaning(content, strtod, Start(content), NESTING_LIMIT, r.value, end);
    }
    forall v, j: nat | Spells(content, strtod, Start(content), j, v) && Nesting(v) <= NESTING_LIMIT ensures r == Some(v) && j == end {
      SpellsStart(content, strtod, Start(content), j, v);
      SkipSolidIs(content, from);
      ValueMeaning(content, strtod, Start(content), NESTING_LIMIT, v, j);
    }
  }

  lemma {:induction false} BlankTo(content: string, i: nat)
    requires i <= |content|
    ensures Blank(content, i, NextSolid(content, i))
    decreases |content| - i
  {
    if i < |content| && content[i] <= ' ' {
      BlankTo(content, i + 1);
    }
  }

  lemma ZeroAt(content: string, j: nat)
    requires j <= |content|
    ensures var p := SkipTo(content, j);
            (p < |content| && content[p] == '\0' <==> ZeroEnds(content, j)) && (ZeroEnds(content, j) ==> p == |content| - 1)
  {
    hide NextSolid;
    SkipIs(content, j);
    BlankTo(content, j);
  }

  // A printed tree with its terminating zero.
  lemma PrintedAccepted(content: string, strtod: string -> (int, nat), nullTerminated: bool, want: Json, fmt: bool)
    requires Exact(strtod) && Printable(want) && content == Print(want, fmt, 0) + "\0"
    ensures Sane(strtod)
    ensures if Nesting(want) <= NESTING_LIMIT then Accepts(content, strtod, nullTerminated, want, |content| - 1)
            else forall v, j :: !Accepts(content, strtod, nullTerminated, v, j)
  {
    hide Exact, Sane, Print, Printable, Nesting, Spells;
    ExactSane(strtod);
    PrintedStands(content, want, fmt);
    PrintedSpells(content, strtod, 0, want, fmt, 0);
    forall v, j: nat ensures Accepts(content, strtod, nullTerminated, v, j) ==> v == want {
      if Accepts(content, strtod, nullTerminated, v, j) {
        SpellsUnique(content, strtod, 0, v, j, want, |content| - 1);
      }
    }
  }

  lemma PrintedStands(content: string, want: Json, fmt: bool)
    requires Printable(want) && content == Print(want, fmt, 0) + "\0"
    ensures Stands(content, 0, want, fmt, 0) && Start(content) == 0
  {
    hide Print;
    FirstChar(want, fmt, 0);
    var text := Print(want, fmt, 0);
    assert content[0..|text|] == text && content[0] == text[0];
    assert content[|text|] == '\0';
    assert 4 < |content| ==> content[..3][0] == content[0] && BOM[0] != content[0];
  }

  /** On every text: parsing gives a tree if and only if the text begins with a text of it, it is nested no deeper
      than the limit and, if that is required, only white space follows up to the terminating zero. */
  method Parse(content: string, nullTerminated: bool, strtod: string -> (int, nat)) returns (r: Option<Json>, end: nat)
    requires Sane(strtod)
    ensures r.Some? ==> exists j :: Accepts(content, strtod, nullTerminated, r.value, j) && end == if nullTerminated then |content| - 1 else j
    ensures forall v, j :: Accepts(content, strtod, nullTerminated, v, j) ==> r == Some(v)
  {
    hide Sane, Spells, Nesting, SkipTo, NextSolid, ValueAt, ZeroEnds, Start;
    if |content| == 0 {
      EmptyText(content, strtod, nullTerminated);
      return None, 0;
    }
    var buffer := new ParseBuffer(content, strtod);
    if buffer.offset + 4 < |content| && content[..3] == BOM {
      buffer.offset := 3;
    }
    ghost var from := buffer.offset;
    buffer.SkipWhitespace();
    r := buffer.ParseValue();
    end := buffer.offset;
    ghost var stop := end;
    ParsedFrom(content, strtod, from, r, end);
    if r.Some? && nullTerminated {
      buffer.SkipWhitespace();
      ZeroAt(content, end);
      if buffer.offset >= |content| || content[buffer.offset] != '\0' {
        return None, 0;
      }
      end := buffer.offset;
    }
    assert r.Some? ==> Accepts(content, strtod, nullTerminated, r.value, stop);
  }
}
