/**
 The texts that stand for a tree, as `parse_value` of stage/cjson/cJSON.c understands JSON: white space is
 every character up to the blank, numbers are what `strtod` takes of at most 63 characters, and a string
 literal is what `parse_string` accepts. A printed tree is a text of that tree.
 */
module JsonGrammar {
  import opened Basics
  import opened JsonValue
  import opened JsonPointer
  import opened JsonString
  import opened JsonPrint

  // ----- white space -----

  function NextSolid(content: string, i: nat): (p: nat)
    requires i <= |content|
    ensures i <= p <= |content|
    decreases |content| - i
  {
    if i < |content| && content[i] <= ' ' then NextSolid(content, i + 1) else i
  }

  ghost predicate Blank(content: string, i: nat, p: nat) {
    i <= p <= |content| && forall x :: i <= x < p ==> content[x] <= ' '
  }

  lemma {:induction false} SolidAt(content: string, i: nat, p: nat)
    requires Blank(content, i, p) && p < |content| && content[p] > ' '
    ensures NextSolid(content, i) == p
    decreases p - i
  {
    if i < p {
      SolidAt(content, i + 1, p);
    }
  }

  lemma SolidHere(content: string, i: nat)
    requires i < |content| && content[i] > ' '
    ensures NextSolid(content, i) == i
  {
  }

  // ----- numbers -----

  predicate NumberChar(c: char) {
    '0' <= c <= '9' || c in "+-eE."
  }

  // `strtod` gives a value and the number of characters it used, which are there.
  ghost predicate Sane(strtod: string -> (int, nat)) {
    forall t :: strtod(t).1 <= |t|
  }

  // It is exact on printed integers.
  ghost predicate Exact(strtod: string -> (int, nat)) {
    Sane(strtod) && forall n :: INT_MIN <= n <= INT_MAX ==> strtod(IntText(n)) == (n, |IntText(n)|)
  }

  lemma ExactSane(strtod: string -> (int, nat))
    requires Exact(strtod)
    ensures Sane(strtod)
  {
  }

  // How many of the next `most` characters may be part of a number.
  function Run(content: string, i: nat, most: nat): (k: nat)
    requires i <= |content|
    ensures k <= most && i + k <= |content|
    decreases most
  {
    if most > 0 && i < |content| && NumberChar(content[i]) then 1 + Run(content, i + 1, most - 1) else 0
  }

  lemma RunStep(content: string, i: nat, most: nat)
    requires i <= |content|
    ensures Run(content, i, most) == if most > 0 && i < |content| && NumberChar(content[i]) then 1 + Run(content, i + 1, most - 1) else 0
  {
  }

  lemma RunExample()
    ensures Run("-1.5e+3,", 0, 63) == 7 && Run("2E4 ", 0, 63) == 3
  {
    RunAt("-1.5e+3,", 0, 63, 7);
    RunAt("2E4 ", 0, 63, 3);
  }

  lemma {:induction false} RunAt(content: string, i: nat, most: nat, k: nat)
    requires k <= most && i + k <= |content| && (forall x :: i <= x < i + k ==> NumberChar(content[x]))
    requires k == most || i + k == |content| || !NumberChar(content[i + k])
    ensures Run(content, i, most) == k
    decreases k
  {
    hide NumberChar;
    if k > 0 {
      RunAt(content, i + 1, most - 1, k - 1);
    }
  }

  // The number at i, and where it ends.
  function NumberAt(content: string, strtod: string -> (int, nat), i: nat): (r: Option<(int, nat)>)
    requires i <= |content| && Sane(strtod)
    ensures r.Some? ==> i < r.value.1 <= |content|
  {
    var number := strtod(content[i..i + Run(content, i, 63)]);
    if number.1 == 0 then None else Some((number.0, i + number.1))
  }

  function Power10(k: nat): nat {
    if k == 0 then 1 else 10 * Power10(k - 1)
  }

  lemma {:induction false} DecimalLength(n: nat, k: nat)
    requires k > 0 && n < Power10(k)
    ensures |Decimal(n)| <= k
    decreases k
  {
    if n >= 10 {
      DecimalLength(n / 10, k - 1);
    }
  }

  lemma IntTextShort(n: int)
    requires INT_MIN <= n <= INT_MAX
    ensures |IntText(n)| <= 11 && forall x :: 0 <= x < |IntText(n)| ==> NumberChar(IntText(n)[x])
  {
    assert Power10(5) == 100000;
    assert Power10(10) == 100000 * Power10(5);
    DecimalLength(if n < 0 then -n else n, 10);
  }

  ghost predicate NumberEnds(content: string, i: nat) {
    i < |content| ==> !NumberChar(content[i])
  }

  // The scan takes the whole number, and no more.
  lemma NumberToken(content: string, i: nat, n: int, len: nat)
    requires INT_MIN <= n <= INT_MAX && TextAt(content, i, IntText(n)) && NumberEnds(content, i + |IntText(n)|)
    requires i + len <= |content| && forall x :: i <= x < i + len ==> NumberChar(content[x])
    requires len == 63 || i + len == |content| || !NumberChar(content[i + len])
    ensures content[i..i + len] == IntText(n)
  {
    IntTextShort(n);
    var t := IntText(n);
    if len < |t| {
      TextChar(content, i, t, len);
      assert false;
    }
  }

  // ----- texts of a tree -----

  predicate Word(content: string, i: nat, w: string) {
    i + |w| <= |content| && content[i..i + |w|] == w
  }

  // The text from i to j stands for v.
  ghost predicate Spells(content: string, strtod: string -> (int, nat), i: nat, j: nat, v: Json)
    requires Sane(strtod)
    decreases v, 1
  {
    match v
    case Null => Word(content, i, "null") && j == i + 4
    case False => Word(content, i, "false") && j == i + 5
    case True => Word(content, i, "true") && j == i + 4
    case String(s) => i < |content| && StringAt(content, i) == Some((s, j))
    case Number(n) => i < |content| && (content[i] == '-' || '0' <= content[i] <= '9') && NumberAt(content, strtod, i) == Some((n, j))
    case Array(items) =>
      && i < |content| && content[i] == '['
      && (if items == [] then Follows(content, i + 1, ']', j) else SpellsItems(content, strtod, i + 1, j, items))
    case Object(members) =>
      && i < |content| && content[i] == '{'
      && (if members == [] then Follows(content, i + 1, '}', j) else SpellsMembers(content, strtod, i + 1, j, members))
    case _ => false
  }

  // Behind white space at i there is the character c, and j is behind that.
  predicate Follows(content: string, i: nat, c: char, j: nat) {
    i <= |content| && NextSolid(content, i) < |content| && content[NextSolid(content, i)] == c && j == NextSolid(content, i) + 1
  }

  // White space and an element, as often as there are elements, with commas between them and a bracket at the end.
  ghost predicate SpellsItems(content: string, strtod: string -> (int, nat), i: nat, j: nat, items: seq<Json>)
    requires Sane(strtod) && items != []
    decreases items, 0
  {
    i <= |content| &&
    exists e: nat, f: nat ::
      && Spells(content, strtod, NextSolid(content, i), e, items[0])
      && Follows(content, e, if |items| == 1 then ']' else ',', f)
      && if |items| == 1 then j == f else SpellsItems(content, strtod, f, j, items[1..])
  }

  // White space, a key, a colon and a value.
  ghost predicate SpellsMember(content: string, strtod: string -> (int, nat), i: nat, e: nat, m: Member)
    requires Sane(strtod)
    decreases m, 0
  {
    i <= |content| && NextSolid(content, i) < |content| &&
    exists k: nat, c: nat ::
      && StringAt(content, NextSolid(content, i)) == Some((m.key, k))
      && Follows(content, k, ':', c)
      && Spells(content, strtod, NextSolid(content, c), e, m.value)
  }

  // As many members as there are, with commas between them and a brace at the end.
  ghost predicate SpellsMembers(content: string, strtod: string -> (int, nat), i: nat, j: nat, ms: seq<Member>)
    requires Sane(strtod) && ms != []
    decreases ms, 0
  {
    exists e: nat, f: nat ::
      && SpellsMember(content, strtod, i, e, ms[0])
      && Follows(content, e, if |ms| == 1 then '}' else ',', f)
      && if |ms| == 1 then j == f else SpellsMembers(content, strtod, f, j, ms[1..])
  }

  lemma FollowsAt(content: string, i: nat, p: nat)
    requires i <= |content| && p < |content| && NextSolid(content, i) == p
    ensures Follows(content, i, content[p], p + 1)
  {
  }

  lemma SpellsItemsBy(content: string, strtod: string -> (int, nat), i: nat, j: nat, items: seq<Json>, e: nat, f: nat)
    requires Sane(strtod) && items != [] && i <= |content| && Spells(content, strtod, NextSolid(content, i), e, items[0])
    requires Follows(content, e, if |items| == 1 then ']' else ',', f)
    requires if |items| == 1 then j == f else SpellsItems(content, strtod, f, j, items[1..])
    ensures SpellsItems(content, strtod, i, j, items)
  {
    hide Sane, Follows, NextSolid, StringAt, NumberAt, SpellsMembers;
  }

  lemma SpellsMemberBy(content: string, strtod: string -> (int, nat), i: nat, m: Member, k: nat, c: nat, e: nat)
    requires Sane(strtod) && i <= |content| && NextSolid(content, i) < |content|
    requires StringAt(content, NextSolid(content, i)) == Some((m.key, k)) && Follows(content, k, ':', c) && c <= |content|
    requires Spells(content, strtod, NextSolid(content, c), e, m.value)
    ensures SpellsMember(content, strtod, i, e, m)
  {
    hide Sane, Follows, NextSolid, StringAt, NumberAt, SpellsItems, SpellsMembers;
  }

  lemma SpellsMembersBy(content: string, strtod: string -> (int, nat), i: nat, j: nat, ms: seq<Member>, e: nat, f: nat)
    requires Sane(strtod) && ms != [] && SpellsMember(content, strtod, i, e, ms[0])
    requires Follows(content, e, if |ms| == 1 then '}' else ',', f)
    requires if |ms| == 1 then j == f else SpellsMembers(content, strtod, f, j, ms[1..])
    ensures SpellsMembers(content, strtod, i, j, ms)
  {
    hide Sane, Follows, NextSolid, StringAt, NumberAt, SpellsItems, Spells;
  }

  // ----- printed trees -----

  ghost predicate Stands(content: string, i: nat, want: Json, fmt: bool, d: nat) {
    Printable(want) && TextAt(content, i, Print(want, fmt, d)) && NumberEnds(content, i + |Print(want, fmt, d)|)
  }

  lemma NumberStands(content: string, i: nat, want: Json, fmt: bool, d: nat, len: nat)
    requires want.Number? && Stands(content, i, want, fmt, d)
    requires i + len <= |content| && forall x :: i <= x < i + len ==> NumberChar(content[x])
    requires len == 63 || i + len == |content| || !NumberChar(content[i + len])
    ensures INT_MIN <= want.n <= INT_MAX && content[i..i + len] == IntText(want.n) == Print(want, fmt, d)
  {
    NumberToken(content, i, want.n, len);
  }

  // The first character of a text tells what it is.
  lemma FirstChar(j: Json, fmt: bool, d: nat)
    requires Printable(j)
    ensures var t := Print(j, fmt, d);
            && t != [] && t[0] > ' '
            && (t[0] == 'n' <==> j.Null?) && (t[0] == 'f' <==> j.False?) && (t[0] == 't' <==> j.True?)
            && (t[0] == '\"' <==> j.String?) && (t[0] == '[' <==> j.Array?) && (t[0] == '{' <==> j.Object?)
            && ((t[0] == '-' || '0' <= t[0] <= '9') <==> j.Number?)
  {
  }

  // ----- elements in the text -----

  function Separator(fmt: bool): string {
    if fmt then ", " else ","
  }

  // The rest of an array from its k-th element on stands at pos, up to end.
  ghost predicate ItemsAt(content: string, pos: nat, want: Json, k: nat, fmt: bool, d: nat, end: nat) {
    && want.Array? && k < |want.items| && Printable(want)
    && TextAt(content, pos, PrintItems(want.items[k..], fmt, d) + "]")
    && end == pos + |PrintItems(want.items[k..], fmt, d)| + 1
  }

  lemma ItemsCons(items: seq<Json>, fmt: bool, d: nat)
    requires items != []
    ensures var text, sep, more := Print(items[0], fmt, d), if |items| > 1 then Separator(fmt) else "", PrintItems(items[1..], fmt, d);
            && PrintItems(items, fmt, d) + "]" == text + (sep + (more + "]"))
            && |PrintItems(items, fmt, d)| == |text| + |sep| + |more| && (|items| == 1 ==> more == "")
  {
    hide Print;
    var text, sep, more := Print(items[0], fmt, d), if |items| > 1 then Separator(fmt) else "", PrintItems(items[1..], fmt, d);
    assert PrintItems(items, fmt, d) == text + sep + more;
    assert text + sep + more + "]" == text + (sep + (more + "]"));
  }

  lemma ItemsIn(content: string, pos: nat, want: Json, k: nat, fmt: bool, d: nat, end: nat)
    requires ItemsAt(content, pos, want, k, fmt, d, end)
    ensures want.Array? && k < |want.items|
  {
  }

  lemma ItemStep(content: string, pos: nat, want: Json, k: nat, fmt: bool, d: nat, end: nat) returns (e: nat)
    requires ItemsAt(content, pos, want, k, fmt, d, end)
    ensures pos < e == pos + |Print(want.items[k], fmt, d)| < |content| && content[pos] == Print(want.items[k], fmt, d)[0] > ' '
    ensures Stands(content, pos, want.items[k], fmt, d)
    ensures k + 1 < |want.items| ==> content[e] == ',' && Blank(content, e + 1, e + |Separator(fmt)|)
    ensures k + 1 < |want.items| ==> ItemsAt(content, e + |Separator(fmt)|, want, k + 1, fmt, d, end)
    ensures k + 1 == |want.items| ==> content[e] == ']' && end == e + 1
    ensures content[e] > ' '
  {
    hide Print, PrintItems, TextAt;
    var rest := want.items[k..];
    assert rest[0] == want.items[k] && rest[1..] == want.items[k + 1..];
    ItemsCons(rest, fmt, d);
    var text, sep, more := Print(rest[0], fmt, d), if |rest| > 1 then Separator(fmt) else "", PrintItems(rest[1..], fmt, d);
    e := pos + |text|;
    TextSplit(content, pos, text, sep + (more + "]"));
    FirstChar(rest[0], fmt, d);
    TextChar(content, pos, text, 0);
    TextSplit(content, e, sep, more + "]");
    if |rest| > 1 {
      TextChar(content, e, sep, 0);
      if fmt {
        TextChar(content, e, sep, 1);
      }
      TextLength(content, e, sep);
    } else {
      assert more + "]" == "]";
      TextChar(content, e, "]", 0);
    }
  }

  lemma ArrayText(content: string, i: nat, want: Json, fmt: bool, d: nat)
    requires Stands(content, i, want, fmt, d) && want.Array?
    ensures i + 1 < |content| && content[i] == '['
    ensures want.items == [] ==> content[i + 1] == ']' && |Print(want, fmt, d)| == 2
    ensures want.items != [] ==> content[i + 1] > ' ' && content[i + 1] != ']' && ItemsAt(content, i + 1, want, 0, fmt, d + 1, i + |Print(want, fmt, d)|)
  {
    hide TextAt, PrintItems;
    var items := PrintItems(want.items, fmt, d + 1);
    assert Print(want, fmt, d) == "[" + (items + "]");
    TextSplit(content, i, "[", items + "]");
    TextChar(content, i, "[", 0);
    if want.items == [] {
      EmptyItems(fmt, d + 1);
      TextChar(content, i + 1, "]", 0);
    } else {
      assert want.items[0..] == want.items;
      var e := ItemStep(content, i + 1, want, 0, fmt, d + 1, i + |Print(want, fmt, d)|);
      FirstChar(want.items[0], fmt, d + 1);
    }
  }

  lemma EmptyItems(fmt: bool, d: nat)
    ensures PrintItems([], fmt, d) + "]" == "]"
  {
  }

  // ----- members in the text -----

  // What follows the last member.
  function Close(fmt: bool, d: nat): string {
    (if fmt then Tabs(d) else "") + "}"
  }

  // The text of members from the quote of the first key on.
  function FromQuote(ms: seq<Member>, fmt: bool, d: nat): string
    requires ms != [] && d > 0
    decreases |ms|, 1
  {
    Quoted(ms[0].key) + ((if fmt then ":\t" else ":") + (Print(ms[0].value, fmt, d) + AfterValue(ms, fmt, d)))
  }

  function AfterValue(ms: seq<Member>, fmt: bool, d: nat): string
    requires ms != [] && d > 0
    decreases |ms|, 0
  {
    if |ms| > 1 then "," + ((if fmt then "\n" + Tabs(d) else "") + FromQuote(ms[1..], fmt, d))
    else (if fmt then "\n" else "") + Close(fmt, d - 1)
  }

  lemma {:induction false} MembersText(ms: seq<Member>, fmt: bool, d: nat)
    requires ms != [] && d > 0
    ensures PrintMembers(ms, fmt, d) + Close(fmt, d - 1) == (if fmt then Tabs(d) else "") + FromQuote(ms, fmt, d)
    decreases |ms|
  {
    hide Quoted, Print, Tabs, Close;
    var indent, key, colon, value := if fmt then Tabs(d) else "", Quoted(ms[0].key), if fmt then ":\t" else ":", Print(ms[0].value, fmt, d);
    var comma, line, more := if |ms| > 1 then "," else "", if fmt then "\n" else "", PrintMembers(ms[1..], fmt, d);
    assert PrintMembers(ms, fmt, d) == indent + key + colon + value + comma + line + more;
    if |ms| > 1 {
      MembersText(ms[1..], fmt, d);
      assert more + Close(fmt, d - 1) == indent + FromQuote(ms[1..], fmt, d);
      assert AfterValue(ms, fmt, d) == comma + (line + (more + Close(fmt, d - 1)));
    } else {
      assert more == "" && AfterValue(ms, fmt, d) == comma + (line + (more + Close(fmt, d - 1)));
    }
    MembersAssoc(indent, key, colon, value, comma, line, more, Close(fmt, d - 1));
  }

  lemma MembersAssoc(a: string, b: string, c: string, e: string, f: string, g: string, h: string, z: string)
    ensures a + b + c + e + f + g + h + z == a + (b + (c + (e + (f + (g + (h + z))))))
  {
    assert g + h + z == g + (h + z);
    assert f + g + h + z == f + (g + (h + z));
    assert e + f + g + h + z == e + (f + (g + (h + z)));
    assert c + e + f + g + h + z == c + (e + (f + (g + (h + z))));
    assert b + c + e + f + g + h + z == b + (c + (e + (f + (g + (h + z)))));
  }

  // The rest of an object from the key of its k-th member on stands at q, up to end.
  ghost predicate MembersAt(content: string, q: nat, want: Json, k: nat, fmt: bool, d: nat, end: nat) {
    && want.Object? && k < |want.members| && Printable(want) && d > 0
    && TextAt(content, q, FromQuote(want.members[k..], fmt, d)) && end == q + |FromQuote(want.members[k..], fmt, d)|
  }

  lemma MembersIn(content: string, q: nat, want: Json, k: nat, fmt: bool, d: nat, end: nat)
    requires MembersAt(content, q, want, k, fmt, d, end)
    ensures want.Object? && k < |want.members| && d > 0
  {
  }

  // The white space in front of a key, or of the closing brace.
  function Gap(fmt: bool, d: nat): nat {
    if fmt then 1 + d else 0
  }

  lemma BlankTabs(content: string, i: nat, n: nat)
    requires TextAt(content, i, "\n" + Tabs(n))
    ensures Blank(content, i, i + 1 + n)
  {
    var t := "\n" + Tabs(n);
    forall x | i <= x < i + 1 + n ensures content[x] <= ' ' {
      TextChar(content, i, t, x - i);
    }
  }

  lemma MemberStep(content: string, q: nat, want: Json, k: nat, fmt: bool, d: nat, end: nat) returns (c: nat, v: nat, e: nat)
    requires MembersAt(content, q, want, k, fmt, d, end)
    ensures q < c < v < e < |content| && content[q] == '\"' && StringAt(content, q) == Some((want.members[k].key, c))
    ensures content[c] == ':' && Blank(content, c + 1, v) && content[v] > ' '
    ensures Stands(content, v, want.members[k].value, fmt, d) && e == v + |Print(want.members[k].value, fmt, d)|
    ensures k + 1 < |want.members| ==> content[e] == ',' && Blank(content, e + 1, e + 1 + Gap(fmt, d)) &&
                                       MembersAt(content, e + 1 + Gap(fmt, d), want, k + 1, fmt, d, end)
    ensures k + 1 == |want.members| ==> var z := e + Gap(fmt, d - 1); z < |content| && Blank(content, e, z) && content[z] == '}' && end == z + 1
    ensures e == q + |Quoted(want.members[k].key)| + (if fmt then 2 else 1) + |Print(want.members[k].value, fmt, d)|
  {
    hide Print, Quoted, TextAt, StringAt, FromQuote, AfterValue, Tabs, Blank;
    var rest := want.members[k..];
    assert rest[0] == want.members[k] && rest[1..] == want.members[k + 1..];
    var key, colon, text, after := Quoted(rest[0].key), if fmt then ":\t" else ":", Print(rest[0].value, fmt, d), AfterValue(rest, fmt, d);
    FromQuoteIs(rest, fmt, d);
    c := q + |key|;
    v := c + |colon|;
    e := v + |text|;
    TextSplit(content, q, key, colon + (text + after));
    TextSplit(content, c, colon, text + after);
    TextSplit(content, v, text, after);
    KeyReads(content, q, rest[0].key);
    TextChar(content, c, colon, 0);
    if fmt {
      TextChar(content, c, colon, 1);
    }
    assert Blank(content, c + 1, v) by { ColonBlank(content, c, v, fmt); }
    FirstChar(rest[0].value, fmt, d);
    TextChar(content, v, text, 0);
    AfterStep(content, e, want, k, fmt, d, end);
  }

  lemma FromQuoteIs(ms: seq<Member>, fmt: bool, d: nat)
    requires ms != [] && d > 0
    ensures FromQuote(ms, fmt, d) == Quoted(ms[0].key) + ((if fmt then ":\t" else ":") + (Print(ms[0].value, fmt, d) + AfterValue(ms, fmt, d)))
  {
  }

  lemma KeyReads(content: string, q: nat, key: string)
    requires '\0' !in key && TextAt(content, q, Quoted(key))
    ensures q < |content| && content[q] == '\"' && StringAt(content, q) == Some((key, q + |Quoted(key)|)) && |Quoted(key)| >= 2
  {
    hide StringAt;
    QuotedReads(content, q, key);
    TextChar(content, q, Quoted(key), 0);
  }

  lemma ColonBlank(content: string, c: nat, v: nat, fmt: bool)
    requires v == c + (if fmt then 2 else 1) && v <= |content| && (fmt ==> content[c + 1] == '\t')
    ensures Blank(content, c + 1, v)
  {
  }

  // Behind the value of a member.
  lemma AfterStep(content: string, e: nat, want: Json, k: nat, fmt: bool, d: nat, end: nat)
    requires want.Object? && k < |want.members| && Printable(want) && d > 0
    requires TextAt(content, e, AfterValue(want.members[k..], fmt, d)) && end == e + |AfterValue(want.members[k..], fmt, d)|
    ensures e < |content| && !NumberChar(content[e])
    ensures k + 1 < |want.members| ==> content[e] == ',' && Blank(content, e + 1, e + 1 + Gap(fmt, d)) &&
                                       MembersAt(content, e + 1 + Gap(fmt, d), want, k + 1, fmt, d, end)
    ensures k + 1 == |want.members| ==> var z := e + Gap(fmt, d - 1); z < |content| && Blank(content, e, z) && content[z] == '}' && end == z + 1
  {
    hide TextAt, FromQuote, Tabs;
    var rest := want.members[k..];
    assert rest[1..] == want.members[k + 1..];
    if |rest| > 1 {
      var gap, more := if fmt then "\n" + Tabs(d) else "", FromQuote(rest[1..], fmt, d);
      assert |gap| == Gap(fmt, d) by { TabsLength(d); }
      TextSplit(content, e, ",", gap + more);
      TextSplit(content, e + 1, gap, more);
      TextChar(content, e, ",", 0);
      GapBlank(content, e + 1, fmt, d);
    } else {
      var gap := if fmt then "\n" + Tabs(d - 1) else "";
      assert AfterValue(rest, fmt, d) == gap + "}" by { LastGap(fmt, d - 1); }
      assert |gap| == Gap(fmt, d - 1) by { TabsLength(d - 1); }
      TextSplit(content, e, gap, "}");
      TextChar(content, e + |gap|, "}", 0);
      GapBlank(content, e, fmt, d - 1);
      if fmt {
        TextChar(content, e, gap, 0);
      }
    }
  }

  lemma TabsLength(n: nat)
    ensures |Tabs(n)| == n
  {
  }

  lemma LastGap(fmt: bool, n: nat)
    ensures (if fmt then "\n" else "") + Close(fmt, n) == (if fmt then "\n" + Tabs(n) else "") + "}"
  {
    if fmt {
      assert "\n" + (Tabs(n) + "}") == "\n" + Tabs(n) + "}";
    }
  }

  lemma GapBlank(content: string, i: nat, fmt: bool, n: nat)
    requires TextAt(content, i, if fmt then "\n" + Tabs(n) else "")
    ensures Blank(content, i, i + Gap(fmt, n))
  {
    if fmt {
      BlankTabs(content, i, n);
    }
  }

  lemma ObjectText(content: string, i: nat, want: Json, fmt: bool, d: nat) returns (q: nat)
    requires Stands(content, i, want, fmt, d) && want.Object?
    ensures i < q < |content| && content[i] == '{' && Blank(content, i + 1, q) && content[q] > ' '
    ensures want.members == [] ==> content[q] == '}' && i + |Print(want, fmt, d)| == q + 1
    ensures want.members != [] ==> content[q] != '}' && MembersAt(content, q, want, 0, fmt, d + 1, i + |Print(want, fmt, d)|)
  {
    hide TextAt, PrintMembers, FromQuote, Quoted, Tabs, StringAt;
    var ms := want.members;
    var n := if ms == [] then d else d + 1;
    var gap, rest := if fmt then "\n" + Tabs(n) else "", if ms == [] then "}" else FromQuote(ms, fmt, d + 1);
    ObjectParts(ms, fmt, d);
    assert Print(want, fmt, d) == "{" + (gap + rest) by { PrintObject(ms, fmt, d); }
    assert |gap| == Gap(fmt, n) by { TabsLength(n); }
    q := i + 1 + |gap|;
    TextSplit(content, i, "{", gap + rest);
    TextSplit(content, i + 1, gap, rest);
    TextChar(content, i, "{", 0);
    GapBlank(content, i + 1, fmt, n);
    if ms == [] {
      TextChar(content, q, "}", 0);
    } else {
      assert ms[0..] == ms;
      var c, v, e := MemberStep(content, q, want, 0, fmt, d + 1, i + |Print(want, fmt, d)|);
    }
  }

  lemma PrintObject(ms: seq<Member>, fmt: bool, d: nat)
    ensures Print(Object(ms), fmt, d) == "{" + ((if fmt then "\n" else "") + (PrintMembers(ms, fmt, d + 1) + Close(fmt, d)))
  {
    hide PrintMembers, Tabs;
    var a, b, c := if fmt then "\n" else "", PrintMembers(ms, fmt, d + 1), if fmt then Tabs(d) else "";
    assert "{" + a + b + c + "}" == "{" + (a + (b + (c + "}")));
  }

  // The text of an object behind its opening brace.
  lemma ObjectParts(ms: seq<Member>, fmt: bool, d: nat)
    ensures var n := if ms == [] then d else d + 1;
            (if fmt then "\n" else "") + (PrintMembers(ms, fmt, d + 1) + Close(fmt, d)) ==
            (if fmt then "\n" + Tabs(n) else "") + (if ms == [] then "}" else FromQuote(ms, fmt, d + 1))
  {
    hide FromQuote, Tabs;
    if ms == [] {
      assert PrintMembers(ms, fmt, d + 1) + Close(fmt, d) == Close(fmt, d);
      LastGap(fmt, d);
    } else {
      MembersText(ms, fmt, d + 1);
      assert fmt ==> "\n" + (Tabs(d + 1) + FromQuote(ms, fmt, d + 1)) == "\n" + Tabs(d + 1) + FromQuote(ms, fmt, d + 1);
    }
  }

  lemma StringStands(content: string, i: nat, want: Json, fmt: bool, d: nat)
    requires want.String? && Stands(content, i, want, fmt, d)
    ensures i < |content| && StringAt(content, i) == Some((want.s, i + |Print(want, fmt, d)|))
  {
    QuotedReads(content, i, want.s);
  }

  /** The text that is printed for a tree is a text of the tree. */
  lemma {:induction false} PrintedSpells(content: string, strtod: string -> (int, nat), i: nat, want: Json, fmt: bool, d: nat)
    requires Exact(strtod) && Stands(content, i, want, fmt, d)
    ensures Spells(content, strtod, i, i + |Print(want, fmt, d)|, want)
    decreases want, 1, 0
  {
    hide Exact, PrintItems, PrintMembers, StringAt, SpellsItems, SpellsMembers, ItemsAt, MembersAt;
    FirstChar(want, fmt, d);
    TextChar(content, i, Print(want, fmt, d), 0);
    match want
    case String(s) =>
      StringStands(content, i, want, fmt, d);
    case Number(n) =>
      NumberSpells(content, strtod, i, want, fmt, d);
    case Array(items) =>
      ArrayText(content, i, want, fmt, d);
      if items == [] {
        SolidAt(content, i + 1, i + 1);
      } else {
        ItemsSpell(content, strtod, i + 1, i + 1, want, 0, fmt, d + 1, i + |Print(want, fmt, d)|);
        assert items[0..] == items;
      }
    case Object(members) =>
      var q := ObjectText(content, i, want, fmt, d);
      if members == [] {
        SolidAt(content, i + 1, q);
      } else {
        MembersSpell(content, strtod, i + 1, q, want, 0, fmt, d + 1, i + |Print(want, fmt, d)|);
        assert members[0..] == members;
      }
    case _ =>
  }

  lemma NumberSpells(content: string, strtod: string -> (int, nat), i: nat, want: Json, fmt: bool, d: nat)
    requires Exact(strtod) && want.Number? && Stands(content, i, want, fmt, d)
    ensures Sane(strtod) && i < |content| && NumberAt(content, strtod, i) == Some((want.n, i + |Print(want, fmt, d)|))
  {
    hide *;
    ExactSane(strtod);
    NumberStarts(content, i, want, fmt, d);
    ExactInt(strtod, want.n);
    RunMaximal(content, i, 63);
    NumberStands(content, i, want, fmt, d, Run(content, i, 63));
    NumberIs(content, strtod, i, IntText(want.n));
  }

  lemma NumberIs(content: string, strtod: string -> (int, nat), i: nat, t: string)
    requires Sane(strtod) && i <= |content| && content[i..i + Run(content, i, 63)] == t
    ensures strtod(t).1 <= |t| && NumberAt(content, strtod, i) == if strtod(t).1 == 0 then None else Some((strtod(t).0, i + strtod(t).1))
  {
    hide Run;
  }

  lemma NumberStarts(content: string, i: nat, want: Json, fmt: bool, d: nat)
    requires want.Number? && Stands(content, i, want, fmt, d)
    ensures i < |content| && |Print(want, fmt, d)| > 0 && INT_MIN <= want.n <= INT_MAX
  {
    FirstChar(want, fmt, d);
    TextChar(content, i, Print(want, fmt, d), 0);
  }

  lemma ExactInt(strtod: string -> (int, nat), n: int)
    requires Exact(strtod) && INT_MIN <= n <= INT_MAX
    ensures strtod(IntText(n)) == (n, |IntText(n)|)
  {
  }

  lemma {:induction false} RunMaximal(content: string, i: nat, most: nat)
    requires i <= |content|
    ensures var k := Run(content, i, most);
            && (forall x :: i <= x < i + k ==> NumberChar(content[x]))
            && (k == most || i + k == |content| || !NumberChar(content[i + k]))
    decreases most
  {
    hide NumberChar;
    if most > 0 && i < |content| && NumberChar(content[i]) {
      RunMaximal(content, i + 1, most - 1);
    }
  }

  // White space from i to pos, and from there the elements from the k-th on.
  lemma {:induction false} ItemsSpell(content: string, strtod: string -> (int, nat), i: nat, pos: nat, want: Json, k: nat, fmt: bool, d: nat, end: nat)
    requires Exact(strtod) && ItemsAt(content, pos, want, k, fmt, d, end) && Blank(content, i, pos)
    ensures Sane(strtod) && want.Array? && k < |want.items| && SpellsItems(content, strtod, i, end, want.items[k..])
    decreases want, 0, |want.items| - k
  {
    hide *;
    ExactSane(strtod);
    ItemsIn(content, pos, want, k, fmt, d, end);
    var e := ItemStep(content, pos, want, k, fmt, d, end);
    SolidAt(content, i, pos);
    PrintedSpells(content, strtod, pos, want.items[k], fmt, d);
    SolidHere(content, e);
    var rest := want.items[k..];
    assert rest[0] == want.items[k] && rest[1..] == want.items[k + 1..];
    FollowsAt(content, e, e);
    if |rest| > 1 {
      ItemsSpell(content, strtod, e + 1, e + |Separator(fmt)|, want, k + 1, fmt, d, end);
    }
    SpellsItemsBy(content, strtod, i, end, rest, e, e + 1);
  }

  lemma {:induction false} MembersSpell(content: string, strtod: string -> (int, nat), i: nat, q: nat, want: Json, k: nat, fmt: bool, d: nat, end: nat)
    requires Exact(strtod) && MembersAt(content, q, want, k, fmt, d, end) && Blank(content, i, q)
    ensures Sane(strtod) && want.Object? && k < |want.members| && SpellsMembers(content, strtod, i, end, want.members[k..])
    decreases want, 0, |want.members| - k
  {
    hide *;
    ExactSane(strtod);
    MembersIn(content, q, want, k, fmt, d, end);
    var c, v, e := MemberStep(content, q, want, k, fmt, d, end);
    SolidAt(content, i, q);
    SolidHere(content, c);
    SolidAt(content, c + 1, v);
    PrintedSpells(content, strtod, v, want.members[k].value, fmt, d);
    var rest := want.members[k..];
    assert rest[0] == want.members[k] && rest[1..] == want.members[k + 1..];
    var z := if |rest| == 1 then e + Gap(fmt, d - 1) else e;
    if |rest| == 1 {
      SolidAt(content, e, z);
    } else {
      SolidHere(content, e);
    }
    FollowsAt(content, c, c);
    FollowsAt(content, e, z);
    if |rest| > 1 {
      MembersSpell(content, strtod, z + 1, z + 1 + Gap(fmt, d), want, k + 1, fmt, d, end);
    }
    SpellsMemberBy(content, strtod, i, rest[0], c, c + 1, e);
    SpellsMembersBy(content, strtod, i, end, rest, e, z + 1);
  }
}
