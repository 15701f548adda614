/**
 The text of a tree (stage/cjson/cJSON.c, `print_string_ptr`, `print_number`, `print_array`,
 `print_object`, `print_value`), and reading strings back.
 */
module JsonPrint {
  import opened Basics
  import opened JsonValue
  import opened JsonPointer
  import opened JsonUnicode
  import opened JsonString

  // ----- strings -----

  function HexChar(n: nat): char
    requires n < 16
  {
    if n < 10 then ('0' as int + n) as char else ('a' as int + n - 10) as char
  }

  function EscapeChar(c: char): (r: string)
    ensures |r| in [1, 2, 6] && '\0' !in r
  {
    if c == '\"' then "\\\""
    else if c == '\\' then "\\\\"
    else if c as int == 0x08 then "\\b"
    else if c as int == 0x0C then "\\f"
    else if c == '\n' then "\\n"
    else if c == '\r' then "\\r"
    else if c == '\t' then "\\t"
    else if (c as int) < 32 then ['\\', 'u', '0', '0', HexChar(c as int / 16), HexChar(c as int % 16)]
    else [c]
  }

  function EscapeText(s: string): string {
    if s == [] then [] else EscapeChar(s[0]) + EscapeText(s[1..])
  }

  function Quoted(s: string): string {
    "\"" + EscapeText(s) + "\""
  }

  // The text stands in the content at a position.
  ghost predicate TextAt(content: string, i: nat, t: string) {
    i + |t| <= |content| && content[i..i + |t|] == t
  }

  lemma TextSplit(content: string, i: nat, a: string, b: string)
    ensures TextAt(content, i, a + b) <==> TextAt(content, i, a) && TextAt(content, i + |a|, b)
  {
    if i + |a| + |b| <= |content| {
      assert content[i..i + |a| + |b|] == content[i..i + |a|] + content[i + |a|..i + |a| + |b|];
      assert TextAt(content, i, a + b) ==> content[i..i + |a|] == (a + b)[..|a|] && content[i + |a|..i + |a| + |b|] == (a + b)[|a|..];
    }
  }

  lemma TextChar(content: string, i: nat, t: string, x: nat)
    requires TextAt(content, i, t) && x < |t|
    ensures i + x < |content| && content[i + x] == t[x]
  {
    assert content[i..i + |t|][x] == content[i + x];
  }

  lemma RoundEscape(c: char, rest: string)
    requires c != '\0'
    ensures Round(EscapeChar(c) + rest) == Some((|EscapeChar(c)|, [c]))
  {
    var t := EscapeChar(c) + rest;
    if |EscapeChar(c)| == 6 {
      assert t[2..6] == EscapeChar(c)[2..6];
      assert Hex4(t[2..6]) == c as int;
      assert Literal(t) == Some((c as int, 6));
      assert Utf8(c as int) == [c];
    }
  }

  lemma {:induction false} BodyEscape(s: string)
    requires '\0' !in s
    ensures Body(EscapeText(s)) == Some(s)
  {
    hide Round;
    if s == [] {
      assert EscapeText(s) == [];
    } else {
      var t := EscapeText(s);
      BodyEscape(s[1..]);
      RoundEscape(s[0], EscapeText(s[1..]));
      RoundBody(t);
      assert t[|EscapeChar(s[0])|..] == EscapeText(s[1..]);
      assert [s[0]] + s[1..] == s;
    }
  }

  // No quote closes the literal within an escaped character.
  lemma CloseStep(content: string, i: nat, c: char)
    requires TextAt(content, i, EscapeChar(c))
    ensures ClosingQuote(content, i) == ClosingQuote(content, i + |EscapeChar(c)|)
  {
    var e := EscapeChar(c);
    TextChar(content, i, e, 0);
    if |e| == 6 {
      TextChar(content, i, e, 2);
      TextChar(content, i, e, 3);
      TextChar(content, i, e, 4);
      TextChar(content, i, e, 5);
      assert ClosingQuote(content, i + 2) == ClosingQuote(content, i + 3);
      assert ClosingQuote(content, i + 3) == ClosingQuote(content, i + 4);
      assert ClosingQuote(content, i + 4) == ClosingQuote(content, i + 5);
      assert ClosingQuote(content, i + 5) == ClosingQuote(content, i + 6);
    }
  }

  lemma {:induction false} QuoteCloses(content: string, i: nat, s: string)
    requires TextAt(content, i, EscapeText(s) + "\"")
    ensures ClosingQuote(content, i) == Some(i + |EscapeText(s)|)
    decreases |s|
  {
    hide EscapeChar, TextAt;
    if s == [] {
      assert EscapeText(s) + "\"" == "\"";
      QuoteHere(content, i);
    } else {
      var e, rest := EscapeChar(s[0]), EscapeText(s[1..]) + "\"";
      assert EscapeText(s) + "\"" == e + rest;
      TextSplit(content, i, e, rest);
      TextLength(content, i, e);
      QuoteCloses(content, i + |e|, s[1..]);
      CloseStep(content, i, s[0]);
    }
  }

  lemma QuoteHere(content: string, i: nat)
    requires TextAt(content, i, "\"")
    ensures i < |content| && ClosingQuote(content, i) == Some(i)
  {
    assert content[i..i + 1][0] == content[i];
  }

  lemma TextLength(content: string, i: nat, t: string)
    requires TextAt(content, i, t)
    ensures i + |t| <= |content|
  {
  }

  /** A printed string is read back, for every string without zeros. */
  lemma QuotedReads(content: string, i: nat, s: string)
    requires '\0' !in s && TextAt(content, i, Quoted(s))
    ensures i < |content| && StringAt(content, i) == Some((s, i + |Quoted(s)|))
  {
    hide Body, ClosingQuote;
    var e := EscapeText(s);
    assert Quoted(s) == "\"" + (e + "\"");
    TextSplit(content, i, "\"", e + "\"");
    QuoteCloses(content, i + 1, s);
    assert content[i..i + 1][0] == content[i];
    TextSplit(content, i + 1, e, "\"");
    BodyEscape(s);
  }

  // ----- trees -----

  const INT_MAX := 0x7FFF_FFFF
  const INT_MIN := -0x8000_0000

  // `%d`
  function IntText(n: int): (t: string)
    ensures t != [] && (t[0] == '-' || '0' <= t[0] <= '9') && '\0' !in t
  {
    if n < 0 then "-" + Decimal(-n) else Decimal(n)
  }

  function Tabs(n: nat): string {
    seq(n, _ => '\t')
  }

  // The text of a value at a nesting depth, formatted or not.
  function Print(j: Json, fmt: bool, depth: nat): string
    decreases j, 1
  {
    match j
    case Null => "null"
    case False => "false"
    case True => "true"
    case Number(n) => IntText(n)
    case String(s) => Quoted(s)
    case Raw(s) => s
    case Array(items) => "[" + PrintItems(items, fmt, depth + 1) + "]"
    case Object(members) => "{" + (if fmt then "\n" else "") + PrintMembers(members, fmt, depth + 1) + (if fmt then Tabs(depth) else "") + "}"
    case Invalid => ""
  }

  function PrintItems(items: seq<Json>, fmt: bool, depth: nat): string
    decreases items, 0
  {
    if items == [] then ""
    else Print(items[0], fmt, depth) + (if |items| > 1 then if fmt then ", " else "," else "") + PrintItems(items[1..], fmt, depth)
  }

  function PrintMembers(ms: seq<Member>, fmt: bool, depth: nat): string
    decreases ms, 0
  {
    if ms == [] then ""
    else
      (if fmt then Tabs(depth) else "") + Quoted(ms[0].key) + (if fmt then ":\t" else ":") + Print(ms[0].value, fmt, depth) +
      (if |ms| > 1 then "," else "") + (if fmt then "\n" else "") + PrintMembers(ms[1..], fmt, depth)
  }

  // Trees with a text: no invalid and raw nodes, `int` numbers, C strings.
  ghost predicate Printable(j: Json)
    decreases j
  {
    match j
    case Invalid => false
    case Raw(_) => false
    case Number(n) => INT_MIN <= n <= INT_MAX
    case String(s) => '\0' !in s
    case Array(items) => forall i :: 0 <= i < |items| ==> Printable(items[i])
    case Object(members) => forall i :: 0 <= i < |members| ==> '\0' !in members[i].key && Printable(members[i].value)
    case _ => true
  }

  function Nesting(j: Json): nat
    decreases j, 1
  {
    match j
    case Array(items) => 1 + ItemsNesting(items)
    case Object(members) => 1 + MembersNesting(members)
    case _ => 0
  }

  function ItemsNesting(items: seq<Json>): nat
    decreases items, 0
  {
    if items == [] then 0 else Max(Nesting(items[0]), ItemsNesting(items[1..]))
  }

  function MembersNesting(ms: seq<Member>): nat
    decreases ms, 0
  {
    if ms == [] then 0 else Max(Nesting(ms[0].value), MembersNesting(ms[1..]))
  }

  lemma {:induction false} ItemNesting(items: seq<Json>, i: nat)
    requires i < |items|
    ensures Nesting(Array(items)) > Nesting(items[i])
    decreases |items|
  {
    if i > 0 {
      ItemNesting(items[1..], i - 1);
    }
  }

  lemma {:induction false} MemberNesting(ms: seq<Member>, i: nat)
    requires i < |ms|
    ensures Nesting(Object(ms)) > Nesting(ms[i].value)
    decreases |ms|
  {
    if i > 0 {
      MemberNesting(ms[1..], i - 1);
    }
  }

  function Max(a: nat, b: nat): nat {
    if a > b then a else b
  }
}
