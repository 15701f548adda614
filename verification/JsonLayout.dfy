/**
 What printed text looks like (stage/cjson/cJSON.c, `print_number`, `print_string_ptr`, `print_array`,
 `print_object`): one line for each member, indented by its depth, and no characters between the parts otherwise.
 */
module JsonLayout {
  import opened JsonValue
  import opened JsonPointer
  import opened JsonPrint

  // All parts, one behind the other.
  function Flat(parts: seq<string>): string {
    if parts == [] then "" else parts[0] + Flat(parts[1..])
  }

  // The k-th member in formatted text: a line of its own with its key, a tab and its value.
  function MemberLine(ms: seq<Member>, k: nat, depth: nat): string
    requires k < |ms|
  {
    Tabs(depth) + Quoted(ms[k].key) + ":\t" + Print(ms[k].value, true, depth) + (if k + 1 < |ms| then "," else "") + "\n"
  }

  function MemberText(ms: seq<Member>, k: nat, depth: nat): string
    requires k < |ms|
  {
    Quoted(ms[k].key) + ":" + Print(ms[k].value, false, depth) + if k + 1 < |ms| then "," else ""
  }

  function ItemText(items: seq<Json>, k: nat, fmt: bool, depth: nat): string
    requires k < |items|
  {
    Print(items[k], fmt, depth) + if k + 1 < |items| then if fmt then ", " else "," else ""
  }

  function Lines(ms: seq<Member>, depth: nat): seq<string> {
    seq(|ms|, k requires 0 <= k < |ms| => MemberLine(ms, k, depth))
  }

  function Texts(ms: seq<Member>, depth: nat): seq<string> {
    seq(|ms|, k requires 0 <= k < |ms| => MemberText(ms, k, depth))
  }

  function ItemTexts(items: seq<Json>, fmt: bool, depth: nat): seq<string> {
    seq(|items|, k requires 0 <= k < |items| => ItemText(items, k, fmt, depth))
  }

  lemma {:induction false} MembersFlat(ms: seq<Member>, depth: nat)
    ensures PrintMembers(ms, true, depth) == Flat(Lines(ms, depth))
    ensures PrintMembers(ms, false, depth) == Flat(Texts(ms, depth))
    decreases |ms|
  {
    hide Print, Quoted, Tabs;
    if ms != [] {
      MembersFlat(ms[1..], depth);
      assert Lines(ms, depth)[1..] == Lines(ms[1..], depth);
      assert Texts(ms, depth)[1..] == Texts(ms[1..], depth);
      MembersLine(ms, depth);
    }
  }

  lemma MembersLine(ms: seq<Member>, depth: nat)
    requires ms != []
    ensures PrintMembers(ms, true, depth) == MemberLine(ms, 0, depth) + PrintMembers(ms[1..], true, depth)
    ensures PrintMembers(ms, false, depth) == MemberText(ms, 0, depth) + PrintMembers(ms[1..], false, depth)
  {
    hide Print, Quoted, Tabs;
    var q, p := Quoted(ms[0].key), Print(ms[0].value, false, depth);
    var c := if |ms| > 1 then "," else "";
    assert "" + q + ":" + p + c + "" == q + ":" + p + c;
  }

  lemma {:induction false} ItemsFlat(items: seq<Json>, fmt: bool, depth: nat)
    ensures PrintItems(items, fmt, depth) == Flat(ItemTexts(items, fmt, depth))
    decreases |items|
  {
    hide Print;
    if items != [] {
      ItemsFlat(items[1..], fmt, depth);
      assert ItemTexts(items, fmt, depth)[1..] == ItemTexts(items[1..], fmt, depth);
    }
  }

  /** An object, formatted: a brace, a line for each member, indented one deeper, and a brace at its own depth. */
  lemma ObjectLines(ms: seq<Member>, depth: nat)
    ensures Print(Object(ms), true, depth) == "{" + "\n" + Flat(Lines(ms, depth + 1)) + Tabs(depth) + "}"
    ensures Print(Object(ms), false, depth) == "{" + Flat(Texts(ms, depth + 1)) + "}"
  {
    hide PrintMembers, Lines, Texts, Tabs;
    MembersFlat(ms, depth + 1);
    var m := PrintMembers(ms, false, depth + 1);
    assert "{" + "" + m + "" + "}" == "{" + m + "}";
  }

  /** An array, formatted or not: its elements on one line. */
  lemma ArrayLine(items: seq<Json>, fmt: bool, depth: nat)
    ensures Print(Array(items), fmt, depth) == "[" + Flat(ItemTexts(items, fmt, depth + 1)) + "]"
  {
    hide PrintItems, ItemTexts;
    ItemsFlat(items, fmt, depth + 1);
  }

  /** A number is printed with a minus if it is negative, and digits of its value without a superfluous zero. */
  lemma NumberText(n: int, fmt: bool, depth: nat)
    ensures var t := Print(Number(n), fmt, depth);
            var digits := if n < 0 then t[1..] else t;
            && (n < 0 ==> t != [] && t[0] == '-') && digits != [] && (forall i :: 0 <= i < |digits| ==> '0' <= digits[i] <= '9')
            && NatOf(digits) == (if n < 0 then -n else n) && (digits[0] == '0' ==> |digits| == 1)
  {
    var m := if n < 0 then -n else n;
    NatDecimal(m);
    DecimalLead(m);
    if n < 0 {
      assert ("-" + Decimal(m))[1..] == Decimal(m);
    }
  }

  /** Characters that need no escape are printed as they are. */
  lemma {:induction false} PlainString(s: string)
    requires forall i :: 0 <= i < |s| ==> s[i] >= ' ' && s[i] != '\"' && s[i] != '\\'
    ensures EscapeText(s) == s
    decreases |s|
  {
    if s != [] {
      PlainString(s[1..]);
      assert s == [s[0]] + s[1..];
    }
  }
}
