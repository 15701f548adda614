/**
 The printer (stage/cjson/cJSON.c, `ensure`, `update_offset`, `print_string_ptr`,
 `print_number`, `print_array`, `print_object`, `print_value`): it writes the text of a tree
 into a buffer that grows, and fails only where the text has no room.
 */
module JsonOutput {
  import opened Basics
  import opened JsonValue
  import opened JsonCompare
  import opened JsonPrint
  import opened JsonGrammar
  import opened JsonParse

  // Strings are C strings, numbers are `int`.
  ghost predicate CText(j: Json)
    decreases j
  {
    match j
    case Number(n) => INT_MIN <= n <= INT_MAX
    case String(s) => '\0' !in s
    case Raw(s) => '\0' !in s
    case Array(items) => forall i :: 0 <= i < |items| ==> CText(items[i])
    case Object(members) => forall i :: 0 <= i < |members| ==> '\0' !in members[i].key && CText(members[i].value)
    case _ => true
  }

  lemma {:induction false} EscapeNoZero(s: string)
    requires '\0' !in s
    ensures '\0' !in EscapeText(s)
  {
    if s != [] {
      EscapeNoZero(s[1..]);
    }
  }

  lemma {:induction false} PrintNoZero(j: Json, fmt: bool, depth: nat)
    requires CText(j)
    ensures '\0' !in Print(j, fmt, depth)
    decreases j, 1
  {
    match j
    case String(s) => EscapeNoZero(s);
    case Array(items) => ItemsNoZero(items, fmt, depth + 1);
    case Object(members) => MembersNoZero(members, fmt, depth + 1);
    case _ =>
  }

  lemma {:induction false} ItemsNoZero(items: seq<Json>, fmt: bool, depth: nat)
    requires forall i :: 0 <= i < |items| ==> CText(items[i])
    ensures '\0' !in PrintItems(items, fmt, depth)
    decreases items, 0
  {
    if items != [] {
      PrintNoZero(items[0], fmt, depth);
      ItemsNoZero(items[1..], fmt, depth);
    }
  }

  lemma {:induction false} MembersNoZero(ms: seq<Member>, fmt: bool, depth: nat)
    requires forall i :: 0 <= i < |ms| ==> '\0' !in ms[i].key && CText(ms[i].value)
    ensures '\0' !in PrintMembers(ms, fmt, depth)
    decreases ms, 0
  {
    hide Print;
    if ms != [] {
      EscapeNoZero(ms[0].key);
      PrintNoZero(ms[0].value, fmt, depth);
      MembersNoZero(ms[1..], fmt, depth);
    }
  }

  // The characters, and more for those that are escaped.
  method EscapedLength(s: string) returns (n: nat)
    ensures n == |EscapeText(s)|
  {
    hide EscapeText;
    EscapeEnds(s);
    var i, extra := 0, 0;
    while i < |s|
      invariant i <= |s| && i + extra == |EscapeText(s[..i])|
    {
      EscapeNext(s, i);
      if s[i] in ['\"', '\\', '\n', '\r', '\t'] || s[i] as int in [0x08, 0x0C] {
        extra := extra + 1;
      } else if (s[i] as int) < 32 {
        extra := extra + 5;
      }
      i := i + 1;
    }
    return i + extra;
  }

  class PrintBuffer {
    var buffer: array<char>
    var offset: nat
    var depth: nat
    const noalloc: bool
    const format: bool

    ghost predicate Valid()
      reads this`buffer, this`offset
    {
      offset <= buffer.Length <= INT_MAX && (buffer.Length == 0 || offset < buffer.Length)
    }

    // The text so far.
    ghost function Text(): string
      reads this`buffer, this`offset, buffer
      requires Valid()
    {
      buffer[..offset]
    }

    // How large the buffer can become.
    ghost function Room(): nat
      reads this`buffer
    {
      if noalloc then buffer.Length else INT_MAX
    }

    // The buffer holds a C string.
    ghost predicate Holds(s: string)
      reads this`buffer, buffer
    {
      |s| < buffer.Length && buffer[..|s|] == s && buffer[|s|] == '\0'
    }

    constructor (size: nat, format: bool, noalloc: bool)
      requires size <= INT_MAX
      ensures Valid() && fresh(buffer) && buffer.Length == size && offset == 0 && depth == 0 && this.format == format && this.noalloc == noalloc
    {
      buffer := new char[size];
      offset, depth := 0, 0;
      this.format, this.noalloc := format, noalloc;
    }

    /** `ensure`: room for so many more bytes and a zero, in the same buffer or in one twice as large. */
    method Ensure(needed: nat) returns (ok: bool)
      requires Valid()
      modifies this`buffer
      ensures Valid() && (buffer == old(buffer) || fresh(buffer))
      ensures ok <==> offset + needed + 1 <= old(Room())
      ensures ok ==> offset + needed + 1 <= buffer.Length && Text() == old(Text())
      ensures !ok ==> buffer == old(buffer)
      ensures Room() == old(Room())
    {
      if buffer.Length > 0 && offset >= buffer.Length {
        return false;
      }
      if needed > INT_MAX {
        return false;
      }
      var total := needed + offset + 1;
      if total <= buffer.Length {
        return true;
      }
      if noalloc {
        return false;
      }
      var size := total * 2;
      if total > INT_MAX / 2 {
        if total > INT_MAX {
          return false;
        }
        size := INT_MAX;
      }
      var larger := new char[size];
      forall x | 0 <= x < buffer.Length {
        larger[x] := buffer[x];
      }
      buffer := larger;
      return true;
    }

    method WriteAt(at: nat, t: string)
      requires at + |t| <= buffer.Length
      modifies buffer
      ensures buffer[..at + |t|] == old(buffer[..at]) + t
    {
      ghost var text := buffer[..at];
      var i := 0;
      while i < |t|
        invariant 0 <= i <= |t| && buffer[..at + i] == text + t[..i]
      {
        buffer[at + i] := t[i];
        assert buffer[..at + i] == text + t[..i];
        i := i + 1;
      }
    }

    // Room for so many bytes, a text written behind the one there is, and the offset moved.
    method Emit(t: string, needed: nat, advance: nat) returns (ok: bool)
      requires Valid() && advance <= |t| <= needed + 1 && advance <= needed
      modifies this`buffer, this`offset, buffer
      ensures Valid() && (buffer == old(buffer) || fresh(buffer)) && Room() == old(Room())
      ensures ok <==> old(offset) + needed + 1 <= Room()
      ensures ok ==> old(offset) + |t| <= buffer.Length && buffer[..old(offset) + |t|] == old(Text()) + t && offset == old(offset) + advance
      ensures !ok ==> offset == old(offset)
    {
      ok := Ensure(needed);
      if ok {
        WriteAt(offset, t);
        offset := offset + advance;
      }
    }

    // A text and a zero, the offset moved behind the text.
    method Append(t: string) returns (ok: bool)
      requires Valid()
      modifies this`buffer, this`offset, buffer
      ensures Valid() && (buffer == old(buffer) || fresh(buffer)) && Room() == old(Room())
      ensures ok <==> old(offset) + |t| + 2 <= Room()
      ensures ok ==> Text() == old(Text()) + t
    {
      ok := Emit(t + "\0", |t| + 1, |t|);
      if ok {
        assert Text() == buffer[..old(offset) + |t| + 1][..offset];
      }
    }

    /** `update_offset`: up to the next zero. */
    method UpdateOffset(ghost s: string)
      requires Valid() && Holds(s) && offset <= |s| && forall x :: offset <= x < |s| ==> s[x] != '\0'
      modifies this`offset
      ensures Valid() && offset == |s| && Text() == s
    {
      while buffer[offset] != '\0'
        invariant old(offset) <= offset <= |s| && Holds(s)
        decreases |s| - offset
      {
        assert offset < |s|;
        offset := offset + 1;
      }
    }

    /** `print_string_ptr`: the escapes are counted, then written. */
    method PrintString(s: string) returns (ok: bool)
      requires Valid()
      modifies this`buffer, buffer
      ensures Valid() && (buffer == old(buffer) || fresh(buffer)) && Room() == old(Room())
      ensures ok <==> offset + |Quoted(s)| + 2 <= Room()
      ensures ok ==> Holds(old(Text()) + Quoted(s))
    {
      hide EscapeText, EscapeChar, Holds, Quoted;
      QuotedLength(s);
      var length := EscapedLength(s);
      ok := Ensure(length + 3);
      if !ok {
        return;
      }
      ghost var text := Text();
      WriteAt(offset, "\"");
      WriteEscaped(offset + 1, s);
      WriteAt(offset + 1 + length, "\"\0");
      QuotedHolds(buffer[..], text, s);
      HoldsIs(text + Quoted(s));
    }

    method WriteEscaped(at: nat, s: string)
      requires at + |EscapeText(s)| <= buffer.Length
      modifies buffer
      ensures buffer[..at + |EscapeText(s)|] == old(buffer[..at]) + EscapeText(s)
    {
      hide EscapeText, EscapeChar;
      EscapeEnds(s);
      ghost var text := buffer[..at];
      var i, out := 0, at;
      while i < |s|
        invariant i <= |s| && out == at + |EscapeText(s[..i])| && out <= at + |EscapeText(s)|
        invariant buffer[..out] == text + EscapeText(s[..i])
      {
        EscapeNext(s, i);
        Assoc(text, EscapeText(s[..i]), EscapeChar(s[i]));
        WriteAt(out, EscapeChar(s[i]));
        out := out + |EscapeChar(s[i])|;
        i := i + 1;
      }
    }

    /** `print_value`: the text of the tree is in the buffer behind what was there. It fails exactly when there
        is an invalid node, or no room for the text, its zero and one byte more. */
    method PrintValue(j: Json) returns (ok: bool)
      requires Valid() && CText(j)
      modifies this, buffer
      ensures Valid() && (buffer == old(buffer) || fresh(buffer)) && Room() == old(Room())
      ensures ok <==> !HasInvalid(j) && old(offset) + |Print(j, format, old(depth))| + 2 <= Room()
      ensures ok ==> depth == old(depth) && old(offset) <= offset <= old(offset) + |Print(j, format, old(depth))|
      ensures ok ==> Holds(old(Text()) + Print(j, format, old(depth)))
      decreases j, 3
    {
      hide PrintItems, PrintMembers, Quoted, IntText;
      match j
      case Null => ok := PrintWord("null");
      case False => ok := PrintWord("false");
      case True => ok := PrintWord("true");
      case Number(n) => ok := PrintWord(IntText(n));
      case Raw(s) => ok := PrintWord(s);
      case String(s) => ok := PrintString(s);
      case Array(_) => ok := PrintArray(j);
      case Object(_) => ok := PrintObject(j);
      case Invalid => ok := false;
    }

    method PrintWord(t: string) returns (ok: bool)
      requires Valid()
      modifies this`buffer, this`offset, buffer
      ensures Valid() && (buffer == old(buffer) || fresh(buffer)) && Room() == old(Room()) && offset == old(offset)
      ensures ok <==> offset + |t| + 2 <= Room()
      ensures ok ==> Holds(old(Text()) + t)
    {
      ok := Emit(t + "\0", |t| + 1, 0);
      if ok {
        assert old(Text()) + (t + "\0") == old(Text()) + t + "\0";
        HoldsIs(old(Text()) + t);
      }
    }

    // A value, and the offset behind it.
    method PrintWhole(j: Json) returns (ok: bool)
      requires Valid() && CText(j)
      modifies this, buffer
      ensures Valid() && (buffer == old(buffer) || fresh(buffer)) && Room() == old(Room())
      ensures ok <==> !HasInvalid(j) && old(offset) + |Print(j, format, old(depth))| + 2 <= Room()
      ensures ok ==> depth == old(depth) && Text() == old(Text()) + Print(j, format, old(depth))
      decreases j, 4
    {
      hide Print, Holds;
      ghost var t := Text() + Print(j, format, depth);
      PrintNoZero(j, format, depth);
      ok := PrintValue(j);
      if ok {
        UpdateOffset(t);
      }
    }

    method PrintArray(j: Json) returns (ok: bool)
      requires Valid() && CText(j) && j.Array?
      modifies this, buffer
      ensures Valid() && (buffer == old(buffer) || fresh(buffer)) && Room() == old(Room())
      ensures ok <==> !HasInvalid(j) && old(offset) + |Print(j, format, old(depth))| + 2 <= Room()
      ensures ok ==> depth == old(depth) && old(offset) <= offset <= old(offset) + |Print(j, format, old(depth))|
      ensures ok ==> Holds(old(Text()) + Print(j, format, old(depth)))
      decreases j, 2
    {
      hide Print, PrintItems, Holds, CText, HasInvalid;
      ghost var before, items := Text(), PrintItems(j.items, format, depth + 1);
      ArrayIs(j, format, depth);
      ok := Emit("[", 1, 1);
      if !ok {
        return;
      }
      depth := depth + 1;
      ok := PrintElements(j);
      if !ok {
        return;
      }
      ok := PrintWord("]");
      depth := depth - 1;
      Bracketed(before, "[", items, "]");
    }

    // The elements and what is between them.
    method PrintElements(j: Json) returns (ok: bool)
      requires Valid() && CText(j) && j.Array?
      modifies this, buffer
      ensures Valid() && (buffer == old(buffer) || fresh(buffer)) && Room() == old(Room())
      ensures j.items != [] ==> (ok <==> !HasInvalid(j) && old(offset) + |PrintItems(j.items, format, old(depth))| + 2 <= Room())
      ensures j.items == [] ==> ok
      ensures ok ==> depth == old(depth) && Text() == old(Text()) + PrintItems(j.items, format, depth)
      decreases j, 1
    {
      hide PrintItems, Print;
      ghost var start, d := Text(), depth;
      var i := 0;
      assert j.items[0..] == j.items;
      while i < |j.items|
        invariant 0 <= i <= |j.items| && Valid() && (buffer == old(buffer) || fresh(buffer)) && Room() == old(Room()) && depth == d
        invariant Text() + PrintItems(j.items[i..], format, d) == start + PrintItems(j.items, format, d)
        invariant (forall x :: 0 <= x < i ==> !HasInvalid(j.items[x])) && (i > 0 ==> offset + 2 <= Room())
        decreases |j.items| - i
      {
        ghost var before := Text();
        ItemsFrom(j.items, i, format, d);
        ok := PrintElement(j, i);
        if !ok {
          return;
        }
        Assoc(before, ItemChunk(j.items, i, format, d), PrintItems(j.items[i + 1..], format, d));
        i := i + 1;
      }
      assert j.items[i..] == [];
      NoItems(format, d);
      assert Text() + [] == Text();
      return true;
    }

    method PrintElement(j: Json, i: nat) returns (ok: bool)
      requires Valid() && CText(j) && j.Array? && i < |j.items|
      modifies this, buffer
      ensures Valid() && (buffer == old(buffer) || fresh(buffer)) && Room() == old(Room())
      ensures ok <==> !HasInvalid(j.items[i]) && old(offset) + |ItemChunk(j.items, i, format, old(depth))| + 2 <= Room()
      ensures ok ==> depth == old(depth) && Text() == old(Text()) + ItemChunk(j.items, i, format, depth)
      decreases j, 0
    {
      hide Print;
      ok := PrintWhole(j.items[i]);
      if ok && i + 1 < |j.items| {
        var separator := if format then ", " else ",";
        ok := Append(separator);
      }
    }

    method PrintObject(j: Json) returns (ok: bool)
      requires Valid() && CText(j) && j.Object?
      modifies this, buffer
      ensures Valid() && (buffer == old(buffer) || fresh(buffer)) && Room() == old(Room())
      ensures ok <==> !HasInvalid(j) && old(offset) + |Print(j, format, old(depth))| + 2 <= Room()
      ensures ok ==> depth == old(depth) && old(offset) <= offset <= old(offset) + |Print(j, format, old(depth))|
      ensures ok ==> Holds(old(Text()) + Print(j, format, old(depth)))
      decreases j, 2
    {
      hide Print, PrintMembers, Holds, CText, HasInvalid, Tabs;
      var open, close := if format then "{\n" else "{", if format then Tabs(depth) + "}" else "}";
      ghost var before, members := Text(), PrintMembers(j.members, format, depth + 1);
      ObjectIs(j, format, depth);
      ok := Emit(open, |open| + 1, |open|);
      if !ok {
        return;
      }
      depth := depth + 1;
      ok := PrintAllMembers(j);
      if !ok {
        return;
      }
      ok := PrintWord(close);
      depth := depth - 1;
      Bracketed(before, open, members, close);
    }

    method PrintAllMembers(j: Json) returns (ok: bool)
      requires Valid() && CText(j) && j.Object?
      modifies this, buffer
      ensures Valid() && (buffer == old(buffer) || fresh(buffer)) && Room() == old(Room())
      ensures j.members != [] ==> (ok <==> !HasInvalid(j) && old(offset) + |PrintMembers(j.members, format, old(depth))| + 2 <= Room())
      ensures j.members == [] ==> ok
      ensures ok ==> depth == old(depth) && Text() == old(Text()) + PrintMembers(j.members, format, depth)
      decreases j, 1
    {
      hide PrintMembers, Print, MemberChunk;
      ghost var start, d := Text(), depth;
      var i := 0;
      assert j.members[0..] == j.members;
      while i < |j.members|
        invariant 0 <= i <= |j.members| && Valid() && (buffer == old(buffer) || fresh(buffer)) && Room() == old(Room()) && depth == d
        invariant Text() + PrintMembers(j.members[i..], format, d) == start + PrintMembers(j.members, format, d)
        invariant (forall x :: 0 <= x < i ==> !HasInvalid(j.members[x].value)) && (i > 0 ==> offset + 2 <= Room())
        decreases |j.members| - i
      {
        ghost var before := Text();
        MembersFrom(j.members, i, format, d);
        ok := PrintMember(j, i);
        if !ok {
          return;
        }
        Assoc(before, MemberChunk(j.members, i, format, d), PrintMembers(j.members[i + 1..], format, d));
        i := i + 1;
      }
      assert j.members[i..] == [];
      NoItems(format, d);
      assert Text() + [] == Text();
      return true;
    }

    method PrintMember(j: Json, i: nat) returns (ok: bool)
      requires Valid() && CText(j) && j.Object? && i < |j.members|
      modifies this, buffer
      ensures Valid() && (buffer == old(buffer) || fresh(buffer)) && Room() == old(Room())
      ensures ok <==> !HasInvalid(j.members[i].value) && old(offset) + |MemberChunk(j.members, i, format, old(depth))| + 2 <= Room()
      ensures ok ==> depth == old(depth) && Text() == old(Text()) + MemberChunk(j.members, i, format, depth)
      decreases j, 0
    {
      hide Print, Quoted, Tabs, Holds, HasInvalid, MemberHead;
      var tail := (if i + 1 < |j.members| then "," else "") + (if format then "\n" else "");
      ChunkParts(j.members, i, format, depth, Text());
      ok := PrintHead(j.members[i].key);
      if !ok {
        return;
      }
      ok := PrintWhole(j.members[i].value);
      if !ok {
        return;
      }
      ok := Append(tail);
    }

    // The indentation, the key and the colon.
    method PrintHead(key: string) returns (ok: bool)
      requires Valid() && '\0' !in key
      modifies this`buffer, this`offset, buffer
      ensures Valid() && (buffer == old(buffer) || fresh(buffer)) && Room() == old(Room())
      ensures ok <==> old(offset) + |MemberHead(key, format, depth)| + 1 <= Room()
      ensures ok ==> Text() == old(Text()) + MemberHead(key, format, depth)
    {
      hide Quoted, Tabs, Holds;
      var indent, colon := if format then Tabs(depth) else "", if format then ":\t" else ":";
      TabsLength(depth);
      ghost var t := Text();
      Bracketed(t, indent, Quoted(key), colon);
      if format {
        ok := Emit(indent, depth, depth);
        if !ok {
          return;
        }
      }
      assert Text() == t + indent;
      ok := PrintKey(key);
      if !ok {
        return;
      }
      ok := Emit(colon, |colon|, |colon|);
    }

    // A key, and the offset behind it.
    method PrintKey(key: string) returns (ok: bool)
      requires Valid() && '\0' !in key
      modifies this`buffer, this`offset, buffer
      ensures Valid() && (buffer == old(buffer) || fresh(buffer)) && Room() == old(Room())
      ensures ok <==> old(offset) + |Quoted(key)| + 2 <= Room()
      ensures ok ==> Text() == old(Text()) + Quoted(key)
    {
      hide Holds, EscapeText;
      ghost var t := Text() + Quoted(key);
      EscapeNoZero(key);
      ok := PrintString(key);
      if ok {
        UpdateOffset(t);
      }
    }

    lemma HoldsIs(t: string)
      requires |t| < buffer.Length && buffer[..|t| + 1] == t + "\0"
      ensures Holds(t)
    {
      assert buffer[..|t|] == buffer[..|t| + 1][..|t|];
    }
  }

  lemma ArrayIs(j: Json, fmt: bool, d: nat)
    requires j.Array?
    ensures Print(j, fmt, d) == "[" + PrintItems(j.items, fmt, d + 1) + "]"
    ensures j.items == [] ==> !HasInvalid(j) && PrintItems(j.items, fmt, d + 1) == []
  {
  }

  lemma Bracketed(before: string, open: string, t: string, close: string)
    ensures before + open + t + close == before + (open + t + close)
  {
  }

  lemma ObjectIs(j: Json, fmt: bool, d: nat)
    requires j.Object?
    ensures Print(j, fmt, d) == (if fmt then "{\n" else "{") + PrintMembers(j.members, fmt, d + 1) + (if fmt then Tabs(d) + "}" else "}")
    ensures j.members == [] ==> !HasInvalid(j) && PrintMembers(j.members, fmt, d + 1) == []
  {
    hide PrintMembers, Tabs;
    var members := PrintMembers(j.members, fmt, d + 1);
    if fmt {
      assert "{" + "\n" + members + Tabs(d) + "}" == "{\n" + members + (Tabs(d) + "}");
    } else {
      assert "{" + "" + members + "" + "}" == "{" + members + "}";
    }
    NoItems(fmt, d + 1);
  }

  // A member with all that is around it.
  function MemberChunk(ms: seq<Member>, i: nat, fmt: bool, d: nat): string
    requires i < |ms|
  {
    MemberHead(ms[i].key, fmt, d) + Print(ms[i].value, fmt, d) + (if i + 1 < |ms| then "," else "") + (if fmt then "\n" else "")
  }

  function MemberHead(key: string, fmt: bool, d: nat): string {
    (if fmt then Tabs(d) else "") + Quoted(key) + (if fmt then ":\t" else ":")
  }

  lemma MembersFrom(ms: seq<Member>, i: nat, fmt: bool, d: nat)
    requires i < |ms|
    ensures PrintMembers(ms[i..], fmt, d) == MemberChunk(ms, i, fmt, d) + PrintMembers(ms[i + 1..], fmt, d)
  {
    hide Print, Quoted, Tabs;
    assert ms[i..][0] == ms[i] && ms[i..][1..] == ms[i + 1..];
  }

  lemma ChunkParts(ms: seq<Member>, i: nat, fmt: bool, d: nat, t: string)
    requires i < |ms|
    ensures var tail := (if i + 1 < |ms| then "," else "") + (if fmt then "\n" else "");
            && t + MemberChunk(ms, i, fmt, d) == t + MemberHead(ms[i].key, fmt, d) + Print(ms[i].value, fmt, d) + tail
            && |MemberChunk(ms, i, fmt, d)| == |MemberHead(ms[i].key, fmt, d)| + |Print(ms[i].value, fmt, d)| + |tail|
  {
    hide Print, MemberHead;
    var a, e := MemberHead(ms[i].key, fmt, d), Print(ms[i].value, fmt, d);
    var f, g := if i + 1 < |ms| then "," else "", if fmt then "\n" else "";
    assert MemberChunk(ms, i, fmt, d) == a + e + f + g;
    assert t + (a + e + f + g) == t + a + e + (f + g);
  }

  // An element and what is behind it.
  function ItemChunk(items: seq<Json>, i: nat, fmt: bool, d: nat): string
    requires i < |items|
  {
    Print(items[i], fmt, d) + (if i + 1 < |items| then if fmt then ", " else "," else "")
  }

  lemma ItemsFrom(items: seq<Json>, i: nat, fmt: bool, d: nat)
    requires i < |items|
    ensures PrintItems(items[i..], fmt, d) == ItemChunk(items, i, fmt, d) + PrintItems(items[i + 1..], fmt, d)
  {
    hide Print;
    assert items[i..][1..] == items[i + 1..];
  }

  lemma NoItems(fmt: bool, d: nat)
    ensures PrintItems([], fmt, d) == [] && PrintMembers([], fmt, d) == []
  {
  }

  lemma QuotedLength(s: string)
    ensures |Quoted(s)| == |EscapeText(s)| + 2
  {
  }

  lemma QuotedHolds(b: string, text: string, s: string)
    requires |text| + 1 + |EscapeText(s)| + 2 <= |b|
    requires b[..|text| + 1 + |EscapeText(s)| + 2] == text + "\"" + EscapeText(s) + "\"\0"
    ensures |text + Quoted(s)| < |b| && b[..|text + Quoted(s)| + 1] == text + Quoted(s) + "\0"
  {
    hide EscapeText;
    var e := EscapeText(s);
    assert text + "\"" + e + "\"\0" == text + ("\"" + e + "\"") + "\0";
  }

  lemma EscapeEnds(s: string)
    ensures EscapeText(s[..0]) == [] && EscapeText(s[..|s|]) == EscapeText(s)
  {
    assert s[..0] == [] && s[..|s|] == s;
  }

  lemma {:induction false} EscapeAppend(a: string, b: string)
    ensures EscapeText(a + b) == EscapeText(a) + EscapeText(b)
  {
    if a == [] {
      assert a + b == b;
    } else {
      assert (a + b)[1..] == a[1..] + b;
      EscapeAppend(a[1..], b);
    }
  }

  lemma EscapeNext(s: string, i: nat)
    requires i < |s|
    ensures EscapeText(s[..i + 1]) == EscapeText(s[..i]) + EscapeChar(s[i])
    ensures |EscapeText(s[..i])| + |EscapeChar(s[i])| <= |EscapeText(s)|
  {
    hide EscapeChar;
    assert s[..i + 1] == s[..i] + [s[i]];
    EscapeAppend(s[..i], [s[i]]);
    assert [s[i]][1..] == [];
    assert EscapeText([s[i]]) == EscapeChar(s[i]);
    assert s == s[..i + 1] + s[i + 1..];
    EscapeAppend(s[..i + 1], s[i + 1..]);
  }

  // ----- `cJSON_Print`, `cJSON_PrintUnformatted` -----

  method PrintTree(j: Json, fmt: bool) returns (r: Option<string>)
    requires CText(j)
    ensures r == if !HasInvalid(j) && |Print(j, fmt, 0)| + 2 <= INT_MAX then Some(Print(j, fmt, 0)) else None
  {
    hide Print, CText, HasInvalid;
    var p := new PrintBuffer(256, fmt, false);
    assert p.Text() == "";
    var ok := p.PrintWhole(j);
    if !ok {
      return None;
    }
    assert "" + Print(j, fmt, 0) == Print(j, fmt, 0);
    return Some(p.buffer[..p.offset]);
  }

  lemma {:induction false} PrintableText(j: Json)
    requires Printable(j)
    ensures CText(j) && !HasInvalid(j)
    decreases j
  {
    match j
    case Array(items) =>
      forall i | 0 <= i < |items| ensures CText(items[i]) && !HasInvalid(items[i]) {
        PrintableText(items[i]);
      }
    case Object(ms) =>
      forall i | 0 <= i < |ms| ensures CText(ms[i].value) && !HasInvalid(ms[i].value) {
        PrintableText(ms[i].value);
      }
    case _ =>
  }

  /** Print, then parse: the tree comes back as it was, formatted or not, if and only if it is nested no
      deeper than the limit. */
  method PrintThenParse(j: Json, fmt: bool, nullTerminated: bool, strtod: string -> (int, nat)) returns (r: Option<Json>)
    requires Exact(strtod) && Printable(j) && |Print(j, fmt, 0)| + 2 <= INT_MAX
    ensures r == if Nesting(j) <= 1000 then Some(j) else None
  {
    hide Print, Printable, Nesting, Exact, Sane, Accepts, CText, HasInvalid;
    PrintableText(j);
    var text := PrintTree(j, fmt);
    PrintedAccepted(text.value + "\0", strtod, nullTerminated, j, fmt);
    var end;
    r, end := Parse(text.value + "\0", nullTerminated, strtod);
  }
}
