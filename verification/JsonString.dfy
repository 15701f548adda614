/**
 String literals (stage/cjson/cJSON.c, `parse_hex4`, `utf16_literal_to_utf8`, `parse_string`).
 A character stands for one byte.
 */
module JsonString {
  import opened Basics
  import opened JsonUnicode

  // ----- escapes -----

  function HexDigit(c: char): Option<nat> {
    if '0' <= c <= '9' then Some(c as int - '0' as int)
    else if 'A' <= c <= 'F' then Some(10 + c as int - 'A' as int)
    else if 'a' <= c <= 'f' then Some(10 + c as int - 'a' as int)
    else None
  }

  // The value of four digits, 0 if one of them is none.
  function Hex4(t: string): (n: nat)
    requires |t| == 4
    ensures n < 0x10000
  {
    var a, b, c, d := HexDigit(t[0]), HexDigit(t[1]), HexDigit(t[2]), HexDigit(t[3]);
    if a.Some? && b.Some? && c.Some? && d.Some? then a.value * 4096 + b.value * 256 + c.value * 16 + d.value else 0
  }

  method ParseHex4(t: string) returns (h: nat)
    requires |t| == 4
    ensures h == Hex4(t)
    ensures if NoHex(t) then h == 0 else SpellsHex(t, h)
  {
    hide NoHex, SpellsHex;
    Hex4Spells(t);
    h := 0;
    var i := 0;
    while i < 4
      invariant 0 <= i <= 4 && forall x :: 0 <= x < i ==> HexDigit(t[x]).Some?
      invariant i >= 1 ==> h == Partial(t, i) * (if i == 4 then 1 else 16)
      invariant i == 0 ==> h == 0
    {
      var digit := HexDigit(t[i]);
      if digit.None? {
        return 0;
      }
      h := h + digit.value;
      if i < 3 {
        h := h * 16;
      }
      i := i + 1;
    }
    assert Partial(t, 2) == Partial(t, 1) * 16 + HexDigit(t[1]).value;
    assert Partial(t, 3) == Partial(t, 2) * 16 + HexDigit(t[2]).value;
  }

  // The value of the first i digits.
  ghost function Partial(t: string, i: nat): int
    requires i <= |t| && forall x :: 0 <= x < i ==> HexDigit(t[x]).Some?
  {
    if i == 0 then 0 else Partial(t, i - 1) * 16 + HexDigit(t[i - 1]).value
  }

  lemma HexDigitIs(c: char, d: nat)
    ensures HexDigit(c) == Some(d) <==> IsHex(c, d)
  {
  }

  // Four digits have the value that they spell.
  lemma Hex4Spells(t: string)
    requires |t| == 4
    ensures NoHex(t) ==> Hex4(t) == 0
    ensures !NoHex(t) ==> forall n :: SpellsHex(t, n) <==> n == Hex4(t)
  {
    hide IsHex, HexDigit;
    forall c, d: nat ensures HexDigit(c) == Some(d) <==> IsHex(c, d) {
      HexDigitIs(c, d);
    }
    var a, b, c, d := HexDigit(t[0]), HexDigit(t[1]), HexDigit(t[2]), HexDigit(t[3]);
    if a.Some? && b.Some? && c.Some? && d.Some? {
      Sixteen(t[0], a.value);
      Sixteen(t[1], b.value);
      Sixteen(t[2], c.value);
      Sixteen(t[3], d.value);
      Nibbles(a.value, b.value, c.value, d.value);
      assert SpellsHex(t, Hex4(t));
    }
    forall n: nat ensures SpellsHex(t, n) ==> a.Some? && b.Some? && c.Some? && d.Some? && n == Hex4(t) {
      if SpellsHex(t, n) {
        FromNibbles(n);
      }
    }
  }

  lemma Sixteen(c: char, d: nat)
    requires IsHex(c, d)
    ensures d < 16
  {
  }

  lemma Nibbles(a: nat, b: nat, c: nat, d: nat)
    requires a < 16 && b < 16 && c < 16 && d < 16
    ensures var n := a * 4096 + b * 256 + c * 16 + d; n < 0x10000 && n / 4096 == a && n / 256 % 16 == b && n / 16 % 16 == c && n % 16 == d
  {
    var n := a * 4096 + b * 256 + c * 16 + d;
    DivIs(n, 16, a * 256 + b * 16 + c, d);
    DivIs(n, 256, a * 16 + b, c * 16 + d);
    DivIs(n, 4096, a, b * 256 + c * 16 + d);
    DivIs(a * 256 + b * 16 + c, 16, a * 16 + b, c);
    DivIs(a * 16 + b, 16, a, b);
  }

  lemma FromNibbles(n: nat)
    requires n < 0x10000
    ensures n == n / 4096 * 4096 + n / 256 % 16 * 256 + n / 16 % 16 * 16 + n % 16
  {
    var b := n / 16;
    var c := b / 16;
    assert n == b * 16 + n % 16 && b == c * 16 + b % 16 && c == c / 16 * 16 + c % 16;
    DivIs(n, 256, c, b % 16 * 16 + n % 16);
    DivIs(n, 4096, c / 16, c % 16 * 256 + b % 16 * 16 + n % 16);
  }

  // The code point of a \u literal at the head of t, and its length. Section 7 of RFC 8259: outside the
  // first plane, two literals make a surrogate pair.
  function Literal(t: string): (r: Option<(int, nat)>)
    ensures r.Some? ==> Scalar(r.value.0) && r.value.1 <= |t|
    ensures r.Some? ==> (r.value.1 == 6 && r.value.0 < 0x10000) || r.value.1 == 12
  {
    if |t| < 6 then None
    else
      var first := Hex4(t[2..6]);
      if 0xDC00 <= first <= 0xDFFF then None
      else if 0xD800 <= first <= 0xDBFF then
        if |t| < 12 || t[6] != '\\' || t[7] != 'u' then None
        else
          var second := Hex4(t[8..12]);
          if second < 0xDC00 || second > 0xDFFF then None
          else Some((0x10000 + (first - 0xD800) * 0x400 + (second - 0xDC00), 12))
      else Some((first, 6))
  }

  // The code unit of one literal.
  lemma UnitIs(t: string)
    requires |t| == 6 && t[..2] == "\\u"
    ensures NoHex(t[2..]) ==> Hex4(t[2..]) == 0 && forall u :: !IsUnit(t, u)
    ensures !NoHex(t[2..]) ==> forall u :: IsUnit(t, u) <==> u == Hex4(t[2..])
  {
    hide Hex4, SpellsHex;
    Hex4Spells(t[2..]);
  }

  // The surrogate pair of a code point.
  lemma PairIs(cp: int, first: nat, second: nat)
    requires 0xD800 <= first <= 0xDBFF && 0xDC00 <= second <= 0xDFFF
    ensures cp == 0x10000 + (first - 0xD800) * 0x400 + (second - 0xDC00) <==>
            0x10000 <= cp <= 0x10FFFF && first == 0xD800 + (cp - 0x10000) / 0x400 && second == 0xDC00 + (cp - 0x10000) % 0x400
  {
  }

  lemma UnitRange(cp: int)
    requires 0x10000 <= cp <= 0x10FFFF
    ensures 0xD800 <= 0xD800 + (cp - 0x10000) / 0x400 <= 0xDBFF && 0xDC00 <= 0xDC00 + (cp - 0x10000) % 0x400 <= 0xDFFF
  {
  }

  /** A literal is read as the code point whose UTF-16 form it is, with digits in either case; lone surrogates
      are the form of none. */
  lemma LiteralMeaning(t: string, cp: int, n: nat)
    requires |t| >= 2 && t[..2] == "\\u"
    ensures Literal(t) == Some((cp, n)) <==> Stands(t, cp, n)
  {
    hide Hex4, SpellsHex, NoHex;
    if |t| >= 6 {
      assert t[..6][2..] == t[2..6] && t[..6][..2] == t[..2];
      UnitIs(t[..6]);
      var first := Hex4(t[2..6]);
      if 0x10000 <= cp <= 0x10FFFF {
        UnitRange(cp);
      }
      if |t| >= 12 {
        assert t[..12][..6] == t[..6] && t[..12][6..] == t[6..12];
        if 0xD800 <= first <= 0xDBFF {
          SecondMeaning(t, first, cp);
        }
      }
    }
  }

  // The second half of a pair.
  lemma SecondMeaning(t: string, first: nat, cp: int)
    requires |t| >= 12 && 0xD800 <= first <= 0xDBFF
    ensures var second := Hex4(t[8..12]);
            t[6] == '\\' && t[7] == 'u' && 0xDC00 <= second <= 0xDFFF && cp == 0x10000 + (first - 0xD800) * 0x400 + (second - 0xDC00) <==>
            0x10000 <= cp <= 0x10FFFF && first == 0xD800 + (cp - 0x10000) / 0x400 && IsUnit(t[6..12], 0xDC00 + (cp - 0x10000) % 0x400)
  {
    hide Hex4, SpellsHex, NoHex;
    var second, u := Hex4(t[8..12]), t[6..12];
    assert u[..2] == [t[6], t[7]] && u[2..] == t[8..12];
    if u[..2] == "\\u" {
      assert t[6] == u[..2][0] && t[7] == u[..2][1];
      UnitIs(u);
      if 0xDC00 <= second <= 0xDFFF {
        PairIs(cp, first, second);
      }
    }
  }

  // The first half of `utf16_literal_to_utf8`: length 0 is failure.
  method LiteralCode(t: string) returns (codepoint: nat, sequence: nat)
    ensures sequence == 0 <==> Literal(t).None?
    ensures sequence > 0 ==> Literal(t) == Some((codepoint, sequence))
    ensures |t| >= 2 && t[..2] == "\\u" ==> forall cp, n :: n > 0 ==> (codepoint == cp && sequence == n <==> Stands(t, cp, n))
  {
    hide Hex4, NoHex, SpellsHex, Stands;
    if |t| >= 2 && t[..2] == "\\u" {
      forall cp, n: nat ensures Literal(t) == Some((cp, n)) <==> Stands(t, cp, n) {
        LiteralMeaning(t, cp, n);
      }
    }
    codepoint, sequence := 0, 0;
    if |t| < 6 {
      return;
    }
    var first := ParseHex4(t[2..6]);
    if 0xDC00 <= first <= 0xDFFF {
      return;
    }
    if 0xD800 <= first <= 0xDBFF {
      if |t| - 6 < 6 || t[6] != '\\' || t[7] != 'u' {
        return;
      }
      var second := ParseHex4(t[8..12]);
      if second < 0xDC00 || second > 0xDFFF {
        return;
      }
      return 0x10000 + (first % 0x400) * 0x400 + second % 0x400, 12;
    }
    return first, 6;
  }

  /** `utf16_literal_to_utf8` */
  method Utf16ToUtf8(t: string, output: array<char>, at: nat) returns (sequence: nat, length: nat)
    requires Literal(t).Some? ==> at + |Utf8(Literal(t).value.0)| <= output.Length
    modifies output
    ensures Literal(t).None? ==> sequence == 0 && length == 0
    ensures Literal(t).Some? ==> sequence == Literal(t).value.1 && length == |Utf8(Literal(t).value.0)|
    ensures Literal(t).Some? ==> output[at..at + length] == Utf8(Literal(t).value.0)
    ensures forall x :: 0 <= x < output.Length && !(at <= x < at + length) ==> output[x] == old(output[x])
    ensures sequence > 0 && t[..2] == "\\u" ==> exists cp :: Stands(t, cp, sequence) && output[at..at + length] == Utf8(cp)
    ensures sequence == 0 && |t| >= 2 && t[..2] == "\\u" ==> forall cp, n :: !Stands(t, cp, n)
  {
    hide Utf8, Literal, NoHex, SpellsHex;
    var codepoint;
    codepoint, sequence := LiteralCode(t);
    if sequence == 0 {
      return 0, 0;
    }
    length := WriteUtf8(codepoint, output, at);
  }

  // The bytes are written from the last to the first.
  method WriteUtf8(cp: int, output: array<char>, at: nat) returns (length: nat)
    requires Scalar(cp) && at + |Utf8(cp)| <= output.Length
    modifies output
    ensures length == |Utf8(cp)| && output[at..at + length] == Utf8(cp)
    ensures forall x :: 0 <= x < output.Length && !(at <= x < at + length) ==> output[x] == old(output[x])
  {
    var mark := 0;
    if cp < 0x80 {
      length := 1;
    } else if cp < 0x800 {
      length, mark := 2, 0xC0;
    } else if cp < 0x10000 {
      length, mark := 3, 0xE0;
    } else {
      length, mark := 4, 0xF0;
    }
    var codepoint, position := cp, length - 1;
    assert cp / 64 / 64 == cp / 4096 && cp / 4096 / 64 == cp / 262144;
    while position > 0
      invariant 0 <= position < length
      invariant codepoint == if length - 1 == position then cp else if length - 2 == position then cp / 64 else if length - 3 == position then cp / 4096 else cp / 262144
      invariant forall x :: position < x < length ==> output[at + x] == Utf8(cp)[x]
      invariant forall x :: 0 <= x < output.Length && !(at <= x < at + length) ==> output[x] == old(output[x])
    {
      output[at + position] := (0x80 + codepoint % 64) as char;
      codepoint := codepoint / 64;
      position := position - 1;
    }
    output[at] := (mark + codepoint) as char;
  }

  // ----- the literal -----

  function Simple(c: char): Option<char> {
    match c
    case 'b' => Some(0x08 as char)
    case 'f' => Some(0x0C as char)
    case 'n' => Some('\n')
    case 'r' => Some('\r')
    case 't' => Some('\t')
    case '\"' => Some('\"')
    case '\\' => Some('\\')
    case '/' => Some('/')
    case _ => None
  }

  function Then(a: string, r: Option<string>): Option<string> {
    match r
    case None => None
    case Some(b) => Some(a + b)
  }

  // What the characters between two quotes stand for. A backslash in front of the closing quote can only be
  // met here when an invalid \u literal has swallowed half an escape.
  function Body(t: string): Option<string> {
    if t == [] then Some([])
    else if t[0] != '\\' then Then([t[0]], Body(t[1..]))
    else if |t| == 1 then Some("\"")
    else if t[1] == 'u' then
      match Literal(t)
      case None => None
      case Some(l) => Then(Utf8(l.0), Body(t[l.1..]))
    else
      match Simple(t[1])
      case None => None
      case Some(c) => Then([c], Body(t[2..]))
  }

  // The closing quote of a literal whose text starts at i.
  function ClosingQuote(content: string, i: nat): (r: Option<nat>)
    requires i <= |content|
    ensures r.Some? ==> i <= r.value < |content| && content[r.value] == '\"'
    decreases |content| - i
  {
    if i == |content| then None
    else if content[i] == '\"' then Some(i)
    else if content[i] != '\\' then ClosingQuote(content, i + 1)
    else if i + 1 == |content| then None
    else ClosingQuote(content, i + 2)
  }

  function StringAt(content: string, offset: nat): (r: Option<(string, nat)>)
    requires offset < |content|
    ensures r.Some? ==> offset < r.value.1 <= |content|
  {
    if content[offset] != '\"' then None
    else
      match ClosingQuote(content, offset + 1)
      case None => None
      case Some(e) =>
        match Body(content[offset + 1..e])
        case None => None
        case Some(s) => Some((s, e + 1))
  }

  // ----- the two passes -----

  // The first pass, character by character: the number of escapes that begin before i, and
  // whether i is the second character of one.
  ghost function Escapes(content: string, start: nat, i: nat): (r: (nat, bool))
    requires start <= i <= |content|
    decreases i
  {
    if i == start then (0, false)
    else
      var r := Escapes(content, start, i - 1);
      if r.1 then (r.0, false) else if content[i - 1] == '\\' then (r.0 + 1, true) else r
  }

  // Two characters hold at most one beginning.
  lemma EscapesApart(content: string, start: nat, i: nat)
    requires start <= i && i + 2 <= |content|
    ensures Escapes(content, start, i + 2).0 <= Escapes(content, start, i).0 + 1
  {
    assert Escapes(content, start, i + 2) ==
      var r := Escapes(content, start, i + 1);
      if r.1 then (r.0, false) else if content[i + 1] == '\\' then (r.0 + 1, true) else r;
  }

  lemma {:induction false} EscapesWithin(content: string, start: nat, i: nat, pairs: nat)
    requires start <= i && i + 2 * pairs <= |content|
    ensures Escapes(content, start, i + 2 * pairs).0 <= Escapes(content, start, i).0 + pairs
    decreases pairs
  {
    if pairs > 0 {
      EscapesWithin(content, start, i, pairs - 1);
      EscapesApart(content, start, i + 2 * (pairs - 1));
    }
  }

  // The first pass: the closing quote, and the number of escapes before it.
  method FindEnd(content: string, offset: nat) returns (r: Option<(nat, nat)>)
    requires offset < |content|
    ensures r.None? <==> ClosingQuote(content, offset + 1).None?
    ensures r.Some? ==> ClosingQuote(content, offset + 1) == Some(r.value.0) && r.value.1 == Escapes(content, offset + 1, r.value.0).0
  {
    var end, skipped := offset + 1, 0;
    while end < |content| && content[end] != '\"'
      invariant offset + 1 <= end <= |content|
      invariant Escapes(content, offset + 1, end) == (skipped, false)
      invariant ClosingQuote(content, offset + 1) == ClosingQuote(content, end)
    {
      if content[end] == '\\' {
        if end + 1 >= |content| {
          return None;
        }
        assert Escapes(content, offset + 1, end + 1) == (skipped + 1, true);
        skipped := skipped + 1;
        end := end + 1;
      }
      end := end + 1;
    }
    if end >= |content| {
      return None;
    }
    return Some((end, skipped));
  }

  // After `input` characters have been read and `out` bytes written, the second pass is within the estimate.
  ghost predicate Fits(content: string, start: nat, end: nat, input: nat, out: nat)
    requires start <= end < |content| && start <= input <= end + 1
  {
    out + Escapes(content, start, input).0 <= input - start
  }

  /** Within the estimate: no more bytes have been written than characters read, less the escapes that
      the first pass has seen begin among them. */
  lemma Room(content: string, start: nat, end: nat, input: nat, out: nat)
    requires start <= end < |content| && start <= input <= end + 1 && content[end] == '\"'
    requires Fits(content, start, end, input, out)
    ensures out <= end - start + 1 - Escapes(content, start, end).0
  {
    hide Escapes;
    if input <= end {
      SlackGrows(content, start, input, end);
    } else {
      CountStep(content, start, end);
    }
  }

  lemma CountStep(content: string, start: nat, i: nat)
    requires start <= i < |content|
    ensures Escapes(content, start, i).0 <= Escapes(content, start, i + 1).0 <= Escapes(content, start, i).0 + 1
    ensures content[i] != '\\' ==> Escapes(content, start, i + 1).0 == Escapes(content, start, i).0
  {
  }

  lemma {:induction false} SlackGrows(content: string, start: nat, i: nat, j: nat)
    requires start <= i <= j <= |content|
    ensures i - Escapes(content, start, i).0 <= j - Escapes(content, start, j).0
    decreases j
  {
    if i < j {
      SlackGrows(content, start, i, j - 1);
      CountStep(content, start, j - 1);
    }
  }

  lemma ThenThen(a: string, b: string, r: Option<string>)
    ensures Then(a, Then(b, r)) == Then(a + b, r)
  {
    if r.Some? {
      assert a + (b + r.value) == a + b + r.value;
    }
  }

  // One round of the second pass on the text t: the number of characters read, and the bytes.
  function Round(t: string): (r: Option<(nat, string)>)
    requires t != []
    ensures r.Some? ==> 1 <= r.value.0 <= |t| || (|t| == 1 && r.value.0 == 2)
    ensures r.Some? && r.value.0 == 1 ==> t[0] != '\\'
    ensures r.Some? ==> (r.value.0 <= 2 && |r.value.1| == 1) || (r.value.0 == 6 && |r.value.1| <= 3) || (r.value.0 == 12 && |r.value.1| <= 4)
  {
    if t[0] != '\\' then Some((1, [t[0]]))
    else if |t| == 1 then Some((2, "\""))
    else if t[1] == 'u' then
      match Literal(t)
      case None => None
      case Some(l) => Some((l.1, Utf8(l.0)))
    else
      match Simple(t[1])
      case None => None
      case Some(c) => Some((2, [c]))
  }

  lemma RoundBody(t: string)
    requires t != []
    ensures Round(t).None? ==> Body(t) == None
    ensures Round(t).Some? && Round(t).value.0 <= |t| ==> Body(t) == Then(Round(t).value.1, Body(t[Round(t).value.0..]))
    ensures Round(t).Some? && Round(t).value.0 > |t| ==> Body(t) == Some(Round(t).value.1)
  {
  }

  lemma RoundFits(content: string, start: nat, end: nat, input: nat, out: nat)
    requires start <= input < end < |content| && content[end] == '\"' && Fits(content, start, end, input, out)
    requires Round(content[input..end]).Some?
    ensures var r := Round(content[input..end]).value;
            && input + r.0 <= end + 1 && Fits(content, start, end, input + r.0, out + |r.1|)
            && out + |r.1| <= end - start + 1 - Escapes(content, start, end).0
  {
    hide Escapes, Round;
    var r := Round(content[input..end]).value;
    if r.0 == 1 {
      CountStep(content, start, input);
    } else {
      EscapesWithin(content, start, input, r.0 / 2);
    }
    Room(content, start, end, input + r.0, out + |r.1|);
  }

  // One escape or character at t, written at `out`.
  method DecodeOne(content: string, input: nat, end: nat, output: array<char>, out: nat) returns (read: nat, written: nat)
    requires input < end < |content| && content[end] == '\"'
    requires Round(content[input..end]).Some? ==> out + |Round(content[input..end]).value.1| <= output.Length
    modifies output
    ensures read == 0 <==> Round(content[input..end]).None?
    ensures read > 0 ==> var r := Round(content[input..end]).value;
                         read == r.0 && written == |r.1| && output[..out + written] == old(output[..out]) + r.1
    ensures forall x :: 0 <= x < out && x < output.Length ==> output[x] == old(output[x])
  {
    hide Utf8, Literal;
    var t := content[input..end];
    ghost var before := output[..if out <= output.Length then out else 0];
    read, written := 2, 1;
    if content[input] != '\\' {
      output[out] := content[input];
      read := 1;
      return;
    }
    if content[input + 1] == 'u' {
      read, written := Utf16ToUtf8(t, output, out);
      if read > 0 {
        assert output[..out + written] == output[..out] + output[out..out + written];
        assert output[..out] == before;
      }
      return;
    }
    var c := Simple(content[input + 1]);
    if c.None? {
      return 0, 0;
    }
    output[out] := c.value;
  }

  // ----- what the text means -----

  lemma SimpleIs(c: char, x: char)
    ensures Simple(c) == Some(x) <==> exists i :: 0 <= i < 8 && c == ESCAPES[i] && x == ESCAPED[i]
  {
    assert ESCAPES[0] == '\"' && ESCAPES[1] == '\\' && ESCAPES[2] == '/' && ESCAPES[3] == 'b';
    assert ESCAPES[4] == 'f' && ESCAPES[5] == 'n' && ESCAPES[6] == 'r' && ESCAPES[7] == 't';
  }

  lemma StandsHere(t: string, cp: int, n: nat)
    requires n <= |t|
    ensures Stands(t, cp, n) <==> Stands(t[..n], cp, n)
  {
    hide IsForm, NoHex;
    assert t[..n][..n] == t[..n];
    if n == 6 {
      assert t[..6][..2] == t[..2] && t[..6][2..6] == t[2..6];
    }
  }

  // A form begins with a backslash and the letter u.
  lemma StandsStart(t: string, cp: int, n: nat)
    requires Stands(t, cp, n)
    ensures n >= 6 && |t| >= 2 && t[..2] == "\\u" && t[0] == '\\' && t[1] == 'u'
  {
    hide SpellsHex, NoHex;
    assert n >= 6;
    assert t[..n][..2] == t[..2];
    if n == 12 {
      assert t[..12][..6][..2] == t[..2];
    }
    assert t[0] == t[..2][0] && t[1] == t[..2][1];
  }

  lemma DecodesBy(t: string, k: nat, a: string, b: string)
    requires 0 < k <= |t| && IsPiece(t[..k], a) && Decodes(t[k..], b)
    ensures Decodes(t, a + b)
  {
    hide IsPiece;
    assert (a + b)[..|a|] == a && (a + b)[|a|..] == b;
  }

  // One round finds the piece at the head of the text.
  lemma RoundPiece(t: string)
    requires t != [] && Round(t).Some? && Round(t).value.0 <= |t|
    ensures IsPiece(t[..Round(t).value.0], Round(t).value.1)
  {
    hide Stands, Literal, Simple, Utf8;
    var k := Round(t).value.0;
    if t[0] == '\\' {
      assert t[..2] == [t[0], t[1]];
      if t[1] == 'u' {
        var l := Literal(t).value;
        LiteralMeaning(t, l.0, l.1);
        StandsHere(t, l.0, l.1);
      } else {
        SimpleIs(t[1], Simple(t[1]).value);
      }
    }
  }

  lemma PieceRound(t: string, k: nat, a: string)
    requires 0 < k <= |t| && IsPiece(t[..k], a)
    ensures Round(t) == Some((k, a))
  {
    hide SpellsHex, NoHex, Literal, Simple, Utf8;
    var p := t[..k];
    assert p[0] == t[0];
    if exists cp :: Stands(p, cp, |p|) && a == Utf8(cp) {
      var cp :| Stands(p, cp, |p|) && a == Utf8(cp);
      StandsHere(t, cp, k);
      StandsStart(t, cp, k);
      LiteralMeaning(t, cp, k);
    } else if k == 2 {
      assert p[1] == t[1];
      SimpleIs(t[1], a[0]);
      NotU();
    } else {
      assert a == [t[0]];
    }
  }

  lemma NotU()
    ensures forall i :: 0 <= i < 8 ==> ESCAPES[i] != 'u'
  {
  }

  lemma {:induction false} BodySound(t: string)
    ensures Body(t).Some? ==> Decodes(t, Body(t).value)
    decreases |t|
  {
    hide IsPiece, Round, Body;
    if t == [] {
      EndBody(t, []);
    } else {
      RoundBody(t);
      if Body(t).Some? {
        var k, a := Round(t).value.0, Round(t).value.1;
        if k <= |t| {
          RoundPiece(t);
          BodySound(t[k..]);
          DecodesBy(t, k, a, Body(t[k..]).value);
        } else {
          RoundAlone(t);
        }
      }
    }
  }

  lemma {:induction false} BodyComplete(t: string, s: string)
    requires Decodes(t, s)
    ensures Body(t) == Some(s)
    decreases |t|
  {
    hide IsPiece, Round, Body;
    if t == [] {
      EndBody(t, []);
      StartBody(t);
    } else {
      RoundBody(t);
      if t == "\\" && s == "\"" {
        RoundAlone(t);
      } else {
        var k: nat, m: nat :| 0 < k <= |t| && m <= |s| && IsPiece(t[..k], s[..m]) && Decodes(t[k..], s[m..]);
        PieceRound(t, k, s[..m]);
        BodyComplete(t[k..], s[m..]);
        assert s == s[..m] + s[m..];
      }
    }
  }

  /** What is between two quotes is decoded to s if and only if it stands for s piece by piece. */
  lemma BodyMeaning(t: string, s: string)
    ensures Body(t) == Some(s) <==> Decodes(t, s)
  {
    hide Body, Decodes;
    BodySound(t);
    if Decodes(t, s) {
      BodyComplete(t, s);
    }
  }

  lemma RoundAlone(t: string)
    requires |t| == 1
    ensures Round(t) == if t[0] == '\\' then Some((2, "\"")) else Some((1, t))
  {
    assert t == [t[0]];
  }

  /** The form of a code point, with digits in either case, is decoded to the bytes of the code point. */
  lemma FormReads(t: string, cp: int, rest: string)
    requires IsForm(t, cp)
    ensures Body(t + rest) == Then(Utf8(cp), Body(rest))
  {
    hide SpellsHex, NoHex, Round, Body;
    var u := t + rest;
    assert u[..|t|] == t && u[|t|..] == rest;
    assert t[..|t|] == t;
    assert Stands(t, cp, |t|);
    PieceRound(u, |t|, Utf8(cp));
    RoundBody(u);
  }

  // A surrogate that is not the first half of a pair.
  ghost predicate IsLone(t: string, u: nat) {
    && |t| >= 6 && IsUnit(t[..6], u) && 0xD800 <= u <= 0xDFFF
    && (u <= 0xDBFF && |t| >= 12 ==> forall w :: 0xDC00 <= w <= 0xDFFF ==> !IsUnit(t[6..12], w))
  }

  lemma LoneLiteral(t: string, u: nat)
    requires IsLone(t, u)
    ensures |t| >= 6 && Literal(t) == None && t[0] == '\\' && t[1] == 'u'
  {
    hide SpellsHex, NoHex, Hex4;
    assert t[..6][..2] == t[..2] && t[..6][2..] == t[2..6];
    assert t[0] == t[..2][0] && t[1] == t[..2][1];
    UnitIs(t[..6]);
    if u <= 0xDBFF && |t| >= 12 && t[6] == '\\' && t[7] == 'u' {
      var x := t[6..12];
      assert x[..2] == [t[6], t[7]] && x[2..] == t[8..12];
      UnitIs(x);
      assert !NoHex(t[8..12]) ==> IsUnit(t[6..12], Hex4(t[8..12]));
    }
  }

  /** Lone surrogates are refused. */
  lemma LoneSurrogate(t: string, u: nat)
    requires IsLone(t, u)
    ensures Body(t) == None
  {
    hide IsLone, Literal, Utf8;
    LoneLiteral(t, u);
  }

  /** Each of the eight short escapes is decoded to its character. */
  lemma EscapeReads(i: nat, rest: string)
    requires i < 8
    ensures Body(['\\', ESCAPES[i]] + rest) == Then([ESCAPED[i]], Body(rest))
  {
    hide Body, Round;
    var u := ['\\', ESCAPES[i]] + rest;
    assert u[..2] == ['\\', ESCAPES[i]] && u[2..] == rest;
    assert IsPiece(u[..2], [ESCAPED[i]]);
    PieceRound(u, 2, [ESCAPED[i]]);
    RoundBody(u);
  }

  lemma FaceExample()
    ensures Body("\\ud83d\\uDE00") == Some([0xF0 as char, 0x9F as char, 0x98 as char, 0x80 as char])
  {
    hide Body, IsHex;
    var t := "\\ud83d\\uDE00";
    assert t[..6][2..] == "d83d" && t[6..][2..] == "DE00" && t[..6][..2] == "\\u" && t[6..][..2] == "\\u";
    FaceDigits();
    assert IsForm(t, 0x1F600);
    FormReads(t, 0x1F600, "");
    assert t + "" == t && Utf8(0x1F600) + "" == Utf8(0x1F600);
    EndBody("", Utf8(0x1F600));
  }

  lemma FaceDigits()
    ensures IsHex('d', 0xD) && IsHex('8', 8) && IsHex('3', 3) && IsHex('D', 0xD) && IsHex('E', 0xE) && IsHex('0', 0)
  {
  }

  // The scan for the closing quote at position j, from i on: an even number of backslashes is behind it.
  lemma {:induction false} QuoteFrom(content: string, i: nat, j: nat)
    requires i <= j <= |content| && Backslashes(content, i, j) % 2 == 0
    ensures var r := ClosingQuote(content, j);
            && (r.Some? ==> IsBare(content, i, r.value) && forall q :: j <= q < r.value ==> !IsBare(content, i, q))
            && (r.None? ==> forall q :: j <= q ==> !IsBare(content, i, q))
    decreases |content| - j
  {
    if j < |content| && content[j] != '\"' {
      if content[j] != '\\' {
        QuoteFrom(content, i, j + 1);
      } else if j + 1 < |content| {
        assert Backslashes(content, i, j + 1) == 1 + Backslashes(content, i, j);
        assert !IsBare(content, i, j + 1);
        QuoteFrom(content, i, j + 2);
      }
    }
  }

  /** The literal ends at the first quote that has an even number of backslashes in front of it. */
  lemma QuoteMeaning(content: string, i: nat, e: nat)
    requires i <= |content|
    ensures ClosingQuote(content, i) == Some(e) <==> Closes(content, i, e)
  {
    hide ClosingQuote;
    QuoteFrom(content, i, i);
  }

  /** A literal is read as s if and only if it stands for s, and then up to its closing quote. */
  lemma StringMeaning(content: string, offset: nat, s: string, next: nat)
    requires offset < |content|
    ensures StringAt(content, offset) == Some((s, next)) <==> IsLiteral(content, offset, s, next)
  {
    hide Body, ClosingQuote, Closes, Decodes;
    if next > offset + 1 {
      QuoteMeaning(content, offset + 1, next - 1);
      if next <= |content| {
        BodyMeaning(content[offset + 1..next - 1], s);
      }
    }
    if StringAt(content, offset).Some? {
      QuoteMeaning(content, offset + 1, StringAt(content, offset).value.1 - 1);
    }
  }

  /** `parse_string`. The second pass writes into a buffer whose size the first pass has estimated: on
      every input it stays within, also where an invalid \u literal puts the two passes out of step. */
  method ParseString(content: string, offset: nat) returns (r: Option<(string, nat)>)
    requires offset < |content|
    ensures r == StringAt(content, offset)
    ensures forall s, next: nat :: r == Some((s, next)) <==> IsLiteral(content, offset, s, next)
  {
    hide Body, Escapes, Round, Fits, ClosingQuote, IsLiteral;
    forall s, next: nat ensures StringAt(content, offset) == Some((s, next)) <==> IsLiteral(content, offset, s, next) {
      StringMeaning(content, offset, s, next);
    }
    if content[offset] != '\"' {
      return None;
    }
    var found := FindEnd(content, offset);
    if found.None? {
      return None;
    }
    var start, end := offset + 1, found.value.0;
    StartFits(content, start, end);
    CountBounded(content, start, end);
    var output := new char[end - offset - found.value.1 + 1];
    var input: nat, out: nat := start, 0;
    ghost var body := Body(content[start..end]);
    StartBody(content[start..end]);
    while input < end
      invariant start <= input <= end + 1 && out <= output.Length - 1 && Fits(content, start, end, input, out)
      invariant input <= end ==> body == Then(output[..out], Body(content[input..end]))
      invariant input > end ==> body == Some(output[..out])
    {
      ghost var rest, before := content[input..end], output[..out];
      RoundBody(rest);
      if Round(rest).Some? {
        RoundFits(content, start, end, input, out);
      }
      var read, written := DecodeOne(content, input, end, output, out);
      if read == 0 {
        return None;
      }
      if read <= |rest| {
        ThenThen(before, Round(rest).value.1, Body(rest[read..]));
        assert rest[read..] == content[input + read..end];
      }
      input, out := input + read, out + written;
    }
    if input <= end {
      EndBody(content[input..end], output[..out]);
    }
    output[out] := '\0';
    return Some((output[..out], end + 1));
  }

  lemma StartFits(content: string, start: nat, end: nat)
    requires start <= end < |content|
    ensures Fits(content, start, end, start, 0)
  {
  }

  lemma EndBody(t: string, a: string)
    requires t == []
    ensures Then(a, Body(t)) == Some(a)
  {
    assert a + [] == a;
  }

  lemma {:induction false} CountBounded(content: string, start: nat, i: nat)
    requires start <= i <= |content|
    ensures Escapes(content, start, i).0 <= i - start
    decreases i
  {
    if i > start {
      CountBounded(content, start, i - 1);
    }
  }

  lemma StartBody(t: string)
    ensures Then([], Body(t)) == Body(t)
  {
    assert Body(t).Some? ==> [] + Body(t).value == Body(t).value;
  }
}
