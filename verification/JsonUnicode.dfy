/**
 What string literals stand for, as sections 7 and 8 of RFC 8259 and section 3 of RFC 3629 say, and what
 stage/cjson/cJSON.c accepts beyond that. A character stands for one byte.
 */
module JsonUnicode {
  import opened Basics

  // ----- UTF-8 -----

  predicate Scalar(cp: int) {
    0 <= cp <= 0x10FFFF
  }

  // Bytes of a code point, section 3 of RFC 3629
  function Utf8(cp: int): (r: string)
    requires Scalar(cp)
    ensures 1 <= |r| <= 4 && (cp < 0x10000 ==> |r| <= 3)
  {
    if cp < 0x80 then [cp as char]
    else if cp < 0x800 then [(0xC0 + cp / 64) as char, Tail(cp)]
    else if cp < 0x10000 then [(0xE0 + cp / 4096) as char, Tail(cp / 64), Tail(cp)]
    else [(0xF0 + cp / 262144) as char, Tail(cp / 4096), Tail(cp / 64), Tail(cp)]
  }

  function Tail(cp: nat): char {
    (0x80 + cp % 64) as char
  }

  // The code point that bytes stand for, and whether they are its shortest form.
  function Utf8Value(b: string): Option<int> {
    if |b| == 1 && b[0] as int < 0x80 then Some(b[0] as int)
    else if |b| == 2 && 0xC2 <= b[0] as int < 0xE0 && IsTail(b[1]) then Some((b[0] as int - 0xC0) * 64 + Low(b[1]))
    else if |b| == 3 && 0xE0 <= b[0] as int < 0xF0 && IsTail(b[1]) && IsTail(b[2]) then
      var cp := (b[0] as int - 0xE0) * 4096 + Low(b[1]) * 64 + Low(b[2]);
      if cp < 0x800 then None else Some(cp)
    else if |b| == 4 && 0xF0 <= b[0] as int < 0xF5 && IsTail(b[1]) && IsTail(b[2]) && IsTail(b[3]) then
      var cp := (b[0] as int - 0xF0) * 262144 + Low(b[1]) * 4096 + Low(b[2]) * 64 + Low(b[3]);
      if cp < 0x10000 || cp > 0x10FFFF then None else Some(cp)
    else None
  }

  predicate IsTail(c: char) {
    0x80 <= c as int < 0xC0
  }

  function Low(c: char): int {
    c as int - 0x80
  }

  /** The bytes of a code point are the shortest form of exactly that code point. */
  lemma Utf8RoundTrip(cp: int)
    requires Scalar(cp)
    ensures Utf8Value(Utf8(cp)) == Some(cp)
  {
    if cp >= 0x10000 {
      assert cp / 4096 / 64 == cp / 262144 && cp / 64 / 64 == cp / 4096;
    } else if cp >= 0x800 {
      assert cp / 64 / 64 == cp / 4096;
    }
  }

  // ----- \u literals -----

  const LOWER_HEX := "0123456789abcdef"
  const UPPER_HEX := "0123456789ABCDEF"

  predicate IsHex(c: char, d: nat) {
    d < 16 && (c == LOWER_HEX[d] || c == UPPER_HEX[d])
  }

  // Four digits that spell n.
  predicate SpellsHex(t: string, n: nat) {
    && |t| == 4 && n < 0x10000
    && IsHex(t[0], n / 4096) && IsHex(t[1], n / 256 % 16) && IsHex(t[2], n / 16 % 16) && IsHex(t[3], n % 16)
  }

  // A backslash, the letter u and the digits of one UTF-16 code unit.
  predicate IsUnit(t: string, u: nat) {
    |t| == 6 && t[..2] == "\\u" && SpellsHex(t[2..], u)
  }

  // The form of a code point: its UTF-16 code units, one below 0x10000 and a surrogate pair above.
  predicate IsForm(t: string, cp: int) {
    if 0 <= cp < 0x10000 then !(0xD800 <= cp <= 0xDFFF) && IsUnit(t, cp)
    else
      && Scalar(cp) && |t| == 12
      && IsUnit(t[..6], 0xD800 + (cp - 0x10000) / 0x400) && IsUnit(t[6..], 0xDC00 + (cp - 0x10000) % 0x400)
  }

  // Four characters of which one is no digit.
  ghost predicate NoHex(t: string) {
    |t| == 4 && forall n :: !SpellsHex(t, n)
  }

  // The text t begins with n characters for the code point cp: its form, or a literal without four digits,
  // which is taken for zero.
  ghost predicate Stands(t: string, cp: int, n: nat) {
    n <= |t| && (IsForm(t[..n], cp) || (n == 6 && cp == 0 && t[..2] == "\\u" && NoHex(t[2..6])))
  }

  // ----- the text between quotes -----

  const ESCAPES := "\"\\/bfnrt"
  const ESCAPED: string := ['\"', '\\', '/', 0x08 as char, 0x0C as char, 0x0A as char, 0x0D as char, 0x09 as char]

  // One character, one of the eight short escapes, or a literal.
  ghost predicate IsPiece(t: string, s: string) {
    || (|t| == 1 && t[0] != '\\' && s == t)
    || (|t| == 2 && t[0] == '\\' && exists i :: 0 <= i < 8 && t[1] == ESCAPES[i] && s == [ESCAPED[i]])
    || (exists cp :: Stands(t, cp, |t|) && s == Utf8(cp))
  }

  // The text t stands for s, piece by piece. A backslash alone stands for the quote behind it.
  ghost predicate Decodes(t: string, s: string)
    decreases |t|
  {
    || (t == "" && s == "")
    || (t == "\\" && s == "\"")
    || exists k: nat, m: nat :: 0 < k <= |t| && m <= |s| && IsPiece(t[..k], s[..m]) && Decodes(t[k..], s[m..])
  }

  // ----- the closing quote -----

  // The number of backslashes directly in front of e, from i on.
  function Backslashes(content: string, i: nat, e: nat): nat
    requires i <= e <= |content|
    decreases e
  {
    if e > i && content[e - 1] == '\\' then 1 + Backslashes(content, i, e - 1) else 0
  }

  // A quote with an odd number of backslashes in front of it is escaped.
  ghost predicate IsBare(content: string, i: nat, e: nat) {
    i <= e < |content| && content[e] == '\"' && Backslashes(content, i, e) % 2 == 0
  }

  // The first quote from i on that is not escaped.
  ghost predicate Closes(content: string, i: nat, e: nat) {
    IsBare(content, i, e) && forall q :: i <= q < e ==> !IsBare(content, i, q)
  }

  // A literal for s from offset up to next, quotes included.
  ghost predicate IsLiteral(content: string, offset: nat, s: string, next: nat) {
    && offset + 1 < next <= |content| && content[offset] == '\"' && Closes(content, offset + 1, next - 1)
    && Decodes(content[offset + 1..next - 1], s)
  }
}
