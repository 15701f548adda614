/**
 Printing integers (libc/newlibc/debug.c, `format_int`): the text of a number with sign, prefix,
 grouping and padding, and writing it into a buffer that may be too short.
 */
module PrintInt {
  import opened Basics

  const TWO_63 := 0x8000_0000_0000_0000
  const TWO_64 := 0x1_0000_0000_0000_0000

  datatype Flags = Flags(zero: bool, minus: bool, plus: bool, tick: bool, space: bool, hash: bool, signed: bool, upper: bool)

  predicate Base(base: nat) {
    base == 8 || base == 10 || base == 16
  }

  function Quot(v: nat, base: nat): nat
    requires Base(base)
  {
    v / base
  }

  function Rem(v: nat, base: nat): (r: nat)
    requires Base(base)
    ensures r < 16
  {
    v % base
  }

  // ----- digits -----

  function DigitChar(d: nat, upper: bool): char
    requires d < 16
  {
    if d < 10 then ('0' as int + d) as char
    else if upper then ('A' as int + d - 10) as char
    else ('a' as int + d - 10) as char
  }

  // The number of digits, none for zero.
  function CountDigits(v: nat, base: nat): nat
    requires Base(base)
  {
    if v == 0 then 0 else 1 + CountDigits(Quot(v, base), base)
  }

  // The last n digits of v, with a mark after every `skip` digits from the right; `before` digits may come before the next mark.
  function Grouped(v: nat, base: nat, n: nat, before: nat, skip: nat, upper: bool): string
    requires Base(base) && skip > 0
    decreases n, if before == 0 then 1 else 0
  {
    if n == 0 then ""
    else if before == 0 then Grouped(v, base, n, skip, skip, upper) + "_"
    else Grouped(Quot(v, base), base, n - 1, before - 1, skip, upper) + [DigitChar(Rem(v, base), upper)]
  }

  lemma {:induction false} GroupedLength(v: nat, base: nat, n: nat, before: nat, skip: nat, upper: bool)
    requires Base(base) && 0 <= before <= skip && skip > 0 && n > 0
    ensures |Grouped(v, base, n, before, skip, upper)| == n + (n - 1 + skip - before) / skip
    decreases n, if before == 0 then 1 else 0
  {
    if before == 0 {
      GroupedLength(v, base, n, skip, skip, upper);
      DivPlusOne(n - 1, skip);
    } else if n > 1 {
      GroupedLength(Quot(v, base), base, n - 1, before - 1, skip, upper);
    } else {
      DivSmall(skip - before, skip);
    }
  }

  // A text without the marks.
  function Erase(t: string): string {
    if t == "" then "" else Erase(t[..|t| - 1]) + if t[|t| - 1] == '_' then "" else [t[|t| - 1]]
  }

  lemma EraseSnoc(t: string, c: char)
    ensures Erase(t + [c]) == Erase(t) + if c == '_' then "" else [c]
  {
    assert (t + [c])[..|t|] == t;
  }

  /** Grouping only adds marks: without them the digits are those of the number. */
  lemma {:induction false} EraseGrouped(v: nat, base: nat, n: nat, before: nat, skip: nat, upper: bool)
    requires Base(base) && skip > 0
    ensures Erase(Grouped(v, base, n, before, skip, upper)) == Grouped(v, base, n, n, n + 1, upper)
    decreases n, if before == 0 then 1 else 0
  {
    hide Quot, Rem;
    if n > 0 {
      if before == 0 {
        EraseGrouped(v, base, n, skip, skip, upper);
        EraseSnoc(Grouped(v, base, n, skip, skip, upper), '_');
      } else {
        EraseGrouped(Quot(v, base), base, n - 1, before - 1, skip, upper);
        EraseSnoc(Grouped(Quot(v, base), base, n - 1, before - 1, skip, upper), DigitChar(Rem(v, base), upper));
        SameGroups(Quot(v, base), base, n - 1, n, n + 1, upper);
      }
    }
  }

  // Marks that are never reached do not matter.
  lemma {:induction false} SameGroups(v: nat, base: nat, n: nat, a: nat, b: nat, upper: bool)
    requires Base(base) && a > 0 && b > 0
    ensures forall x, y :: n <= x && n <= y ==> Grouped(v, base, n, x, a, upper) == Grouped(v, base, n, y, b, upper)
    decreases n
  {
    hide Quot, Rem;
    if n > 0 {
      SameGroups(Quot(v, base), base, n - 1, a, b, upper);
      forall x, y | n <= x && n <= y ensures Grouped(v, base, n, x, a, upper) == Grouped(v, base, n, y, b, upper) {
        assert Grouped(Quot(v, base), base, n - 1, x - 1, a, upper) == Grouped(Quot(v, base), base, n - 1, y - 1, b, upper);
      }
    }
  }

  lemma DivPlusOne(a: nat, k: nat)
    requires k > 0
    ensures (a + k) / k == a / k + 1
  {
    var q, r := a / k, a % k;
    assert a == k * q + r;
    assert k * (q + 1) == k * q + k;
    DivIs(a + k, k, q + 1, r);
  }

  lemma DivSmall(a: nat, k: nat)
    requires a < k
    ensures a / k == 0
  {
  }

  // ----- the text -----

  function Minus(val: nat, f: Flags): bool {
    f.signed && val >= TWO_63
  }

  function Magnitude(val: nat, f: Flags): nat
    requires val < TWO_64
  {
    if Minus(val, f) then TWO_64 - val else val
  }

  // Digits with zeros in front, as precision and '#' demand.
  function DigitCount(v: nat, f: Flags, base: nat, prec: int): (n: nat)
    requires Base(base)
    ensures n >= 1 && n >= CountDigits(v, base)
  {
    var n := CountDigits(v, base);
    var p := if f.hash && base == 8 && prec < n + 1 then n + 1 else prec;
    if n < p then p else if v == 0 then 1 else n
  }

  function Skip(f: Flags, base: nat, n: nat): nat {
    if f.tick then if base == 16 then 4 else 3 else n
  }

  function Body(v: nat, f: Flags, base: nat, prec: int): string
    requires Base(base)
  {
    var n := DigitCount(v, f, base, prec);
    var k := Skip(f, base, n);
    Grouped(v, base, n, k, k, f.upper)
  }

  function Sign(minus: bool, f: Flags): string {
    if minus then "-" else if f.plus then "+" else if f.space then " " else ""
  }

  function Prefix(f: Flags, base: nat): string {
    if f.hash && base == 16 then if f.upper then "0X" else "0x" else ""
  }

  function Fill(c: char, n: int): string {
    seq(if n > 0 then n else 0, _ => c)
  }

  function IntText(val: nat, f: Flags, base: nat, width: int, prec: int): string
    requires Base(base) && val < TWO_64
  {
    var head, body := Sign(Minus(val, f), f) + Prefix(f, base), Body(Magnitude(val, f), f, base, prec);
    var gap := width - |head| - |body|;
    Fill(' ', if f.minus || f.zero then 0 else gap) + head + Fill('0', if f.zero && !f.minus then gap else 0) + body +
    Fill(' ', if f.minus then gap else 0)
  }

  // ----- what the text looks like -----

  const LOWER_DIGITS := "0123456789abcdef"
  const UPPER_DIGITS := "0123456789ABCDEF"

  ghost predicate AllAre(t: string, c: char) {
    forall i :: 0 <= i < |t| ==> t[i] == c
  }

  function DigitValue(c: char): int {
    if c <= '9' then c as int - '0' as int else if c <= 'F' then 10 + c as int - 'A' as int else 10 + c as int - 'a' as int
  }

  function PlaceValue(t: string, base: nat): int {
    if t == "" then 0 else PlaceValue(t[..|t| - 1], base) * base + DigitValue(t[|t| - 1])
  }

  predicate IsDigitOf(c: char, base: nat, upper: bool) {
    base <= 16 && c in (if upper then UPPER_DIGITS else LOWER_DIGITS)[..base]
  }

  // Digits of the base, in the case asked for, with the value v.
  ghost predicate Spells(t: string, base: nat, upper: bool, v: nat) {
    && base <= 16 && PlaceValue(t, base) == v
    && forall i :: 0 <= i < |t| ==> IsDigitOf(t[i], base, upper)
  }

  // No more digits than value, precision and, for an octal number with '#', a zero in front ask for.
  ghost predicate Shortest(t: string, octal: bool, prec: int) {
    && |t| >= 1 && |t| >= prec && (octal ==> t[0] == '0')
    && (|t| > 1 && |t| > prec ==> (if octal then t[1] else t[0]) != '0')
  }

  predicate IsMark(behind: nat, group: nat) {
    behind % (group + 1) == group
  }

  // A mark in front of every `group` digits from the right, but not in front of the first digit.
  ghost predicate Marked(t: string, group: nat) {
    && t != "" && t[0] != '_'
    && forall i :: 0 <= i < |t| ==> (t[i] == '_' <==> IsMark(|t| - 1 - i, group))
  }

  ghost predicate IsNumberOf(t: string, v: int, f: Flags, base: nat, width: int, prec: int,
                          early: string, sign: string, prefix: string, zeros: string, body: string, late: string)
  {
    && t == early + (sign + prefix) + zeros + body + late
    && AllAre(early, ' ') && AllAre(zeros, '0') && AllAre(late, ' ')
    && sign == (if v < 0 then "-" else if f.plus then "+" else if f.space then " " else "")
    && prefix == (if f.hash && base == 16 then if f.upper then "0X" else "0x" else "")
    && Spells(Erase(body), base, f.upper, if v < 0 then -v else v) && Shortest(Erase(body), f.hash && base == 8, prec)
    && (if f.tick then Marked(body, if base == 16 then 4 else 3) else '_' !in body)
    && |t| == (if width > |sign + prefix| + |body| then width else |sign + prefix| + |body|)
    && (f.minus ==> early == "" && zeros == "")
    && (!f.minus && f.zero ==> early == "" && late == "")
    && (!f.minus && !f.zero ==> zeros == "" && late == "")
  }

  // The text of v: blanks, sign, prefix, zeros, digits and blanks, as the flags ask for.
  ghost predicate IsNumber(t: string, v: int, f: Flags, base: nat, width: int, prec: int) {
    exists early, sign, prefix, zeros, body, late :: IsNumberOf(t, v, f, base, width, prec, early, sign, prefix, zeros, body, late)
  }

  // The number that 64 bits stand for.
  function ValueOf(val: nat, f: Flags): int {
    if f.signed && val >= TWO_63 then val - TWO_64 else val
  }

  lemma DigitCharIs(d: nat, upper: bool)
    requires d < 16
    ensures DigitValue(DigitChar(d, upper)) == d && DigitChar(d, upper) == (if upper then UPPER_DIGITS else LOWER_DIGITS)[d] && DigitChar(d, upper) != '_' && (DigitChar(d, upper) == '0' <==> d == 0)
  {
  }

  lemma SpellsSnoc(t: string, c: char, base: nat, upper: bool, d: nat, w: nat)
    requires d < base <= 16 && c == (if upper then UPPER_DIGITS else LOWER_DIGITS)[d] && DigitValue(c) == d && Spells(t, base, upper, w)
    ensures Spells(t + [c], base, upper, w * base + d)
  {
    var u, digits := t + [c], (if upper then UPPER_DIGITS else LOWER_DIGITS)[..base];
    assert u[..|u| - 1] == t && u[|u| - 1] == c && digits[d] == c;
  }

  // Digits without marks have the value of the number.
  lemma {:induction false} GroupedSpells(v: nat, base: nat, n: nat, before: nat, skip: nat, upper: bool)
    requires Base(base) && skip > 0 && n <= before && CountDigits(v, base) <= n
    ensures Spells(Grouped(v, base, n, before, skip, upper), base, upper, v) && |Grouped(v, base, n, before, skip, upper)| == n
    decreases n
  {
    hide Quot, Rem, DigitChar, Spells;
    if n == 0 {
      SpellsNone(base, upper);
    } else {
      QuotRem(v, base);
      GroupedSpells(Quot(v, base), base, n - 1, before - 1, skip, upper);
      DigitCharIs(Rem(v, base), upper);
      SpellsSnoc(Grouped(Quot(v, base), base, n - 1, before - 1, skip, upper), DigitChar(Rem(v, base), upper), base, upper, Rem(v, base), Quot(v, base));
    }
  }

  lemma SpellsNone(base: nat, upper: bool)
    requires base <= 16
    ensures Spells("", base, upper, 0)
  {
  }

  lemma QuotRem(v: nat, base: nat)
    requires Base(base)
    ensures v == Quot(v, base) * base + Rem(v, base) && Rem(v, base) < base <= 16
    ensures v > 0 ==> CountDigits(v, base) == 1 + CountDigits(Quot(v, base), base)
    ensures v == 0 ==> Quot(v, base) == 0 && Rem(v, base) == 0
  {
    hide CountDigits;
    CountStep(v, base);
    if base == 8 {
      assert v == v / 8 * 8 + v % 8;
    } else if base == 10 {
      assert v == v / 10 * 10 + v % 10;
    } else {
      assert v == v / 16 * 16 + v % 16;
    }
  }

  lemma CountStep(v: nat, base: nat)
    requires Base(base)
    ensures v > 0 ==> CountDigits(v, base) == 1 + CountDigits(Quot(v, base), base)
  {
    hide Quot;
  }

  // Zeros in front, then the first digit of the number.
  lemma {:induction false} GroupedLead(v: nat, base: nat, n: nat, before: nat, skip: nat, upper: bool)
    requires Base(base) && skip > 0 && n <= before && CountDigits(v, base) <= n
    ensures var t, k := Grouped(v, base, n, before, skip, upper), n - CountDigits(v, base);
            && |t| == n && (forall i :: 0 <= i < k ==> t[i] == '0') && (v > 0 ==> k < n && t[k] != '0')
    decreases n
  {
    hide Quot, Rem, DigitChar;
    if n > 0 {
      QuotRem(v, base);
      CountZero(Quot(v, base), base);
      CountZero(v, base);
      DigitCharIs(Rem(v, base), upper);
      GroupedLead(Quot(v, base), base, n - 1, before - 1, skip, upper);
    }
  }

  lemma ModNext(i: nat, skip: nat)
    requires skip > 0
    ensures (i + 1 + skip) % (skip + 1) == i % (skip + 1)
  {
    var k := skip + 1;
    var q, r := i / k, i % k;
    assert i == k * q + r;
    assert i + k == k * (q + 1) + r;
    DivIs(i + k, k, q + 1, r);
  }

  // Marks of a number of which `before` digits come in front of the next mark.
  ghost predicate MarkedFrom(t: string, before: nat, skip: nat)
    requires before <= skip
  {
    t != "" && t[0] != '_' && forall i :: 0 <= i < |t| ==> (t[i] == '_' <==> IsMark(|t| - 1 - i + skip - before, skip))
  }

  lemma MarkBehind(t: string, skip: nat)
    requires skip > 0 && MarkedFrom(t, skip, skip)
    ensures MarkedFrom(t + "_", 0, skip)
  {
    var u := t + "_";
    forall i | 0 <= i < |u| ensures u[i] == '_' <==> IsMark(|u| - 1 - i + skip, skip) {
      if i < |t| {
        assert u[i] == t[i];
        ModNext(|t| - 1 - i, skip);
      }
    }
  }

  lemma NoMark(behind: nat, skip: nat)
    requires behind < skip
    ensures !IsMark(behind, skip)
  {
  }

  lemma DigitBehind(t: string, c: char, before: nat, skip: nat)
    requires 0 < before <= skip && c != '_' && (t == "" || MarkedFrom(t, before - 1, skip))
    ensures MarkedFrom(t + [c], before, skip)
  {
    hide IsMark;
    NoMark(skip - before, skip);
    var u := t + [c];
    forall i | 0 <= i < |u| ensures u[i] == '_' <==> IsMark(|u| - 1 - i + skip - before, skip) {
      if i < |t| {
        assert u[i] == t[i];
      }
    }
  }

  lemma {:induction false} GroupedMarks(v: nat, base: nat, n: nat, before: nat, skip: nat, upper: bool)
    requires Base(base) && skip > 0 && before <= skip && n > 0
    ensures MarkedFrom(Grouped(v, base, n, before, skip, upper), before, skip)
    decreases n, if before == 0 then 1 else 0
  {
    hide Quot, Rem, DigitChar, MarkedFrom;
    if before == 0 {
      GroupedMarks(v, base, n, skip, skip, upper);
      MarkBehind(Grouped(v, base, n, skip, skip, upper), skip);
    } else {
      DigitCharIs(Rem(v, base), upper);
      if n > 1 {
        GroupedMarks(Quot(v, base), base, n - 1, before - 1, skip, upper);
      }
      DigitBehind(Grouped(Quot(v, base), base, n - 1, before - 1, skip, upper), DigitChar(Rem(v, base), upper), before, skip);
    }
  }

  lemma {:induction false} NoMarks(v: nat, base: nat, n: nat, before: nat, skip: nat, upper: bool)
    requires Base(base) && skip > 0 && n <= before
    ensures '_' !in Grouped(v, base, n, before, skip, upper)
    decreases n
  {
    hide Quot, Rem, DigitChar;
    if n > 0 {
      DigitCharIs(Rem(v, base), upper);
      NoMarks(Quot(v, base), base, n - 1, before - 1, skip, upper);
    }
  }

  // The digits of a number.
  lemma BodyShape(v: nat, f: Flags, base: nat, prec: int)
    requires Base(base)
    ensures var b := Body(v, f, base, prec);
            && Spells(Erase(b), base, f.upper, v) && Shortest(Erase(b), f.hash && base == 8, prec)
            && (if f.tick then Marked(b, if base == 16 then 4 else 3) else '_' !in b)
  {
    hide Grouped, Spells, Erase, CountDigits, IsMark;
    var n := DigitCount(v, f, base, prec);
    var k := Skip(f, base, n);
    EraseGrouped(v, base, n, k, k, f.upper);
    GroupedSpells(v, base, n, n, n + 1, f.upper);
    BodyShortest(v, f, base, prec);
    if f.tick {
      GroupedMarks(v, base, n, k, k, f.upper);
    } else {
      NoMarks(v, base, n, n, n, f.upper);
    }
  }

  lemma BodyShortest(v: nat, f: Flags, base: nat, prec: int)
    requires Base(base)
    ensures var n := DigitCount(v, f, base, prec); Shortest(Grouped(v, base, n, n, n + 1, f.upper), f.hash && base == 8, prec)
  {
    hide Grouped, CountDigits;
    var n := DigitCount(v, f, base, prec);
    GroupedLead(v, base, n, n, n + 1, f.upper);
    CountZero(v, base);
  }

  lemma FillIs(c: char, n: int)
    ensures AllAre(Fill(c, n), c) && |Fill(c, n)| == if n > 0 then n else 0
  {
  }

  /** The text of a number: its digits in the base and the case asked for, sign, prefix, precision, marks, and
      padding up to the width on the side asked for. */
  lemma IntShape(val: nat, f: Flags, base: nat, width: int, prec: int)
    requires Base(base) && val < TWO_64
    ensures IsNumber(IntText(val, f, base, width, prec), ValueOf(val, f), f, base, width, prec)
  {
    hide Body, Spells, Shortest, Marked, Erase, Fill, AllAre, IsNumberOf;
    var v := Magnitude(val, f);
    var sign, prefix, body := Sign(Minus(val, f), f), Prefix(f, base), Body(v, f, base, prec);
    var gap := width - |sign + prefix| - |body|;
    var x, y, z := if f.minus || f.zero then 0 else gap, if f.zero && !f.minus then gap else 0, if f.minus then gap else 0;
    IntParts(val, f, base, width, prec, x, y, z);
  }

  lemma IntParts(val: nat, f: Flags, base: nat, width: int, prec: int, x: int, y: int, z: int)
    requires Base(base) && val < TWO_64
    requires var gap := width - |Sign(Minus(val, f), f) + Prefix(f, base)| - |Body(Magnitude(val, f), f, base, prec)|;
             x == (if f.minus || f.zero then 0 else gap) && y == (if f.zero && !f.minus then gap else 0) && z == if f.minus then gap else 0
    ensures IsNumberOf(IntText(val, f, base, width, prec), ValueOf(val, f), f, base, width, prec,
                    Fill(' ', x), Sign(Minus(val, f), f), Prefix(f, base), Fill('0', y), Body(Magnitude(val, f), f, base, prec), Fill(' ', z))
  {
    hide Body, Spells, Shortest, Marked, Erase, Fill, AllAre;
    BodyShape(Magnitude(val, f), f, base, prec);
    FillIs(' ', x);
    FillIs('0', y);
    FillIs(' ', z);
  }

  // ----- a buffer that may be too short -----

  // As much of a text as there is room for stands in the buffer.
  ghost predicate Shows(buffer: array<char>, start: nat, n: nat, text: string)
    reads buffer
  {
    (n == 0 || start + n <= buffer.Length) && forall x :: 0 <= x < n && x < |text| ==> buffer[start + x] == text[x]
  }

  // Output to a buffer with room for n characters: `o` counts all of them, the pointer `q` is right as long as there is room.
  class Output {
    const buffer: array<char>
    const start: nat
    const n: nat
    var q: nat
    var o: nat
    ghost var text: string

    ghost predicate Valid()
      reads this, buffer
    {
      o == |text| && (o < n ==> q == start + o) && Shows(buffer, start, n, text)
    }

    constructor (buffer: array<char>, start: nat, n: nat)
      requires n == 0 || start + n <= buffer.Length
      ensures Valid() && this.buffer == buffer && this.start == start && this.n == n && text == ""
    {
      this.buffer, this.start, this.n, q, o, text := buffer, start, n, start, 0, "";
    }

    // `EMIT`
    method Emit(x: char)
      requires Valid()
      modifies this, buffer
      ensures Valid() && text == old(text) + [x]
      ensures forall i :: 0 <= i < buffer.Length && !(start <= i < start + n) ==> buffer[i] == old(buffer[i])
    {
      if o < n {
        buffer[q] := x;
        q := q + 1;
      }
      o := o + 1;
      text := text + [x];
    }

    method Pad(c: char, count: int)
      requires Valid()
      modifies this, buffer
      ensures Valid() && text == old(text) + Fill(c, count)
      ensures forall i :: 0 <= i < buffer.Length && !(start <= i < start + n) ==> buffer[i] == old(buffer[i])
    {
      var left := count;
      while left > 0
        invariant left <= count || count < 0
        invariant Valid() && text == old(text) + Fill(c, if count < 0 then 0 else count - (if left < 0 then 0 else left))
        invariant forall i :: 0 <= i < buffer.Length && !(start <= i < start + n) ==> buffer[i] == old(buffer[i])
      {
        Emit(c);
        left := left - 1;
      }
    }

    method EmitText(t: string)
      requires Valid()
      modifies this, buffer
      ensures Valid() && text == old(text) + t
      ensures forall i :: 0 <= i < buffer.Length && !(start <= i < start + n) ==> buffer[i] == old(buffer[i])
    {
      var i := 0;
      while i < |t|
        invariant 0 <= i <= |t| && Valid() && text == old(text) + t[..i]
        invariant forall i :: 0 <= i < buffer.Length && !(start <= i < start + n) ==> buffer[i] == old(buffer[i])
      {
        Emit(t[i]);
        i := i + 1;
      }
    }

    // A number behind the text, by `format_int` on the room that is left.
    method EmitInt(val: nat, flags: Flags, base: nat, width: int, prec: int)
      requires Valid() && Base(base) && val < TWO_64
      modifies this, buffer
      ensures Valid() && text == old(text) + IntText(val, flags, base, width, prec)
      ensures forall i :: 0 <= i < buffer.Length && !(start <= i < start + n) ==> buffer[i] == old(buffer[i])
    {
      hide IntText, IsNumber, ValueOf;
      var room := if o < n then n - o else 0;
      var size := FormatInt(buffer, q, room, val, flags, base, width, prec);
      ghost var more := IntText(val, flags, base, width, prec);
      forall x | 0 <= x < |more| && |text| + x < n ensures buffer[start + |text| + x] == more[x] {
        assert buffer[q + x] == more[x];
      }
      ShowsMore(buffer, start, n, text, more);
      q := q + size;
      o := o + size;
      text := text + more;
    }

    // From its place k on, the text stands in the buffer behind what was there, as far as there is room.
    ghost predicate Filled(whole: string, from: nat, k: nat)
      requires Shows(buffer, start, n, "")
      reads buffer
    {
      forall x :: k <= x < |whole| && from + x < n ==> buffer[start + from + x] == whole[x]
    }

    // A character in front of those written last, at the place `at` of the text.
    method PutBack(pointer: nat, at: nat, c: char, ghost from: nat, ghost whole: string)
      requires Shows(buffer, start, n, "") && Shows(buffer, start, n, text) && |text| == from <= at < from + |whole| && whole[at - from] == c
      requires (from < n ==> pointer == start + at) && Filled(whole, from, at - from + 1)
      modifies buffer
      ensures Shows(buffer, start, n, "") && Shows(buffer, start, n, text) && Filled(whole, from, at - from)
      ensures forall i :: 0 <= i < buffer.Length && !(start <= i < start + n) ==> buffer[i] == old(buffer[i])
    {
      if at < n {
        buffer[pointer] := c;
      }
    }

    /** The digits of a number, from the last to the first. */
    method Digits(val: nat, base: nat, digits: nat, skip: nat, upper: bool)
      requires Valid() && Base(base) && digits > 0 && skip > 0
      modifies this, buffer
      ensures Valid() && text == old(text) + Grouped(val, base, digits, skip, skip, upper)
      ensures forall i :: 0 <= i < buffer.Length && !(start <= i < start + n) ==> buffer[i] == old(buffer[i])
    {
      hide Grouped;
      ghost var whole, from := Grouped(val, base, digits, skip, skip, upper), o;
      GroupedLength(val, base, digits, skip, skip, upper);
      DivNat(digits - 1, skip);
      var left := digits + (digits - 1) / skip;
      q := q + left;
      o := o + left;
      DigitsBack(val, base, digits, left, skip, upper, q, o, from, whole);
      ShowsMore(buffer, start, n, text, whole);
      text := text + whole;
    }

    method DigitsBack(val: nat, base: nat, ghost digits: nat, length: nat, skip: nat, upper: bool, pointer: nat, at: nat, ghost from: nat, ghost whole: string)
      requires Shows(buffer, start, n, "") && Shows(buffer, start, n, text) && |text| == from && Base(base) && digits > 0 && skip > 0
      requires whole == Grouped(val, base, digits, skip, skip, upper) && length == |whole|
      requires at == from + length && pointer >= length && (from < n ==> pointer == start + at)
      modifies buffer
      ensures Shows(buffer, start, n, "") && Shows(buffer, start, n, text) && Filled(whole, from, 0)
      ensures forall i :: 0 <= i < buffer.Length && !(start <= i < start + n) ==> buffer[i] == old(buffer[i])
    {
      hide Grouped, Shows, DigitChar, Quot, Rem;
      ghost var more := digits;
      var left, qq, oo, v: nat, b4tick := length, pointer, at, val, skip;
      assert whole[..left] == whole;
      GroupedSome(val, base, digits, skip, skip, upper);
      while left > 0
        invariant 0 <= left <= |whole| && oo == from + left && qq >= left && (from < n ==> qq == start + oo) && b4tick <= skip
        invariant whole[..left] == Grouped(v, base, more, b4tick, skip, upper)
        invariant Shows(buffer, start, n, "") && Shows(buffer, start, n, text) && Filled(whole, from, left)
        invariant forall i :: 0 <= i < buffer.Length && !(start <= i < start + n) ==> buffer[i] == old(buffer[i])
      {
        GroupedSome(v, base, more, b4tick, skip, upper);
        if b4tick == 0 {
          GroupedMark(v, base, more, skip, upper);
          LastChar(whole, left, Grouped(v, base, more, skip, skip, upper), '_');
          PutBack(qq - 1, oo - 1, '_', from, whole);
          qq, oo, left, b4tick := qq - 1, oo - 1, left - 1, skip;
        }
        GroupedDigit(v, base, more, b4tick, skip, upper);
        LastChar(whole, left, Grouped(Quot(v, base), base, more - 1, b4tick - 1, skip, upper), DigitChar(Rem(v, base), upper));
        PutBack(qq - 1, oo - 1, DigitChar(Rem(v, base), upper), from, whole);
        qq, oo, left := qq - 1, oo - 1, left - 1;
        v, b4tick, more := Quot(v, base), b4tick - 1, more - 1;
      }
    }
  }

  method CountLoop(val: nat, base: nat) returns (ndigits: nat)
    requires Base(base)
    ensures ndigits == CountDigits(val, base)
  {
    var v: nat := val;
    ndigits := 0;
    while v != 0
      invariant ndigits + CountDigits(v, base) == CountDigits(val, base)
      decreases v
    {
      v := Quot(v, base);
      ndigits := ndigits + 1;
    }
  }

  /** `format_int`: as much of the text as there is room for, and the length of all of it. */
  method FormatInt(buffer: array<char>, q: nat, n: nat, val: nat, flags: Flags, base: nat, width: int, prec: int) returns (o: nat)
    requires Base(base) && val < TWO_64 && (n == 0 || q + n <= buffer.Length)
    modifies buffer
    ensures o == |IntText(val, flags, base, width, prec)| && Shows(buffer, q, n, IntText(val, flags, base, width, prec))
    ensures IsNumber(IntText(val, flags, base, width, prec), ValueOf(val, flags), flags, base, width, prec)
    ensures forall i :: 0 <= i < buffer.Length && !(q <= i < q + n) ==> buffer[i] == old(buffer[i])
  {
    hide IsNumber, ValueOf, Body, Shows, Sign, Prefix, Fill, Minus, Magnitude, DigitCount, Skip, Grouped;
    var out := new Output(buffer, q, n);
    var minus, v, digits, skip, gap := Measure(val, flags, base, width, prec);
    ghost var early, zeros, late := if flags.minus || flags.zero then 0 else gap, if flags.zero && !flags.minus then gap else 0, if flags.minus then gap else 0;
    NoFill(' ');
    NoFill('0');
    if !flags.minus && !flags.zero {
      out.Pad(' ', gap);
    }
    assert out.text == Fill(' ', early);
    out.EmitText(Sign(minus, flags));
    out.EmitText(Prefix(flags, base));
    ghost var head := Fill(' ', early) + (Sign(minus, flags) + Prefix(flags, base));
    assert out.text == head;
    if flags.zero && !flags.minus {
      out.Pad('0', gap);
    }
    assert out.text == head + Fill('0', zeros);
    out.Digits(v, base, digits, skip, flags.upper);
    BodyIs(v, flags, base, prec);
    ghost var body := head + Fill('0', zeros) + Body(v, flags, base, prec);
    if flags.minus {
      out.Pad(' ', gap);
    }
    assert out.text == body + Fill(' ', late);
    IntShape(val, flags, base, width, prec);
    return out.o;
  }

  lemma NoFill(c: char)
    ensures Fill(c, 0) == ""
  {
  }

  lemma BodyIs(v: nat, f: Flags, base: nat, prec: int)
    requires Base(base)
    ensures DigitCount(v, f, base, prec) > 0 && Skip(f, base, DigitCount(v, f, base, prec)) > 0
    ensures var n := DigitCount(v, f, base, prec); var k := Skip(f, base, n);
            Body(v, f, base, prec) == Grouped(v, base, n, k, k, f.upper)
  {
  }

  // The first half of `format_int`: what has to be printed.
  method Measure(val: nat, flags: Flags, base: nat, width: int, prec: int) returns (minus: bool, v: nat, digits: nat, skip: nat, gap: int)
    requires Base(base) && val < TWO_64
    ensures minus == Minus(val, flags) && v == Magnitude(val, flags) && digits == DigitCount(v, flags, base, prec) && skip == Skip(flags, base, digits)
    ensures digits > 0 && skip > 0
    ensures gap == width - |Sign(minus, flags) + Prefix(flags, base)| - |Body(v, flags, base, prec)|
  {
    hide Grouped, CountDigits;
    minus := flags.signed && val >= TWO_63;
    v := if minus then TWO_64 - val else val;
    digits := CountLoop(v, base);
    var p := prec;
    if flags.hash && base == 8 {
      if p < digits + 1 {
        p := digits + 1;
      }
    }
    CountZero(v, base);
    if digits < p {
      digits := p;
    } else if v == 0 {
      digits := 1;
    }
    skip := if flags.tick then if base == 16 then 4 else 3 else digits;
    GroupedLength(v, base, digits, skip, skip, flags.upper);
    DivNat(digits - 1, skip);
    var nchars := digits + (digits - 1) / skip;
    if minus || flags.plus || flags.space {
      nchars := nchars + 1;
    }
    if flags.hash && base == 16 {
      nchars := nchars + 2;
    }
    gap := width - nchars;
  }

  lemma CountZero(v: nat, base: nat)
    requires Base(base)
    ensures CountDigits(v, base) == 0 <==> v == 0
  {
  }

  lemma GroupedSome(v: nat, base: nat, n: nat, before: nat, skip: nat, upper: bool)
    requires Base(base) && skip > 0
    ensures Grouped(v, base, n, before, skip, upper) == "" <==> n == 0
  {
  }

  lemma DivNat(a: nat, k: nat)
    requires k > 0
    ensures a / k >= 0
  {
  }

  lemma ShowsMore(buffer: array<char>, start: nat, n: nat, text: string, whole: string)
    requires Shows(buffer, start, n, text)
    requires forall x :: 0 <= x < |whole| && |text| + x < n ==> buffer[start + |text| + x] == whole[x]
    ensures Shows(buffer, start, n, text + whole)
  {
    forall y | 0 <= y < n && y < |text + whole| ensures buffer[start + y] == (text + whole)[y] {
      if y >= |text| {
        assert buffer[start + |text| + (y - |text|)] == whole[y - |text|];
      }
    }
  }

  lemma GroupedMark(v: nat, base: nat, n: nat, skip: nat, upper: bool)
    requires Base(base) && skip > 0 && n > 0
    ensures Grouped(v, base, n, 0, skip, upper) == Grouped(v, base, n, skip, skip, upper) + "_"
  {
  }

  lemma GroupedDigit(v: nat, base: nat, n: nat, before: nat, skip: nat, upper: bool)
    requires Base(base) && skip > 0 && n > 0 && 0 < before
    ensures Grouped(v, base, n, before, skip, upper) == Grouped(Quot(v, base), base, n - 1, before - 1, skip, upper) + [DigitChar(Rem(v, base), upper)]
  {
  }

  lemma LastChar(whole: string, left: nat, front: string, c: char)
    requires left <= |whole| && whole[..left] == front + [c]
    ensures left > 0 && whole[left - 1] == c && whole[..left - 1] == front
  {
    assert whole[..left][|front|] == c;
    assert whole[..left - 1] == whole[..left][..|front|];
  }
}
