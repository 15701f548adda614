/**
 Scanning integers (libc/newlibc/vsscanf.c, `digitval`, `strntoumax`), and the round trip with
 `format_int` of libc/newlibc/debug.c.
 */
module ScanInt {
  import opened Basics
  import opened PrintInt

  // ----- `strntoumax` -----

  predicate IsSpace(c: char) {
    c == ' ' || 9 <= c as int <= 13
  }

  function DigitVal(c: char): int {
    if '0' <= c <= '9' then c as int - '0' as int
    else if 'A' <= c <= 'Z' then c as int - 'A' as int + 10
    else if 'a' <= c <= 'z' then c as int - 'a' as int + 10
    else -1
  }

  predicate IsDigit(c: char, base: nat) {
    0 <= DigitVal(c) < base
  }

  // The first place from i on without white space.
  function AfterSpace(t: string, i: nat): (j: nat)
    requires i <= |t|
    ensures i <= j <= |t|
    decreases |t| - i
  {
    if i < |t| && IsSpace(t[i]) then AfterSpace(t, i + 1) else i
  }

  function AfterSign(t: string, i: nat): (j: nat)
    requires i <= |t|
    ensures i <= j <= |t|
  {
    if i < |t| && (t[i] == '-' || t[i] == '+') then i + 1 else i
  }

  predicate HexPrefix(t: string, i: nat) {
    i + 2 <= |t| && t[i] == '0' && (t[i + 1] == 'x' || t[i + 1] == 'X')
  }

  function AfterDigits(t: string, i: nat, base: nat): (j: nat)
    requires i <= |t|
    ensures i <= j <= |t| && forall x :: i <= x < j ==> IsDigit(t[x], base)
    decreases |t| - i
  {
    if i < |t| && IsDigit(t[i], base) then AfterDigits(t, i + 1, base) else i
  }

  // The value of digits modulo 2^64.
  function Value(t: string, base: nat): (v: nat)
    requires forall x :: 0 <= x < |t| ==> IsDigit(t[x], base)
    ensures v < TWO_64
  {
    if t == "" then 0 else (Value(t[..|t| - 1], base) * base + DigitVal(t[|t| - 1])) % TWO_64
  }

  // The base that is meant, and where the digits begin.
  function BaseAt(t: string, i: nat, base: nat): (r: (nat, nat))
    requires i <= |t|
    ensures i <= r.1 <= |t|
  {
    if (base == 0 || base == 16) && HexPrefix(t, i) then (16, i + 2)
    else if base == 0 && i < |t| && t[i] == '0' then (8, i + 1)
    else if base == 0 then (10, i)
    else (base, i)
  }

  // The value and the end of the number at the head of t.
  function Number(t: string, base: nat): (nat, nat) {
    var s := AfterSpace(t, 0);
    var d := BaseAt(t, AfterSign(t, s), base);
    var e := AfterDigits(t, d.1, d.0);
    var v := Value(t[d.1..e], d.0);
    (if s < |t| && t[s] == '-' then (TWO_64 - v) % TWO_64 else v, e)
  }

  /** `strntoumax` on the n characters t. */
  method Strntoumax(t: string, base: nat) returns (v: nat, end: nat)
    ensures (v, end) == Number(t, base)
  {
    hide Value, AfterDigits;
    var p := 0;
    while p < |t| && IsSpace(t[p])
      invariant p <= |t| && AfterSpace(t, p) == AfterSpace(t, 0)
    {
      p := p + 1;
    }
    var minus := false;
    if p < |t| {
      var c := t[p];
      if c == '-' || c == '+' {
        minus := c == '-';
        p := p + 1;
      }
    }
    var b := base;
    if b == 0 {
      if HexPrefix(t, p) {
        p := p + 2;
        b := 16;
      } else if p < |t| && t[p] == '0' {
        p := p + 1;
        b := 8;
      } else {
        b := 10;
      }
    } else if b == 16 {
      if HexPrefix(t, p) {
        p := p + 2;
      }
    }
    v, end := ReadDigits(t, p, b);
    if minus {
      v := (TWO_64 - v) % TWO_64;
    }
  }

  method ReadDigits(t: string, from: nat, base: nat) returns (v: nat, p: nat)
    requires from <= |t|
    ensures p == AfterDigits(t, from, base) && v == Value(t[from..p], base)
  {
    hide Value, DigitVal;
    v, p := 0, from;
    assert t[from..p] == "";
    EmptyValue(base);
    while p < |t| && IsDigit(t[p], base)
      invariant from <= p <= |t| && AfterDigits(t, p, base) == AfterDigits(t, from, base)
      invariant AllDigits(t[from..p], base) && v == Value(t[from..p], base)
    {
      assert t[from..p + 1] == t[from..p] + [t[p]];
      ValueSnoc(t[from..p], t[p], base);
      v := (v * base + DigitVal(t[p])) % TWO_64;
      p := p + 1;
    }
  }

  // ----- round trip -----

  lemma {:induction false} AfterSpaceIs(t: string, i: nat, j: nat)
    requires i <= j <= |t| && (forall x :: i <= x < j ==> IsSpace(t[x])) && (j < |t| ==> !IsSpace(t[j]))
    ensures AfterSpace(t, i) == j
    decreases j - i
  {
    if i < j {
      AfterSpaceIs(t, i + 1, j);
    }
  }

  lemma {:induction false} AfterDigitsIs(t: string, i: nat, j: nat, base: nat)
    requires i <= j <= |t| && (forall x :: i <= x < j ==> IsDigit(t[x], base)) && (j < |t| ==> !IsDigit(t[j], base))
    ensures AfterDigits(t, i, base) == j
    decreases j - i
  {
    if i < j {
      AfterDigitsIs(t, i + 1, j, base);
    }
  }

  ghost predicate AllDigits(t: string, base: nat) {
    forall x :: 0 <= x < |t| ==> IsDigit(t[x], base)
  }

  lemma ValueSnoc(t: string, c: char, base: nat)
    requires AllDigits(t, base) && IsDigit(c, base)
    ensures AllDigits(t + [c], base) && Value(t + [c], base) == (Value(t, base) * base + DigitVal(c)) % TWO_64
  {
    assert (t + [c])[..|t|] == t;
  }

  // Without marks, the digits of a number have its value.
  lemma {:induction false} GroupedValue(v: nat, base: nat, n: nat, before: nat, skip: nat, upper: bool)
    requires Base(base) && v < TWO_64 && n <= before && skip > 0 && CountDigits(v, base) <= n
    ensures AllDigits(Grouped(v, base, n, before, skip, upper), base) && Value(Grouped(v, base, n, before, skip, upper), base) == v
    decreases n
  {
    hide Quot, Rem, DigitChar, Value, Grouped;
    if n == 0 {
      NoDigits(v, base, before, skip, upper);
    } else {
      var w, d := Quot(v, base), Rem(v, base);
      DivMod(v, base);
      CountLess(v, base, n);
      GroupedValue(w, base, n - 1, before - 1, skip, upper);
      DigitCharVal(d, upper);
      GroupedDigit(v, base, n, before, skip, upper);
      ValueSnoc(Grouped(w, base, n - 1, before - 1, skip, upper), DigitChar(d, upper), base);
    }
  }

  lemma NoDigits(v: nat, base: nat, before: nat, skip: nat, upper: bool)
    requires Base(base) && skip > 0 && CountDigits(v, base) <= 0
    ensures v == 0 && Grouped(v, base, 0, before, skip, upper) == "" && Value("", base) == 0
  {
  }

  lemma CountLess(v: nat, base: nat, n: nat)
    requires Base(base) && n > 0 && CountDigits(v, base) <= n
    ensures CountDigits(Quot(v, base), base) <= n - 1
  {
    assert v == 0 ==> Quot(v, base) == 0;
  }

  lemma DivMod(v: nat, base: nat)
    requires Base(base)
    ensures Quot(v, base) * base + Rem(v, base) == v && Rem(v, base) < base && Quot(v, base) <= v
  {
  }

  lemma DigitCharVal(d: nat, upper: bool)
    requires d < 16
    ensures DigitVal(DigitChar(d, upper)) == d
  {
  }

  lemma ZeroIs(base: nat)
    requires Base(base)
    ensures IsDigit('0', base) && DigitVal('0') == 0 && Value("", base) == 0
  {
  }

  lemma FillSnoc(c: char, n: nat)
    requires n > 0
    ensures Fill(c, n) == Fill(c, n - 1) + [c]
  {
  }

  lemma {:induction false} ZerosValue(n: nat, t: string, base: nat)
    requires Base(base) && AllDigits(t, base)
    ensures AllDigits(Fill('0', n) + t, base) && Value(Fill('0', n) + t, base) == Value(t, base)
    decreases |t|, n
  {
    hide Value, AllDigits, Fill, IsDigit, DigitVal;
    var z := Fill('0', n);
    ZeroIs(base);
    if t == "" {
      assert z + t == z;
      if n > 0 {
        ZerosValue(n - 1, t, base);
        FillSnoc('0', n);
        assert Fill('0', n - 1) + t == Fill('0', n - 1);
        ValueSnoc(Fill('0', n - 1), '0', base);
      } else {
        NoFill('0');
      }
    } else {
      var front, c := t[..|t| - 1], t[|t| - 1];
      assert t == front + [c];
      DigitsFront(t, base);
      ZerosValue(n, front, base);
      ValueSnoc(z + front, c, base);
      ValueSnoc(front, c, base);
      assert z + t == z + front + [c];
    }
  }

  lemma DigitsFront(t: string, base: nat)
    requires AllDigits(t, base) && t != ""
    ensures AllDigits(t[..|t| - 1], base) && IsDigit(t[|t| - 1], base)
  {
  }

  // A text made of white space, sign, prefix, digits and padding is read as the digits say.
  lemma NumberParts(t: string, p: nat, a: nat, d: nat, e: nat, base: nat)
    requires Places(t, p, a, d, e, base)
    ensures var v := Value(t[d..e], base); Number(t, base) == (if a > p && t[p] == '-' then (TWO_64 - v) % TWO_64 else v, e)
  {
    hide Value, AfterSpace, AfterDigits;
    PlacesStart(t, p, a, d, e, base);
    assert d == a && a + 1 < |t| ==> IsDigit(t[a + 1], base) || t[a + 1] == ' ';
    AfterDigitsIs(t, d, e, base);
  }

  lemma PlacesStart(t: string, p: nat, a: nat, d: nat, e: nat, base: nat)
    requires Places(t, p, a, d, e, base)
    ensures var s := AfterSpace(t, 0);
            s == (if a > p && t[p] == ' ' then a else p) && AfterSign(t, s) == a && (s < |t| && t[s] == '-' <==> a > p && t[p] == '-')
  {
    hide AfterSpace;
    var s := if a > p && t[p] == ' ' then a else p;
    assert IsDigit(t[d], base);
    assert d > a ==> t[a] == '0';
    AfterSpaceIs(t, 0, s);
  }

  // The parts of the text of a number.
  ghost predicate Parts(t: string, early: string, sign: string, prefix: string, digits: string, late: string) {
    var p, a := |early|, |early| + |sign|;
    var d := a + |prefix|;
    && |t| == d + |digits| + |late| && t[..p] == early && t[p..a] == sign && t[a..d] == prefix && t[d..d + |digits|] == digits && t[d + |digits|..] == late
  }

  lemma ConcatParts(early: string, sign: string, prefix: string, zeros: string, body: string, late: string)
    ensures Parts(early + (sign + prefix) + zeros + body + late, early, sign, prefix, zeros + body, late)
  {
    var t := early + (sign + prefix) + zeros + body + late;
    assert t == early + sign + prefix + (zeros + body) + late;
  }

  // The places of the parts: white space up to p, a sign up to a, a prefix up to d, digits up to e.
  ghost predicate Places(t: string, p: nat, a: nat, d: nat, e: nat, base: nat) {
    && Base(base) && p <= a <= d < e <= |t| && (forall x :: 0 <= x < p ==> t[x] == ' ') && (e < |t| ==> t[e] == ' ')
    && (a == p || (a == p + 1 && (t[p] == '-' || t[p] == '+' || t[p] == ' ')))
    && (d == a || (d == a + 2 && base == 16 && HexPrefix(t, a)))
    && (forall x :: d <= x < e ==> IsDigit(t[x], base))
  }

  lemma PartsPlaces(t: string, early: string, sign: string, prefix: string, digits: string, late: string, base: nat)
    requires Parts(t, early, sign, prefix, digits, late) && Base(base)
    requires AllAre(early, ' ') && AllAre(late, ' ')
    requires sign in ["", "-", "+", " "] && (prefix == "" || (base == 16 && prefix in ["0x", "0X"]))
    requires digits != "" && AllDigits(digits, base)
    ensures var p, a := |early|, |early| + |sign|;
            var d := a + |prefix|;
            Places(t, p, a, d, d + |digits|, base) && (a > p ==> t[p] == sign[0]) && t[d..d + |digits|] == digits && |t| == d + |digits| + |late|
  {
    var p, a := |early|, |early| + |sign|;
    var d := a + |prefix|;
    var e := d + |digits|;
    forall x | 0 <= x < p ensures t[x] == ' ' {
      assert t[..p][x] == early[x];
    }
    if a > p {
      assert t[p..a][0] == sign[0];
    }
    if d > a {
      assert t[a..d][0] == prefix[0] && t[a..d][1] == prefix[1];
    }
    forall x | d <= x < e ensures IsDigit(t[x], base) {
      assert t[d..e][x - d] == digits[x - d];
    }
    if e < |t| {
      assert t[e..][0] == late[0];
    }
  }

  lemma PartsNumber(t: string, early: string, sign: string, prefix: string, digits: string, late: string, base: nat)
    requires Parts(t, early, sign, prefix, digits, late) && Base(base)
    requires AllAre(early, ' ') && AllAre(late, ' ')
    requires sign in ["", "-", "+", " "] && (prefix == "" || (base == 16 && prefix in ["0x", "0X"]))
    requires digits != "" && AllDigits(digits, base)
    ensures Number(t, base) == (if sign == "-" then (TWO_64 - Value(digits, base)) % TWO_64 else Value(digits, base), |t| - |late|)
  {
    hide Number, Value, Parts, AllDigits, AllAre;
    PartsPlaces(t, early, sign, prefix, digits, late, base);
    var a := |early| + |sign|;
    NumberParts(t, |early|, a, a + |prefix|, a + |prefix| + |digits|, base);
  }

  /** For every 64-bit value, base, set of flags without grouping, width and precision: the text of a
      number is read back as the number, up to the padding behind it. */
  lemma PrintThenScan(val: nat, f: Flags, base: nat, width: int, prec: int)
    requires Base(base) && val < TWO_64 && !f.tick
    ensures var t := IntText(val, f, base, width, prec);
            var head, body := Sign(Minus(val, f), f) + Prefix(f, base), Body(Magnitude(val, f), f, base, prec);
            var gap := width - |head| - |body|;
            Number(t, base) == (val, |t| - if f.minus && gap > 0 then gap else 0)
  {
    hide Number, Value, Grouped, DigitCount, Parts;
    var v := Magnitude(val, f);
    var body, sign, prefix := Body(v, f, base, prec), Sign(Minus(val, f), f), Prefix(f, base);
    var gap := width - |sign + prefix| - |body|;
    var early, zeros, late := Fill(' ', if f.minus || f.zero then 0 else gap), Fill('0', if f.zero && !f.minus then gap else 0), Fill(' ', if f.minus then gap else 0);
    BodyValue(v, f, base, prec);
    ZerosValue(|zeros|, body, base);
    assert Fill('0', |zeros|) == zeros;
    ConcatParts(early, sign, prefix, zeros, body, late);
    PartsNumber(IntText(val, f, base, width, prec), early, sign, prefix, zeros + body, late, base);
  }

  lemma BodyValue(v: nat, f: Flags, base: nat, prec: int)
    requires Base(base) && v < TWO_64 && !f.tick
    ensures var b := Body(v, f, base, prec); b != "" && AllDigits(b, base) && Value(b, base) == v
  {
    hide Value, Grouped;
    var n := DigitCount(v, f, base, prec);
    GroupedValue(v, base, n, n, n, f.upper);
    GroupedSome(v, base, n, n, n, f.upper);
  }

  // ----- what has the shape of a number is read as the number -----

  lemma {:induction false} ValuePlace(t: string, base: nat, upper: bool)
    requires Base(base) && forall i :: 0 <= i < |t| ==> IsDigitOf(t[i], base, upper)
    ensures AllDigits(t, base) && PlaceValue(t, base) >= 0 && Value(t, base) == PlaceValue(t, base) % TWO_64
    decreases |t|
  {
    hide Value, IsDigitOf, DigitVal, DigitValue;
    if t == "" {
      EmptyValue(base);
    } else {
      var front, c := t[..|t| - 1], t[|t| - 1];
      assert t == front + [c];
      ValuePlace(front, base, upper);
      TableDigit(c, base, upper);
      ValueSnoc(front, c, base);
      ModTimes(PlaceValue(front, base), base, DigitVal(c));
    }
  }

  lemma EmptyValue(base: nat)
    ensures Value("", base) == 0
  {
  }

  lemma TableDigit(c: char, base: nat, upper: bool)
    requires Base(base) && IsDigitOf(c, base, upper)
    ensures DigitVal(c) == DigitValue(c) && 0 <= DigitVal(c) < base
  {
    var digits := (if upper then UPPER_DIGITS else LOWER_DIGITS)[..base];
    var i :| 0 <= i < |digits| && digits[i] == c;
    assert c == (if upper then UPPER_DIGITS else LOWER_DIGITS)[i];
    assert i < 10 ==> c == "0123456789"[i];
    assert i >= 10 ==> c == (if upper then "ABCDEF" else "abcdef")[i - 10];
  }

  lemma ModTimes(a: nat, base: nat, d: int)
    requires Base(base) && 0 <= d < base
    ensures (a % TWO_64 * base + d) % TWO_64 == (a * base + d) % TWO_64
  {
    var q, r := a / TWO_64, a % TWO_64;
    assert a == TWO_64 * q + r;
    var s := r * base + d;
    var p, m := s / TWO_64, s % TWO_64;
    assert s == TWO_64 * p + m;
    assert a * base + d == TWO_64 * (q * base) + s;
    assert a * base + d == TWO_64 * (q * base + p) + m;
    DivIs(a * base + d, TWO_64, q * base + p, m);
  }

  lemma {:induction false} ZerosPlace(z: string, t: string, base: nat)
    requires AllAre(z, '0')
    ensures PlaceValue(z + t, base) == PlaceValue(t, base)
    decreases |t|, |z|
  {
    var u := z + t;
    if t == "" {
      assert u == z;
      if z != "" {
        ZerosPlace(z[..|z| - 1], "", base);
        assert z[..|z| - 1] + "" == z[..|z| - 1];
      }
    } else {
      assert u[..|u| - 1] == z + t[..|t| - 1] && u[|u| - 1] == t[|t| - 1];
      ZerosPlace(z, t[..|t| - 1], base);
    }
  }

  lemma {:induction false} NothingErased(t: string)
    requires '_' !in t
    ensures Erase(t) == t
    decreases |t|
  {
    if t != "" {
      var front := t[..|t| - 1];
      assert t == front + [t[|t| - 1]];
      NothingErased(front);
    }
  }

  // Zeros and digits of a text that has the shape of a number.
  lemma ShapeDigits(v: nat, base: nat, upper: bool, zeros: string, body: string)
    requires Base(base) && AllAre(zeros, '0') && Spells(body, base, upper, v) && body != "" && v < TWO_64
    ensures zeros + body != "" && AllDigits(zeros + body, base) && Value(zeros + body, base) == v
  {
    hide Value, DigitVal, IsDigitOf;
    var t := zeros + body;
    ZeroDigit(base, upper);
    forall i | 0 <= i < |t| ensures IsDigitOf(t[i], base, upper) {
      assert i < |zeros| ==> t[i] == zeros[i];
    }
    ValuePlace(t, base, upper);
    ZerosPlace(zeros, body, base);
  }

  lemma ZeroDigit(base: nat, upper: bool)
    requires Base(base)
    ensures IsDigitOf('0', base, upper)
  {
    assert (if upper then UPPER_DIGITS else LOWER_DIGITS)[..base][0] == '0';
  }

  /** Whatever has the shape of a number, without marks, is read as that number modulo 2^64. */
  lemma ShapeScans(t: string, v: int, f: Flags, base: nat, width: int, prec: int)
    requires Base(base) && -TWO_64 < v < TWO_64 && !f.tick && IsNumber(t, v, f, base, width, prec)
    ensures Number(t, base).0 == v % TWO_64
  {
    hide Number, Value, Spells, IsNumberOf, Parts;
    var early, sign, prefix, zeros, body, late :| IsNumberOf(t, v, f, base, width, prec, early, sign, prefix, zeros, body, late);
    ShapeParts(t, v, f, base, width, prec, early, sign, prefix, zeros, body, late);
    PartsNumber(t, early, sign, prefix, zeros + body, late, base);
    ModMinus(v);
  }

  lemma ModMinus(v: int)
    requires -TWO_64 < v < TWO_64
    ensures v < 0 ==> (TWO_64 - (-v)) % TWO_64 == v % TWO_64
    ensures v >= 0 ==> v % TWO_64 == v
  {
  }

  lemma ShapeParts(t: string, v: int, f: Flags, base: nat, width: int, prec: int,
                   early: string, sign: string, prefix: string, zeros: string, body: string, late: string)
    requires Base(base) && -TWO_64 < v < TWO_64 && !f.tick
    requires IsNumberOf(t, v, f, base, width, prec, early, sign, prefix, zeros, body, late)
    ensures Parts(t, early, sign, prefix, zeros + body, late) && AllAre(early, ' ') && AllAre(late, ' ')
    ensures sign in ["", "-", "+", " "] && (sign == "-" <==> v < 0) && (prefix == "" || (base == 16 && prefix in ["0x", "0X"]))
    ensures zeros + body != "" && AllDigits(zeros + body, base) && Value(zeros + body, base) == if v < 0 then -v else v
    ensures AllAre(zeros, '0') && body != "" && Shortest(body, f.hash && base == 8, prec) && (prefix != "" <==> f.hash && base == 16)
    ensures !f.zero ==> zeros == ""
  {
    hide Value, Spells, AllDigits, Parts, Erase;
    NothingErased(body);
    ConcatParts(early, sign, prefix, zeros, body, late);
    ShapeDigits(if v < 0 then -v else v, base, f.upper, zeros, body);
  }

  // ----- base 0 -----

  // The base is taken from the text: 16 behind "0x", 8 behind another zero, else 10.
  lemma AnyBase(t: string, p: nat, a: nat, d: nat, e: nat, base: nat)
    requires Places(t, p, a, d, e, base)
    ensures d > a ==> Number(t, 0) == Number(t, 16)
    ensures d == a && base == 10 && t[a] != '0' ==> Number(t, 0) == Number(t, 10)
    ensures d == a && base == 10 && t[a] == '0' && e == a + 1 ==> Number(t, 0) == Number(t, 10)
    ensures d == a && base == 8 && t[a] == '0' ==> Number(t, 0) == Number(t, 8)
  {
    hide Value, AfterSpace, AfterDigits;
    PlacesStart(t, p, a, d, e, base);
    NumberParts(t, p, a, d, e, base);
    if d == a && base != 16 && t[a] == '0' {
      assert a + 1 < |t| ==> IsDigit(t[a + 1], base) || t[a + 1] == ' ';
      assert !HexPrefix(t, a);
      if base == 8 {
        AfterDigitsIs(t, a + 1, e, 8);
        LeadingZero(t[a..e], 8);
        assert t[a..e][1..] == t[a + 1..e];
      } else if e == a + 1 {
        AfterDigitsIs(t, a + 1, e, 8);
        LeadingZero(t[a..e], 10);
        assert t[a + 1..e] == "" && t[a..e][1..] == "";
        EmptyValue(8);
        EmptyValue(10);
      }
    }
  }

  lemma LeadingZero(t: string, base: nat)
    requires Base(base) && t != "" && t[0] == '0' && AllDigits(t, base)
    ensures AllDigits(t[1..], base) && Value(t, base) == Value(t[1..], base)
  {
    hide Value;
    ZerosValue(1, t[1..], base);
    assert Fill('0', 1) + t[1..] == t;
  }

  /** Without a base given, what was printed with '#' is read back, and what was printed in decimal without zeros
      in front. */
  lemma ShapeScansAny(t: string, v: int, f: Flags, base: nat, width: int, prec: int)
    requires Base(base) && -TWO_64 < v < TWO_64 && !f.tick && IsNumber(t, v, f, base, width, prec)
    requires if base == 10 then !f.zero && prec <= 1 else f.hash
    ensures Number(t, 0).0 == v % TWO_64
  {
    hide Number, Value, Spells, IsNumberOf, Parts, IsDigit, AllDigits;
    ShapeScans(t, v, f, base, width, prec);
    var early, sign, prefix, zeros, body, late :| IsNumberOf(t, v, f, base, width, prec, early, sign, prefix, zeros, body, late);
    ShapeParts(t, v, f, base, width, prec, early, sign, prefix, zeros, body, late);
    var digits := zeros + body;
    PartsPlaces(t, early, sign, prefix, digits, late, base);
    var a := |early| + |sign|;
    var d := a + |prefix|;
    AnyBase(t, |early|, a, d, d + |digits|, base);
    assert t[d] == t[d..d + |digits|][0] == digits[0];
    assert digits[0] == if zeros == "" then body[0] else zeros[0];
  }

  /** Zeros in front make a decimal number octal. */
  lemma OctalExample()
    ensures Number("010", 0) == (8, 3) && Number("010", 10) == (10, 3)
  {
    hide Number, Value, Places;
    var t := "010";
    OctalPlaces();
    AnyBase(t, 0, 0, 0, 3, 8);
    NumberParts(t, 0, 0, 0, 3, 8);
    NumberParts(t, 0, 0, 0, 3, 10);
    assert t[0..3] == t;
    TenIs(8);
    TenIs(10);
  }

  lemma OctalPlaces()
    ensures Places("010", 0, 0, 0, 3, 8) && Places("010", 0, 0, 0, 3, 10)
  {
  }

  lemma TenIs(base: nat)
    requires Base(base)
    ensures AllDigits("010", base) && Value("010", base) == base
  {
    hide Value;
    assert "010" == "01" + ['0'] && "01" == "0" + ['1'] && "0" == "" + ['0'];
    EmptyValue(base);
    ValueSnoc("", '0', base);
    ValueSnoc("0", '1', base);
    ValueSnoc("01", '0', base);
  }

  // ----- any text -----

  predicate IsBlank(c: char) {
    c == ' ' || c == '\t' || c == '\n' || c as int == 11 || c as int == 12 || c == '\r'
  }

  // The character c is the digit d: of ten figures and 26 letters in either case.
  predicate IsFigure(c: char, d: int) {
    if 0 <= d < 10 then c as int == '0' as int + d
    else 10 <= d < 36 && (c as int == 'a' as int + (d - 10) || c as int == 'A' as int + (d - 10))
  }

  // White space up to p, a sign up to a, then digits of the base b from d to e, and none at e.
  ghost predicate Laid(t: string, base: nat, p: nat, a: nat, d: nat, e: nat, b: nat) {
    && p <= a <= d <= e <= |t|
    && (forall x :: 0 <= x < p ==> IsBlank(t[x])) && (p < |t| ==> !IsBlank(t[p]))
    && (if p < |t| && (t[p] == '-' || t[p] == '+') then a == p + 1 else a == p)
    && (if a + 2 <= |t| && t[a] == '0' && (t[a + 1] == 'x' || t[a + 1] == 'X') && (base == 0 || base == 16) then b == 16 && d == a + 2
        else if base == 0 && a < |t| && t[a] == '0' then b == 8 && d == a + 1
        else b == (if base == 0 then 10 else base) && d == a)
    && (forall x :: d <= x < e ==> HasFigure(t[x], b)) && (e < |t| ==> !HasFigure(t[e], b))
  }

  ghost predicate HasFigure(c: char, b: nat) {
    exists d :: 0 <= d < b && IsFigure(c, d)
  }

  lemma FigureIs(c: char, d: int)
    ensures IsFigure(c, d) <==> DigitVal(c) == d && d >= 0
  {
  }

  lemma FiguresAre(c: char, b: nat)
    ensures HasFigure(c, b) <==> IsDigit(c, b)
  {
    hide IsFigure, DigitVal;
    FigureIs(c, DigitVal(c));
    forall d ensures IsFigure(c, d) <==> DigitVal(c) == d && d >= 0 {
      FigureIs(c, d);
    }
  }

  /** What is read of any text: behind white space and a sign, the digits of the base given or of the one that the
      prefix says, as many as there are. */
  lemma NumberMeaning(t: string, base: nat) returns (p: nat, a: nat, d: nat, e: nat, b: nat)
    ensures Laid(t, base, p, a, d, e, b) && AllDigits(t[d..e], b)
    ensures Number(t, base) == (if p < |t| && t[p] == '-' then (TWO_64 - Value(t[d..e], b)) % TWO_64 else Value(t[d..e], b), e)
  {
    hide Value, IsDigit, HasFigure, AfterDigits, AfterSpace;
    p := AfterSpace(t, 0);
    a := AfterSign(t, p);
    var r := BaseAt(t, a, base);
    b, d := r.0, r.1;
    e := AfterDigits(t, d, b);
    SpaceEnds(t, 0);
    DigitsEnd(t, d, b);
    forall c ensures HasFigure(c, b) <==> IsDigit(c, b) {
      FiguresAre(c, b);
    }
  }

  lemma {:induction false} SpaceEnds(t: string, i: nat)
    requires i <= |t|
    ensures var p := AfterSpace(t, i); (forall x :: i <= x < p ==> IsBlank(t[x])) && (p < |t| ==> !IsBlank(t[p]))
    decreases |t| - i
  {
    if i < |t| && IsSpace(t[i]) {
      SpaceEnds(t, i + 1);
    }
  }

  lemma {:induction false} DigitsEnd(t: string, i: nat, base: nat)
    requires i <= |t|
    ensures var e := AfterDigits(t, i, base); e < |t| ==> !IsDigit(t[e], base)
    decreases |t| - i
  {
    hide IsDigit;
    if i < |t| && IsDigit(t[i], base) {
      DigitsEnd(t, i + 1, base);
    }
  }
}
