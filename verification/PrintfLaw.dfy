/**
 The machine that reads a format prints what the format means (libc/newlibc/debug.c, `vsnprintf`).
 */
module PrintfLaw {
  import opened PrintInt
  import opened PrintfSpec
  import opened PrintfSteps

  // ----- one character after the other -----

  lemma Next(c: Conv, ch: char, rest: string, args: seq<Arg>)
    ensures var s := Step(c, ch, args);
            Text(c, [ch] + rest, args) == s.1 + Text(s.0, if s.2 then rest else [ch] + rest, s.3)
  {
    hide Step;
    var f := [ch] + rest;
    assert f[0] == ch && f[1..] == rest;
  }

  lemma Nothing(t: string)
    ensures "" + t == t
  {
  }

  // A character that prints nothing and is used up.
  lemma Silent(c: Conv, ch: char, rest: string, args: seq<Arg>)
    requires Step(c, ch, args).1 == "" && Step(c, ch, args).2
    ensures Text(c, [ch] + rest, args) == Text(Step(c, ch, args).0, rest, Step(c, ch, args).3)
  {
    hide Step;
    Next(c, ch, rest, args);
    Nothing(Text(Step(c, ch, args).0, rest, Step(c, ch, args).3));
  }

  // A character that is passed on to another mode.
  lemma Passed(c: Conv, f: string, args: seq<Arg>)
    requires f != "" && Step(c, f[0], args).1 == "" && !Step(c, f[0], args).2 && Step(c, f[0], args).3 == args
    ensures Text(c, f, args) == Text(Step(c, f[0], args).0, f, args)
  {
    hide Step;
    Nothing(Text(Step(c, f[0], args).0, f, args));
  }

  // Between conversions nothing is remembered.
  lemma {:induction false} NormalText(c: Conv, f: string, args: seq<Arg>)
    requires c.mode == Normal
    ensures Text(c, f, args) == Text(START, f, args)
    decreases |f|
  {
    if f != "" && f[0] != '%' {
      NormalText(c, f[1..], args);
    }
  }

  // ----- flags -----

  function SetAll(f: Flags, t: string): Flags
    decreases |t|
  {
    if t == "" then f else SetAll(SetFlag(f, t[0]), t[1..])
  }

  predicate Has(t: string, c: char) {
    c in t
  }

  // The flags f and those in t.
  function With(f: Flags, t: string): Flags {
    Flags(f.zero || Has(t, '0'), f.minus || Has(t, '-'), f.plus || Has(t, '+'), f.tick || Has(t, '\''), f.space || Has(t, ' '),
          f.hash || Has(t, '#'), f.signed, f.upper)
  }

  lemma HasCons(t: string, c: char)
    requires t != ""
    ensures Has(t, c) <==> c == t[0] || Has(t[1..], c)
  {
    assert t == [t[0]] + t[1..];
  }

  lemma WithStep(f: Flags, t: string)
    requires t != "" && IsFlag(t[0])
    ensures With(SetFlag(f, t[0]), t[1..]) == With(f, t)
  {
    hide Has;
    HasCons(t, '0');
    HasCons(t, '-');
    HasCons(t, '+');
    HasCons(t, '\'');
    HasCons(t, ' ');
    HasCons(t, '#');
  }

  lemma {:induction false} SetAllIs(f: Flags, t: string)
    requires AllAs(t, IsFlagChar)
    ensures SetAll(f, t) == With(f, t)
    decreases |t|
  {
    hide With, SetFlag;
    if t == "" {
      WithNone(f);
    } else {
      WithStep(f, t);
      SetAllIs(SetFlag(f, t[0]), t[1..]);
    }
  }

  lemma WithNone(f: Flags)
    ensures With(f, "") == f
  {
  }

  lemma {:induction false} FlagText(c: Conv, t: string, rest: string, args: seq<Arg>)
    requires c.mode == InFlags && AllAs(t, IsFlagChar)
    ensures Text(c, t + rest, args) == Text(c.(flags := SetAll(c.flags, t)), rest, args)
    decreases |t|
  {
    hide SetFlag;
    if t == "" {
      assert t + rest == rest;
    } else {
      assert t + rest == [t[0]] + (t[1..] + rest);
      Silent(c, t[0], t[1..] + rest, args);
      FlagText(c.(flags := SetFlag(c.flags, t[0])), t[1..], rest, args);
    }
  }

  // ----- numbers -----

  function Accumulated(n: int, t: string): int
    decreases |t|
  {
    if t == "" then n else Accumulated(n * 10 + Digit(t[0]), t[1..])
  }

  lemma {:induction false} AccumulatedSnoc(n: int, t: string, c: char)
    ensures Accumulated(n, t + [c]) == Accumulated(n, t) * 10 + Digit(c)
    decreases |t|
  {
    if t == "" {
      assert t + [c] == [c] && [c][1..] == "";
    } else {
      assert (t + [c])[1..] == t[1..] + [c];
      AccumulatedSnoc(n * 10 + Digit(t[0]), t[1..], c);
    }
  }

  lemma {:induction false} AccumulatedNat(t: string)
    ensures Accumulated(0, t) == NatOf(t)
    decreases |t|
  {
    if t != "" {
      var front, c := t[..|t| - 1], t[|t| - 1];
      assert t == front + [c];
      AccumulatedSnoc(0, front, c);
      AccumulatedNat(front);
    }
  }

  lemma {:induction false} WidthDigits(c: Conv, t: string, rest: string, args: seq<Arg>)
    requires c.mode == InWidth && AllAs(t, IsDigitChar)
    ensures Text(c, t + rest, args) == Text(c.(width := Accumulated(c.width, t)), rest, args)
    decreases |t|
  {
    if t == "" {
      assert t + rest == rest;
    } else {
      assert t + rest == [t[0]] + (t[1..] + rest);
      Silent(c, t[0], t[1..] + rest, args);
      WidthDigits(c.(width := c.width * 10 + Digit(t[0])), t[1..], rest, args);
    }
  }

  lemma {:induction false} PrecDigits(c: Conv, t: string, rest: string, args: seq<Arg>)
    requires c.mode == InPrec && AllAs(t, IsDigitChar)
    ensures Text(c, t + rest, args) == Text(c.(prec := Accumulated(c.prec, t)), rest, args)
    decreases |t|
  {
    if t == "" {
      assert t + rest == rest;
    } else {
      assert t + rest == [t[0]] + (t[1..] + rest);
      Silent(c, t[0], t[1..] + rest, args);
      PrecDigits(c.(prec := c.prec * 10 + Digit(t[0])), t[1..], rest, args);
    }
  }

  // ----- length letters -----

  function RankAfter(r: int, t: string): int {
    if t == "" then r else Ranked(RankAfter(r, t[..|t| - 1]), t[|t| - 1])
  }

  lemma {:induction false} RankFirst(r: int, c: char, t: string)
    ensures RankAfter(r, [c] + t) == RankAfter(Ranked(r, c), t)
    decreases |t|
  {
    var u := [c] + t;
    if t == "" {
      assert u[..0] == "" && u[0] == c;
    } else {
      assert u[..|u| - 1] == [c] + t[..|t| - 1] && u[|u| - 1] == t[|t| - 1];
      RankFirst(r, c, t[..|t| - 1]);
    }
  }

  lemma {:induction false} LengthText(c: Conv, t: string, rest: string, args: seq<Arg>)
    requires c.mode == InModifiers && AllAs(t, IsLengthChar)
    ensures Text(c, t + rest, args) == Text(c.(rank := RankAfter(c.rank, t)), rest, args)
    decreases |t|
  {
    hide Ranked, RankAfter, Convert;
    if t == "" {
      assert t + rest == rest;
      RankNone(c.rank);
    } else {
      assert t + rest == [t[0]] + (t[1..] + rest) && t == [t[0]] + t[1..];
      Silent(c, t[0], t[1..] + rest, args);
      LengthText(c.(rank := Ranked(c.rank, t[0])), t[1..], rest, args);
      RankFirst(c.rank, t[0], t[1..]);
    }
  }

  lemma RankNone(r: int)
    ensures RankAfter(r, "") == r
  {
  }

  // The last setter counts, and the letters behind it.
  ghost predicate LastSetter(t: string, i: nat) {
    i < |t| && IsSetter(t[i]) && forall k :: i < k < |t| ==> !IsSetter(t[k])
  }

  lemma RankOfSetter(t: string, i: nat)
    requires LastSetter(t, i)
    ensures RankOf(t) == (if t[i] == 'j' then 2 else 1) + Ranks(t[i + 1..])
  {
    hide Ranks, IsSetter;
  }

  lemma RankOfPlain(t: string)
    requires forall k :: 0 <= k < |t| ==> !IsSetter(t[k])
    ensures RankOf(t) == Ranks(t)
  {
    hide Ranks, IsSetter;
  }

  lemma RanksSnoc(t: string, c: char)
    requires IsLengthChar(c) && !IsSetter(c)
    ensures Ranks(t + [c]) == Ranked(Ranks(t), c)
  {
    var u := t + [c];
    assert u[..|u| - 1] == t && u[|u| - 1] == c;
  }

  lemma {:induction false} RankIs(t: string)
    requires AllAs(t, IsLengthChar)
    ensures RankAfter(0, t) == RankOf(t)
    ensures (exists i: nat :: LastSetter(t, i)) || forall k :: 0 <= k < |t| ==> !IsSetter(t[k])
    decreases |t|
  {
    hide Ranks, RankOf;
    if t == "" {
      RankOfPlain(t);
      RanksNone();
    } else {
      var front, c := t[..|t| - 1], t[|t| - 1];
      assert t == front + [c];
      RankIs(front);
      if IsSetter(c) {
        assert LastSetter(t, |t| - 1);
        RankOfSetter(t, |t| - 1);
        assert t[|t|..] == "";
        RanksNone();
      } else if i: nat :| LastSetter(front, i) {
        assert LastSetter(t, i);
        RankOfSetter(front, i);
        RankOfSetter(t, i);
        assert t[i + 1..] == front[i + 1..] + [c];
        RanksSnoc(front[i + 1..], c);
        RankedMore(Ranks(front[i + 1..]), if front[i] == 'j' then 2 else 1, c);
      } else {
        RankOfPlain(front);
        RankOfPlain(t);
        RanksSnoc(front, c);
      }
    }
  }

  lemma RanksNone()
    ensures Ranks("") == 0
  {
  }

  lemma RankedMore(r: int, s: int, c: char)
    requires IsLengthChar(c) && !IsSetter(c)
    ensures Ranked(s + r, c) == s + Ranked(r, c)
  {
  }

  // ----- the end of a conversion -----

  lemma LetterText(c: Conv, ch: char, rest: string, args: seq<Arg>)
    requires c.mode == InModifiers && !IsLengthChar(ch)
    ensures Text(c, [ch] + rest, args) == Convert(c, ch, args).0 + Text(START, rest, Convert(c, ch, args).1)
  {
    hide Convert;
    Next(c, ch, rest, args);
    NormalText(c.(mode := Normal), rest, Convert(c, ch, args).1);
  }

  lemma SizedIs(n: int, rank: int, bits: nat, signed: bool, f: Flags)
    requires Span(rank) == Modulus(bits) && f.signed == signed
    ensures ValueOf(if signed then SignedVal(n, rank) else UnsignedVal(n, rank), f) == Sized(n, bits, signed)
  {
    var m := n % Span(rank);
  }

  lemma PaddedIs(x: string, f: Flags, width: int, prec: int)
    requires prec >= -1
    ensures IsPadded(StringText(x, f, width, prec), Clipped(x, prec), f, width)
  {
    hide AllAre, Fill;
    var t := Clipped(x, prec);
    assert t == Clip(x, prec);
    var gap := width - |t|;
    var pad := Fill(if f.zero && !f.minus then '0' else ' ', gap);
    FillIs(if f.zero && !f.minus then '0' else ' ', gap);
    NoFill(' ');
    NoFill('0');
    if f.minus {
      assert StringText(x, f, width, prec) == t + pad;
    } else {
      assert StringText(x, f, width, prec) == pad + t;
    }
  }

  // The state of the machine in front of the letter of a conversion.
  ghost predicate Ready(c: Conv, s: Spec, args: seq<Arg>) {
    && c.mode == InModifiers && c.width == Width(s, args) && c.prec == Precision(s, args) && c.rank == RankOf(s.lengths)
    && c.flags == FlagsAsked(s, args).(hash := '#' in s.flags, signed := false, upper := false)
  }

  lemma IntPrints(c: Conv, s: Spec, args: seq<Arg>)
    requires Proper(s) && Ready(c, s, args) && IsInt(s.letter)
    ensures Prints(s, args, Convert(c, s.letter, Behind(s.prec, Behind(s.width, args))).0)
  {
    hide IsNumber, IntText, SignedVal, UnsignedVal, Sized, ValueOf, Precision, Width, RankOf;
    var n := IntOf(Behind(s.prec, Behind(s.width, args)));
    var f := FlagsAsked(s, args);
    assert FlagsOf(s.letter, c.flags) == f;
    IntShape(ValOf(s.letter, n, c.rank), f, BaseOf(s.letter), c.width, if s.letter == 'p' || s.letter == 'P' then 8 else c.prec);
    if s.letter == 'p' || s.letter == 'P' {
      SizedIs(n, 0, 32, false, f);
    } else {
      SizedIs(n, c.rank, Bits(s.lengths), s.letter == 'd' || s.letter == 'i', f);
    }
  }

  lemma {:induction false} NatOfDigits(t: string)
    requires AllAs(t, IsDigitChar)
    ensures NatOf(t) >= 0
    decreases |t|
  {
    if t != "" {
      NatOfDigits(t[..|t| - 1]);
      assert IsDigitChar(t[|t| - 1]);
    }
  }

  lemma PrecisionLeast(s: Spec, args: seq<Arg>)
    requires Proper(s)
    ensures Precision(s, args) >= -1
  {
    if s.prec.Some? && s.prec.value.Given? {
      NatOfDigits(s.prec.value.digits);
    }
  }

  lemma ConvertPrints(c: Conv, s: Spec, args: seq<Arg>)
    requires Proper(s) && Ready(c, s, args)
    ensures var a := Behind(s.prec, Behind(s.width, args));
            Prints(s, args, Convert(c, s.letter, a).0) && Convert(c, s.letter, a).1 == LeftOver(s, args)
  {
    hide IsNumber, IntText, StringText, IsPadded, Precision, Width, RankOf, Sized, Bits, Clipped;
    var a := Behind(s.prec, Behind(s.width, args));
    PrecisionLeast(s, args);
    if IsInt(s.letter) {
      IntPrints(c, s, args);
    } else if s.letter == 's' {
      PaddedIs(StrOf(a), c.flags, c.width, c.prec);
      PaddedFlags(StringText(StrOf(a), c.flags, c.width, c.prec), Clipped(StrOf(a), c.prec), c.flags, FlagsAsked(s, args), c.width);
    } else if s.letter == 'c' {
      var x := [(IntOf(a) % 256) as char];
      PaddedIs(x, c.flags, c.width, c.prec);
      PaddedFlags(StringText(x, c.flags, c.width, c.prec), Clipped(x, c.prec), c.flags, FlagsAsked(s, args), c.width);
    }
  }

  lemma PaddedFlags(t: string, x: string, f: Flags, g: Flags, width: int)
    requires IsPadded(t, x, f, width) && f.minus == g.minus && f.zero == g.zero
    ensures IsPadded(t, x, g, width)
  {
  }

  // ----- a whole conversion -----

  // A character that begins neither flag nor number nor the dot goes on to the length letters.
  lemma ToLengths(c: Conv, f: string, args: seq<Arg>)
    requires f != "" && AtLengths(f[0]) && c.mode in {InWidth, InPrec}
    ensures Text(c, f, args) == Text(c.(mode := InModifiers), f, args)
  {
    hide Convert;
    Passed(c, f, args);
  }

  // Neither flag nor digit nor star nor dot.
  predicate AtLengths(c: char) {
    !IsFlagChar(c) && !IsDigitChar(c) && c != '*' && c != '.'
  }

  // Flags, up to the width.
  lemma ReadFlags(s: Spec, f: string, args: seq<Arg>)
    requires AllAs(s.flags, IsFlagChar) && f != "" && !IsFlag(f[0])
    ensures Text(START, "%" + (s.flags + f), args) == Text(START.(mode := InWidth, flags := With(NO_FLAGS, s.flags)), f, args)
  {
    hide With, Step, SetAll;
    var c := START.(mode := InFlags);
    StepPercent(args);
    Silent(START, '%', s.flags + f, args);
    FlagText(c, s.flags, f, args);
    SetAllIs(NO_FLAGS, s.flags);
    var d := c.(flags := With(NO_FLAGS, s.flags));
    StepPast(d, f[0], args);
    Passed(d, f, args);
  }

  lemma StepPercent(args: seq<Arg>)
    ensures Step(START, '%', args) == (START.(mode := InFlags), "", true, args)
  {
  }

  lemma StepPast(c: Conv, ch: char, args: seq<Arg>)
    requires c.mode == InFlags && !IsFlag(ch)
    ensures Step(c, ch, args) == (c.(mode := InWidth), "", false, args)
  {
  }

  // The width.
  lemma ReadWidth(c: Conv, s: Spec, f: string, args: seq<Arg>)
    requires Proper(s) && c.mode == InWidth && c.width == 0 && c.flags == With(NO_FLAGS, s.flags)
    ensures Text(c, AmountText(s.width) + f, args) ==
            Text(c.(width := Width(s, args), flags := c.flags.(minus := FlagsAsked(s, args).minus)), f, Behind(s.width, args))
  {
    match s.width
    case None =>
      assert "" + f == f;
    case Some(Given(digits)) =>
      WidthDigits(c, digits, f, args);
      AccumulatedNat(digits);
    case Some(Starred) =>
      assert "*" + f == ['*'] + f;
      Silent(c, '*', f, args);
  }

  // The precision, up to the length letters.
  lemma ReadPrecision(c: Conv, s: Spec, f: string, args: seq<Arg>)
    requires Proper(s) && c.mode == InWidth && c.prec == -1 && f != "" && AtLengths(f[0])
    ensures var a := Behind(s.width, args);
            Text(c, (if s.prec.None? then "" else "." + AmountText(s.prec)) + f, a) ==
            Text(c.(mode := InModifiers, prec := Precision(s, args)), f, Behind(s.prec, a))
  {
    var a := Behind(s.width, args);
    if s.prec.None? {
      assert "" + f == f;
      ToLengths(c, f, a);
    } else {
      var d, t := c.(mode := InPrec, prec := 0), AmountText(s.prec);
      assert "." + t + f == ['.'] + (t + f);
      DotStep(c, a);
      Silent(c, '.', t + f, a);
      AfterDot(d, s, f, args);
    }
  }

  lemma DotStep(c: Conv, args: seq<Arg>)
    requires c.mode == InWidth
    ensures Step(c, '.', args) == (c.(mode := InPrec, prec := 0), "", true, args)
  {
  }

  lemma AfterDot(c: Conv, s: Spec, f: string, args: seq<Arg>)
    requires Proper(s) && s.prec.Some? && c.mode == InPrec && c.prec == 0 && f != "" && AtLengths(f[0])
    ensures var a := Behind(s.width, args);
            Text(c, AmountText(s.prec) + f, a) == Text(c.(mode := InModifiers, prec := Precision(s, args)), f, Behind(s.prec, a))
  {
    var a := Behind(s.width, args);
    match s.prec.value
    case Given(digits) =>
      PrecDigits(c, digits, f, a);
      AccumulatedNat(digits);
      ToLengths(c.(prec := NatOf(digits)), f, a);
    case Starred =>
      assert "*" + f == ['*'] + f;
      Silent(c, '*', f, a);
      ToLengths(c.(prec := Precision(s, args)), f, Rest(a));
  }

  // What a conversion and what is behind it print.
  ghost predicate Splits(s: Spec, rest: string, args: seq<Arg>, t: string) {
    Prints(s, args, t) && Text(START, Written(s) + rest, args) == t + Text(START, rest, LeftOver(s, args))
  }

  /** A conversion prints what it means, and what is behind it is printed with the arguments that are left. */
  lemma ConversionText(s: Spec, rest: string, args: seq<Arg>) returns (t: string)
    requires Proper(s)
    ensures Splits(s, rest, args, t)
  {
    hide Text, Prints, With, RankOf, Convert, Width, Precision;
    var a, b := Behind(s.width, args), Behind(s.prec, Behind(s.width, args));
    var tail := [s.letter] + rest;
    var lens := s.lengths + tail;
    var prec := if s.prec.None? then "" else "." + AmountText(s.prec);
    WrittenParts(s, rest);
    LengthsFirst(s, rest);
    ReadFlags(s, AmountText(s.width) + (prec + lens), args);
    var c := START.(mode := InWidth, flags := With(NO_FLAGS, s.flags));
    ReadWidth(c, s, prec + lens, args);
    var d := c.(width := Width(s, args), flags := c.flags.(minus := FlagsAsked(s, args).minus));
    ReadPrecision(d, s, lens, args);
    var e := d.(mode := InModifiers, prec := Precision(s, args));
    LengthText(e, s.lengths, tail, b);
    RankIs(s.lengths);
    var g := e.(rank := RankOf(s.lengths));
    LetterText(g, s.letter, rest, b);
    assert Ready(g, s, args) by { FlagsReady(s, args); }
    ConvertPrints(g, s, args);
    t := Convert(g, s.letter, b).0;
  }

  lemma FlagsReady(s: Spec, args: seq<Arg>)
    ensures With(NO_FLAGS, s.flags).(minus := FlagsAsked(s, args).minus) == FlagsAsked(s, args).(hash := '#' in s.flags, signed := false, upper := false)
  {
  }

  lemma WrittenParts(s: Spec, rest: string)
    ensures var prec := if s.prec.None? then "" else "." + AmountText(s.prec);
            Written(s) + rest == "%" + (s.flags + (AmountText(s.width) + (prec + (s.lengths + ([s.letter] + rest)))))
  {
    var prec := if s.prec.None? then "" else "." + AmountText(s.prec);
    var a := s.lengths + [s.letter];
    assert a + rest == s.lengths + ([s.letter] + rest);
    assert (prec + a) + rest == prec + (a + rest);
    assert (AmountText(s.width) + (prec + a)) + rest == AmountText(s.width) + ((prec + a) + rest);
    assert (s.flags + (AmountText(s.width) + (prec + a))) + rest == s.flags + ((AmountText(s.width) + (prec + a)) + rest);
  }

  // What is behind the flags begins with no flag, and what is behind the precision with no digit.
  lemma LengthsFirst(s: Spec, rest: string)
    requires Proper(s)
    ensures var lens := s.lengths + ([s.letter] + rest);
            var prec := if s.prec.None? then "" else "." + AmountText(s.prec);
            var f := AmountText(s.width) + (prec + lens);
            lens != "" && AtLengths(lens[0]) && f != "" && !IsFlag(f[0])
  {
    var lens := s.lengths + ([s.letter] + rest);
    var first := if s.lengths == "" then s.letter else s.lengths[0];
    assert lens[0] == first;
    FirstLetter(s);
    hide Proper;
    if s.width.None? && s.prec.None? {
      assert "" + ("" + lens) == lens;
    } else if s.width.Some? {
      WidthFirst(s);
    }
  }

  lemma FirstLetter(s: Spec)
    requires Proper(s)
    ensures AtLengths(if s.lengths == "" then s.letter else s.lengths[0])
  {
    if s.lengths != "" {
      assert IsLengthChar(s.lengths[0]);
    }
  }

  lemma WidthFirst(s: Spec)
    requires Proper(s) && s.width.Some?
    ensures AmountText(s.width) != "" && !IsFlag(AmountText(s.width)[0])
  {
    if s.width.value.Given? {
      assert IsDigitChar(s.width.value.digits[0]);
    }
  }

  // ----- whole formats -----

  lemma PlainText(c: char, rest: string, args: seq<Arg>)
    requires c != '%'
    ensures Text(START, [c] + rest, args) == [c] + Text(START, rest, args)
  {
    Next(START, c, rest, args);
  }

  lemma PlainFirst(ps: seq<Piece>, args: seq<Arg>, c: char, t: string)
    requires ps != [] && ps[0] == Plain(c) && PrintsAll(ps[1..], args, t)
    ensures PrintsAll(ps, args, [c] + t)
  {
    assert ([c] + t)[1..] == t;
  }

  lemma ConversionFirst(ps: seq<Piece>, args: seq<Arg>, s: Spec, t: string, u: string)
    requires ps != [] && ps[0] == Conversion(s) && Prints(s, args, t) && PrintsAll(ps[1..], LeftOver(s, args), u)
    ensures PrintsAll(ps, args, t + u)
  {
    hide Prints, LeftOver;
    assert (t + u)[..|t|] == t && (t + u)[|t|..] == u;
  }

  /** Every format of characters and conversions prints what it means. */
  lemma {:induction false} FormatPrints(ps: seq<Piece>, args: seq<Arg>)
    requires Pieces(ps)
    ensures PrintsAll(ps, args, Text(START, Format(ps), args))
    decreases |ps|
  {
    hide Text, Prints, Proper, Written, PrintsAll, LeftOver;
    if ps == [] {
      EmptyText(args);
      NothingPrinted(args);
    } else {
      var rest := Format(ps[1..]);
      match ps[0]
      case Plain(c) =>
        PlainText(c, rest, args);
        FormatPrints(ps[1..], args);
        PlainFirst(ps, args, c, Text(START, rest, args));
      case Conversion(s) =>
        var t := ConversionText(s, rest, args);
        FormatPrints(ps[1..], LeftOver(s, args));
        ConversionFirst(ps, args, s, t, Text(START, rest, LeftOver(s, args)));
    }
  }

  lemma NothingPrinted(args: seq<Arg>)
    ensures PrintsAll([], args, "")
  {
  }

  lemma EmptyText(args: seq<Arg>)
    ensures Text(START, "", args) == ""
  {
  }
}
