/**
 Reading a format (libc/newlibc/debug.c, `vsnprintf`, without `%f` and the store of `%n`) as a machine that takes
 one character at a time, and the output that an unlimited buffer would hold.
 */
module PrintfSteps {
  import opened PrintInt
  import opened PrintfSpec

  datatype Mode = Normal | InFlags | InWidth | InPrec | InModifiers

  // A conversion being read.
  datatype Conv = Conv(mode: Mode, flags: Flags, rank: int, width: int, prec: int)

  const NO_FLAGS := Flags(false, false, false, false, false, false, false, false)
  const START := Conv(Normal, NO_FLAGS, 0, 0, -1)

  // ----- values -----

  // `rank_char` to `rank_longlong`, where `long` has 32 bits
  function Span(rank: int): (n: nat)
    ensures n > 1 && n <= TWO_64
  {
    if rank <= -2 then 0x100 else if rank == -1 then 0x1_0000 else if rank <= 1 then 0x1_0000_0000 else TWO_64
  }

  // A signed argument, extended to 64 bits.
  function SignedVal(n: int, rank: int): (v: nat)
    ensures v < TWO_64
  {
    var m := n % Span(rank);
    if m >= Span(rank) / 2 then TWO_64 - Span(rank) + m else m
  }

  function UnsignedVal(n: int, rank: int): (v: nat)
    ensures v < TWO_64
  {
    n % Span(rank)
  }

  // A string has no text if its precision is less than -1: its length becomes negative then, and the loop
  // that copies it does not stop at its end (see `Runaway`).
  function Clip(s: string, prec: int): string {
    if prec != -1 && |s| > prec then s[..if prec < 0 then 0 else prec] else s
  }

  function StringText(s: string, f: Flags, width: int, prec: int): string {
    var t := Clip(s, prec);
    var gap := width - |t|;
    Fill(if f.zero then '0' else ' ', if f.minus then 0 else gap) + t + Fill(' ', if f.minus then gap else 0)
  }

  // ----- one conversion -----

  predicate IsInt(ch: char) {
    ch == 'p' || ch == 'P' || ch == 'd' || ch == 'i' || ch == 'o' || ch == 'u' || ch == 'x' || ch == 'X'
  }

  function BaseOf(ch: char): (b: nat)
    ensures Base(b)
  {
    if ch == 'd' || ch == 'i' || ch == 'u' then 10 else if ch == 'o' then 8 else 16
  }

  function FlagsOf(ch: char, f: Flags): Flags {
    if ch == 'P' then f.(upper := true, hash := true)
    else if ch == 'p' then f.(hash := true)
    else if ch == 'd' || ch == 'i' then f.(signed := true)
    else if ch == 'X' then f.(upper := true)
    else f
  }

  function ValOf(ch: char, n: int, rank: int): (v: nat)
    ensures v < TWO_64
  {
    if ch == 'p' || ch == 'P' then UnsignedVal(n, 0) else if ch == 'd' || ch == 'i' then SignedVal(n, rank) else UnsignedVal(n, rank)
  }

  // The text of a conversion, and how many arguments it takes.
  function Convert(c: Conv, ch: char, args: seq<Arg>): (string, seq<Arg>) {
    if IsInt(ch) then (IntText(ValOf(ch, IntOf(args), c.rank), FlagsOf(ch, c.flags), BaseOf(ch), c.width, if ch == 'p' || ch == 'P' then 8 else c.prec), Rest(args))
    else if ch == 'c' then (StringText([(IntOf(args) % 256) as char], c.flags, c.width, c.prec), Rest(args))
    else if ch == 's' then (StringText(StrOf(args), c.flags, c.width, c.prec), Rest(args))
    else if ch == 'n' then ("", Rest(args))
    else ([ch], args)
  }

  function SetFlag(f: Flags, ch: char): Flags {
    Flags(f.zero || ch == '0', f.minus || ch == '-', f.plus || ch == '+', f.tick || ch == '\'', f.space || ch == ' ', f.hash || ch == '#', f.signed, f.upper)
  }

  predicate IsFlag(ch: char) {
    IsFlagChar(ch)
  }

  function Ranked(rank: int, ch: char): int {
    match ch
    case 'h' => rank - 1
    case 'l' => rank + 1
    case 'j' => 2
    case 'z' => 1
    case 't' => 1
    case _ => rank + 2
  }

  predicate IsLength(ch: char) {
    IsLengthChar(ch)
  }

  function Digit(ch: char): int {
    ch as int - '0' as int
  }

  // One character of the format: the next state, the text, whether the character is used up, the arguments left.
  function Step(c: Conv, ch: char, args: seq<Arg>): (Conv, string, bool, seq<Arg>) {
    match c.mode
    case Normal => if ch == '%' then (START.(mode := InFlags), "", true, args) else (c, [ch], true, args)
    case InFlags => if IsFlag(ch) then (c.(flags := SetFlag(c.flags, ch)), "", true, args) else (c.(mode := InWidth), "", false, args)
    case InWidth =>
      if '0' <= ch <= '9' then (c.(width := c.width * 10 + Digit(ch)), "", true, args)
      else if ch == '*' then
        var w := IntOf(args);
        (if w < 0 then c.(width := -w, flags := c.flags.(minus := true)) else c.(width := w), "", true, Rest(args))
      else if ch == '.' then (c.(prec := 0, mode := InPrec), "", true, args)
      else (c.(mode := InModifiers), "", false, args)
    case InPrec =>
      if '0' <= ch <= '9' then (c.(prec := c.prec * 10 + Digit(ch)), "", true, args)
      else if ch == '*' then (c.(prec := if IntOf(args) < 0 then -1 else IntOf(args)), "", true, Rest(args))
      else (c.(mode := InModifiers), "", false, args)
    case InModifiers =>
      if IsLength(ch) then (c.(rank := Ranked(c.rank, ch)), "", true, args)
      else
        var r := Convert(c, ch, args);
        (c.(mode := Normal), r.0, true, r.1)
  }

  // Modes that can still pass the same character on.
  function Passes(m: Mode): nat {
    match m
    case InFlags => 2
    case InWidth => 1
    case InPrec => 1
    case _ => 0
  }

  // The unlimited output.
  function Text(c: Conv, format: string, args: seq<Arg>): string
    decreases |format|, Passes(c.mode)
  {
    if format == "" then ""
    else
      var s := Step(c, format[0], args);
      s.1 + Text(s.0, if s.2 then format[1..] else format, s.3)
  }

  // No `%f`.
  ghost predicate Supported(c: Conv, format: string, args: seq<Arg>)
    decreases |format|, Passes(c.mode)
  {
    format == "" ||
    var s := Step(c, format[0], args);
    (c.mode == InModifiers ==> format[0] != 'f') && Supported(s.0, if s.2 then format[1..] else format, s.3)
  }

  // ----- precisions below -1 -----

  // A string or character is reached with a precision that makes its length negative.
  predicate Overruns(c: Conv, ch: char) {
    c.mode == InModifiers && (ch == 's' || ch == 'c') && c.prec < -1
  }

  // The output has no end: some string or character overruns.
  predicate Runaway(c: Conv, format: string, args: seq<Arg>)
    decreases |format|, Passes(c.mode)
  {
    format != "" &&
    (Overruns(c, format[0]) ||
     var s := Step(c, format[0], args);
     Runaway(s.0, if s.2 then format[1..] else format, s.3))
  }

  predicate IsPrec(ch: char) {
    '0' <= ch <= '9' || ch == '*'
  }

  ghost predicate AllPrec(t: string) {
    forall i :: 0 <= i < |t| ==> IsPrec(t[i])
  }

  // The precision after the characters t, and the arguments left.
  function ReadPrec(prec: int, t: string, args: seq<Arg>): (int, seq<Arg>)
    decreases |t|
  {
    if t == "" then (prec, args)
    else if t[0] == '*' then ReadPrec(if IntOf(args) < 0 then -1 else IntOf(args), t[1..], Rest(args))
    else ReadPrec(prec * 10 + Digit(t[0]), t[1..], args)
  }

  lemma {:induction false} RunawayPrec(c: Conv, t: string, rest: string, args: seq<Arg>)
    requires c.mode == InPrec && AllPrec(t)
    ensures var r := ReadPrec(c.prec, t, args);
            Runaway(c, t + rest, args) <==> Runaway(c.(prec := r.0), rest, r.1)
    decreases |t|
  {
    if t == "" {
      assert t + rest == rest && c.(prec := c.prec) == c;
    } else {
      assert (t + rest)[0] == t[0] && (t + rest)[1..] == t[1..] + rest;
      var s := Step(c, t[0], args);
      RunawayPrec(s.0, t[1..], rest, s.3);
    }
  }

  // Digits turn -1 into less than -1 unless all of them are nines; nothing turns less than -1 into more by digits.
  lemma {:induction false} DigitsBelow(prec: int, ds: string, args: seq<Arg>)
    requires forall i :: 0 <= i < |ds| ==> '0' <= ds[i] <= '9'
    ensures prec >= 0 ==> ReadPrec(prec, ds, args).0 >= 0
    ensures prec < -1 ==> ReadPrec(prec, ds, args).0 < -1
    ensures prec == -1 ==> (ReadPrec(prec, ds, args).0 < -1 <==> exists i :: 0 <= i < |ds| && ds[i] != '9')
    decreases |ds|
  {
    if ds != "" {
      var p := prec * 10 + Digit(ds[0]);
      DigitsBelow(p, ds[1..], args);
      if prec == -1 && ds[0] == '9' {
        assert (exists i :: 0 <= i < |ds| && ds[i] != '9') <==> (exists i :: 0 <= i < |ds[1..]| && ds[1..][i] != '9') by {
          if i :| 0 <= i < |ds| && ds[i] != '9' {
            assert ds[1..][i - 1] != '9';
          }
        }
      }
    }
  }

  /** Which precisions are less than -1: those given by `*` with a negative argument and digits behind it that
      are not all nines. */
  lemma PrecBelow(prec: int, t: string, ds: string, args: seq<Arg>)
    requires forall i :: 0 <= i < |ds| ==> '0' <= ds[i] <= '9'
    ensures var left := ReadPrec(prec, t, args).1;
            ReadPrec(prec, t + "*" + ds, args).0 < -1 <==> IntOf(left) < 0 && exists i :: 0 <= i < |ds| && ds[i] != '9'
    ensures prec >= 0 ==> ReadPrec(prec, ds, args).0 >= 0
  {
    DigitsBelow(prec, ds, args);
    StarLast(prec, t, ds, args);
    var left := ReadPrec(prec, t, args).1;
    DigitsBelow(if IntOf(left) < 0 then -1 else IntOf(left), ds, Rest(left));
  }

  // Only the last `*` counts.
  lemma {:induction false} StarLast(prec: int, t: string, ds: string, args: seq<Arg>)
    ensures var left := ReadPrec(prec, t, args).1;
            ReadPrec(prec, t + "*" + ds, args) == ReadPrec(if IntOf(left) < 0 then -1 else IntOf(left), ds, Rest(left))
    decreases |t|
  {
    var u := t + "*" + ds;
    if t == "" {
      assert u[0] == '*' && u[1..] == ds;
    } else {
      assert u[0] == t[0] && u[1..] == t[1..] + "*" + ds;
      if t[0] == '*' {
        StarLast(if IntOf(args) < 0 then -1 else IntOf(args), t[1..], ds, Rest(args));
      } else {
        StarLast(prec * 10 + Digit(t[0]), t[1..], ds, args);
      }
    }
  }

  lemma NothingRead(args: seq<Arg>)
    ensures ReadPrec(0, "", args) == (0, args)
  {
  }

  lemma StringReached(c: Conv, args: seq<Arg>)
    requires c.mode == InPrec
    ensures Runaway(c, "s", args) <==> c.prec < -1
  {
    var m := c.(mode := InModifiers);
    assert Runaway(c, "s", args) == Runaway(m, "s", args);
    assert "s"[1..] == "";
    assert Runaway(m, "s", args) == (Overruns(m, 's') || Runaway(Step(m, 's', args).0, "", Step(m, 's', args).3));
  }

  /** A string with a precision by `*` and digits runs away if and only if the argument is negative and some
      digit is no nine. */
  lemma StarPrecision(n: int, x: string, ds: string)
    requires forall i :: 0 <= i < |ds| ==> '0' <= ds[i] <= '9'
    ensures Runaway(START, "%." + ("*" + ds + "s"), [IntArg(n), StrArg(x)]) <==> n < 0 && exists i :: 0 <= i < |ds| && ds[i] != '9'
  {
    hide Runaway, ReadPrec;
    var args := [IntArg(n), StrArg(x)];
    var c := START.(mode := InPrec, prec := 0);
    PrecisionReached("*" + ds + "s", args);
    RunawayPrec(c, "*" + ds, "s", args);
    assert "" + "*" + ds == "*" + ds;
    NothingRead(args);
    PrecBelow(0, "", ds, args);
    var r := ReadPrec(0, "*" + ds, args);
    StringReached(c.(prec := r.0), r.1);
  }

  /** The precision becomes -1, then -5. */
  lemma RunawayExample()
    ensures Runaway(START, "%.*5s", [IntArg(-1), StrArg("ab")])
  {
    hide Runaway;
    assert "%." + ("*" + "5" + "s") == "%.*5s";
    assert "5"[0] != '9';
    StarPrecision(-1, "ab", "5");
  }

  lemma PrecisionReached(rest: string, args: seq<Arg>)
    ensures Runaway(START, "%." + rest, args) <==> Runaway(START.(mode := InPrec, prec := 0), rest, args)
  {
    var f := "%." + rest;
    assert f[1..] == "." + rest && ("." + rest)[1..] == rest;
    var flags, width := START.(mode := InFlags), START.(mode := InWidth);
    assert Runaway(START, f, args) == Runaway(flags, "." + rest, args);
    assert Runaway(flags, "." + rest, args) == Runaway(width, "." + rest, args);
    assert Runaway(width, "." + rest, args) == Runaway(START.(mode := InPrec, prec := 0), rest, args);
  }

  // One step at the head of a format.
  lemma TextNext(c: Conv, f: string, args: seq<Arg>)
    requires f != ""
    ensures var s := Step(c, f[0], args);
            var g := if s.2 then f[1..] else f;
            Text(c, f, args) == s.1 + Text(s.0, g, s.3) && (Runaway(c, f, args) <==> Overruns(c, f[0]) || Runaway(s.0, g, s.3))
  {
    hide Step, Overruns;
  }

  lemma TextEnds(c: Conv, args: seq<Arg>)
    ensures Text(c, "", args) == "" && !Runaway(c, "", args)
  {
  }
}
