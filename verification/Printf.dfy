/**
 Formatted printing (libc/newlibc/debug.c, `vsnprintf`, without `%f` and the store of `%n`): what is
 printed into a buffer of any size is the beginning of what an unlimited buffer would hold.
 */
module Printf {
  import opened Basics
  import opened PrintInt
  import opened PrintfSpec
  import opened PrintfSteps
  import opened PrintfLaw

  // ----- `vsnprintf` -----

  // A string or character; with a precision less than -1 the copying loop runs away.
  method EmitString(out: Output, s: string, f: Flags, width: int, prec: int) returns (lost: bool)
    requires out.Valid()
    modifies out, out.buffer
    ensures lost <==> prec < -1
    ensures !lost ==> out.Valid() && out.text == old(out.text) + StringText(s, f, width, prec)
    ensures forall i :: 0 <= i < out.buffer.Length && !(out.start <= i < out.start + out.n) ==> out.buffer[i] == old(out.buffer[i])
  {
    hide Fill;
    var slen := |s|;
    if prec != -1 && slen > prec {
      slen := prec;
    }
    lost := slen < 0;
    if lost {
      return;
    }
    NoFill(' ');
    NoFill('0');
    var gap := width - slen;
    if !f.minus {
      out.Pad(if f.zero then '0' else ' ', gap);
    }
    assert s[..slen] == Clip(s, prec);
    out.EmitText(s[..slen]);
    if f.minus {
      out.Pad(' ', gap);
    }
  }

  // The end of a conversion.
  method Emit(out: Output, c: Conv, ch: char, args: seq<Arg>) returns (rest: seq<Arg>, lost: bool)
    requires out.Valid()
    modifies out, out.buffer
    ensures lost <==> (ch == 's' || ch == 'c') && c.prec < -1
    ensures !lost ==> out.Valid() && out.text == old(out.text) + Convert(c, ch, args).0 && rest == Convert(c, ch, args).1
    ensures forall i :: 0 <= i < out.buffer.Length && !(out.start <= i < out.start + out.n) ==> out.buffer[i] == old(out.buffer[i])
  {
    hide IntText, StringText, ValOf, FlagsOf;
    lost := false;
    if IsInt(ch) {
      out.EmitInt(ValOf(ch, IntOf(args), c.rank), FlagsOf(ch, c.flags), BaseOf(ch), c.width, if ch == 'p' || ch == 'P' then 8 else c.prec);
      return Rest(args), lost;
    } else if ch == 'c' {
      lost := EmitString(out, [(IntOf(args) % 256) as char], c.flags, c.width, c.prec);
      return Rest(args), lost;
    } else if ch == 's' {
      lost := EmitString(out, StrOf(args), c.flags, c.width, c.prec);
      return Rest(args), lost;
    } else if ch == 'n' {
      return Rest(args), lost;
    }
    out.Emit(ch);
    return args, lost;
  }

  // One character of the format.
  method Scan(out: Output, c: Conv, ch: char, args: seq<Arg>) returns (next: Conv, used: bool, rest: seq<Arg>, lost: bool)
    requires out.Valid()
    modifies out, out.buffer
    ensures lost <==> Overruns(c, ch)
    ensures !lost ==> out.Valid() && Step(c, ch, args) == (next, Step(c, ch, args).1, used, rest) && out.text == old(out.text) + Step(c, ch, args).1
    ensures forall i :: 0 <= i < out.buffer.Length && !(out.start <= i < out.start + out.n) ==> out.buffer[i] == old(out.buffer[i])
  {
    hide Convert;
    next, used, rest, lost := c, true, args, false;
    match c.mode
    case Normal =>
      if ch == '%' {
        next := START.(mode := InFlags);
      } else {
        out.Emit(ch);
      }
    case InFlags =>
      if IsFlag(ch) {
        next := c.(flags := SetFlag(c.flags, ch));
      } else {
        next, used := c.(mode := InWidth), false;
      }
    case InWidth =>
      if '0' <= ch <= '9' {
        next := c.(width := c.width * 10 + Digit(ch));
      } else if ch == '*' {
        next, rest := c.(width := IntOf(args)), Rest(args);
        if next.width < 0 {
          next := next.(width := -next.width, flags := c.flags.(minus := true));
        }
      } else if ch == '.' {
        next := c.(prec := 0, mode := InPrec);
      } else {
        next, used := c.(mode := InModifiers), false;
      }
    case InPrec =>
      if '0' <= ch <= '9' {
        next := c.(prec := c.prec * 10 + Digit(ch));
      } else if ch == '*' {
        next, rest := c.(prec := IntOf(args)), Rest(args);
        if next.prec < 0 {
          next := next.(prec := -1);
        }
      } else {
        next, used := c.(mode := InModifiers), false;
      }
    case InModifiers =>
      if IsLength(ch) {
        next := c.(rank := Ranked(c.rank, ch));
      } else {
        rest, lost := Emit(out, c, ch, args);
        next := c.(mode := Normal);
      }
  }

  /** `vsnprintf`: the length of the unlimited output is returned; the buffer holds as much of it as there is
      room for and a zero, and nothing behind that. There is no such output if and only if some string or
      character has a precision less than -1. */
  method Vsnprintf(buffer: array<char>, n: nat, format: string, args: seq<Arg>) returns (o: nat, lost: bool)
    requires n <= buffer.Length && Supported(START, format, args)
    modifies buffer
    ensures lost <==> Runaway(START, format, args)
    ensures !lost ==> o == |Text(START, format, args)|
    ensures !lost && n > 0 ==> var k := if o < n then o else n - 1;
                               buffer[..k] == Text(START, format, args)[..k] && buffer[k] == '\0'
    ensures forall i :: n <= i < buffer.Length ==> buffer[i] == old(buffer[i])
    ensures forall ps :: Pieces(ps) && Format(ps) == format ==> PrintsAll(ps, args, Text(START, format, args))
  {
    hide Step, Overruns, Text, Runaway, Pieces, Format, PrintsAll;
    forall ps | Pieces(ps) && Format(ps) == format ensures PrintsAll(ps, args, Text(START, format, args)) {
      FormatPrints(ps, args);
    }
    var out := new Output(buffer, 0, n);
    var c, p, rest := START, 0, args;
    o, lost := 0, false;
    assert format[0..] == format;
    while p < |format|
      invariant 0 <= p <= |format| && out.Valid() && out.buffer == buffer && out.n == n && out.start == 0
      invariant out.text + Text(c, format[p..], rest) == Text(START, format, args)
      invariant Runaway(c, format[p..], rest) == Runaway(START, format, args)
      invariant forall i :: n <= i < buffer.Length ==> buffer[i] == old(buffer[i])
      decreases |format| - p, Passes(c.mode)
    {
      ghost var before, f := out.text, format[p..];
      assert f[0] == format[p] && f[1..] == format[p + 1..];
      StepPasses(c, format[p], rest);
      TextNext(c, f, rest);
      ghost var s := Step(c, format[p], rest);
      var next, used, more, over := Scan(out, c, format[p], rest);
      if over {
        return 0, true;
      }
      Assoc(before, s.1, Text(s.0, if s.2 then f[1..] else f, s.3));
      c, rest := next, more;
      if used {
        p := p + 1;
      }
    }
    assert format[p..] == "";
    TextEnds(c, rest);
    assert out.text + "" == out.text;
    o := out.o;
    if o < n {
      buffer[out.q] := '\0';
    } else if n > 0 {
      buffer[n - 1] := '\0';
    }
  }

  lemma StepPasses(c: Conv, ch: char, args: seq<Arg>)
    ensures !Step(c, ch, args).2 ==> Passes(Step(c, ch, args).0.mode) < Passes(c.mode)
  {
  }
}
