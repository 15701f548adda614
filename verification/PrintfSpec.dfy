/**
 What formats mean, conversion by conversion (libc/newlibc/debug.c, `vsnprintf`, without `%f`): how they are
 written, which arguments they take, and what they print.
 */
module PrintfSpec {
  import opened Basics
  import opened PrintInt

  // What `va_arg` finds.
  datatype Arg = IntArg(n: int) | StrArg(s: string) | NullArg

  function IntOf(args: seq<Arg>): int {
    if args != [] && args[0].IntArg? then args[0].n else 0
  }

  function StrOf(args: seq<Arg>): string {
    if args != [] && args[0].StrArg? then args[0].s else "(null)"
  }

  function Rest(args: seq<Arg>): seq<Arg> {
    if args == [] then [] else args[1..]
  }

  // ----- how a conversion is written -----

  // A width or precision: digits, or an argument.
  datatype Amount = Given(digits: string) | Starred

  datatype Spec = Spec(flags: string, width: Option<Amount>, prec: Option<Amount>, lengths: string, letter: char)

  function AmountText(a: Option<Amount>): string {
    match a
    case None => ""
    case Some(Given(digits)) => digits
    case Some(Starred) => "*"
  }

  function Written(s: Spec): string {
    "%" + (s.flags + (AmountText(s.width) + ((if s.prec.None? then "" else "." + AmountText(s.prec)) + (s.lengths + [s.letter]))))
  }

  predicate IsFlagChar(c: char) {
    c == '-' || c == '+' || c == '\'' || c == ' ' || c == '#' || c == '0'
  }

  predicate IsLengthChar(c: char) {
    c == 'h' || c == 'l' || c == 'j' || c == 'z' || c == 't' || c == 'L' || c == 'q'
  }

  predicate IsDigitChar(c: char) {
    '0' <= c <= '9'
  }

  ghost predicate AllAs(t: string, p: char -> bool) {
    forall i :: 0 <= i < |t| ==> p(t[i])
  }

  predicate IsLetter(c: char) {
    !IsFlagChar(c) && !IsDigitChar(c) && c != '*' && c != '.' && !IsLengthChar(c) && c != 'f'
  }

  // Flags, width, precision and length letters in this order; a width does not begin with a zero, which would be
  // a flag.
  ghost predicate Proper(s: Spec) {
    && AllAs(s.flags, IsFlagChar) && AllAs(s.lengths, IsLengthChar) && IsLetter(s.letter)
    && (s.width.Some? && s.width.value.Given? ==>
         s.width.value.digits != "" && s.width.value.digits[0] != '0' && AllAs(s.width.value.digits, IsDigitChar))
    && (s.prec.Some? && s.prec.value.Given? ==> AllAs(s.prec.value.digits, IsDigitChar))
  }

  // ----- what it asks for -----

  function NatOf(t: string): int {
    if t == "" then 0 else 10 * NatOf(t[..|t| - 1]) + (t[|t| - 1] as int - '0' as int)
  }

  // The arguments behind the one that a star takes.
  function Behind(a: Option<Amount>, args: seq<Arg>): seq<Arg> {
    if a == Some(Starred) then Rest(args) else args
  }

  function Width(s: Spec, args: seq<Arg>): int {
    match s.width
    case None => 0
    case Some(Given(digits)) => NatOf(digits)
    case Some(Starred) => if IntOf(args) < 0 then -IntOf(args) else IntOf(args)
  }

  // -1 is no precision.
  function Precision(s: Spec, args: seq<Arg>): int {
    match s.prec
    case None => -1
    case Some(Given(digits)) => NatOf(digits)
    case Some(Starred) => var p := IntOf(Behind(s.width, args)); if p < 0 then -1 else p
  }

  function FlagsAsked(s: Spec, args: seq<Arg>): Flags {
    Flags('0' in s.flags, '-' in s.flags || (s.width == Some(Starred) && IntOf(args) < 0), '+' in s.flags, '\'' in s.flags,
          ' ' in s.flags, '#' in s.flags || s.letter == 'p' || s.letter == 'P', s.letter == 'd' || s.letter == 'i', s.letter == 'X' || s.letter == 'P')
  }

  function Count(t: string, c: char): nat {
    if t == "" then 0 else Count(t[..|t| - 1], c) + if t[|t| - 1] == c then 1 else 0
  }

  // How many ranks up or down letters lead.
  function Ranks(t: string): int {
    Count(t, 'l') + 2 * (Count(t, 'L') + Count(t, 'q')) - Count(t, 'h')
  }

  predicate IsSetter(c: char) {
    c == 'j' || c == 'z' || c == 't'
  }

  // The rank of an argument: 'j', 'z' and 't' set it, the letters behind the last of these lead up and down.
  function RankOf(t: string): int
    decreases |t|
  {
    if i: nat :| i < |t| && IsSetter(t[i]) && (forall k :: i < k < |t| ==> !IsSetter(t[k])) then
      (if t[i] == 'j' then 2 else 1) + Ranks(t[i + 1..])
    else Ranks(t)
  }

  // The size of an argument: `char`, `short`, `int` and `long`, `long long`.
  function Bits(lengths: string): nat {
    var r := RankOf(lengths);
    if r <= -2 then 8 else if r == -1 then 16 else if r <= 1 then 32 else 64
  }

  function Modulus(bits: nat): nat {
    if bits == 8 then 0x100 else if bits == 16 then 0x1_0000 else if bits == 32 then 0x1_0000_0000 else 0x1_0000_0000_0000_0000
  }

  // An argument taken to so many bits.
  function Sized(n: int, bits: nat, signed: bool): int {
    var m := n % Modulus(bits);
    if signed && m >= Modulus(bits) / 2 then m - Modulus(bits) else m
  }

  // ----- what it prints -----

  function Clipped(x: string, prec: int): string {
    if 0 <= prec < |x| then x[..prec] else x
  }

  // A text padded up to a width: behind it with '-', in front of it without.
  ghost predicate IsPadded(t: string, x: string, f: Flags, width: int) {
    exists pad ::
      && |pad| == (if width > |x| then width - |x| else 0)
      && if f.minus then t == x + pad && AllAre(pad, ' ') else t == pad + x && AllAre(pad, if f.zero then '0' else ' ')
  }

  predicate TakesArg(letter: char) {
    letter == 'd' || letter == 'i' || letter == 'o' || letter == 'u' || letter == 'x' || letter == 'X' || letter == 'p' || letter == 'P' || letter == 's' ||
    letter == 'c' || letter == 'n'
  }

  function LeftOver(s: Spec, args: seq<Arg>): seq<Arg> {
    var a := Behind(s.prec, Behind(s.width, args));
    if TakesArg(s.letter) then Rest(a) else a
  }

  // The conversion s prints t.
  ghost predicate Prints(s: Spec, args: seq<Arg>, t: string) {
    var f, width, prec, a := FlagsAsked(s, args), Width(s, args), Precision(s, args), Behind(s.prec, Behind(s.width, args));
    match s.letter
    case 'd' => IsNumber(t, Sized(IntOf(a), Bits(s.lengths), true), f, 10, width, prec)
    case 'i' => IsNumber(t, Sized(IntOf(a), Bits(s.lengths), true), f, 10, width, prec)
    case 'u' => IsNumber(t, Sized(IntOf(a), Bits(s.lengths), false), f, 10, width, prec)
    case 'o' => IsNumber(t, Sized(IntOf(a), Bits(s.lengths), false), f, 8, width, prec)
    case 'x' => IsNumber(t, Sized(IntOf(a), Bits(s.lengths), false), f, 16, width, prec)
    case 'X' => IsNumber(t, Sized(IntOf(a), Bits(s.lengths), false), f, 16, width, prec)
    case 'p' => IsNumber(t, Sized(IntOf(a), 32, false), f, 16, width, 8)
    case 'P' => IsNumber(t, Sized(IntOf(a), 32, false), f, 16, width, 8)
    case 's' => IsPadded(t, Clipped(StrOf(a), prec), f, width)
    case 'c' => IsPadded(t, Clipped([(IntOf(a) % 256) as char], prec), f, width)
    case 'n' => t == ""
    case c => t == [c]
  }

  // ----- formats -----

  datatype Piece = Plain(c: char) | Conversion(s: Spec)

  ghost predicate Pieces(ps: seq<Piece>) {
    forall i :: 0 <= i < |ps| ==> if ps[i].Plain? then ps[i].c != '%' else Proper(ps[i].s)
  }

  function Format(ps: seq<Piece>): string {
    if ps == [] then ""
    else (match ps[0] { case Plain(c) => [c] case Conversion(s) => Written(s) }) + Format(ps[1..])
  }

  // The format prints t: characters as they are, and one conversion after the other.
  ghost predicate PrintsAll(ps: seq<Piece>, args: seq<Arg>, t: string)
    decreases |ps|
  {
    if ps == [] then t == ""
    else
      match ps[0]
      case Plain(c) => t != "" && t[0] == c && PrintsAll(ps[1..], args, t[1..])
      case Conversion(s) => exists k: nat :: k <= |t| && Prints(s, args, t[..k]) && PrintsAll(ps[1..], LeftOver(s, args), t[k..])
  }
}
