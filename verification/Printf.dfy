/**
  The format interpreter `vprintfmt` of `software/syscalls.c` as a function: what one directive
  does, what a whole format emits, and what the common directives mean in closed form.
 */
module Printf {
  import opened Numerals

  /** A variadic argument: a 64-bit register, or a string (None is NULL). */
  datatype Arg = Word(bits: nat) | Str(s: StrArg)
  datatype StrArg = Null | Text(text: string)

  function Low(bits: nat, modulus: nat): nat
    requires modulus > 0
  {
    bits % modulus
  }

  /** Two's complement reading. */
  function Signed(bits: nat, modulus: nat): int
    requires modulus > 0
  {
    var b := Low(bits, modulus);
    if 2 * b >= modulus then b - modulus else b
  }

  /** `getint` and `getuint`: int without a long flag, 64 bits with one or more. */
  function IntWidth(lflag: nat): (m: nat)
    ensures m > 0
  {
    if lflag >= 1 then TWO64 else TWO32
  }

  datatype Flags = Flags(padc: char, width: int, precision: int, lflag: nat)

  const INITIAL := Flags(' ', -1, -1, 0)

  /** What a directive leads to; Undefined is a va_arg without a matching argument. */
  datatype Step =
    | Emits(next: nat, text: string, rest: seq<Arg>)
    | Literal(rest: seq<Arg>)
    | Undefined

  function IsDecimal(c: char): bool {
    '0' <= c <= '9'
  }

  /** The index behind a run of digits. */
  function DigitsEnd(fmt: string, i: nat): (j: nat)
    requires i <= |fmt|
    ensures i <= j <= |fmt|
    decreases |fmt| - i
  {
    if i < |fmt| && IsDecimal(fmt[i]) then DigitsEnd(fmt, i + 1) else i
  }

  /** process_precision: the first number is the width. */
  function TakeNumber(fl: Flags, n: int): Flags {
    if fl.width < 0 then fl.(width := n, precision := -1) else fl.(precision := n)
  }

  function Min(a: int, b: int): int {
    if a < b then a else b
  }

  /** How many characters of s a precision lets through. */
  function Shown(s: string, precision: int): nat {
    if precision < 0 || precision > |s| then |s| else precision
  }

  /** The string directive. */
  function StringText(s: string, fl: Flags): string {
    var n := Shown(s, fl.precision);
    if fl.width > 0 && fl.padc != '-' then Repeat(fl.padc, fl.width - n) + s[..n]
    else s[..n] + Repeat(' ', fl.width - n)
  }

  function CharOf(v: int): char {
    (v % 256) as char
  }

  predicate IsConversion(c: char) {
    c == 'c' || c == 's' || c == 'd' || c == 'u' || c == 'o' || c == 'x' || c == 'p'
  }

  /** What a conversion emits for a word argument. */
  function WordText(c: char, fl: Flags, bits: nat): string {
    match c
    case 'c' => [CharOf(Signed(bits, TWO32))]
    case 'd' => SignedText(Signed(bits, IntWidth(fl.lflag)), fl.width, fl.padc)
    case 'u' => PaddedNumber(Low(bits, IntWidth(fl.lflag)), 10, fl.width, fl.padc)
    case 'o' => PaddedNumber(Low(bits, IntWidth(fl.lflag)), 8, fl.width, fl.padc)
    case 'x' => PaddedNumber(Low(bits, IntWidth(fl.lflag)), 16, fl.width, fl.padc)
    case _ => "0x" + PaddedNumber(Low(bits, TWO64), 16, fl.width, fl.padc)
  }

  /** A conversion takes the next argument; one of the wrong kind, or none at all, is undefined. */
  function ConvertStep(c: char, fl: Flags, next: nat, args: seq<Arg>): Step {
    if args == [] then Undefined
    else
      match args[0]
      case Str(s) =>
        if c != 's' then Undefined
        else Emits(next, StringText(if s.Null? then "(null)" else s.text, fl), args[1..])
      case Word(bits) => if c == 's' then Undefined else Emits(next, WordText(c, fl, bits), args[1..])
  }

  predicate IsFlag(c: char) {
    c == '-' || c == '0' || c == '.' || c == '#' || c == 'l'
  }

  /** The characters that only change the flags; a second number can only be a precision after a width. */
  function FlagStep(c: char, fl: Flags): Flags
    requires IsFlag(c)
  {
    match c
    case '-' => fl.(padc := '-')
    case '0' => fl.(padc := '0')
    case '.' => if fl.width < 0 then fl.(width := 0) else fl
    case 'l' => fl.(lflag := fl.lflag + 1)
    case _ => fl
  }

  /** One turn of the switch: go round again behind a flag or a number, or stop. */
  datatype Turn = Again(i: nat, fl: Flags, args: seq<Arg>) | Stop(step: Step)

  function SwitchTurn(fmt: string, i: nat, fl: Flags, args: seq<Arg>): (t: Turn)
    requires i <= |fmt|
    ensures t.Again? ==> i < t.i <= |fmt|
    ensures t.Stop? && t.step.Emits? ==> i < t.step.next <= |fmt|
  {
    if i == |fmt| then Stop(Literal(args))
    else
      var c := fmt[i];
      if IsFlag(c) then Again(i + 1, FlagStep(c, fl), args)
      else if c == '*' then
        if args != [] && args[0].Word?
        then Again(i + 1, TakeNumber(fl, Signed(args[0].bits, TWO32)), args[1..])
        else Stop(Undefined)
      else if IsDecimal(c) then
        var j := DigitsEnd(fmt, i);
        Again(j, TakeNumber(fl, Accumulate(fmt[i..j], 0)), args)
      else if c == '%' then Stop(Emits(i + 1, "%", args))
      else if IsConversion(c) then Stop(ConvertStep(c, fl, i + 1, args))
      else Stop(Literal(args))
  }

  /** One directive, from the character behind its percent sign. */
  function Directive(fmt: string, i: nat, fl: Flags, args: seq<Arg>): (r: Step)
    requires i <= |fmt|
    ensures r.Emits? ==> i < r.next <= |fmt|
    decreases |fmt| - i
  {
    match SwitchTurn(fmt, i, fl, args)
    case Stop(step) => step
    case Again(j, fl', rest) => Directive(fmt, j, fl', rest)
  }

  datatype Outcome = Done(text: string) | Stuck

  function Prepend(t: string, o: Outcome): Outcome {
    if o.Done? then Done(t + o.text) else Stuck
  }

  /** Everything a format emits from index i on. */
  function Format(fmt: string, i: nat, args: seq<Arg>): Outcome
    requires i <= |fmt|
    decreases |fmt| - i
  {
    if i == |fmt| then Done("")
    else if fmt[i] != '%' then Prepend([fmt[i]], Format(fmt, i + 1, args))
    else
      match Directive(fmt, i + 1, INITIAL, args)
      case Undefined => Stuck
      case Literal(rest) => Prepend("%", Format(fmt, i + 1, rest))
      case Emits(next, text, rest) => Prepend(text, Format(fmt, next, rest))
  }
}
