/**
  The imperative side of `software/syscalls.c`: digit generation into a fixed array, the format
  loop with its flags, and the library functions around them.
 */
module PrintfImpl {
  import opened Numerals
  import opened Printf

  /** Where putch writes: a buffer that grows by one character a call. */
  class Sink {
    var text: string

    constructor ()
      ensures text == ""
    {
      text := "";
    }

    method Putch(c: char)
      modifies this
      ensures text == old(text) + [c]
    {
      text := text + [c];
    }

    method PutRepeated(c: char, n: int)
      modifies this
      ensures text == old(text) + Repeat(c, n)
    {
      var width := n;
      while width > 0
        invariant width <= n || width == n
        invariant text + Repeat(c, width) == old(text) + Repeat(c, n)
      {
        assert Repeat(c, width) == [c] + Repeat(c, width - 1);
        Putch(c);
        width := width - 1;
      }
    }
  }

  function Backwards(digs: seq<nat>): string
    requires forall i | 0 <= i < |digs| :: digs[i] < 36
  {
    if digs == [] then "" else Backwards(digs[1..]) + [DigitChar(digs[0])]
  }

  lemma {:induction false} BackwardsAppend(digs: seq<nat>, d: nat)
    requires (forall i | 0 <= i < |digs| :: digs[i] < 36) && d < 36
    ensures Backwards(digs + [d]) == [DigitChar(d)] + Backwards(digs)
  {
    if digs != [] {
      assert (digs + [d])[1..] == digs[1..] + [d];
      BackwardsAppend(digs[1..], d);
    } else {
      assert (digs + [d])[1..] == [];
    }
  }

  /** The least significant digits first, then padding, then the digits backwards. */
  method Printnum(sink: Sink, number: nat, base: nat, width: int, padc: char)
    requires 2 <= base <= 36 && number < TWO64
    modifies sink
    ensures sink.text == old(sink.text) + PaddedNumber(number, base, width, padc)
  {
    var digs := new nat[64];
    var pos := GenerateDigits(number, base, digs);
    sink.PutRepeated(padc, width - pos);
    PutDigits(sink, digs, pos);
    ghost var pads := Repeat(padc, width - |Digits(number, base)|);
    assert old(sink.text) + pads + Digits(number, base) == old(sink.text) + (pads + Digits(number, base));
  }

  method PutDigits(sink: Sink, digs: array<nat>, count: nat)
    requires count <= digs.Length && forall i | 0 <= i < count :: digs[i] < 36
    modifies sink
    ensures sink.text == old(sink.text) + Backwards(digs[..count])
  {
    var pos := count;
    assert digs[..count][..count] == digs[..count];
    ghost var all := digs[..count];
    while pos > 0
      invariant 0 <= pos <= count && digs[..count] == all
      invariant sink.text + Backwards(all[..pos]) == old(sink.text) + Backwards(all)
    {
      pos := pos - 1;
      assert all[..pos + 1] == all[..pos] + [all[pos]];
      BackwardsAppend(all[..pos], all[pos]);
      sink.Putch(DigitChar(digs[pos]));
    }
    assert all[..0] == [] && sink.text + Backwards([]) == sink.text;
  }

  /** At most 64 digits are ever stored, whatever the base. */
  method GenerateDigits(number: nat, base: nat, digs: array<nat>) returns (pos: nat)
    requires 2 <= base <= 36 && number < TWO64 && digs.Length == 64
    modifies digs
    ensures pos == |Digits(number, base)| <= 64
    ensures forall i | 0 <= i < pos :: digs[i] < 36
    ensures Backwards(digs[..pos]) == Digits(number, base)
  {
    pos := 0;
    var num: nat := number;
    ghost var out: seq<nat> := [];
    PowerOf64();
    while true
      invariant 0 <= pos < 64 && num < Pow(2, 64 - pos)
      invariant digs[..pos] == out && forall i | 0 <= i < |out| :: out[i] < 36
      invariant Digits(num, base) + Backwards(out) == Digits(number, base)
      decreases num
    {
      var d := LastDigit(num, base);
      NextDigit(num, base, Backwards(out));
      BackwardsAppend(out, d);
      digs[pos] := d;
      out := out + [d];
      pos := pos + 1;
      assert digs[..pos] == out;
      if num < base {
        break;
      }
      DivHalves(num, base, 64 - (pos - 1));
      num := HigherPart(num, base);
    }
    BackwardsLength(out);
  }

  /** Moving the last digit of num in front of the digits already split off. */
  lemma NextDigit(num: nat, base: nat, rest: string)
    requires 2 <= base <= 36
    ensures num < base ==> [DigitChar(LastDigit(num, base))] + rest == Digits(num, base) + rest
    ensures num >= base ==>
              Digits(HigherPart(num, base), base) + ([DigitChar(LastDigit(num, base))] + rest)
              == Digits(num, base) + rest
  {
    if num >= base {
      var high, low := Digits(HigherPart(num, base), base), [DigitChar(LastDigit(num, base))];
      assert high + (low + rest) == (high + low) + rest;
    }
  }

  lemma {:induction false} BackwardsLength(digs: seq<nat>)
    requires forall i | 0 <= i < |digs| :: digs[i] < 36
    ensures |Backwards(digs)| == |digs|
  {
    if digs != [] {
      BackwardsLength(digs[1..]);
    }
  }

  lemma PowerOf64()
    ensures Pow(2, 64) == TWO64
  {
    assert Pow(2, 4) == 16 by { assert Pow(2, 2) == 4 by { assert Pow(2, 1) == 2; } assert Pow(2, 3) == 8; }
    PowSum(2, 4, 4);
    PowSum(2, 8, 8);
    PowSum(2, 16, 16);
    PowSum(2, 32, 32);
  }

  // ---------- strings ----------

  /** `strnlen`: n counts down as a 64-bit unsigned number, so a negative int is a huge limit. */
  method Strnlen(s: string, precision: int) returns (p: nat)
    requires |s| < TWO63 && -TWO63 <= precision
    ensures p == Shown(s, precision)
  {
    var n := if precision < 0 then precision + TWO64 else precision;
    p := 0;
    while n > 0 && p < |s|
      invariant 0 <= p <= |s| && n >= 0
      invariant n + p == if precision < 0 then precision + TWO64 else precision
    {
      n := n - 1;
      p := p + 1;
    }
  }

  /** The string directive: pad before or after, and at most precision characters between. */
  method PutString(sink: Sink, s: string, fl: Flags)
    requires |s| < TWO63 && -TWO63 <= fl.precision
    modifies sink
    ensures sink.text == old(sink.text) + StringText(s, fl)
  {
    var width, precision := fl.width, fl.precision;
    if width > 0 && fl.padc != '-' {
      var n := Strnlen(s, precision);
      width := width - n;
      sink.PutRepeated(fl.padc, width);
      width := if width > 0 then 0 else width;
    }
    ghost var before, start := sink.text, width;
    var p := 0;
    while true
      invariant 0 <= p <= Shown(s, fl.precision) && sink.text == before + s[..p]
      invariant precision == if fl.precision < 0 then fl.precision else fl.precision - p
      invariant width == start - p
      decreases |s| - p
    {
      if p == |s| {
        break;
      }
      if precision >= 0 {
        precision := precision - 1;
        if precision < 0 {
          break;
        }
      }
      sink.Putch(s[p]);
      assert s[..p + 1] == s[..p] + [s[p]];
      p := p + 1;
      width := width - 1;
    }
    assert p == Shown(s, fl.precision);
    sink.PutRepeated(' ', width);
    StringPieces(old(sink.text), s, fl);
  }

  lemma StringPieces(before: string, s: string, fl: Flags)
    ensures var n := Shown(s, fl.precision);
            if fl.width > 0 && fl.padc != '-'
            then forall w | w <= 0 ::
              before + Repeat(fl.padc, fl.width - n) + s[..n] + Repeat(' ', w) == before + StringText(s, fl)
            else before + s[..n] + Repeat(' ', fl.width - n) == before + StringText(s, fl)
  {
  }

  // ---------- one directive ----------

  datatype Next = Continue(next: nat, rest: seq<Arg>) | Reset(rest: seq<Arg>) | Fail

  /** Every string argument fits in memory. */
  predicate StringsFit(args: seq<Arg>) {
    forall i | 0 <= i < |args| && args[i].Str? && args[i].s.Text? :: |args[i].s.text| < TWO63
  }

  /** The method's outcome is the one the specification gives, and the sink has its text. */
  predicate Agrees(step: Step, next: Next, before: string, after: string) {
    match step
    case Emits(n, text, rest) => next == Continue(n, rest) && after == before + text
    case Literal(rest) => next == Reset(rest) && after == before + "%"
    case Undefined => next == Fail && after == before
  }

  /** A run of digits, accumulated as it is read. */
  method ReadNumber(fmt: string, i: nat) returns (n: int, j: nat)
    requires i < |fmt| && IsDecimal(fmt[i])
    ensures j == DigitsEnd(fmt, i) && i < j && n == Accumulate(fmt[i..j], 0) && n >= 0
  {
    n, j := 0, i;
    while true
      invariant i <= j < |fmt| && IsDecimal(fmt[j]) && DigitsEnd(fmt, j) == DigitsEnd(fmt, i)
      invariant n == Accumulate(fmt[i..j], 0) && n >= 0
      decreases |fmt| - j
    {
      assert fmt[i..j + 1] == fmt[i..j] + [fmt[j]];
      AccumulateConcat(fmt[i..j], [fmt[j]], 0);
      AccumulateOne(fmt[j], n);
      n := n * 10 + CharValue(fmt[j]);
      j := j + 1;
      if j == |fmt| || !IsDecimal(fmt[j]) {
        break;
      }
    }
  }

  /** The conversions that take an argument. */
  method Convert(sink: Sink, c: char, end: nat, fl: Flags, args: seq<Arg>) returns (next: Next)
    requires IsConversion(c)
    requires StringsFit(args) && -TWO63 <= fl.precision
    modifies sink
    ensures Agrees(ConvertStep(c, fl, end, args), next, old(sink.text), sink.text)
    ensures !next.Fail? ==> StringsFit(next.rest)
  {
    if args == [] {
      return Fail;
    }
    var rest := args[1..];
    match args[0]
    case Str(s) =>
      if c != 's' {
        return Fail;
      }
      PutString(sink, if s.Null? then "(null)" else s.text, fl);
      next := Continue(end, rest);
    case Word(bits) =>
      if c == 's' {
        return Fail;
      }
      ConvertWord(sink, c, fl, bits);
      next := Continue(end, rest);
  }

  /** The sign first, then the padded absolute value. */
  method PutSigned(sink: Sink, x: int, fl: Flags)
    requires -TWO63 <= x < TWO63
    modifies sink
    ensures sink.text == old(sink.text) + SignedText(x, fl.width, fl.padc)
  {
    var num := x;
    if num < 0 {
      sink.Putch('-');
      num := -num;
    }
    Printnum(sink, num, 10, fl.width, fl.padc);
    ghost var body := PaddedNumber(num, 10, fl.width, fl.padc);
    assert old(sink.text) + "-" + body == old(sink.text) + ("-" + body);
  }

  method ConvertWord(sink: Sink, c: char, fl: Flags, bits: nat)
    modifies sink
    ensures sink.text == old(sink.text) + WordText(c, fl, bits)
  {
    SignedRange(bits, IntWidth(fl.lflag));
    match c
    case 'c' => sink.Putch(CharOf(Signed(bits, TWO32)));
    case 'd' => PutSigned(sink, Signed(bits, IntWidth(fl.lflag)), fl);
    case 'u' => Printnum(sink, Low(bits, IntWidth(fl.lflag)), 10, fl.width, fl.padc);
    case 'o' => Printnum(sink, Low(bits, IntWidth(fl.lflag)), 8, fl.width, fl.padc);
    case 'x' => Printnum(sink, Low(bits, IntWidth(fl.lflag)), 16, fl.width, fl.padc);
    case _ =>
      sink.Putch('0');
      sink.Putch('x');
      Printnum(sink, Low(bits, TWO64), 16, fl.width, fl.padc);
  }

  /** The switch and its `reswitch` label: flags are collected until a conversion or a stray character. */
  method RunDirective(sink: Sink, fmt: string, last: nat, args: seq<Arg>) returns (next: Next)
    requires last <= |fmt| && StringsFit(args)
    modifies sink
    ensures Agrees(Directive(fmt, last, INITIAL, args), next, old(sink.text), sink.text)
    ensures !next.Fail? ==> StringsFit(next.rest)
  {
    var i: nat, fl, ap := last, INITIAL, args;
    while true
      invariant last <= i <= |fmt| && StringsFit(ap) && -TWO63 <= fl.precision && -TWO63 <= fl.width
      invariant Directive(fmt, i, fl, ap) == Directive(fmt, last, INITIAL, args)
      invariant sink.text == old(sink.text)
      decreases |fmt| - i
    {
      ghost var turn := SwitchTurn(fmt, i, fl, ap);
      assert turn.Stop? ==> Directive(fmt, last, INITIAL, args) == turn.step;
      assert turn.Again? ==> Directive(fmt, last, INITIAL, args) == Directive(fmt, turn.i, turn.fl, turn.args);
      if i == |fmt| {
        sink.Putch('%');
        return Reset(ap);
      }
      var c := fmt[i];
      if IsFlag(c) {
        fl := FlagStep(c, fl);
        i := i + 1;
      } else if c == '*' {
        if ap == [] || !ap[0].Word? {
          return Fail;
        }
        SignedRange(ap[0].bits, TWO32);
        fl := TakeNumber(fl, Signed(ap[0].bits, TWO32));
        ap := ap[1..];
        i := i + 1;
      } else if IsDecimal(c) {
        var n, j := ReadNumber(fmt, i);
        fl := TakeNumber(fl, n);
        i := j;
      } else if c == '%' {
        sink.Putch('%');
        return Continue(i + 1, ap);
      } else if IsConversion(c) {
        next := Convert(sink, c, i + 1, fl, ap);
        return;
      } else {
        sink.Putch('%');
        return Reset(ap);
      }
    }
  }

  lemma SignedRange(bits: nat, modulus: nat)
    requires modulus > 0
    ensures 0 - modulus <= 2 * Signed(bits, modulus) < modulus
  {
  }

  /** `vprintfmt`: text is copied up to a percent sign; an unrecognised directive is printed as it stands. */
  method VPrintFmt(sink: Sink, fmt: string, args: seq<Arg>) returns (ok: bool)
    requires StringsFit(args)
    modifies sink
    ensures ok <==> Format(fmt, 0, args).Done?
    ensures ok ==> sink.text == old(sink.text) + Format(fmt, 0, args).text
  {
    var i: nat, ap := 0, args;
    ghost var goal := Prepend(sink.text, Format(fmt, 0, args));
    while true
      invariant i <= |fmt| && StringsFit(ap)
      invariant Prepend(sink.text, Format(fmt, i, ap)) == goal
      decreases |fmt| - i
    {
      while i < |fmt| && fmt[i] != '%'
        invariant i <= |fmt|
        invariant Prepend(sink.text, Format(fmt, i, ap)) == goal
      {
        PrependTwice(sink.text, [fmt[i]], Format(fmt, i + 1, ap));
        sink.Putch(fmt[i]);
        i := i + 1;
      }
      if i == |fmt| {
        assert sink.text + "" == sink.text;
        return true;
      }
      i := i + 1;
      ghost var before := sink.text;
      var next := RunDirective(sink, fmt, i, ap);
      match next {
        case Fail =>
          return false;
        case Reset(rest) =>
          PrependTwice(before, "%", Format(fmt, i, rest));
          ap := rest;
        case Continue(end, rest) =>
          PrependTwice(before, Directive(fmt, i, INITIAL, ap).text, Format(fmt, end, rest));
          ap := rest;
          i := end;
      }
    }
  }

  lemma PrependTwice(a: string, b: string, o: Outcome)
    ensures Prepend(a + b, o) == Prepend(a, Prepend(b, o))
  {
    if o.Done? {
      assert a + b + o.text == a + (b + o.text);
    }
  }

  /** `sprintf`: the text in the caller's buffer, with its length. */
  method Sprintf(fmt: string, args: seq<Arg>) returns (ok: bool, text: string, length: nat)
    requires StringsFit(args)
    ensures ok <==> Format(fmt, 0, args).Done?
    ensures ok ==> text == Format(fmt, 0, args).text && length == |text|
  {
    var sink := new Sink();
    ok := VPrintFmt(sink, fmt, args);
    text := sink.text;
    length := |text|;
    if ok {
      assert "" + Format(fmt, 0, args).text == Format(fmt, 0, args).text;
    }
  }

  /** `atol` on the text before the NUL. */
  method Atol(str: string) returns (value: int)
    ensures value == AtolValue(str)
  {
    var p := 0;
    while p < |str| && str[p] == ' '
      invariant 0 <= p <= |str| && SkipSpaces(str[p..]) == SkipSpaces(str)
    {
      assert str[p..][1..] == str[p + 1..];
      p := p + 1;
    }
    assert SkipSpaces(str) == str[p..];
    var sign := false;
    if p < |str| && (str[p] == '-' || str[p] == '+') {
      sign := str[p] == '-';
      assert str[p..][1..] == str[p + 1..];
      p := p + 1;
    }
    ghost var rest := str[p..];
    var res := 0;
    while p < |str|
      invariant 0 <= p <= |str| && Accumulate(str[p..], res) == Accumulate(rest, 0)
    {
      assert str[p..][1..] == str[p + 1..];
      res := res * 10 + CharValue(str[p]);
      p := p + 1;
    }
    value := if sign then -res else res;
  }

  // ---------- printhex ----------

  /** The k lowest digits of n. */
  function FixedDigits(n: nat, base: nat, k: nat): string
    requires 2 <= base <= 36
  {
    if k == 0 then "" else FixedDigits(HigherPart(n, base), base, k - 1) + [DigitChar(LastDigit(n, base))]
  }

  /** Enough fixed digits are the number padded with zeros. */
  lemma {:induction false} FixedIsPadded(n: nat, base: nat, k: nat)
    requires 2 <= base <= 36 && k >= |Digits(n, base)|
    ensures FixedDigits(n, base, k) == PaddedNumber(n, base, k, '0')
    decreases k
  {
    var d := [DigitChar(LastDigit(n, base))];
    if n >= base {
      FixedIsPadded(HigherPart(n, base), base, k - 1);
      var pads := Repeat('0', k - |Digits(n, base)|);
      assert pads + (Digits(HigherPart(n, base), base) + d) == (pads + Digits(HigherPart(n, base), base)) + d;
    } else {
      FixedZeros(base, k - 1);
    }
  }

  lemma {:induction false} FixedZeros(base: nat, k: nat)
    requires 2 <= base <= 36
    ensures FixedDigits(0, base, k) == Repeat('0', k)
  {
    if k > 0 {
      FixedZeros(base, k - 1);
      assert Repeat('0', k - 1) + "0" == Repeat('0', k);
    }
  }

  /** `printhex` writes what `printnum` writes in base 16, width 16, padded with zeros. */
  method Printhex(x: nat) returns (str: string)
    requires x < TWO64
    ensures str == PaddedNumber(x, 16, 16, '0')
  {
    var buffer := new char[16];
    var rest: nat := x;
    for i := 0 to 16
      invariant FixedDigits(rest, 16, 16 - i) + buffer[16 - i..] == FixedDigits(x, 16, 16)
    {
      buffer[15 - i] := DigitChar(LastDigit(rest, 16));
      rest := HigherPart(rest, 16);
    }
    str := buffer[..];
    PowersOf16();
    DigitsLength(x, 16, 16);
    FixedIsPadded(x, 16, 16);
  }
}
