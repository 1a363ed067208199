/**
  Numbers as text in `software/syscalls.c`: the digits that `printnum` writes, the value that `atol`
  reads, and exactly when padded text still reads back as the number it was written from.
 */
module Numerals {

  const TWO32: int := 0x1_0000_0000
  const TWO63: int := 0x8000_0000_0000_0000
  const TWO64: int := 0x1_0000_0000_0000_0000

  function Pow(b: nat, k: nat): nat {
    if k == 0 then 1 else b * Pow(b, k - 1)
  }

  function DigitChar(d: nat): char
    requires d < 36
  {
    if d >= 10 then (d - 10 + 'a' as int) as char else (d + '0' as int) as char
  }

  function LastDigit(n: nat, base: nat): (d: nat)
    requires base >= 2
    ensures d < base && (n < base ==> d == n)
  {
    n % base
  }

  function HigherPart(n: nat, base: nat): (q: nat)
    requires base >= 2
    ensures n >= base ==> q < n
  {
    if n >= base then DivSmaller(n, base); n / base else 0
  }

  lemma DivSmaller(n: nat, base: nat)
    requires 2 <= base <= n
    ensures 0 <= n / base < n
  {
  }

  /** Most significant digit first; zero is one digit. */
  function Digits(n: nat, base: nat): (s: string)
    requires 2 <= base <= 36
    ensures s != ""
  {
    if n < base then [DigitChar(n)]
    else Digits(HigherPart(n, base), base) + [DigitChar(LastDigit(n, base))]
  }

  lemma TimesAssociative(a: nat, b: nat, c: nat)
    ensures a * (b * c) == a * b * c
  {
  }

  lemma {:induction false} PowSum(b: nat, j: nat, k: nat)
    ensures Pow(b, j + k) == Pow(b, j) * Pow(b, k)
  {
    if j > 0 {
      PowSum(b, j - 1, k);
      TimesAssociative(b, Pow(b, j - 1), Pow(b, k));
    }
  }

  lemma PowersOf16()
    ensures Pow(16, 8) == TWO32 && Pow(16, 9) == 16 * TWO32 && Pow(16, 16) == TWO64
  {
    assert Pow(16, 2) == 256 by { assert Pow(16, 1) == 16; }
    PowSum(16, 2, 2);
    PowSum(16, 4, 4);
    PowSum(16, 8, 8);
    assert Pow(16, 9) == 16 * Pow(16, 8);
  }

  /** A number below base^k has at most k digits. */
  lemma {:induction false} DigitsLength(n: nat, base: nat, k: nat)
    requires 2 <= base <= 36 && k > 0 && n < Pow(base, k)
    ensures |Digits(n, base)| <= k
  {
    if n >= base {
      assert Pow(base, 1) == base * Pow(base, 0) == base;
      DivBelow(n, base, Pow(base, k - 1));
      DigitsLength(HigherPart(n, base), base, k - 1);
    }
  }

  lemma DivBelow(n: nat, base: nat, p: nat)
    requires 2 <= base && n < base * p
    ensures n / base < p
  {
    var q := n / base;
    assert q * base <= n;
    if q >= p {
      MulMonotone(p, q, base);
      assert false;
    }
  }

  lemma MulMonotone(a: nat, b: nat, c: nat)
    requires a <= b
    ensures a * c <= b * c
  {
  }

  lemma DivHalves(n: nat, base: nat, k: nat)
    requires 2 <= base <= n && k > 0 && n < Pow(2, k)
    ensures k > 1 && HigherPart(n, base) < Pow(2, k - 1)
  {
    assert Pow(2, 1) == 2 * Pow(2, 0) && Pow(2, k) == 2 * Pow(2, k - 1);
    DivAtMostHalf(n, base);
  }

  lemma DivAtMostHalf(n: nat, base: nat)
    requires 2 <= base
    ensures 2 * (n / base) <= n
  {
    var q := n / base;
    assert q * base <= n;
    assert q * (base - 2) >= 0;
    assert q * base == q * 2 + q * (base - 2);
  }

  // ---------- reading ----------

  function CharValue(c: char): int {
    c as int - '0' as int
  }

  /** `while (*str) { res *= 10; res += *str++ - '0'; }` */
  function Accumulate(s: string, acc: int): int {
    if s == "" then acc else Accumulate(s[1..], acc * 10 + CharValue(s[0]))
  }

  function SkipSpaces(s: string): string {
    if s != "" && s[0] == ' ' then SkipSpaces(s[1..]) else s
  }

  /** What `atol` computes on the text before the NUL. */
  function AtolValue(s: string): int {
    var t := SkipSpaces(s);
    if t != "" && t[0] == '-' then -Accumulate(t[1..], 0)
    else if t != "" && t[0] == '+' then Accumulate(t[1..], 0)
    else Accumulate(t, 0)
  }

  lemma {:induction false} AccumulateConcat(s: string, t: string, acc: int)
    ensures Accumulate(s + t, acc) == Accumulate(t, Accumulate(s, acc))
  {
    if s == "" {
      assert s + t == t;
    } else {
      assert (s + t)[1..] == s[1..] + t;
      AccumulateConcat(s[1..], t, acc * 10 + CharValue(s[0]));
    }
  }

  lemma AccumulateOne(c: char, acc: int)
    ensures Accumulate([c], acc) == acc * 10 + CharValue(c)
  {
    assert [c][1..] == "";
  }

  /** Reading the digits of n after acc shifts acc by as many places and adds n. */
  lemma {:induction false} AccumulateDigits(n: nat, acc: int)
    ensures Accumulate(Digits(n, 10), acc) == acc * Pow(10, |Digits(n, 10)|) + n
    ensures n < Pow(10, |Digits(n, 10)|)
  {
    if n < 10 {
      AccumulateOne(DigitChar(n), acc);
      assert Pow(10, 1) == 10 * Pow(10, 0);
    } else {
      var high, low := HigherPart(n, 10), LastDigit(n, 10);
      AccumulateDigits(high, acc);
      AccumulateConcat(Digits(high, 10), [DigitChar(low)], acc);
      AccumulateOne(DigitChar(low), Accumulate(Digits(high, 10), acc));
      ShiftOnce(acc, Pow(10, |Digits(high, 10)|), high, low);
    }
  }

  lemma ShiftOnce(acc: int, p: nat, high: nat, low: nat)
    ensures (acc * p + high) * 10 + low == acc * (10 * p) + (high * 10 + low)
  {
  }

  lemma {:induction false} DigitsAreDecimal(n: nat, i: nat)
    requires i < |Digits(n, 10)|
    ensures '0' <= Digits(n, 10)[i] <= '9'
  {
    if n >= 10 {
      if i < |Digits(HigherPart(n, 10), 10)| {
        DigitsAreDecimal(HigherPart(n, 10), i);
      }
    }
  }

  /** A decimal number does not start with 0 unless it is 0. */
  lemma {:induction false} NoLeadingZero(n: nat)
    requires n > 0
    ensures Digits(n, 10)[0] != '0'
  {
    if n >= 10 {
      NoLeadingZero(HigherPart(n, 10));
    }
  }

  // ---------- the value of digits in any base ----------

  function DigitOf(c: char): nat {
    if '0' <= c <= '9' then c as int - '0' as int
    else if 'a' <= c <= 'z' then c as int - 'a' as int + 10
    else 0
  }

  /** The number that a text of digits stands for. */
  function Positional(s: string, base: nat): nat {
    if s == "" then 0 else Positional(s[..|s| - 1], base) * base + DigitOf(s[|s| - 1])
  }

  lemma PositionalAppend(s: string, c: char, base: nat)
    ensures Positional(s + [c], base) == Positional(s, base) * base + DigitOf(c)
  {
    assert (s + [c])[..|s|] == s;
  }

  lemma SplitLastDigit(n: nat, base: nat)
    requires 2 <= base <= n
    ensures HigherPart(n, base) * base + LastDigit(n, base) == n
  {
  }

  /** In every base the digits of a number stand for that number. */
  lemma {:induction false} DigitsPositional(n: nat, base: nat)
    requires 2 <= base <= 36
    ensures Positional(Digits(n, base), base) == n
  {
    if n < base {
      PositionalAppend("", DigitChar(n), base);
      assert "" + [DigitChar(n)] == Digits(n, base);
    } else {
      DigitsPositional(HigherPart(n, base), base);
      PositionalAppend(Digits(HigherPart(n, base), base), DigitChar(LastDigit(n, base)), base);
      SplitLastDigit(n, base);
    }
  }

  // ---------- padding ----------

  function Repeat(c: char, n: int): (s: string)
    ensures |s| == if n > 0 then n else 0
    ensures forall i | 0 <= i < |s| :: s[i] == c
  {
    if n <= 0 then "" else [c] + Repeat(c, n - 1)
  }

  /** What `printnum` emits. */
  function PaddedNumber(n: nat, base: nat, width: int, padc: char): string
    requires 2 <= base <= 36
  {
    Repeat(padc, width - |Digits(n, base)|) + Digits(n, base)
  }

  lemma {:induction false} PositionalAfterZeros(k: int, s: string, base: nat)
    ensures Positional(Repeat('0', k) + s, base) == Positional(s, base)
    decreases |s|, k
  {
    var zeros := Repeat('0', k);
    if s != "" {
      var t := zeros + s;
      assert t[..|t| - 1] == zeros + s[..|s| - 1] && t[|t| - 1] == s[|s| - 1];
      PositionalAfterZeros(k, s[..|s| - 1], base);
    } else if k > 0 {
      assert zeros + s == zeros && zeros[..|zeros| - 1] == Repeat('0', k - 1) + "";
      PositionalAfterZeros(k - 1, "", base);
    }
  }

  /** Padding with zeros keeps the value, so printed hexadecimal, octal and decimal numbers mean what they should. */
  lemma PaddedPositional(n: nat, base: nat, width: int)
    requires 2 <= base <= 36
    ensures Positional(PaddedNumber(n, base, width, '0'), base) == n
  {
    DigitsPositional(n, base);
    PositionalAfterZeros(width - |Digits(n, base)|, Digits(n, base), base);
  }

  function Abs(x: int): nat {
    if x < 0 then -x else x
  }

  /** What the signed decimal directive emits: the sign comes before the padding. */
  function SignedText(x: int, width: int, padc: char): string {
    (if x < 0 then "-" else "") + PaddedNumber(Abs(x), 10, width, padc)
  }

  lemma {:induction false} SkipSpacesPad(n: int, rest: string)
    requires rest != "" && rest[0] != ' '
    ensures SkipSpaces(Repeat(' ', n) + rest) == rest
    decreases n
  {
    if n > 0 {
      assert (Repeat(' ', n) + rest)[1..] == Repeat(' ', n - 1) + rest;
      SkipSpacesPad(n - 1, rest);
    } else {
      assert Repeat(' ', n) + rest == rest;
    }
  }

  lemma {:induction false} ZerosAddNothing(n: int)
    ensures Accumulate(Repeat('0', n), 0) == 0
    decreases n
  {
    if n > 0 {
      assert Repeat('0', n)[1..] == Repeat('0', n - 1);
      ZerosAddNothing(n - 1);
    }
  }

  /** Pad characters below '0' drive the accumulator at least as low as the first of them. */
  lemma {:induction false} LowPads(c: char, n: int, acc: int)
    requires CharValue(c) <= -3 && n >= 1 && acc <= 0
    ensures Accumulate(Repeat(c, n), acc) <= -3
    decreases n
  {
    assert Repeat(c, n)[1..] == Repeat(c, n - 1);
    if n > 1 {
      LowPads(c, n - 1, acc * 10 + CharValue(c));
    }
  }

  /** Padding that is read as digits makes the value negative, and larger than the number itself. */
  lemma LowPaddedValue(n: nat, c: char, k: int)
    requires CharValue(c) <= -3 && k >= 1
    ensures -Accumulate(Repeat(c, k) + Digits(n, 10), 0) > n
  {
    var acc := Accumulate(Repeat(c, k), 0);
    LowPads(c, k, 0);
    AccumulateConcat(Repeat(c, k), Digits(n, 10), 0);
    AccumulateDigits(n, acc);
    FarBelow(acc, Pow(10, |Digits(n, 10)|), n);
  }

  lemma FarBelow(acc: int, p: nat, n: nat)
    requires acc <= -3 && n < p
    ensures -(acc * p + n) > n
  {
    assert acc * p <= -3 * p;
  }

  lemma ReadPlain(n: nat)
    ensures Accumulate(Digits(n, 10), 0) == n
    ensures AtolValue(Digits(n, 10)) == n
    ensures AtolValue("-" + Digits(n, 10)) == -(n as int)
  {
    AccumulateDigits(n, 0);
    DigitsAreDecimal(n, 0);
    assert ("-" + Digits(n, 10))[1..] == Digits(n, 10);
  }

  lemma ReadZeroPadded(n: nat, k: int)
    ensures Accumulate(Repeat('0', k) + Digits(n, 10), 0) == n
    ensures AtolValue(Repeat('0', k) + Digits(n, 10)) == n
    ensures AtolValue("-" + (Repeat('0', k) + Digits(n, 10))) == -(n as int)
  {
    var s := Repeat('0', k) + Digits(n, 10);
    ZerosAddNothing(k);
    AccumulateConcat(Repeat('0', k), Digits(n, 10), 0);
    AccumulateDigits(n, 0);
    DigitsAreDecimal(n, 0);
    assert s[0] == if k > 0 then '0' else Digits(n, 10)[0];
    assert ("-" + s)[1..] == s;
  }

  /**
    When a written field reads back: no padding, zeros, blanks before a number without sign, or the
    lone dash before zero.
   */
  predicate ReadsBack(x: int, width: int, padc: char) {
    var pads := width - |Digits(Abs(x), 10)|;
    || pads <= 0
    || padc == '0'
    || (padc == ' ' && x >= 0)
    || (padc == '-' && x == 0 && pads == 1)
  }

  /**
    `atol` of what the signed directive writes is the number, exactly under that condition, for each
    of the three pad characters the format can select.
   */
  lemma SignedRoundTripExactly(x: int, width: int, padc: char)
    requires padc == ' ' || padc == '0' || padc == '-'
    ensures AtolValue(SignedText(x, width, padc)) == x <==> ReadsBack(x, width, padc)
  {
    var n, k := Abs(x), width - |Digits(Abs(x), 10)|;
    var body := Repeat(padc, k) + Digits(n, 10);
    assert SignedText(x, width, padc) == if x < 0 then "-" + body else body;
    ReadPlain(n);
    if k <= 0 {
      assert body == Digits(n, 10);
    } else if padc == '0' {
      ReadZeroPadded(n, k);
    } else if x < 0 {
      assert ("-" + body)[1..] == body;
      LowPaddedValue(n, padc, k);
    } else if padc == ' ' {
      DigitsAreDecimal(n, 0);
      SkipSpacesPad(k, Digits(n, 10));
    } else {
      DashPadded(n, k);
    }
  }

  lemma DashPadded(n: nat, k: int)
    requires k >= 1
    ensures AtolValue(Repeat('-', k) + Digits(n, 10)) == n <==> k == 1 && n == 0
  {
    var body := Repeat('-', k) + Digits(n, 10);
    assert body[0] == '-' && body[1..] == Repeat('-', k - 1) + Digits(n, 10);
    if k == 1 {
      assert body[1..] == Digits(n, 10);
      ReadPlain(n);
    } else {
      LowPaddedValue(n, '-', k - 1);
    }
  }

  // ---------- any decimal text ----------

  predicate IsDecimalText(s: string) {
    s != "" && forall i | 0 <= i < |s| :: '0' <= s[i] <= '9'
  }

  /** Working from the left gives the positional value. */
  lemma {:induction false} AccumulateIsPositional(s: string)
    requires forall i | 0 <= i < |s| :: '0' <= s[i] <= '9'
    ensures Accumulate(s, 0) == Positional(s, 10)
    decreases |s|
  {
    if s != "" {
      var last := |s| - 1;
      assert s == s[..last] + [s[last]];
      AccumulateIsPositional(s[..last]);
      AccumulateConcat(s[..last], [s[last]], 0);
      AccumulateOne(s[last], Accumulate(s[..last], 0));
    }
  }

  predicate IsSign(sign: string) {
    sign == "" || sign == "+" || sign == "-"
  }

  lemma SignRead(sign: string, s: string, t: string)
    requires IsSign(sign) && IsDecimalText(s) && t == sign + s
    ensures t != "" && t[0] != ' '
    ensures sign == "" ==> t == s && t[0] != '-' && t[0] != '+'
    ensures sign != "" ==> t[0] == sign[0] && t[1..] == s
  {
  }

  lemma AtolAfterBlanks(blanks: nat, t: string)
    requires t != "" && t[0] != ' '
    ensures AtolValue(Repeat(' ', blanks) + t) == AtolValue(t)
  {
    SkipSpacesPad(blanks, t);
    assert SkipSpaces(t) == t;
  }

  lemma AtolSigned(sign: string, s: string, t: string, v: int)
    requires t != "" && t[0] != ' ' && v == Accumulate(s, 0) && IsSign(sign)
    requires if sign == "" then t == s && t[0] != '-' && t[0] != '+' else t[0] == sign[0] && t[1..] == s
    ensures AtolValue(t) == if sign == "-" then -v else v
  {
    assert SkipSpaces(t) == t;
  }

  /** `atol` reads every decimal number: blanks in front, either sign or none, leading zeros or not. */
  lemma AtolReads(blanks: nat, sign: string, s: string, t: string)
    requires IsSign(sign) && IsDecimalText(s) && t == Repeat(' ', blanks) + (sign + s)
    ensures AtolValue(t) == if sign == "-" then -(Positional(s, 10) as int) else Positional(s, 10)
  {
    var v := Accumulate(s, 0);
    SignRead(sign, s, sign + s);
    AccumulateIsPositional(s);
    AtolSigned(sign, s, sign + s, v);
    AtolAfterBlanks(blanks, sign + s);
  }
}
