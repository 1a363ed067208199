/**
  What formats mean: numeric fields read back by `atol`, string fields have an exact width, and the
  text between directives survives unchanged.
 */
module PrintfFields {
  import opened Numerals
  import opened Printf
  import opened Wrappers

  // ---------- text outside directives ----------

  /** A stretch of the format, what it turned into, and the arguments in front of it and behind it. */
  datatype Piece = Piece(start: nat, end: nat, text: string, before: seq<Arg>, after: seq<Arg>)

  function Result(pieces: seq<Piece>): string {
    if pieces == [] then "" else pieces[0].text + Result(pieces[1..])
  }

  /**
    A character other than a percent sign stands for itself; so does a percent sign that begins no
    directive; and a directive is replaced by what its own text means for the arguments at hand.
   */
  predicate PieceOk(fmt: string, p: Piece) {
    && p.start < p.end <= |fmt|
    && if fmt[p.start] != '%' then p.end == p.start + 1 && p.text == [fmt[p.start]] && p.after == p.before
       else
         match Directive(fmt, p.start + 1, INITIAL, p.before)
         case Literal(rest) => p.end == p.start + 1 && p.text == "%" && p.after == rest
         case Emits(next, _, _) =>
           next == p.end
           && Directive(fmt[p.start..p.end], 1, INITIAL, p.before) == Emits(p.end - p.start, p.text, p.after)
         case Undefined => false
  }

  /** The pieces follow each other from i to the end of the format, and each passes its arguments on. */
  predicate Chained(fmt: string, pieces: seq<Piece>, i: nat, args: seq<Arg>) {
    if pieces == [] then i == |fmt|
    else
      pieces[0].start == i && pieces[0].before == args
      && Chained(fmt, pieces[1..], pieces[0].end, pieces[0].after)
  }

  /** Seen from k: the same step with its end counted from there. */
  function Shift(r: Step, k: nat): Step {
    if r.Emits? && r.next >= k then r.(next := r.next - k) else r
  }

  lemma WindowSlice<T>(s: seq<T>, k: nat, end: nat, i: nat, j: nat)
    requires k <= i <= j <= end <= |s|
    ensures s[k..end][i - k..j - k] == s[i..j]
  {
    var w := s[k..end];
    forall x | 0 <= x < j - i
      ensures w[i - k..j - k][x] == s[i..j][x]
    {
      assert w[i - k..j - k][x] == w[(i - k) + x];
    }
  }

  /** One turn of the switch looks at nothing outside the window that holds what it consumes. */
  lemma TurnIsLocal(fmt: string, k: nat, i: nat, end: nat, fl: Flags, args: seq<Arg>)
    requires k <= i < end <= |fmt|
    requires SwitchTurn(fmt, i, fl, args).Again? ==> SwitchTurn(fmt, i, fl, args).i <= end
    ensures var t := SwitchTurn(fmt, i, fl, args);
            SwitchTurn(fmt[k..end], i - k, fl, args) ==
              if t.Again? then Again(t.i - k, t.fl, t.args) else Stop(Shift(t.step, k))
  {
    var cut, c := fmt[k..end], fmt[i];
    assert cut[i - k] == c;
    if IsDecimal(c) && !IsFlag(c) {
      DigitsEndIsLocal(fmt, k, i, end);
      WindowSlice(fmt, k, end, i, DigitsEnd(fmt, i));
    }
  }

  /** A directive looks at nothing outside its own text. */
  lemma {:induction false} DirectiveIsLocal(fmt: string, k: nat, i: nat, end: nat, fl: Flags, args: seq<Arg>)
    requires k <= i <= end <= |fmt| && Directive(fmt, i, fl, args).Emits? && Directive(fmt, i, fl, args).next == end
    ensures Directive(fmt[k..end], i - k, fl, args) == Shift(Directive(fmt, i, fl, args), k)
    decreases end - i
  {
    var t := SwitchTurn(fmt, i, fl, args);
    if t.Again? {
      assert t.i < end;
      TurnIsLocal(fmt, k, i, end, fl, args);
      DirectiveIsLocal(fmt, k, t.i, end, t.fl, t.args);
    } else {
      TurnIsLocal(fmt, k, i, end, fl, args);
    }
  }

  lemma {:induction false} DigitsEndIsLocal(fmt: string, k: nat, i: nat, end: nat)
    requires k <= i <= end <= |fmt| && DigitsEnd(fmt, i) <= end
    ensures DigitsEnd(fmt[k..end], i - k) == DigitsEnd(fmt, i) - k
    decreases end - i
  {
    if i < end && IsDecimal(fmt[i]) {
      assert fmt[k..end][i - k] == fmt[i];
      DigitsEndIsLocal(fmt, k, i + 1, end);
    }
  }

  /**
    Whatever a format emits, its own text is cut into pieces in order: each is either one character
    that is emitted as it stands, or a complete directive that is replaced.  The text of an
    unrecognised directive is copied, percent sign included.
   */
  lemma {:induction false} TextSurvives(fmt: string, i: nat, args: seq<Arg>) returns (pieces: seq<Piece>)
    requires i <= |fmt| && Format(fmt, i, args).Done?
    ensures Result(pieces) == Format(fmt, i, args).text && Chained(fmt, pieces, i, args)
    ensures forall p | p in pieces :: PieceOk(fmt, p)
    decreases |fmt| - i
  {
    if i == |fmt| {
      pieces := [];
    } else {
      var first := FirstPiece(fmt, i, args);
      var rest := TextSurvives(fmt, first.end, first.after);
      pieces := [first] + rest;
      assert pieces[1..] == rest;
    }
  }

  lemma FirstPiece(fmt: string, i: nat, args: seq<Arg>) returns (p: Piece)
    requires i < |fmt| && Format(fmt, i, args).Done?
    ensures p.start == i && p.before == args && PieceOk(fmt, p)
    ensures Format(fmt, i, args) == Prepend(p.text, Format(fmt, p.end, p.after))
  {
    if fmt[i] != '%' {
      p := Piece(i, i + 1, [fmt[i]], args, args);
    } else {
      match Directive(fmt, i + 1, INITIAL, args)
      case Literal(rest) =>
        p := Piece(i, i + 1, "%", args, rest);
      case Emits(next, text, rest) =>
        DirectiveIsLocal(fmt, i, i + 1, next, INITIAL, args);
        p := Piece(i, next, text, args, rest);
    }
  }

  // ---------- fields ----------

  /** x is the two's complement reading of the low bits: in the signed range, and equal to them up to the modulus. */
  predicate IsSigned(bits: nat, x: int, modulus: nat)
    requires modulus > 0
  {
    0 - modulus <= 2 * x < modulus && x % modulus == bits % modulus
  }

  lemma NegativeMod(x: int, m: nat)
    requires 0 < m && 0 - m <= x < 0
    ensures x % m == x + m
  {
    var q := x / m;
    assert x == q * m + x % m;
    Multiples(q, m);
  }

  lemma Multiples(q: int, m: nat)
    ensures q >= 0 ==> q * m >= 0
    ensures q <= -2 ==> q * m <= -2 * m
  {
  }

  lemma PositiveMod(x: int, m: nat)
    requires 0 <= x < m
    ensures x % m == x
  {
  }

  lemma SignedIsSigned(bits: nat, modulus: nat)
    requires modulus > 0
    ensures IsSigned(bits, Signed(bits, modulus), modulus)
  {
    var x := Signed(bits, modulus);
    if x < 0 {
      NegativeMod(x, modulus);
    } else {
      PositiveMod(x, modulus);
    }
  }

  lemma SameResidue(x: int, y: int, m: nat, r: int)
    requires 0 < m && 0 - m <= 2 * x < m && 0 - m <= 2 * y < m && x % m == r && y % m == r
    ensures x == y
  {
    if x < 0 {
      NegativeMod(x, m);
    } else {
      PositiveMod(x, m);
    }
    if y < 0 {
      NegativeMod(y, m);
    } else {
      PositiveMod(y, m);
    }
  }

  lemma SignedExactly(bits: nat, x: int, modulus: nat)
    requires modulus > 0
    ensures IsSigned(bits, x, modulus) <==> x == Signed(bits, modulus)
  {
    SignedIsSigned(bits, modulus);
    if IsSigned(bits, x, modulus) {
      SameResidue(x, Signed(bits, modulus), modulus, bits % modulus);
    }
  }

  /** A width or a precision: a number in the format, or a star, which takes the next argument. */
  datatype Count = Written(n: nat) | Star(bits: nat)

  /** The number that is given; -1 stands for none. */
  predicate Gives(c: Option<Count>, n: int) {
    match c
    case None => n == -1
    case Some(Written(m)) => n == m
    case Some(Star(bits)) => IsSigned(bits, n, TWO32)
  }

  function CountText(c: Option<Count>): string {
    match c
    case None => ""
    case Some(Written(n)) => Digits(n, 10)
    case Some(Star(_)) => "*"
  }

  function Arguments(c: Option<Count>): seq<Arg> {
    if c.Some? && c.value.Star? then [Word(c.value.bits)] else []
  }

  function PrecisionText(c: Option<Count>): string {
    if c.Some? then "." + CountText(c) else ""
  }

  /** A field as it is written behind its percent sign: flags, width, precision, long flags, conversion. */
  datatype Form = Form(flags: string, width: Option<Count>, precision: Option<Count>, long: nat, conversion: char)

  function FieldText(f: Form): string {
    "%" + (f.flags + (CountText(f.width) + (PrecisionText(f.precision) + (Repeat('l', f.long) + [f.conversion]))))
  }

  /** The arguments in front of the one that is converted. */
  function Taken(f: Form): seq<Arg> {
    Arguments(f.width) + Arguments(f.precision)
  }

  predicate IsPad(c: char) {
    c == '-' || c == '0'
  }

  /** A written width is not 0, because that would be a flag; the conversion is no flag and no number. */
  predicate IsField(f: Form) {
    && (forall i | 0 <= i < |f.flags| :: IsPad(f.flags[i]) || f.flags[i] == '#')
    && f.width != Some(Written(0))
    && !IsFlag(f.conversion) && !IsDecimal(f.conversion) && f.conversion != '*'
  }

  /** The last pad flag counts. */
  function LastPad(padc: char, flags: string): char {
    if flags == "" then padc
    else
      var last := |flags| - 1;
      if flags[last] == '#' then LastPad(padc, flags[..last]) else flags[last]
  }

  /** A precision written as 0 is read as a pad flag. */
  function Pad(f: Form): char {
    if f.precision == Some(Written(0)) then '0' else LastPad(' ', f.flags)
  }

  /** The flags at the conversion, for a width w and a precision p. */
  function FlagsOf(f: Form, w: int, p: int): Flags {
    var cut := if f.precision == Some(Written(0)) then -1 else p;
    Flags(Pad(f), if f.precision.Some? && w < 0 then 0 else w, cut, f.long)
  }

  // ---------- the flags of a field ----------

  /** The text t stands in s at i. */
  predicate StandsAt(s: string, i: nat, t: string) {
    i + |t| <= |s| && s[i..i + |t|] == t
  }

  lemma PartStandsAt(s: string, i: nat, a: string, b: string)
    requires StandsAt(s, i, a + b)
    ensures StandsAt(s, i, a) && StandsAt(s, i + |a|, b)
    ensures b != "" ==> s[i + |a|] == b[0]
  {
    var t := s[i..i + |a + b|];
    assert t[..|a|] == a && t[|a|..] == b;
    assert t[..|a|] == s[i..i + |a|] && t[|a|..] == s[i + |a|..i + |a| + |b|];
    assert b != "" ==> t[|a|] == b[0];
  }

  lemma CharStandsAt(s: string, i: nat, c: char)
    requires StandsAt(s, i, [c])
    ensures i < |s| && s[i] == c
  {
    assert s[i..i + 1][0] == s[i];
  }

  /** Any run of the switch, turn by turn, to what it comes to. */
  type Runner = (nat, Flags, seq<Arg>) -> Step

  ghost predicate Runs(run: Runner, fmt: string) {
    forall i: nat, fl, args {:trigger SwitchTurn(fmt, i, fl, args)} | i <= |fmt| ::
      match SwitchTurn(fmt, i, fl, args)
      case Again(j, fl', rest) => run(i, fl, args) == run(j, fl', rest)
      case Stop(step) => run(i, fl, args) == step
  }

  function Directed(fmt: string): Runner {
    (i: nat, fl: Flags, args: seq<Arg>) => if i <= |fmt| then Directive(fmt, i, fl, args) else Undefined
  }

  lemma DirectedRuns(fmt: string)
    ensures Runs(Directed(fmt), fmt)
  {
    var run := Directed(fmt);
    forall i: nat, fl, args | i <= |fmt|
      ensures match SwitchTurn(fmt, i, fl, args)
              case Again(j, fl', rest) => run(i, fl, args) == run(j, fl', rest)
              case Stop(step) => run(i, fl, args) == step
    {
      assert run(i, fl, args) == Directive(fmt, i, fl, args);
    }
  }

  lemma PadOn(padc: char, first: string, c: char)
    ensures LastPad(padc, first + [c]) == if c == '#' then LastPad(padc, first) else c
  {
    assert (first + [c])[..|first|] == first;
  }

  lemma {:induction false} FlagsAt(run: Runner, fmt: string, i: nat, flags: string, fl: Flags, args: seq<Arg>)
    requires Runs(run, fmt) && StandsAt(fmt, i, flags)
    requires forall k | 0 <= k < |flags| :: IsPad(flags[k]) || flags[k] == '#'
    ensures run(i, fl, args) == run(i + |flags|, fl.(padc := LastPad(fl.padc, flags)), args)
    decreases |flags|
  {
    if flags != "" {
      var last := |flags| - 1;
      var first, c := flags[..last], flags[last];
      assert flags == first + [c];
      PartStandsAt(fmt, i, first, [c]);
      FlagsAt(run, fmt, i, first, fl, args);
      PadOn(fl.padc, first, c);
      FlagAt(run, fmt, i + last, c, fl.(padc := LastPad(fl.padc, first)), args);
    }
  }

  lemma FlagAt(run: Runner, fmt: string, i: nat, c: char, fl: Flags, args: seq<Arg>)
    requires Runs(run, fmt) && i < |fmt| && fmt[i] == c && (IsPad(c) || c == '#')
    ensures run(i, fl, args) == run(i + 1, if c == '#' then fl else fl.(padc := c), args)
  {
    assert SwitchTurn(fmt, i, fl, args) == Again(i + 1, FlagStep(c, fl), args);
  }

  lemma {:induction false} DigitsEndOfRun(fmt: string, i: nat, num: string)
    requires i + |num| <= |fmt| && fmt[i..i + |num|] == num
    requires forall k | 0 <= k < |num| :: IsDecimal(num[k])
    requires i + |num| == |fmt| || !IsDecimal(fmt[i + |num|])
    ensures DigitsEnd(fmt, i) == i + |num|
    decreases |num|
  {
    if num != "" {
      assert fmt[i] == num[0];
      assert fmt[i + 1..i + |num|] == num[1..];
      DigitsEndOfRun(fmt, i + 1, num[1..]);
    }
  }

  lemma NumberTurn(fmt: string, i: nat, n: nat, fl: Flags, args: seq<Arg>)
    requires n > 0 && StandsAt(fmt, i, Digits(n, 10))
    requires i + |Digits(n, 10)| == |fmt| || !IsDecimal(fmt[i + |Digits(n, 10)|])
    ensures SwitchTurn(fmt, i, fl, args) == Again(i + |Digits(n, 10)|, TakeNumber(fl, n), args)
  {
    var num := Digits(n, 10);
    forall k | 0 <= k < |num|
      ensures IsDecimal(num[k])
    {
      DigitsAreDecimal(n, k);
    }
    NoLeadingZero(n);
    assert fmt[i] == num[0] && IsDecimal(fmt[i]) && !IsFlag(fmt[i]) && fmt[i] != '*';
    DigitsEndOfRun(fmt, i, num);
    ReadPlain(n);
  }

  lemma StarAt(run: Runner, fmt: string, i: nat, bits: nat, n: int, fl: Flags, args: seq<Arg>, rest: seq<Arg>)
    requires Runs(run, fmt) && i < |fmt| && fmt[i] == '*' && IsSigned(bits, n, TWO32) && args == [Word(bits)] + rest
    ensures run(i, fl, args) == run(i + 1, TakeNumber(fl, n), rest)
  {
    SignedExactly(bits, n, TWO32);
    assert args[1..] == rest;
    assert SwitchTurn(fmt, i, fl, args) == Again(i + 1, TakeNumber(fl, n), rest);
  }

  lemma WrittenAt(run: Runner, fmt: string, i: nat, n: nat, fl: Flags, args: seq<Arg>, j: nat)
    requires Runs(run, fmt)
    requires n > 0 && StandsAt(fmt, i, Digits(n, 10)) && j == i + |Digits(n, 10)| && j < |fmt| && !IsDecimal(fmt[j])
    ensures run(i, fl, args) == run(j, TakeNumber(fl, n), args)
  {
    NumberTurn(fmt, i, n, fl, args);
  }

  /** A number that is given, in digits or by a star, is taken as one number. */
  lemma CountAt(run: Runner, fmt: string, i: nat, c: Option<Count>, n: int, fl: Flags, args: seq<Arg>,
                rest: seq<Arg>, j: nat)
    requires Runs(run, fmt) && c.Some? && c != Some(Written(0)) && Gives(c, n) && StandsAt(fmt, i, CountText(c))
    requires j == i + |CountText(c)| && j < |fmt| && !IsDecimal(fmt[j]) && args == Arguments(c) + rest
    ensures run(i, fl, args) == run(j, TakeNumber(fl, n), rest)
  {
    match c.value
    case Written(m) =>
      assert args == rest;
      WrittenAt(run, fmt, i, m, fl, args, j);
    case Star(bits) =>
      CharStandsAt(fmt, i, '*');
      StarAt(run, fmt, i, bits, n, fl, args, rest);
  }

  lemma WidthAt(run: Runner, fmt: string, i: nat, c: Option<Count>, w: int, fl: Flags, args: seq<Arg>, rest: seq<Arg>,
                j: nat, fl': Flags)
    requires Runs(run, fmt) && c != Some(Written(0)) && Gives(c, w) && StandsAt(fmt, i, CountText(c))
    requires j == i + |CountText(c)| && j < |fmt| && !IsDecimal(fmt[j]) && args == Arguments(c) + rest
    requires fl.width == -1 && fl.precision == -1 && fl' == fl.(width := w)
    ensures run(i, fl, args) == run(j, fl', rest)
  {
    if c.Some? {
      CountAt(run, fmt, i, c, w, fl, args, rest, j);
    } else {
      assert args == rest && fl' == fl;
    }
  }

  /** What a written precision makes of the flags. */
  function WithPrecision(c: Option<Count>, p: int, fl: Flags): Flags {
    var wide := fl.(width := if fl.width < 0 then 0 else fl.width);
    if c.None? then fl
    else if c == Some(Written(0)) then wide.(padc := '0')
    else wide.(precision := p)
  }

  lemma PrecisionAt(run: Runner, fmt: string, i: nat, c: Option<Count>, p: int, fl: Flags, args: seq<Arg>,
                    rest: seq<Arg>,
                    j: nat, fl': Flags)
    requires Runs(run, fmt) && Gives(c, p) && StandsAt(fmt, i, PrecisionText(c))
    requires j == i + |PrecisionText(c)| && j < |fmt| && !IsDecimal(fmt[j]) && args == Arguments(c) + rest
    requires fl' == WithPrecision(c, p, fl)
    ensures run(i, fl, args) == run(j, fl', rest)
  {
    if c.Some? {
      var dotted := fl.(width := if fl.width < 0 then 0 else fl.width);
      PartStandsAt(fmt, i, ".", CountText(c));
      CharStandsAt(fmt, i, '.');
      assert SwitchTurn(fmt, i, fl, args) == Again(i + 1, dotted, args);
      if c == Some(Written(0)) {
        CharStandsAt(fmt, i + 1, '0');
        FlagAt(run, fmt, i + 1, '0', dotted, args);
        assert args == rest;
      } else {
        CountAt(run, fmt, i + 1, c, p, dotted, args, rest, j);
      }
    } else {
      assert args == rest;
    }
  }

  lemma {:induction false} LongsAt(run: Runner, fmt: string, i: nat, k: nat, fl: Flags, args: seq<Arg>)
    requires Runs(run, fmt) && StandsAt(fmt, i, Repeat('l', k))
    ensures run(i, fl, args) == run(i + k, fl.(lflag := fl.lflag + k), args)
    decreases k
  {
    if k > 0 {
      assert Repeat('l', k) == "l" + Repeat('l', k - 1);
      PartStandsAt(fmt, i, "l", Repeat('l', k - 1));
      CharStandsAt(fmt, i, 'l');
      assert SwitchTurn(fmt, i, fl, args) == Again(i + 1, fl.(lflag := fl.lflag + 1), args);
      LongsAt(run, fmt, i + 1, k - 1, fl.(lflag := fl.lflag + 1), args);
    }
  }

  /** What stands behind the width of a field, and what behind its precision. */
  function LongsText(f: Form): (s: string)
    ensures |s| == f.long + 1 && s[0] == if f.long > 0 then 'l' else f.conversion
  {
    Repeat('l', f.long) + [f.conversion]
  }

  function CutText(f: Form): (s: string)
    ensures s != "" && s[0] == if f.precision.Some? then '.' else if f.long > 0 then 'l' else f.conversion
  {
    PrecisionText(f.precision) + LongsText(f)
  }

  lemma ThreeParts(fmt: string, i: nat, a: string, b: string, c: string)
    requires StandsAt(fmt, i, "%" + (a + (b + c)))
    ensures i < |fmt| && fmt[i] == '%' && StandsAt(fmt, i + 1, a) && StandsAt(fmt, i + 1 + |a|, b)
    ensures StandsAt(fmt, i + 1 + |a| + |b|, c)
  {
    PartStandsAt(fmt, i, "%", a + (b + c));
    CharStandsAt(fmt, i, '%');
    PartStandsAt(fmt, i + 1, a, b + c);
    PartStandsAt(fmt, i + 1 + |a|, b, c);
  }

  lemma FirstStands(fmt: string, i: nat, t: string)
    requires StandsAt(fmt, i, t) && t != ""
    ensures i < |fmt| && fmt[i] == t[0]
  {
    assert fmt[i..i + |t|][0] == fmt[i];
  }

  lemma HeadParts(fmt: string, i: nat, f: Form, b: nat, c: nat)
    requires StandsAt(fmt, i, FieldText(f)) && b == i + 1 + |f.flags| && c == b + |CountText(f.width)|
    ensures i < |fmt| && fmt[i] == '%' && StandsAt(fmt, i + 1, f.flags) && StandsAt(fmt, b, CountText(f.width))
    ensures StandsAt(fmt, c, CutText(f)) && fmt[c] == CutText(f)[0]
  {
    ThreeParts(fmt, i, f.flags, CountText(f.width), CutText(f));
    FirstStands(fmt, c, CutText(f));
  }

  lemma TailParts(fmt: string, c: nat, f: Form, d: nat, e: nat)
    requires StandsAt(fmt, c, CutText(f)) && d == c + |PrecisionText(f.precision)| && e == d + f.long
    ensures StandsAt(fmt, c, PrecisionText(f.precision)) && StandsAt(fmt, d, Repeat('l', f.long))
    ensures d < |fmt| && fmt[d] == LongsText(f)[0] && e < |fmt| && fmt[e] == f.conversion
  {
    PartStandsAt(fmt, c, PrecisionText(f.precision), LongsText(f));
    PartStandsAt(fmt, d, Repeat('l', f.long), [f.conversion]);
    CharStandsAt(fmt, e, f.conversion);
  }

  lemma PadReached(run: Runner, fmt: string, i: nat, f: Form, args: seq<Arg>, fl: Flags)
    requires Runs(run, fmt) && IsField(f) && StandsAt(fmt, i, f.flags) && fl == Flags(LastPad(' ', f.flags), -1, -1, 0)
    ensures run(i, INITIAL, args) == run(i + |f.flags|, fl, args)
  {
    FlagsAt(run, fmt, i, f.flags, INITIAL, args);
  }

  /** Flags and width. */
  lemma HeadReached(run: Runner, fmt: string, i: nat, f: Form, w: int, args: seq<Arg>, rest: seq<Arg>, c: nat,
                    fl: Flags)
    requires Runs(run, fmt)
    requires IsField(f) && StandsAt(fmt, i, FieldText(f)) && Gives(f.width, w) && args == Arguments(f.width) + rest
    requires c == i + 1 + |f.flags| + |CountText(f.width)| && fl == Flags(LastPad(' ', f.flags), w, -1, 0)
    ensures StandsAt(fmt, c, CutText(f)) && i < |fmt| && fmt[i] == '%'
    ensures run(i + 1, INITIAL, args) == run(c, fl, rest)
  {
    var b, padded := i + 1 + |f.flags|, Flags(LastPad(' ', f.flags), -1, -1, 0);
    HeadParts(fmt, i, f, b, c);
    PadReached(run, fmt, i + 1, f, args, padded);
    WidthAt(run, fmt, b, f.width, w, padded, args, rest, c, fl);
  }

  /** Precision and long flags. */
  lemma TailReached(run: Runner, fmt: string, c: nat, f: Form, p: int, fl: Flags, args: seq<Arg>,
                    rest: seq<Arg>, e: nat, fl': Flags)
    requires Runs(run, fmt) && IsField(f) && StandsAt(fmt, c, CutText(f)) && Gives(f.precision, p)
    requires args == Arguments(f.precision) + rest && e == c + |PrecisionText(f.precision)| + f.long
    requires fl.lflag == 0 && fl' == WithPrecision(f.precision, p, fl).(lflag := f.long)
    ensures e < |fmt| && fmt[e] == f.conversion
    ensures run(c, fl, args) == run(e, fl', rest)
  {
    var d := c + |PrecisionText(f.precision)|;
    TailParts(fmt, c, f, d, e);
    TailGoes(run, fmt, c, f, p, fl, args, rest, d, e, WithPrecision(f.precision, p, fl));
  }

  lemma TailGoes(run: Runner, fmt: string, c: nat, f: Form, p: int, fl: Flags, args: seq<Arg>, rest: seq<Arg>,
                 d: nat, e: nat, cut: Flags)
    requires Runs(run, fmt) && Gives(f.precision, p) && args == Arguments(f.precision) + rest
    requires StandsAt(fmt, c, PrecisionText(f.precision)) && StandsAt(fmt, d, Repeat('l', f.long))
    requires d == c + |PrecisionText(f.precision)| && d < |fmt| && !IsDecimal(fmt[d]) && e == d + f.long
    requires fl.lflag == 0 && cut == WithPrecision(f.precision, p, fl)
    ensures run(c, fl, args) == run(e, cut.(lflag := f.long), rest)
  {
    PrecisionAt(run, fmt, c, f.precision, p, fl, args, rest, d, cut);
    LongsAt(run, fmt, d, f.long, cut, rest);
  }

  lemma FieldLength(f: Form)
    ensures |FieldText(f)| == 1 + |f.flags| + |CountText(f.width)| + |PrecisionText(f.precision)| + f.long + 1
  {
  }

  /** Where a field stands in a format, its conversion meets the flags that the field names. */
  lemma FieldReached(run: Runner, fmt: string, i: nat, f: Form, w: int, p: int, args: seq<Arg>, rest: seq<Arg>,
                     e: nat, fl: Flags)
    requires Runs(run, fmt)
    requires IsField(f) && StandsAt(fmt, i, FieldText(f)) && Gives(f.width, w) && Gives(f.precision, p)
    requires args == Taken(f) + rest && e + 1 == i + |FieldText(f)| && fl == FlagsOf(f, w, p)
    ensures i < e < |fmt| && fmt[i] == '%' && fmt[e] == f.conversion
    ensures run(i + 1, INITIAL, args) == run(e, fl, rest)
  {
    var c, wide := i + 1 + |f.flags| + |CountText(f.width)|, Flags(LastPad(' ', f.flags), w, -1, 0);
    var behind := Arguments(f.precision) + rest;
    FieldLength(f);
    assert args == Arguments(f.width) + behind;
    HeadReached(run, fmt, i, f, w, args, behind, c, wide);
    TailReached(run, fmt, c, f, p, wide, behind, rest, e, fl);
  }

  /** What a directive does for its text at i is what the format does there. */
  lemma DirectiveInFormat(fmt: string, i: nat, args: seq<Arg>, next: nat, text: string, rest: seq<Arg>)
    requires i < |fmt| && fmt[i] == '%' && Directive(fmt, i + 1, INITIAL, args) == Emits(next, text, rest)
    ensures Format(fmt, i, args) == Prepend(text, Format(fmt, next, rest))
  {
  }

  /** The directive of a field comes to what the switch does at its conversion. */
  lemma FieldStops(fmt: string, i: nat, f: Form, w: int, p: int, args: seq<Arg>, rest: seq<Arg>, e: nat, fl: Flags,
                   step: Step)
    requires IsField(f) && StandsAt(fmt, i, FieldText(f)) && Gives(f.width, w) && Gives(f.precision, p)
    requires args == Taken(f) + rest && e + 1 == i + |FieldText(f)| && fl == FlagsOf(f, w, p)
    requires fmt[e] == f.conversion ==> SwitchTurn(fmt, e, fl, rest) == Stop(step)
    ensures i + 1 <= |fmt| && fmt[i] == '%' && Directive(fmt, i + 1, INITIAL, args) == step
  {
    var run := Directed(fmt);
    DirectedRuns(fmt);
    FieldReached(run, fmt, i, f, w, p, args, rest, e, fl);
    assert run(i + 1, INITIAL, args) == Directive(fmt, i + 1, INITIAL, args);
  }

  /** A field that stands in a format puts out what its conversion makes of its argument. */
  lemma FieldEmits(fmt: string, i: nat, f: Form, w: int, p: int, arg: Arg, rest: seq<Arg>, text: string)
    requires IsField(f) && StandsAt(fmt, i, FieldText(f)) && Gives(f.width, w) && Gives(f.precision, p)
    requires IsConversion(f.conversion)
    requires ConvertStep(f.conversion, FlagsOf(f, w, p), i + |FieldText(f)|, [arg] + rest)
          == Emits(i + |FieldText(f)|, text, rest)
    ensures Format(fmt, i, Taken(f) + ([arg] + rest)) == Prepend(text, Format(fmt, i + |FieldText(f)|, rest))
  {
    var next, args := i + |FieldText(f)|, Taken(f) + ([arg] + rest);
    FieldStops(fmt, i, f, w, p, args, [arg] + rest, next - 1, FlagsOf(f, w, p), Emits(next, text, rest));
    DirectiveInFormat(fmt, i, args, next, text, rest);
  }

  /** The field at i turns into this text, and the format goes on behind it. */
  ghost predicate Becomes(fmt: string, i: nat, f: Form, args: seq<Arg>, text: string, rest: seq<Arg>)
    requires StandsAt(fmt, i, FieldText(f))
  {
    Format(fmt, i, args) == Prepend(text, Format(fmt, i + |FieldText(f)|, rest))
  }

  // ---------- number fields ----------

  predicate IsDigit(c: char, base: nat) {
    ('0' <= c <= '9' && c as int - '0' as int < base) || ('a' <= c <= 'z' && c as int - 'a' as int + 10 < base)
  }

  /** The number v in this base, as it is usually written: digits of the base, and no leading zero. */
  predicate IsNumeral(s: string, base: nat, v: nat) {
    && s != "" && (forall i | 0 <= i < |s| :: IsDigit(s[i], base))
    && (|s| > 1 ==> s[0] != '0')
    && Positional(s, base) == v
  }

  lemma {:induction false} DigitsAreNumeral(n: nat, base: nat)
    requires 2 <= base <= 36
    ensures IsNumeral(Digits(n, base), base, n)
    ensures n > 0 ==> Digits(n, base)[0] != '0'
  {
    DigitsPositional(n, base);
    if n >= base {
      DigitsAreNumeral(HigherPart(n, base), base);
    }
  }

  /** Padding on the left up to the width. */
  predicate IsPadded(text: string, body: string, padc: char, width: int) {
    text == Repeat(padc, width - |body|) + body
  }

  lemma NarrowPad(body: string, padc: char, v: int, w: int)
    requires v == w || (v == 0 && w < 0)
    ensures Repeat(padc, v - |body|) == Repeat(padc, w - |body|)
  {
    assert v - |body| <= 0 ==> Repeat(padc, v - |body|) == "";
    assert w - |body| <= 0 ==> Repeat(padc, w - |body|) == "";
  }

  /** The width of int, or of long with a long flag. */
  function Modulus(long: nat): (m: nat)
    ensures m > 0
  {
    if long == 0 then 0x1_0000_0000 else 0x1_0000_0000_0000_0000
  }

  predicate IsUnsigned(c: char, base: nat) {
    (c == 'u' && base == 10) || (c == 'o' && base == 8) || (c == 'x' && base == 16)
  }

  lemma LowBits(bits: nat, long: nat)
    ensures Low(bits, IntWidth(long)) == bits % Modulus(long) && Low(bits, TWO64) == bits % Modulus(1)
  {
  }

  /** The next argument, converted. */
  lemma WordStep(c: char, fl: Flags, next: nat, bits: nat, rest: seq<Arg>, text: string)
    requires IsConversion(c) && c != 's' && text == WordText(c, fl, bits)
    ensures ConvertStep(c, fl, next, [Word(bits)] + rest) == Emits(next, text, rest)
  {
    assert ([Word(bits)] + rest)[1..] == rest;
  }

  lemma UnsignedText(c: char, base: nat, fl: Flags, bits: nat, v: nat, digits: string)
    requires IsUnsigned(c, base) && v == Low(bits, IntWidth(fl.lflag)) && digits == Digits(v, base)
    ensures WordText(c, fl, bits) == Repeat(fl.padc, fl.width - |digits|) + digits
  {
  }

  lemma UnsignedStep(c: char, base: nat, fl: Flags, next: nat, bits: nat, rest: seq<Arg>, v: nat, digits: string)
    requires IsUnsigned(c, base) && v == bits % Modulus(fl.lflag) && digits == Digits(v, base)
    ensures ConvertStep(c, fl, next, [Word(bits)] + rest)
         == Emits(next, Repeat(fl.padc, fl.width - |digits|) + digits, rest)
  {
    LowBits(bits, fl.lflag);
    UnsignedText(c, base, fl, bits, v, digits);
    WordStep(c, fl, next, bits, rest, Repeat(fl.padc, fl.width - |digits|) + digits);
  }

  /**
    An unsigned field anywhere in a format, in base 10, 8 or 16, with any flags, width and precision:
    the low 32 bits of the argument, or 64 with a long flag, written in that base and padded.
   */
  lemma UnsignedField(fmt: string, i: nat, f: Form, w: int, p: int, base: nat, bits: nat, rest: seq<Arg>)
      returns (text: string, digits: string)
    requires IsField(f) && StandsAt(fmt, i, FieldText(f)) && Gives(f.width, w) && Gives(f.precision, p)
    requires IsUnsigned(f.conversion, base)
    ensures Becomes(fmt, i, f, Taken(f) + ([Word(bits)] + rest), text, rest)
    ensures IsPadded(text, digits, Pad(f), w) && IsNumeral(digits, base, bits % Modulus(f.long))
  {
    var fl := FlagsOf(f, w, p);
    digits := Digits(bits % Modulus(f.long), base);
    text := Repeat(fl.padc, fl.width - |digits|) + digits;
    UnsignedStep(f.conversion, base, fl, i + |FieldText(f)|, bits, rest, bits % Modulus(f.long), digits);
    FieldEmits(fmt, i, f, w, p, Word(bits), rest, text);
    DigitsAreNumeral(bits % Modulus(f.long), base);
    NarrowPad(digits, fl.padc, fl.width, w);
  }

  lemma PointerText(fl: Flags, bits: nat, v: nat, digits: string)
    requires v == Low(bits, TWO64) && digits == Digits(v, 16)
    ensures WordText('p', fl, bits) == "0x" + (Repeat(fl.padc, fl.width - |digits|) + digits)
  {
  }

  lemma PointerStep(fl: Flags, next: nat, bits: nat, rest: seq<Arg>, v: nat, digits: string)
    requires v == bits % Modulus(1) && digits == Digits(v, 16)
    ensures ConvertStep('p', fl, next, [Word(bits)] + rest)
         == Emits(next, "0x" + (Repeat(fl.padc, fl.width - |digits|) + digits), rest)
  {
    LowBits(bits, 1);
    PointerText(fl, bits, v, digits);
    WordStep('p', fl, next, bits, rest, "0x" + (Repeat(fl.padc, fl.width - |digits|) + digits));
  }

  /** A pointer field: always 64 bits, in base 16; the padding comes behind the prefix. */
  lemma PointerField(fmt: string, i: nat, f: Form, w: int, p: int, bits: nat, rest: seq<Arg>)
      returns (text: string, digits: string)
    requires IsField(f) && StandsAt(fmt, i, FieldText(f)) && Gives(f.width, w) && Gives(f.precision, p)
    requires f.conversion == 'p'
    ensures Becomes(fmt, i, f, Taken(f) + ([Word(bits)] + rest), "0x" + text, rest)
    ensures IsPadded(text, digits, Pad(f), w) && IsNumeral(digits, 16, bits % Modulus(1))
  {
    var fl := FlagsOf(f, w, p);
    digits := Digits(bits % Modulus(1), 16);
    text := Repeat(fl.padc, fl.width - |digits|) + digits;
    PointerStep(fl, i + |FieldText(f)|, bits, rest, bits % Modulus(1), digits);
    FieldEmits(fmt, i, f, w, p, Word(bits), rest, "0x" + text);
    DigitsAreNumeral(bits % Modulus(1), 16);
    NarrowPad(digits, fl.padc, fl.width, w);
  }

  predicate IsReadablePad(c: char) {
    c == ' ' || c == '0' || c == '-'
  }

  lemma {:induction false} LastPadReadable(padc: char, flags: string)
    requires IsReadablePad(padc) && forall i | 0 <= i < |flags| :: IsPad(flags[i]) || flags[i] == '#'
    ensures IsReadablePad(LastPad(padc, flags))
    decreases |flags|
  {
    if flags != "" {
      LastPadReadable(padc, flags[..|flags| - 1]);
    }
  }

  function Sign(x: int): string {
    if x < 0 then "-" else ""
  }

  lemma SignedDigits(x: int, width: int, padc: char, digits: string)
    requires digits == Digits(Abs(x), 10)
    ensures SignedText(x, width, padc) == Sign(x) + (Repeat(padc, width - |digits|) + digits)
  {
  }

  lemma SignedStep(fl: Flags, next: nat, bits: nat, rest: seq<Arg>, x: int)
    requires IsSigned(bits, x, Modulus(fl.lflag))
    ensures ConvertStep('d', fl, next, [Word(bits)] + rest) == Emits(next, SignedText(x, fl.width, fl.padc), rest)
  {
    SignedExactly(bits, x, Modulus(fl.lflag));
    WordStep('d', fl, next, bits, rest, SignedText(x, fl.width, fl.padc));
  }

  /**
    A signed field anywhere in a format: the number that the low 32 bits stand for, or 64 with a long
    flag, its sign in front of the padding; and `atol` reads it back exactly as far as ReadsBack says.
   */
  lemma SignedField(fmt: string, i: nat, f: Form, w: int, p: int, bits: nat, x: int, rest: seq<Arg>)
      returns (text: string, digits: string)
    requires IsField(f) && StandsAt(fmt, i, FieldText(f)) && Gives(f.width, w) && Gives(f.precision, p)
    requires f.conversion == 'd' && IsSigned(bits, x, Modulus(f.long))
    ensures Becomes(fmt, i, f, Taken(f) + ([Word(bits)] + rest), Sign(x) + text, rest)
    ensures IsPadded(text, digits, Pad(f), w) && IsNumeral(digits, 10, Abs(x))
    ensures AtolValue(Sign(x) + text) == x <==> ReadsBack(x, w, Pad(f))
  {
    var fl := FlagsOf(f, w, p);
    digits := Digits(Abs(x), 10);
    text := Repeat(fl.padc, fl.width - |digits|) + digits;
    SignedStep(fl, i + |FieldText(f)|, bits, rest, x);
    SignedDigits(x, fl.width, fl.padc, digits);
    FieldEmits(fmt, i, f, w, p, Word(bits), rest, Sign(x) + text);
    DigitsAreNumeral(Abs(x), 10);
    NarrowPad(digits, fl.padc, fl.width, w);
    SignedReads(f, fl.width, w, x);
  }

  lemma SignedReads(f: Form, v: int, w: int, x: int)
    requires IsField(f) && (v == w || (v == 0 && w < 0))
    ensures AtolValue(SignedText(x, v, Pad(f))) == x <==> ReadsBack(x, w, Pad(f))
  {
    LastPadReadable(' ', f.flags);
    SignedRoundTripExactly(x, v, Pad(f));
  }

  /** A precision that is written as 0 pads with zeros, whatever pad was asked for, so the number always reads back. */
  lemma ZeroPrecisionReadsBack(fmt: string, i: nat, f: Form, w: int, bits: nat, x: int, rest: seq<Arg>)
      returns (text: string, digits: string)
    requires IsField(f) && StandsAt(fmt, i, FieldText(f)) && Gives(f.width, w) && f.precision == Some(Written(0))
    requires f.conversion == 'd' && IsSigned(bits, x, Modulus(f.long))
    ensures Becomes(fmt, i, f, Taken(f) + ([Word(bits)] + rest), Sign(x) + text, rest)
    ensures IsPadded(text, digits, '0', w) && IsNumeral(digits, 10, Abs(x)) && AtolValue(Sign(x) + text) == x
  {
    text, digits := SignedField(fmt, i, f, w, 0, bits, x, rest);
  }

  lemma CharStep(fl: Flags, next: nat, bits: nat, rest: seq<Arg>)
    ensures ConvertStep('c', fl, next, [Word(bits)] + rest) == Emits(next, [(bits % 256) as char], rest)
  {
    assert ([Word(bits)] + rest)[1..] == rest;
    var b := bits % TWO32;
    assert b % 256 == bits % 256;
    assert Signed(bits, TWO32) % 256 == b % 256;
  }

  /** A character field: the low byte, one character, whatever width was asked for. */
  lemma CharField(fmt: string, i: nat, f: Form, w: int, p: int, bits: nat, rest: seq<Arg>)
    requires IsField(f) && StandsAt(fmt, i, FieldText(f)) && Gives(f.width, w) && Gives(f.precision, p)
    requires f.conversion == 'c'
    ensures Becomes(fmt, i, f, Taken(f) + ([Word(bits)] + rest), [(bits % 256) as char], rest)
  {
    CharStep(FlagsOf(f, w, p), i + |FieldText(f)|, bits, rest);
    FieldEmits(fmt, i, f, w, p, Word(bits), rest, [(bits % 256) as char]);
  }

  // ---------- no conversion ----------

  /** A second percent sign stands for one; stars in between have taken their arguments. */
  lemma PercentField(fmt: string, i: nat, f: Form, w: int, p: int, rest: seq<Arg>)
    requires IsField(f) && StandsAt(fmt, i, FieldText(f)) && Gives(f.width, w) && Gives(f.precision, p)
    requires f.conversion == '%'
    ensures Becomes(fmt, i, f, Taken(f) + rest, "%", rest)
  {
    var next := i + |FieldText(f)|;
    FieldStops(fmt, i, f, w, p, Taken(f) + rest, rest, next - 1, FlagsOf(f, w, p), Emits(next, "%", rest));
    DirectiveInFormat(fmt, i, Taken(f) + rest, next, "%", rest);
  }

  predicate IsKnown(c: char) {
    c in "csduoxp%"
  }

  /** A field that ends in no conversion is printed as it stands, but its stars have taken their arguments. */
  lemma UnknownField(fmt: string, i: nat, f: Form, w: int, p: int, rest: seq<Arg>)
    requires IsField(f) && StandsAt(fmt, i, FieldText(f)) && Gives(f.width, w) && Gives(f.precision, p)
    requires !IsKnown(f.conversion)
    ensures Format(fmt, i, Taken(f) + rest) == Prepend("%", Format(fmt, i + 1, rest))
  {
    assert "csduoxp%"[7] == '%' && "csduoxp%"[0] == 'c' && "csduoxp%"[1] == 's' && "csduoxp%"[2] == 'd'
        && "csduoxp%"[3] == 'u' && "csduoxp%"[4] == 'o' && "csduoxp%"[5] == 'x' && "csduoxp%"[6] == 'p';
    FieldStops(fmt, i, f, w, p, Taken(f) + rest, rest, i + |FieldText(f)| - 1, FlagsOf(f, w, p), Literal(rest));
  }

  // ---------- long numbers ----------

  /** The 64-bit pattern of x. */
  function Bits(x: int): nat
    requires -TWO63 <= x < TWO63
  {
    if x < 0 then x + TWO64 else x
  }

  const LONG: Form := Form("", None, None, 1, 'd')

  lemma LongText()
    ensures FieldText(LONG) == "%ld" && IsField(LONG) && Taken(LONG) == []
  {
    assert Repeat('l', 1) == "l";
    assert "%" + ("" + ("" + ("" + ("l" + "d")))) == "%ld";
  }

  /** The plain long directive: every 64-bit number survives being written and read. */
  lemma LongRoundTrip(x: int)
    requires -TWO63 <= x < TWO63
    ensures Format("%ld", 0, [Word(Bits(x))]).Done?
    ensures AtolValue(Format("%ld", 0, [Word(Bits(x))]).text) == x
  {
    LongText();
    LongRead("%ld", x, LONG);
  }

  lemma LongRead(fmt: string, x: int, f: Form)
    requires -TWO63 <= x < TWO63 && f == LONG && fmt == FieldText(f) && IsField(f) && Taken(f) == []
    ensures Format(fmt, 0, [Word(Bits(x))]).Done?
    ensures AtolValue(Format(fmt, 0, [Word(Bits(x))]).text) == x
  {
    assert [] + ([Word(Bits(x))] + []) == [Word(Bits(x))] && fmt[0..|fmt|] == fmt;
    if x < 0 {
      NegativeMod(x, TWO64);
    }
    var text, digits := SignedField(fmt, 0, f, -1, -1, Bits(x), x, []);
    assert Sign(x) + text + "" == Sign(x) + text;
  }

  // ---------- string fields ----------

  function Max(a: int, b: int): int {
    if a < b then b else a
  }

  /** How many characters of s a field lets through: a precision p, unless it is none, negative or written as 0. */
  function Through(s: string, f: Form, p: int): nat {
    if f.precision == Some(Written(0)) || p < 0 || p > |s| then |s| else p
  }

  /** Exactly max(width, n) characters: the first n of s, with padding before them, or behind them after a dash. */
  predicate IsStringField(text: string, s: string, n: nat, padc: char, width: int)
    requires n <= |s|
  {
    && |text| == Max(width, n)
    && if padc == '-' then text[..n] == s[..n] && text[n..] == Repeat(' ', width - n)
       else text[|text| - n..] == s[..n] && text[..|text| - n] == Repeat(padc, width - n)
  }

  lemma StringShape(s: string, f: Form, w: int, p: int, fl: Flags, n: nat)
    requires fl == FlagsOf(f, w, p) && n == Through(s, f, p) && (f.precision == None ==> p == -1)
    ensures IsStringField(StringText(s, fl), s, n, Pad(f), w)
  {
    assert n == Shown(s, fl.precision);
    assert fl.width <= 0 ==> Repeat(' ', fl.width - n) == "" == Repeat(fl.padc, w - n) == Repeat(' ', w - n);
    if fl.width > 0 && fl.padc != '-' {
      assert StringText(s, fl) == Repeat(fl.padc, w - n) + s[..n];
    } else {
      assert StringText(s, fl) == s[..n] + Repeat(' ', fl.width - n);
    }
  }

  /** The argument of a string conversion; NULL prints as a text of its own. */
  function TextOf(s: StrArg): string {
    if s.Null? then "(null)" else s.text
  }

  lemma StringStep(fl: Flags, next: nat, s: StrArg, rest: seq<Arg>)
    ensures ConvertStep('s', fl, next, [Str(s)] + rest) == Emits(next, StringText(TextOf(s), fl), rest)
  {
    assert ([Str(s)] + rest)[1..] == rest;
  }

  /** A string field anywhere in a format, with any flags, width and precision. */
  lemma StringField(fmt: string, i: nat, f: Form, w: int, p: int, s: StrArg, rest: seq<Arg>) returns (text: string)
    requires IsField(f) && StandsAt(fmt, i, FieldText(f)) && Gives(f.width, w) && Gives(f.precision, p)
    requires f.conversion == 's'
    ensures Becomes(fmt, i, f, Taken(f) + ([Str(s)] + rest), text, rest)
    ensures IsStringField(text, TextOf(s), Through(TextOf(s), f, p), Pad(f), w)
  {
    var fl := FlagsOf(f, w, p);
    text := StringText(TextOf(s), fl);
    StringStep(fl, i + |FieldText(f)|, s, rest);
    FieldEmits(fmt, i, f, w, p, Str(s), rest, text);
    StringShape(TextOf(s), f, w, p, fl, Through(TextOf(s), f, p));
  }

  // ---------- when a precision cuts ----------

  /** The pad flag that was asked for, and as many characters as the precision lets through. */
  ghost predicate CutsOn(f: Form, w: int, p: nat, s: string) {
    forall text | Format(FieldText(f), 0, Taken(f) + [Str(Text(s))]) == Done(text) ::
      IsStringField(text, s, Min(p, |s|), LastPad(' ', f.flags), w)
  }

  ghost predicate Cuts(f: Form, w: int, p: nat) {
    forall s :: CutsOn(f, w, p, s)
  }

  lemma WholeField(f: Form, w: int, p: int, s: string) returns (text: string)
    requires IsField(f) && Gives(f.width, w) && Gives(f.precision, p) && f.conversion == 's'
    ensures Format(FieldText(f), 0, Taken(f) + [Str(Text(s))]) == Done(text)
    ensures IsStringField(text, s, Through(s, f, p), Pad(f), w)
  {
    var fmt := FieldText(f);
    assert fmt[0..|fmt|] == fmt && [Str(Text(s))] + [] == [Str(Text(s))];
    text := StringField(fmt, 0, f, w, p, Text(s), []);
    assert text + "" == text;
  }

  /**
    For all flags and widths: a precision of 0 or more, written or by a star, cuts and pads every string
    as it should exactly if it is not a written zero.
   */
  lemma CutsExactly(f: Form, w: int, p: nat)
    requires IsField(f) && Gives(f.width, w) && Gives(f.precision, p) && f.conversion == 's' && f.precision.Some?
    ensures Cuts(f, w, p) <==> f.precision != Some(Written(0))
  {
    if f.precision != Some(Written(0)) {
      forall s ensures CutsOn(f, w, p, s) {
        var text := WholeField(f, w, p, s);
      }
    } else {
      var text := WholeField(f, w, p, "a");
      LastPadReadable(' ', f.flags);
      NothingCut(text, w, LastPad(' ', f.flags));
      assert !CutsOn(f, w, p, "a");
    }
  }

  lemma NothingCut(text: string, w: int, padc: char)
    requires IsStringField(text, "a", 1, '0', w) && IsReadablePad(padc)
    ensures !IsStringField(text, "a", 0, padc, w)
  {
    var last := |text| - 1;
    assert text[last..][0] == text[last] == 'a';
    if padc == '-' {
      assert text[0..] == text;
    } else {
      assert text[..|text| - 0] == text;
    }
  }
}
