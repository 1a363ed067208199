/**
  `str_to_int` of `helpers/rvalue_parser.py`: a text of integers and operators is worked off from
  left to right, every operand is reduced to the register width, the running result is not.
 */
module IntegerText {
  import opened Numerals
  import opened SExpression
  import opened WordText
  import opened Wrappers

  /** What comes back: an int, None, or a float (or None) once something was divided. */
  datatype Outcome = Whole(n: int) | Nothing | Inexact

  /** Python's `%` for a divisor of either sign. */
  function PyMod(a: int, w: int): (r: int)
    requires w != 0
    ensures if w > 0 then 0 <= r < w else w < r <= 0
  {
    if w > 0 then a % w else if a % -w == 0 then 0 else a % -w + w
  }

  predicate IsOperator(token: string) {
    token == "+" || token == "-" || token == "*" || token == "/"
  }

  function Combine(token: string, acc: int, v: int): int {
    if token == "+" then acc + v else if token == "-" then acc - v else acc * v
  }

  /** The same walk over the tokens without any reduction; None where an operand is missing or no integer. */
  function Exact(tokens: seq<string>, i: nat, acc: int, read: string -> Option<int>): Option<int>
    requires i <= |tokens|
    decreases |tokens| - i
  {
    if i == |tokens| then Some(acc)
    else if !IsOperator(tokens[i]) then Exact(tokens, i + 1, acc, read)
    else if i + 1 == |tokens| || read(tokens[i + 1]).None? then None
    else Exact(tokens, i + 1, Combine(tokens[i], acc, read(tokens[i + 1]).value), read)
  }

  /** An operator without an integer behind it. */
  predicate Dangles(tokens: seq<string>, j: nat, read: string -> Option<int>)
    requires j < |tokens|
  {
    IsOperator(tokens[j]) && (j + 1 == |tokens| || read(tokens[j + 1]).None?)
  }

  /** The walk fails exactly if an operator dangles somewhere. */
  lemma {:induction false} ExactFailsExactly(tokens: seq<string>, i: nat, acc: int, read: string -> Option<int>)
    requires i <= |tokens|
    ensures Exact(tokens, i, acc, read).None? <==> exists j: nat :: i <= j < |tokens| && Dangles(tokens, j, read)
    decreases |tokens| - i
  {
    if i < |tokens| && !Dangles(tokens, i, read) {
      var next := if IsOperator(tokens[i]) then Combine(tokens[i], acc, read(tokens[i + 1]).value) else acc;
      ExactFailsExactly(tokens, i + 1, next, read);
    }
  }

  // ---------- tokens and numbers ----------

  function Join(parts: seq<string>): string
    requires parts != []
  {
    if |parts| == 1 then parts[0] else parts[0] + (" " + Join(parts[1..]))
  }

  /** The tokens hold no blank, and with single blanks between them they are the text. */
  lemma {:induction false} SplitJoins(s: string)
    ensures Join(Split(s)) == s
    ensures forall i, j | 0 <= i < |Split(s)| && 0 <= j < |Split(s)[i]| :: Split(s)[i][j] != ' '
  {
    if s == "" {
    } else if s[0] == ' ' {
      SplitJoins(s[1..]);
      assert ([""] + Split(s[1..]))[1..] == Split(s[1..]);
      assert "" + (" " + s[1..]) == s;
    } else {
      var parts := Split(s[1..]);
      SplitJoins(s[1..]);
      JoinFirst([s[0]], parts);
      assert [s[0]] + s[1..] == s;
    }
  }

  lemma JoinFirst(a: string, parts: seq<string>)
    requires parts != []
    ensures Join([a + parts[0]] + parts[1..]) == a + Join(parts)
  {
    var all := [a + parts[0]] + parts[1..];
    assert all[1..] == parts[1..];
    if |parts| > 1 {
      assert a + parts[0] + (" " + Join(parts[1..])) == a + (parts[0] + (" " + Join(parts[1..])));
    }
  }

  /** Reading the decimal digits of a number gives the number. */
  lemma {:induction false} DecimalOfDigits(n: nat)
    ensures AllDigits(Digits(n, 10)) && DecimalValue(Digits(n, 10)) == n
  {
    var s := Digits(n, 10);
    if n < 10 {
      assert s[..0] == "";
    } else {
      DecimalOfDigits(HigherPart(n, 10));
      assert s[..|s| - 1] == Digits(HigherPart(n, 10), 10);
      SplitLastDigit(n, 10);
    }
  }

  /** Any text of digits has its positional value. */
  lemma {:induction false} DecimalIsPositional(s: string)
    requires AllDigits(s)
    ensures DecimalValue(s) == Positional(s, 10)
    decreases |s|
  {
    if s != "" {
      DecimalIsPositional(s[..|s| - 1]);
    }
  }

  // ---------- reduction ----------

  lemma AtLeastOnce(j: int, w: int)
    requires j >= 1 && w > 0
    ensures j * w >= w
  {
  }

  lemma RemainderUnique(r: int, r': int, j: int, w: int)
    requires 0 <= r < w && 0 <= r' < w && r == r' + j * w
    ensures r == r'
  {
    if j >= 1 {
      AtLeastOnce(j, w);
    } else if j <= -1 {
      AtLeastOnce(-j, w);
    }
  }

  lemma MultiplesAdd(q: int, q': int, k: int, w: int)
    ensures q * w + k * w - q' * w == (q + k - q') * w
  {
  }

  lemma ModShift(a: int, k: int, w: int)
    requires w > 0
    ensures (a + k * w) % w == a % w
  {
    var b := a + k * w;
    var q, q' := a / w, b / w;
    assert a == q * w + a % w && b == q' * w + b % w;
    MultiplesAdd(q, q', k, w);
    RemainderUnique(b % w, a % w, q + k - q', w);
  }

  lemma SignsCancel(k: int, w: int)
    ensures -k * -w == k * w
  {
  }

  /** Whole multiples of w change nothing. */
  lemma PyModShift(a: int, k: int, w: int)
    requires w != 0
    ensures PyMod(a + k * w, w) == PyMod(a, w)
  {
    if w > 0 {
      ModShift(a, k, w);
    } else {
      SignsCancel(k, w);
      ModShift(a, -k, -w);
    }
  }

  lemma PyModQuotient(a: int, w: int) returns (q: int)
    requires w != 0
    ensures PyMod(a, w) == a + q * w
  {
    if w > 0 {
      q := -(a / w);
    } else {
      var d := a / -w;
      q := if a % -w == 0 then d else d + 1;
      assert a == d * -w + a % -w;
      SignsCancel(d, w);
    }
  }

  lemma TimesReduced(acc: int, k: int, v: int, q: int, w: int)
    ensures (acc + k * w) * (v + q * w) == acc * v + (acc * q + k * v + k * w * q) * w
  {
  }

  /** One step on a result and an operand that are off by multiples of w is itself off by one. */
  lemma CombineReduced(token: string, acc: int, k: int, v: int, w: int) returns (k': int)
    requires w != 0
    ensures Combine(token, acc + k * w, PyMod(v, w)) == Combine(token, acc, v) + k' * w
  {
    var q := PyModQuotient(v, w);
    if token == "+" {
      k' := k + q;
    } else if token == "-" {
      k' := k - q;
    } else {
      k' := acc * q + k * v + k * w * q;
      TimesReduced(acc, k, v, q, w);
    }
  }

  // ---------- the loop ----------

  /**
    Without a division the result is the exact one modulo the width, and None exactly where the exact
    walk has none.  `read` is Python's `int` on a token.
   */
  method StrToInt(text: string, read: string -> Option<int>, w: int) returns (r: Outcome)
    ensures !IsDigits(Split(text)[0]) || w == 0 ==> r == Nothing
    ensures IsDigits(Split(text)[0]) && w != 0 && "/" !in Split(text)[1..] ==>
      r == match Exact(Split(text), 1, DecimalValue(Split(text)[0]), read)
           case None => Nothing
           case Some(v) => Whole(PyMod(v, w))
    ensures "/" in Split(text)[1..] ==> !r.Whole?
  {
    var tokens := Split(text);
    if !IsDigits(tokens[0]) {
      return Nothing;
    }
    var result, inexact := DecimalValue(tokens[0]) as int, false;
    ghost var exact, k := result, 0;
    for i := 1 to |tokens|
      invariant inexact ==> "/" in tokens[1..]
      invariant !inexact ==> "/" !in tokens[1..i] && result == exact + k * w
      invariant !inexact ==> Exact(tokens, i, exact, read) == Exact(tokens, 1, DecimalValue(tokens[0]), read)
    {
      assert tokens[1..i + 1] == tokens[1..i] + [tokens[i]];
      assert tokens[i] == tokens[1..][i - 1];
      if IsOperator(tokens[i]) {
        if i + 1 == |tokens| || w == 0 {
          return Nothing;
        }
        var operand := read(tokens[i + 1]);
        if operand.None? {
          return Nothing;
        }
        if tokens[i] == "/" {
          if PyMod(operand.value, w) == 0 {
            return Nothing;
          }
          inexact := true;
        } else {
          k := CombineReduced(tokens[i], exact, k, operand.value, w);
          result := Combine(tokens[i], result, PyMod(operand.value, w));
          exact := Combine(tokens[i], exact, operand.value);
        }
      }
    }
    if w == 0 {
      return Nothing;
    }
    if inexact {
      return Inexact;
    }
    assert tokens[1..|tokens|] == tokens[1..];
    PyModShift(exact, k, w);
    return Whole(PyMod(result, w));
  }

  // ---------- flat texts ----------

  datatype Operator = Add | Sub | Mul

  datatype Term = Term(op: Operator, digits: string)

  function OperatorText(op: Operator): string {
    match op
    case Add => "+"
    case Sub => "-"
    case Mul => "*"
  }

  predicate AllNumbers(terms: seq<Term>) {
    forall i | 0 <= i < |terms| :: IsDigits(terms[i].digits)
  }

  /** "12 + 3 * 4" and the like. */
  function FlatText(first: string, terms: seq<Term>): string
    decreases |terms|
  {
    if terms == [] then first
    else first + " " + OperatorText(terms[0].op) + " " + FlatText(terms[0].digits, terms[1..])
  }

  function FlatTokens(first: string, terms: seq<Term>): seq<string>
    decreases |terms|
  {
    if terms == [] then [first]
    else [first, OperatorText(terms[0].op)] + FlatTokens(terms[0].digits, terms[1..])
  }

  /** The value from left to right, whatever the operators. */
  function FlatValue(acc: int, terms: seq<Term>): int
    requires AllNumbers(terms)
    decreases |terms|
  {
    if terms == [] then acc
    else
      var v := DecimalValue(terms[0].digits);
      FlatValue(match terms[0].op case Add => acc + v case Sub => acc - v case Mul => acc * v, terms[1..])
  }

  lemma SplitAtBlank(word: string, rest: string)
    requires forall i | 0 <= i < |word| :: word[i] != ' '
    ensures Split(word + " " + rest) == [word] + Split(rest)
  {
    var t := " " + rest;
    assert t[1..] == rest && word + " " + rest == word + t;
    SplitWord(word, t);
    assert Split(t) == [""] + Split(rest);
    assert word + "" == word;
  }

  lemma SplitTwo(word: string, op: string, rest: string, text: string)
    requires forall i | 0 <= i < |word| :: word[i] != ' '
    requires forall i | 0 <= i < |op| :: op[i] != ' '
    requires text == word + " " + op + " " + rest
    ensures Split(text) == [word, op] + Split(rest)
  {
    var tail := op + " " + rest;
    Regroup(word, op, rest);
    SplitAtBlank(word, tail);
    SplitAtBlank(op, rest);
    TwoFirst(word, op, Split(rest));
  }

  lemma TwoFirst<T>(x: T, y: T, s: seq<T>)
    ensures [x] + ([y] + s) == [x, y] + s
  {
  }

  lemma Regroup(word: string, op: string, rest: string)
    ensures word + " " + op + " " + rest == word + " " + (op + " " + rest)
  {
  }

  lemma {:induction false} SplitFlat(first: string, terms: seq<Term>)
    requires IsDigits(first) && AllNumbers(terms)
    ensures Split(FlatText(first, terms)) == FlatTokens(first, terms)
    decreases |terms|
  {
    if terms == [] {
      SplitWord(first, "");
      assert first + "" == first && Split("") == [""];
    } else {
      var op, rest := OperatorText(terms[0].op), FlatText(terms[0].digits, terms[1..]);
      SplitFlat(terms[0].digits, terms[1..]);
      SplitTwo(first, op, rest, FlatText(first, terms));
    }
  }

  lemma WalkOne(tokens: seq<string>, i: nat, acc: int, read: string -> Option<int>, v: int)
    requires i + 2 <= |tokens| && IsOperator(tokens[i]) && !IsOperator(tokens[i + 1]) && read(tokens[i + 1]) == Some(v)
    ensures Exact(tokens, i, acc, read) == Exact(tokens, i + 2, Combine(tokens[i], acc, v), read)
  {
  }

  lemma DropTwo<T>(x: T, y: T, s: seq<T>)
    ensures ([x, y] + s)[2..] == s && ([x, y] + s)[1] == y
  {
  }

  lemma {:induction false} WalkFlat(tokens: seq<string>, i: nat, first: string, terms: seq<Term>, acc: int,
                                    read: string -> Option<int>)
    requires AllNumbers(terms) && 0 < i <= |tokens| && [first] + tokens[i..] == FlatTokens(first, terms)
    requires forall t | IsDigits(t) :: read(t) == Some(DecimalValue(t))
    ensures Exact(tokens, i, acc, read) == Some(FlatValue(acc, terms))
    ensures "/" !in tokens[i..]
    decreases |terms|
  {
    var rest := tokens[i..];
    assert rest == ([first] + rest)[1..];
    if terms == [] {
      assert rest == [];
    } else {
      var digits, tail := terms[0].digits, tokens[i + 2..];
      var later := FlatTokens(digits, terms[1..]);
      DropTwo(first, OperatorText(terms[0].op), later);
      assert rest[1..] == ([first] + rest)[2..] == later && later[0] == digits;
      assert rest[0] == tokens[i] && rest[1] == tokens[i + 1] && [digits] + tail == later;
      var v := DecimalValue(digits);
      WalkOne(tokens, i, acc, read, v);
      WalkFlat(tokens, i + 2, digits, terms[1..], Combine(tokens[i], acc, v), read);
    }
  }

  /** A flat text of sums, differences and products is walked without a failure to its value from left to right. */
  lemma FlatTextExact(first: string, terms: seq<Term>, read: string -> Option<int>)
    requires IsDigits(first) && AllNumbers(terms)
    requires forall t | IsDigits(t) :: read(t) == Some(DecimalValue(t))
    ensures var tokens := Split(FlatText(first, terms));
      && tokens[0] == first && "/" !in tokens[1..]
      && Exact(tokens, 1, DecimalValue(first), read) == Some(FlatValue(DecimalValue(first), terms))
  {
    var tokens := FlatTokens(first, terms);
    SplitFlat(first, terms);
    assert tokens[0] == first;
    assert tokens == [tokens[0]] + tokens[1..];
    WalkFlat(tokens, 1, first, terms, DecimalValue(first), read);
  }

  /** What `str_to_int` makes of such a text. */
  method FlatToInt(first: string, terms: seq<Term>, read: string -> Option<int>, w: int) returns (r: Outcome)
    requires IsDigits(first) && AllNumbers(terms) && w != 0
    requires forall t | IsDigits(t) :: read(t) == Some(DecimalValue(t))
    ensures r == Whole(PyMod(FlatValue(DecimalValue(first), terms), w))
  {
    FlatTextExact(first, terms, read);
    r := StrToInt(FlatText(first, terms), read, w);
  }
}
