/**
  The prefix expressions of `helpers/rvalue_parser.py`: printing, splitting into tokens by textual
  replacement, and parsing with an iterator that nested calls share.
 */
module SExpression {
  import opened Numerals
  import opened WordText
  import opened Wrappers

  /**
    Texts that are taken over from the source may begin with blanks of their own: operator tokens,
    literals, and operands in parentheses, which may also have blanks before the closing one.
    `Missing` is the None of a nested call that ran out of tokens.
   */
  datatype Tree =
    | Atom(gap: nat, text: string)
    | Num(n: nat)
    | Tuple(gap: nat, items: seq<Tree>, tail: nat)
    | Missing

  /** A tuple without blanks of its own. */
  function Items(items: seq<Tree>): Tree {
    Tuple(0, items, 0)
  }

  // ---------- printing ----------

  predicate IsWord(s: string) {
    s != "" && forall i | 0 <= i < |s| :: s[i] != ' ' && s[i] != '(' && s[i] != ')'
  }

  /** Trees as the printer makes them: words, and parentheses around at least one item. */
  predicate Printable(t: Tree) {
    match t
    case Atom(_, text) => IsWord(text)
    case Tuple(_, items, _) => items != [] && forall i | 0 <= i < |items| :: Printable(items[i])
    case _ => false
  }

  function Print(t: Tree): string
    requires Printable(t)
    decreases t, 0
  {
    match t
    case Atom(gap, text) => Repeat(' ', gap) + text
    case Tuple(gap, items, tail) => Repeat(' ', gap) + ("(" + (PrintAll(items) + Repeat(' ', tail)) + ")")
  }

  function PrintAll(items: seq<Tree>): string
    requires items != [] && forall i | 0 <= i < |items| :: Printable(items[i])
    decreases items, 0
  {
    if |items| == 1 then Print(items[0]) else Print(items[0]) + " " + PrintAll(items[1..])
  }

  // ---------- tokenizing ----------

  /** `s.replace("(", "( ")` and `s.replace(")", " )")`, one character at a time. */
  function Spread(s: string): string {
    if s == "" then ""
    else SpreadChar(s[0]) + Spread(s[1..])
  }

  function SpreadChar(c: char): string {
    if c == '(' then "( " else if c == ')' then " )" else [c]
  }

  /** `s.replace("  ", " ")`: scan from the left, two blanks become one. */
  function Squeeze(s: string): string
    decreases |s|
  {
    if |s| >= 2 && s[0] == ' ' && s[1] == ' ' then " " + Squeeze(s[2..])
    else if s == "" then ""
    else [s[0]] + Squeeze(s[1..])
  }

  /** `s.split(" ")`. */
  function Split(s: string): (parts: seq<string>)
    ensures parts != []
  {
    if s == "" then [""]
    else if s[0] == ' ' then [""] + Split(s[1..])
    else
      var parts := Split(s[1..]);
      [[s[0]] + parts[0]] + parts[1..]
  }

  /** The two steps behind the spreading of parentheses. */
  function Parts(s: string): (parts: seq<string>)
    ensures parts != []
  {
    Split(Squeeze(s))
  }

  function Tokenize(s: string): seq<string> {
    Parts(Spread(s))
  }

  /** Tokens without a character, which surplus blanks leave. */
  function Empties(n: nat): (parts: seq<string>)
    ensures |parts| == n && forall i | 0 <= i < n :: parts[i] == ""
  {
    if n == 0 then [] else [""] + Empties(n - 1)
  }

  /** The tokens of a tree inside a tuple: every second blank of its own leaves one empty token. */
  function Tokens(t: Tree): seq<string>
    requires Printable(t)
    decreases t, 0
  {
    match t
    case Atom(gap, text) => Empties(gap / 2) + [text]
    case Tuple(gap, items, tail) => Empties(gap / 2) + ["("] + Inside(items, tail)
  }

  /** What stands between an opening parenthesis and the end of the closing one. */
  function Inside(items: seq<Tree>, tail: nat): seq<string>
    requires forall i | 0 <= i < |items| :: Printable(items[i])
    decreases items, 1
  {
    TokensAll(items) + (Empties(tail / 2) + [")"])
  }

  function TokensAll(items: seq<Tree>): seq<string>
    requires forall i | 0 <= i < |items| :: Printable(items[i])
    decreases items, 0
  {
    if items == [] then [] else Tokens(items[0]) + TokensAll(items[1..])
  }

  lemma {:induction false} SpreadConcat(s: string, t: string)
    ensures Spread(s + t) == Spread(s) + Spread(t)
  {
    if s == "" {
      assert s + t == t;
    } else {
      assert (s + t)[1..] == s[1..] + t && (s + t)[0] == s[0];
      SpreadConcat(s[1..], t);
      Associative(SpreadChar(s[0]), Spread(s[1..]), Spread(t));
    }
  }

  lemma {:induction false} SpreadPlain(s: string)
    requires forall i | 0 <= i < |s| :: s[i] != '(' && s[i] != ')'
    ensures Spread(s) == s
  {
    if s != "" {
      SpreadPlain(s[1..]);
    }
  }

  lemma SpreadParens(s: string)
    ensures Spread("(" + s + ")") == "( " + Spread(s) + " )"
  {
    SpreadConcat("(" + s, ")");
    SpreadConcat("(", s);
    assert "("[1..] == "" && ")"[1..] == "";
  }

  /** A text that may follow a token: nothing, or a blank. */
  predicate Follows(rest: string) {
    rest == "" || rest[0] == ' '
  }

  lemma {:induction false} SqueezeWord(w: string, rest: string)
    requires forall i | 0 <= i < |w| :: w[i] != ' '
    ensures Squeeze(w + rest) == w + Squeeze(rest)
  {
    if w == "" {
      assert w + rest == rest;
    } else {
      var t := w + rest;
      assert t[1..] == w[1..] + rest && t[0] == w[0];
      SqueezeWord(w[1..], rest);
      assert Squeeze(t) == [t[0]] + Squeeze(t[1..]);
      Associative([w[0]], w[1..], Squeeze(rest));
      assert w == [w[0]] + w[1..];
    }
  }

  /** A run of n blanks becomes half as long, rounded up. */
  lemma {:induction false} SqueezeBlanks(n: nat, rest: string)
    requires rest != "" && rest[0] != ' '
    ensures Squeeze(Repeat(' ', n) + rest) == Repeat(' ', (n + 1) / 2) + Squeeze(rest)
    decreases n
  {
    var t := Repeat(' ', n) + rest;
    if n == 0 {
      assert t == rest && Repeat(' ', 0) + Squeeze(rest) == Squeeze(rest);
    } else if n == 1 {
      assert t == " " + rest && t[1..] == rest;
      assert Repeat(' ', 1) == " ";
    } else {
      assert t[2..] == Repeat(' ', n - 2) + rest;
      SqueezeBlanks(n - 2, rest);
      assert Repeat(' ', (n + 1) / 2) == " " + Repeat(' ', (n - 1) / 2);
      Associative(" ", Repeat(' ', (n - 1) / 2), Squeeze(rest));
    }
  }

  lemma {:induction false} SplitWord(w: string, rest: string)
    requires forall i | 0 <= i < |w| :: w[i] != ' '
    ensures Split(w + rest)[0] == w + Split(rest)[0] && Split(w + rest)[1..] == Split(rest)[1..]
  {
    if w == "" {
      assert w + rest == rest;
    } else {
      assert (w + rest)[1..] == w[1..] + rest && (w + rest)[0] == w[0];
      SplitWord(w[1..], rest);
    }
  }

  lemma {:induction false} SplitBlanks(n: nat, rest: string)
    ensures Split(Repeat(' ', n) + rest) == Empties(n) + Split(rest)
  {
    var t := Repeat(' ', n) + rest;
    if n == 0 {
      assert t == rest && Empties(0) + Split(rest) == Split(rest);
    } else {
      assert t[1..] == Repeat(' ', n - 1) + rest && t[0] == ' ';
      SplitBlanks(n - 1, rest);
      Associative([""], Empties(n - 1), Split(rest));
    }
  }

  lemma FollowsParts(rest: string)
    requires Follows(rest)
    ensures Parts(rest)[0] == ""
  {
  }

  lemma FirstAndRest<T>(a: seq<T>, x: T)
    requires a != [] && a[0] == x
    ensures a == [x] + a[1..]
  {
  }

  /** Blanks, a word, and what follows: surplus blanks, the word, and the parts of the rest. */
  lemma BlanksAndWord(n: nat, w: string, rest: string)
    requires w != "" && (forall i | 0 <= i < |w| :: w[i] != ' ') && Follows(rest)
    ensures Parts(Repeat(' ', n) + (w + rest)) == Empties((n + 1) / 2) + ([w] + Parts(rest)[1..])
  {
    assert (w + rest)[0] == w[0];
    SqueezeBlanks(n, w + rest);
    SqueezeWord(w, rest);
    SplitBlanks((n + 1) / 2, w + Squeeze(rest));
    SplitWord(w, Squeeze(rest));
    FollowsParts(rest);
    assert w + "" == w;
    FirstAndRest(Split(w + Squeeze(rest)), w);
  }

  /** Inside a tuple one blank is the separator, and the parts begin with the empty text before it. */
  lemma ItemParts(gap: nat, w: string, rest: string)
    requires w != "" && (forall i | 0 <= i < |w| :: w[i] != ' ') && Follows(rest)
    ensures Parts(" " + (Repeat(' ', gap) + w) + rest)[1..] == Empties(gap / 2) + [w] + Parts(rest)[1..]
  {
    assert " " + (Repeat(' ', gap) + w) + rest == Repeat(' ', gap + 1) + (w + rest);
    BlanksAndWord(gap + 1, w, rest);
    assert (gap + 1 + 1) / 2 == 1 + gap / 2;
    assert Empties(1 + gap / 2) == [""] + Empties(gap / 2);
    DropOne("", Empties(gap / 2), [w] + Parts(rest)[1..]);
    Associative(Empties(gap / 2), [w], Parts(rest)[1..]);
  }

  lemma DropOne<T>(x: T, a: seq<T>, b: seq<T>)
    ensures ([x] + a + b)[1..] == a + b
  {
  }

  /** The text of a tuple when it follows a token. */
  lemma OpenItem(gap: nat, inner: string, rest: string)
    requires Follows(rest)
    ensures Parts(" " + (Repeat(' ', gap) + ("( " + inner + " )")) + rest)[1..]
         == Empties(gap / 2) + ["("] + Parts(" " + inner + (" )" + rest))[1..]
  {
    var more := " " + inner + (" )" + rest);
    assert " " + (Repeat(' ', gap) + ("( " + inner + " )")) + rest == " " + (Repeat(' ', gap) + "(") + more;
    ItemParts(gap, "(", more);
  }

  lemma OpenFirst(gap: nat, inner: string)
    ensures Parts(Repeat(' ', gap) + ("( " + inner + " )"))
         == Empties((gap + 1) / 2) + (["("] + Parts(" " + inner + (" )" + ""))[1..])
  {
    var more := " " + inner + (" )" + "");
    assert "( " + inner + " )" == "(" + more;
    BlanksAndWord(gap, "(", more);
  }

  /** A tuple's text after its parentheses are spread. */
  lemma SpreadTuple(gap: nat, inner: string, tail: nat)
    ensures Spread(Repeat(' ', gap) + ("(" + (inner + Repeat(' ', tail)) + ")"))
         == Repeat(' ', gap) + ("( " + (Spread(inner) + Repeat(' ', tail)) + " )")
  {
    SpreadConcat(Repeat(' ', gap), "(" + (inner + Repeat(' ', tail)) + ")");
    SpreadPlain(Repeat(' ', gap));
    SpreadParens(inner + Repeat(' ', tail));
    SpreadConcat(inner, Repeat(' ', tail));
    SpreadPlain(Repeat(' ', tail));
  }

  lemma {:induction false} TokenizeItem(t: Tree, rest: string)
    requires Printable(t) && Follows(rest)
    ensures Parts(" " + Spread(Print(t)) + rest)[1..] == Tokens(t) + Parts(rest)[1..]
    decreases t, 1
  {
    match t
    case Atom(gap, text) =>
      SpreadPlain(Print(t));
      ItemParts(gap, text, rest);
    case Tuple(gap, items, tail) =>
      var inner := Spread(PrintAll(items)) + Repeat(' ', tail);
      SpreadTuple(gap, PrintAll(items), tail);
      OpenItem(gap, inner, rest);
      TokenizeTuple(items, tail, rest);
      Associative(Empties(gap / 2) + ["("], Inside(items, tail), Parts(rest)[1..]);
  }

  /** Everything behind the opening parenthesis. */
  lemma {:induction false} TokenizeTuple(items: seq<Tree>, tail: nat, rest: string)
    requires items != [] && (forall i | 0 <= i < |items| :: Printable(items[i])) && Follows(rest)
    ensures Parts(" " + (Spread(PrintAll(items)) + Repeat(' ', tail)) + (" )" + rest))[1..]
         == Inside(items, tail) + Parts(rest)[1..]
    decreases items, 1
  {
    var close := " " + (Repeat(' ', tail) + ")") + rest;
    CloseText(Spread(PrintAll(items)), tail, rest);
    TokenizeItems(items, close);
    ItemParts(tail, ")", rest);
    Associative(TokensAll(items), Empties(tail / 2) + [")"], Parts(rest)[1..]);
  }

  /** The blank that spreading puts before a closing parenthesis joins the blanks already there. */
  lemma CloseText(inner: string, tail: nat, rest: string)
    ensures " " + (inner + Repeat(' ', tail)) + (" )" + rest) == " " + inner + (" " + (Repeat(' ', tail) + ")") + rest)
  {
    var blanks := Repeat(' ', tail);
    assert blanks + " " == " " + blanks;
    assert blanks + (" )" + rest) == blanks + " " + (")" + rest);
  }

  lemma Regroup(head: string, more: string, rest: string)
    ensures " " + (head + (" " + more)) + rest == " " + head + (" " + more + rest)
  {
  }

  lemma {:induction false} TokenizeItems(items: seq<Tree>, rest: string)
    requires items != [] && (forall i | 0 <= i < |items| :: Printable(items[i])) && Follows(rest)
    ensures Parts(" " + Spread(PrintAll(items)) + rest)[1..] == TokensAll(items) + Parts(rest)[1..]
    decreases items, 0
  {
    if |items| == 1 {
      TokenizeItem(items[0], rest);
      assert items[1..] == [] && Tokens(items[0]) + [] == Tokens(items[0]);
    } else {
      var head, more := Print(items[0]), PrintAll(items[1..]);
      SpreadItems(head, more);
      TokenizeItems(items[1..], rest);
      TokenizeItem(items[0], " " + Spread(more) + rest);
      Regroup(Spread(head), Spread(more), rest);
      Associative(Tokens(items[0]), TokensAll(items[1..]), Parts(rest)[1..]);
    }
  }

  lemma SpreadItems(head: string, more: string)
    ensures Spread(head + " " + more) == Spread(head) + (" " + Spread(more))
  {
    SpreadConcat(head + " ", more);
    SpreadConcat(head, " ");
    SpreadPlain(" ");
  }

  lemma NoParts()
    ensures Parts("")[1..] == []
  {
  }

  /** Tokenizing a printed tree gives its tokens; outside a tuple it has all its blanks in front of it. */
  lemma TokenizePrint(t: Tree)
    requires Printable(t)
    ensures Tokenize(Print(t)) ==
              Empties((t.gap + 1) / 2) + (if t.Tuple? then ["("] + Inside(t.items, t.tail) else [t.text])
  {
    NoParts();
    if t.Tuple? {
      SpreadTuple(t.gap, PrintAll(t.items), t.tail);
      OpenFirst(t.gap, Spread(PrintAll(t.items)) + Repeat(' ', t.tail));
      TokenizeTuple(t.items, t.tail, "");
      assert Inside(t.items, t.tail) + [] == Inside(t.items, t.tail);
    } else {
      SpreadPlain(Print(t));
      BlanksAndWord(t.gap, t.text, "");
      assert t.text + "" == t.text && [t.text] + [] == [t.text];
    }
  }

  // ---------- parsing ----------

  predicate IsDigits(s: string) {
    s != "" && AllDigits(s)
  }

  function Leaf(token: string): Tree {
    if IsDigits(token) then Num(DecimalValue(token)) else Atom(0, token)
  }

  /** What parsing is meant to give back: blanks gone, and all-digit atoms integers. */
  function Decode(t: Tree): Tree
    decreases t, 0
  {
    match t
    case Atom(_, text) => Leaf(text)
    case Tuple(_, items, _) => Items(DecodeAll(items))
    case _ => t
  }

  function DecodeAll(items: seq<Tree>): seq<Tree>
    decreases items, 0
  {
    if items == [] then [] else [Decode(items[0])] + DecodeAll(items[1..])
  }

  /** Atoms without a character. */
  function Nothings(n: nat): seq<Tree> {
    if n == 0 then [] else [Atom(0, "")] + Nothings(n - 1)
  }

  /** What the parser makes of an item: a bare `<` is dropped, and empty tokens are kept as atoms. */
  function Seen(t: Tree): seq<Tree>
    decreases t, 0
  {
    match t
    case Atom(gap, text) => Nothings(gap / 2) + (if text == "<" then [] else [Leaf(text)])
    case Tuple(gap, items, tail) => Nothings(gap / 2) + [SeenTuple(items, tail)]
    case _ => []
  }

  /** The tuple that a nested call returns. */
  function SeenTuple(items: seq<Tree>, tail: nat): Tree
    decreases items, 1
  {
    Items(SeenAll(items) + Nothings(tail / 2))
  }

  function SeenAll(items: seq<Tree>): seq<Tree>
    decreases items, 0
  {
    if items == [] then [] else Seen(items[0]) + SeenAll(items[1..])
  }

  /** The result of `parser_helper` from a position: the tuple, or None if the tokens run out; and where it stops. */
  datatype Parsed = Parsed(tuple: Option<seq<Tree>>, next: nat)

  function Helper(tokens: seq<string>, i: nat, tup: seq<Tree>): (r: Parsed)
    requires i <= |tokens|
    ensures i <= r.next <= |tokens|
    ensures r.tuple.Some? ==> i < r.next
    decreases |tokens| - i
  {
    if i == |tokens| then Parsed(None, i)
    else if tokens[i] == "(" then
      var inner := Helper(tokens, i + 1, []);
      Helper(tokens, inner.next, tup + [NestedItem(inner.tuple)])
    else if IsDigits(tokens[i]) then Helper(tokens, i + 1, tup + [Num(DecimalValue(tokens[i]))])
    else if tokens[i] == ")" then Parsed(Some(tup), i + 1)
    else if tokens[i] == "<" then Helper(tokens, i + 1, tup)
    else Helper(tokens, i + 1, tup + [Atom(0, tokens[i])])
  }

  function NestedItem(o: Option<seq<Tree>>): Tree {
    if o.Some? then Items(o.value) else Missing
  }

  lemma DropPrefix<T>(s: seq<T>, i: nat, a: seq<T>, b: seq<T>)
    requires i <= |s| && s[i..] == a + b
    ensures i + |a| <= |s| && s[i + |a|..] == b
    ensures a != [] ==> s[i] == a[0]
  {
    assert s[i..][|a|..] == b;
    assert a != [] ==> s[i..][0] == s[i];
  }

  lemma SplitTokens(tokens: seq<string>, i: nat, items: seq<Tree>, post: seq<string>)
    requires items != [] && forall k | 0 <= k < |items| :: Printable(items[k])
    requires i <= |tokens| && tokens[i..] == TokensAll(items) + post
    ensures |TokensAll(items)| == |Tokens(items[0])| + |TokensAll(items[1..])|
    ensures tokens[i..] == Tokens(items[0]) + (TokensAll(items[1..]) + post)
    ensures i + |Tokens(items[0])| <= |tokens|
    ensures tokens[i + |Tokens(items[0])|..] == TokensAll(items[1..]) + post
  {
    var first, rest := Tokens(items[0]), TokensAll(items[1..]);
    Associative(first, rest, post);
    DropPrefix(tokens, i, first, rest + post);
  }

  /** From the tokens of some items, the helper appends what it sees and goes on behind them. */
  lemma {:induction false} HelperReadsItems(
      tokens: seq<string>, i: nat, items: seq<Tree>, post: seq<string>, tup: seq<Tree>, k: nat, out: seq<Tree>)
    requires forall n | 0 <= n < |items| :: Printable(items[n])
    requires i <= |tokens| && tokens[i..] == TokensAll(items) + post
    requires k == i + |TokensAll(items)| && out == tup + SeenAll(items)
    ensures k <= |tokens| && Helper(tokens, i, tup) == Helper(tokens, k, out)
    decreases items, 0
  {
    if items == [] {
      assert out == tup;
    } else {
      var j, tup' := i + |Tokens(items[0])|, tup + Seen(items[0]);
      SplitTokens(tokens, i, items, post);
      Associative(tup, Seen(items[0]), SeenAll(items[1..]));
      HelperReadsItem(tokens, i, items[0], TokensAll(items[1..]) + post, tup, j, tup');
      HelperReadsItems(tokens, j, items[1..], post, tup', k, out);
    }
  }

  lemma {:induction false} HelperReadsEmpties(
      tokens: seq<string>, i: nat, n: nat, post: seq<string>, tup: seq<Tree>, out: seq<Tree>)
    requires i <= |tokens| && tokens[i..] == Empties(n) + post && out == tup + Nothings(n)
    ensures i + n <= |tokens| && tokens[i + n..] == post
    ensures Helper(tokens, i, tup) == Helper(tokens, i + n, out)
    decreases n
  {
    DropPrefix(tokens, i, Empties(n), post);
    if n == 0 {
      assert out == tup;
    } else {
      assert tokens[i + 1..] == tokens[i..][1..] == Empties(n - 1) + post;
      Associative(tup, [Atom(0, "")], Nothings(n - 1));
      HelperReadsEmpties(tokens, i + 1, n - 1, post, tup + [Atom(0, "")], out);
    }
  }

  lemma {:induction false} HelperReadsItem(
      tokens: seq<string>, i: nat, t: Tree, post: seq<string>, tup: seq<Tree>, k: nat, out: seq<Tree>)
    requires Printable(t) && i <= |tokens| && tokens[i..] == Tokens(t) + post
    requires k == i + |Tokens(t)| && out == tup + Seen(t)
    ensures k <= |tokens| && Helper(tokens, i, tup) == Helper(tokens, k, out)
    decreases t, 1
  {
    match t
    case Atom(gap, text) =>
      HelperReadsAtom(tokens, i, gap, text, post, tup, out);
    case Tuple(gap, items, tail) =>
      NestedTokens(Empties(gap / 2), Inside(items, tail), post);
      Associative(tup, Nothings(gap / 2), [SeenTuple(items, tail)]);
      HelperReadsNested(tokens, i, gap / 2, items, tail, post, tup, i + gap / 2, tup + Nothings(gap / 2), k, out);
  }

  /** Blanks of its own, and a tuple. */
  lemma {:induction false} HelperReadsNested(
      tokens: seq<string>, i: nat, n: nat, items: seq<Tree>, tail: nat, post: seq<string>, tup: seq<Tree>,
      j: nat, mid: seq<Tree>, k: nat, out: seq<Tree>)
    requires forall m | 0 <= m < |items| :: Printable(items[m])
    requires i <= |tokens| && tokens[i..] == Empties(n) + (["("] + (Inside(items, tail) + post))
    requires j == i + n && mid == tup + Nothings(n)
    requires k == j + 1 + |Inside(items, tail)| && out == mid + [SeenTuple(items, tail)]
    ensures k <= |tokens| && Helper(tokens, i, tup) == Helper(tokens, k, out)
    decreases items, 2
  {
    HelperReadsEmpties(tokens, i, n, ["("] + (Inside(items, tail) + post), tup, mid);
    HelperReadsTuple(tokens, j, items, tail, post);
    HelperNests(tokens, j, mid, SeenTuple(items, tail).items, k, Inside(items, tail) + post);
  }

  /** An opening parenthesis starts a nested call, whose tuple is appended. */
  lemma HelperNests(tokens: seq<string>, j: nat, tup: seq<Tree>, nested: seq<Tree>, k: nat, rest: seq<string>)
    requires j < |tokens| && tokens[j..] == ["("] + rest
    requires k <= |tokens| && Helper(tokens, j + 1, []) == Parsed(Some(nested), k)
    ensures Helper(tokens, j, tup) == Helper(tokens, k, tup + [Items(nested)])
  {
    assert tokens[j..][0] == tokens[j] == "(";
  }

  lemma NestedTokens(blanks: seq<string>, inside: seq<string>, post: seq<string>)
    ensures blanks + ["("] + inside + post == blanks + (["("] + (inside + post))
  {
  }

  lemma HelperReadsAtom(
      tokens: seq<string>, i: nat, gap: nat, text: string, post: seq<string>, tup: seq<Tree>, out: seq<Tree>)
    requires IsWord(text) && i <= |tokens| && tokens[i..] == Empties(gap / 2) + [text] + post
    requires out == tup + Seen(Atom(gap, text))
    ensures i + gap / 2 + 1 <= |tokens|
    ensures Helper(tokens, i, tup) == Helper(tokens, i + gap / 2 + 1, out)
  {
    var n, last := gap / 2, if text == "<" then [] else [Leaf(text)];
    Associative(Empties(n), [text], post);
    Associative(tup, Nothings(n), last);
    HelperReadsEmpties(tokens, i, n, [text] + post, tup, tup + Nothings(n));
    DropPrefix(tokens, i + n, [text], post);
    assert tokens[i + n] == text && text[0] != '(' && text[0] != ')';
    assert tup + Nothings(n) + [] == tup + Nothings(n);
  }

  /**
    Behind an opening parenthesis the helper returns the items, and what blanks before the closing one
    leave, and stops exactly behind the matching one.
   */
  lemma {:induction false} HelperReadsTuple(tokens: seq<string>, i: nat, items: seq<Tree>, tail: nat, post: seq<string>)
    requires forall k | 0 <= k < |items| :: Printable(items[k])
    requires i <= |tokens| && tokens[i..] == ["("] + (Inside(items, tail) + post)
    ensures i + 1 + |Inside(items, tail)| <= |tokens|
    ensures Helper(tokens, i + 1, []) == Parsed(Some(SeenTuple(items, tail).items), i + 1 + |Inside(items, tail)|)
    decreases items, 1
  {
    var n, close := tail / 2, Empties(tail / 2) + [")"] + post;
    InsideTokens(tokens, i, items, tail, post);
    var k, out := i + 1 + |TokensAll(items)|, SeenAll(items);
    assert [] + out == out;
    HelperReadsItems(tokens, i + 1, items, close, [], k, out);
    DropPrefix(tokens, i + 1, TokensAll(items), close);
    Associative(Empties(n), [")"], post);
    HelperReadsEmpties(tokens, k, n, [")"] + post, out, out + Nothings(n));
    assert tokens[k + n] == ([")"] + post)[0] == ")";
  }

  lemma InsideTokens(tokens: seq<string>, i: nat, items: seq<Tree>, tail: nat, post: seq<string>)
    requires forall k | 0 <= k < |items| :: Printable(items[k])
    requires i <= |tokens| && tokens[i..] == ["("] + (Inside(items, tail) + post)
    ensures i < |tokens| && tokens[i + 1..] == TokensAll(items) + (Empties(tail / 2) + [")"] + post)
  {
    Associative(TokensAll(items), Empties(tail / 2) + [")"], post);
    DropPrefix(tokens, i, ["("], Inside(items, tail) + post);
  }

  /** The result of `parse_tokens`: a list, in which None stands for tokens that ran out. */
  function ParseFrom(tokens: seq<string>, i: nat, l: seq<Tree>): seq<Tree>
    requires i <= |tokens|
    decreases |tokens| - i
  {
    var r := Helper(tokens, i, []);
    var l' := l + [NestedItem(r.tuple)];
    if r.next >= |tokens| then l' else ParseFrom(tokens, r.next + 1, l')
  }

  predicate IsAlpha(s: string) {
    s != "" && forall i | 0 <= i < |s| :: 'a' <= s[i] <= 'z' || 'A' <= s[i] <= 'Z'
  }

  function Parse(tokens: seq<string>): seq<Tree>
    requires tokens != []
  {
    if |tokens| == 1 && IsAlpha(tokens[0]) then [Atom(0, tokens[0])] else ParseFrom(tokens, 1, [])
  }

  /** Behind the first of some tokens that are no parentheses the helper runs out of tokens. */
  lemma {:induction false} HelperRunsOut(tokens: seq<string>, i: nat, tup: seq<Tree>)
    requires i <= |tokens| && forall k | i <= k < |tokens| :: tokens[k] != "(" && tokens[k] != ")"
    ensures Helper(tokens, i, tup) == Parsed(None, |tokens|)
    decreases |tokens| - i
  {
    if i < |tokens| {
      HelperRunsOut(tokens, i + 1, tup);
      HelperRunsOut(tokens, i + 1, tup + [Leaf(tokens[i])]);
    }
  }

  lemma ParseTuple(items: seq<Tree>, tail: nat, tokens: seq<string>)
    requires forall i | 0 <= i < |items| :: Printable(items[i])
    requires tokens == ["("] + Inside(items, tail)
    ensures Parse(tokens) == [SeenTuple(items, tail)]
  {
    assert Inside(items, tail) + [] == Inside(items, tail) && tokens[0..] == tokens;
    HelperReadsTuple(tokens, 0, items, tail, []);
    ParseLast(tokens, 1, Some(SeenTuple(items, tail).items));
    ParseMany(tokens);
  }

  /** The first token is taken for the opening parenthesis, even if it is an empty one in front of it. */
  lemma ParseLateTuple(n: nat, items: seq<Tree>, tail: nat, tokens: seq<string>)
    requires n > 0 && forall i | 0 <= i < |items| :: Printable(items[i])
    requires tokens == Empties(n) + (["("] + Inside(items, tail))
    ensures Parse(tokens) == [Missing]
  {
    var rest := ["("] + Inside(items, tail);
    assert tokens[1..] == Empties(n - 1) + rest && [] + Nothings(n - 1) == Nothings(n - 1);
    HelperReadsEmpties(tokens, 1, n - 1, rest, [], Nothings(n - 1));
    LateTuple(n, items, tail, tokens, rest, Nothings(n - 1));
    ParseLast(tokens, 1, None);
    ParseMany(tokens);
  }

  /** A tuple behind empty tokens is read, and then the tokens run out. */
  lemma LateTuple(n: nat, items: seq<Tree>, tail: nat, tokens: seq<string>, rest: seq<string>, tup: seq<Tree>)
    requires n > 0 && forall i | 0 <= i < |items| :: Printable(items[i])
    requires rest == ["("] + Inside(items, tail) && n <= |tokens| && tokens[n..] == rest
    ensures Helper(tokens, n, tup) == Parsed(None, |tokens|)
  {
    assert Inside(items, tail) + [] == Inside(items, tail);
    HelperReadsTuple(tokens, n, items, tail, []);
    HelperNests(tokens, n, tup, SeenTuple(items, tail).items, |tokens|, Inside(items, tail));
  }

  lemma ParseMany(tokens: seq<string>)
    requires |tokens| > 1
    ensures Parse(tokens) == ParseFrom(tokens, 1, [])
  {
  }

  lemma ParseLast(tokens: seq<string>, i: nat, tuple: Option<seq<Tree>>)
    requires i <= |tokens| && Helper(tokens, i, []) == Parsed(tuple, |tokens|)
    ensures ParseFrom(tokens, i, []) == [NestedItem(tuple)]
  {
    assert [] + [NestedItem(tuple)] == [NestedItem(tuple)];
  }

  lemma ParseAtom(n: nat, text: string)
    requires IsWord(text)
    ensures Parse(Empties(n) + [text]) == if n == 0 && IsAlpha(text) then [Atom(0, text)] else [Missing]
  {
    var tokens := Empties(n) + [text];
    assert text[0] != '(' && text[0] != ')';
    HelperRunsOut(tokens, 1, []);
    ParseLast(tokens, 1, None);
  }

  /**
    Printing, tokenizing and parsing: a tuple without a blank in front gives a one-element list with what
    the parser sees of it, a lone atom itself if it is letters only, and everything else a None.
   */
  lemma ParsePrint(t: Tree)
    requires Printable(t)
    ensures Parse(Tokenize(Print(t))) ==
              if t.Tuple? && t.gap == 0 then [SeenTuple(t.items, t.tail)]
              else if t.Atom? && t.gap == 0 && IsAlpha(t.text) then [Atom(0, t.text)]
              else [Missing]
  {
    TokenizePrint(t);
    if t.Tuple? && t.gap == 0 {
      var tokens := ["("] + Inside(t.items, t.tail);
      assert Empties(0) + tokens == tokens;
      ParseTuple(t.items, t.tail, tokens);
    } else if t.Tuple? {
      ParseLateTuple((t.gap + 1) / 2, t.items, t.tail, Tokenize(Print(t)));
    } else {
      ParseAtom((t.gap + 1) / 2, t.text);
    }
  }

  // ---------- exactly when the round trip holds ----------

  /** No bare `<`, and nowhere two blanks of an item's own, before it or before its closing parenthesis. */
  predicate Clean(t: Tree)
    decreases t, 0
  {
    match t
    case Atom(gap, text) => gap <= 1 && text != "<"
    case Tuple(gap, items, tail) => gap <= 1 && tail <= 1 && CleanAll(items)
    case _ => true
  }

  predicate CleanAll(items: seq<Tree>)
    decreases items, 0
  {
    items != [] ==> Clean(items[0]) && CleanAll(items[1..])
  }

  lemma {:induction false} CleanSeen(t: Tree)
    requires Printable(t) && Clean(t)
    ensures Seen(t) == [Decode(t)]
    decreases t, 0
  {
    if t.Tuple? {
      CleanSeenAll(t.items);
      assert SeenAll(t.items) + [] == SeenAll(t.items);
    }
  }

  lemma {:induction false} CleanSeenAll(items: seq<Tree>)
    requires CleanAll(items) && forall i | 0 <= i < |items| :: Printable(items[i])
    ensures SeenAll(items) == DecodeAll(items)
    decreases items, 0
  {
    if items != [] {
      CleanSeen(items[0]);
      CleanSeenAll(items[1..]);
    }
  }

  /** The number of atoms without a character. */
  function Blank(t: Tree): nat
    decreases t, 0
  {
    match t
    case Atom(_, text) => if text == "" then 1 else 0
    case Tuple(_, items, _) => BlankAll(items)
    case _ => 0
  }

  function BlankAll(items: seq<Tree>): nat
    decreases items, 0
  {
    if items == [] then 0 else Blank(items[0]) + BlankAll(items[1..])
  }

  /** The number of nodes. */
  function Size(t: Tree): nat
    decreases t, 0
  {
    if t.Tuple? then 1 + SizeAll(t.items) else 1
  }

  function SizeAll(items: seq<Tree>): nat
    decreases items, 0
  {
    if items == [] then 0 else Size(items[0]) + SizeAll(items[1..])
  }

  lemma {:induction false} CountsConcat(a: seq<Tree>, b: seq<Tree>)
    ensures BlankAll(a + b) == BlankAll(a) + BlankAll(b) && SizeAll(a + b) == SizeAll(a) + SizeAll(b)
  {
    if a == [] {
      assert a + b == b;
    } else {
      assert (a + b)[1..] == a[1..] + b;
      CountsConcat(a[1..], b);
    }
  }

  lemma CountsOne(t: Tree)
    ensures BlankAll([t]) == Blank(t) && SizeAll([t]) == Size(t)
  {
    assert [t][1..] == [];
  }

  lemma {:induction false} CountsNothings(n: nat)
    ensures BlankAll(Nothings(n)) == n
  {
    if n > 0 {
      assert Nothings(n)[1..] == Nothings(n - 1);
      CountsNothings(n - 1);
    }
  }

  /** Decoding makes no empty atom and keeps the number of nodes. */
  lemma {:induction false} DecodeCounts(t: Tree)
    requires Printable(t)
    ensures Blank(Decode(t)) == 0 && Size(Decode(t)) == Size(t)
    decreases t, 0
  {
    if t.Tuple? {
      DecodeCountsAll(t.items);
    }
  }

  lemma {:induction false} DecodeCountsAll(items: seq<Tree>)
    requires forall i | 0 <= i < |items| :: Printable(items[i])
    ensures BlankAll(DecodeAll(items)) == 0 && SizeAll(DecodeAll(items)) == SizeAll(items)
    decreases items, 0
  {
    if items != [] {
      DecodeCounts(items[0]);
      DecodeCountsAll(items[1..]);
      CountsOne(Decode(items[0]));
      CountsConcat([Decode(items[0])], DecodeAll(items[1..]));
    }
  }

  /** Without empty atoms, what is seen has at most as many nodes, and fewer if it is not clean. */
  lemma {:induction false} SeenCounts(t: Tree)
    requires Printable(t)
    ensures BlankAll(Seen(t)) == 0 ==> SizeAll(Seen(t)) <= Size(t) && (!Clean(t) ==> SizeAll(Seen(t)) < Size(t))
    decreases t, 0
  {
    match t
    case Atom(gap, text) =>
      var last := if text == "<" then [] else [Leaf(text)];
      CountsConcat(Nothings(gap / 2), last);
      CountsNothings(gap / 2);
      CountsOne(Leaf(text));
      assert gap / 2 == 0 ==> Nothings(gap / 2) + last == last;
    case Tuple(gap, items, tail) =>
      SeenCountsAll(items);
      CountsNothings(gap / 2);
      CountsNothings(tail / 2);
      CountsConcat(SeenAll(items), Nothings(tail / 2));
      CountsConcat(Nothings(gap / 2), [SeenTuple(items, tail)]);
      CountsOne(SeenTuple(items, tail));
      assert SeenAll(items) + [] == SeenAll(items) && [] + [SeenTuple(items, tail)] == [SeenTuple(items, tail)];
  }

  lemma {:induction false} SeenCountsAll(items: seq<Tree>)
    requires forall i | 0 <= i < |items| :: Printable(items[i])
    ensures BlankAll(SeenAll(items)) == 0 ==>
              && SizeAll(SeenAll(items)) <= SizeAll(items)
              && (!CleanAll(items) ==> SizeAll(SeenAll(items)) < SizeAll(items))
    decreases items, 0
  {
    if items != [] {
      SeenCounts(items[0]);
      SeenCountsAll(items[1..]);
      CountsConcat(Seen(items[0]), SeenAll(items[1..]));
    }
  }

  lemma TupleComesBack(t: Tree)
    requires Printable(t) && t.Tuple? && t.gap == 0
    ensures SeenTuple(t.items, t.tail) == Decode(t) <==> Clean(t)
  {
    if Clean(t) {
      CleanSeenAll(t.items);
      assert SeenAll(t.items) + [] == SeenAll(t.items);
    } else {
      SeenCountsAll(t.items);
      DecodeCountsAll(t.items);
      CountsNothings(t.tail / 2);
      CountsConcat(SeenAll(t.items), Nothings(t.tail / 2));
      assert SeenAll(t.items) + [] == SeenAll(t.items);
    }
  }

  /**
    The round trip gives the decoded tree itself exactly when a tuple has no blank in front and holds no
    bare `<` and nowhere two blanks of an item's own, and when a lone atom is letters only, with none.
   */
  lemma RoundTripExactly(t: Tree)
    requires Printable(t)
    ensures Parse(Tokenize(Print(t))) == [Decode(t)] <==>
              t.gap == 0 && if t.Tuple? then Clean(t) else IsAlpha(t.text)
  {
    ParsePrint(t);
    if t.Tuple? && t.gap == 0 {
      TupleComesBack(t);
    } else if t.gap == 0 && IsAlpha(t.text) {
      assert !IsDigit(t.text[0]);
    }
  }

  // ---------- the shared iterator ----------

  /** `iter(tokens)`: every nested call advances the same position. */
  class TokenIterator {
    const tokens: seq<string>
    var pos: nat

    constructor (tokens: seq<string>)
      ensures this.tokens == tokens && pos == 0
    {
      this.tokens, pos := tokens, 0;
    }

    method Next() returns (token: Option<string>)
      requires pos <= |tokens|
      modifies this
      ensures old(pos) == |tokens| ==> token == None && pos == old(pos)
      ensures old(pos) < |tokens| ==> token == Some(tokens[old(pos)]) && pos == old(pos) + 1
    {
      if pos == |tokens| {
        return None;
      }
      token := Some(tokens[pos]);
      pos := pos + 1;
    }

    /** `parser_helper`. */
    method ParserHelper() returns (tuple: Option<seq<Tree>>)
      requires pos <= |tokens|
      modifies this
      ensures Parsed(tuple, pos) == Helper(tokens, old(pos), []) && pos <= |tokens|
      decreases |tokens| - pos
    {
      var tup: seq<Tree> := [];
      while true
        invariant old(pos) <= pos <= |tokens|
        invariant Helper(tokens, pos, tup) == Helper(tokens, old(pos), [])
        decreases |tokens| - pos
      {
        var token := Next();
        if token == None {
          return None;
        }
        if token.value == "(" {
          var inner := ParserHelper();
          tup := tup + [NestedItem(inner)];
        } else if IsDigits(token.value) {
          tup := tup + [Num(DecimalValue(token.value))];
        } else if token.value == ")" {
          return Some(tup);
        } else if token.value != "<" {
          tup := tup + [Atom(0, token.value)];
        }
      }
    }
  }

  /** `parse_tokens`. */
  method ParseTokens(tokens: seq<string>) returns (l: seq<Tree>)
    requires tokens != []
    ensures l == Parse(tokens)
  {
    if |tokens| == 1 && IsAlpha(tokens[0]) {
      return [Atom(0, tokens[0])];
    }
    l := [];
    var iterat := new TokenIterator(tokens);
    var token := iterat.Next();
    while true
      invariant iterat.pos <= |tokens| && iterat.tokens == tokens
      invariant ParseFrom(tokens, iterat.pos, l) == ParseFrom(tokens, 1, [])
      decreases |tokens| - iterat.pos
    {
      var tuple := iterat.ParserHelper();
      l := l + [NestedItem(tuple)];
      token := iterat.Next();
      if token == None {
        break;
      }
    }
  }
}
