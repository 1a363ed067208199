/**
  The expressions whose text the symbolic store of `helpers/slang_helpers.py` keeps: how
  `helpers/rvalue_parser.py` prints them, what they mean, and that a text has one reading.
 */
module SymbolicStore {
  import opened WordText

  /**
    Right-hand sides: identifiers, decimal literals, prefix-unary and binary expressions. The text of
    a literal and of a binary operator token begins with the white space in front of it.
   */
  datatype Expr =
    | Name(id: string)
    | Lit(gap: string, digits: string)
    | Unary(op: string, e: Expr)
    | Binary(l: Expr, gap: string, op: string, r: Expr)

  predicate IsName(s: string) {
    s != "" && AllWord(s) && !AllDigits(s)
  }

  predicate IsBlank(c: char) {
    c == ' ' || c == '\t' || c == '\n' || c == '\r'
  }

  predicate IsGap(s: string) {
    forall i | 0 <= i < |s| :: IsBlank(s[i])
  }

  predicate IsOpChar(c: char) {
    !IsWordChar(c) && !IsBlank(c) && c != '(' && c != ')' && c != '\\'
  }

  predicate IsOperator(s: string) {
    s != "" && forall i | 0 <= i < |s| :: IsOpChar(s[i])
  }

  predicate WellFormed(e: Expr) {
    match e
    case Name(id) => IsName(id)
    case Lit(gap, digits) => IsGap(gap) && digits != "" && AllDigits(digits)
    case Unary(op, a) => IsOperator(op) && WellFormed(a)
    case Binary(a, gap, op, b) => IsGap(gap) && IsOperator(op) && WellFormed(a) && WellFormed(b)
  }

  function Names(e: Expr): set<string> {
    match e
    case Name(id) => {id}
    case Lit(_, _) => {}
    case Unary(_, a) => Names(a)
    case Binary(a, _, _, b) => Names(a) + Names(b)
  }

  /** `conjunction_with_pointers` on these forms. */
  function Print(e: Expr): string {
    match e
    case Name(id) => id
    case Lit(gap, digits) => gap + digits
    case Unary(op, a) => "(" + op + Print(a) + ")"
    case Binary(a, gap, op, b) => "(" + Print(a) + " " + (gap + op) + " " + Print(b) + ")"
  }

  // ---------- meaning ----------

  /** Any interpretation of literals and operators. */
  datatype Sem<!V> = Sem(lit: string -> V, unary: (string, V) -> V, binary: (string, V, V) -> V)

  /** The value of an expression; names without an entry in env have the value sigma gives them. */
  function Eval<V>(e: Expr, sem: Sem<V>, env: map<string, V>, sigma: string -> V): V {
    match e
    case Name(id) => if id in env then env[id] else sigma(id)
    case Lit(_, digits) => sem.lit(digits)
    case Unary(op, a) => sem.unary(op, Eval(a, sem, env, sigma))
    case Binary(a, _, op, b) => sem.binary(op, Eval(a, sem, env, sigma), Eval(b, sem, env, sigma))
  }

  /** Simultaneous substitution, the meaning the one-at-a-time replacement is meant to have. */
  function Subst(e: Expr, m: map<string, Expr>): Expr {
    match e
    case Name(id) => if id in m then m[id] else e
    case Lit(_, _) => e
    case Unary(op, a) => Unary(op, Subst(a, m))
    case Binary(a, gap, op, b) => Binary(Subst(a, m), gap, op, Subst(b, m))
  }

  // ---------- reading a text ----------

  predicate StartsWith(s: string, c: char) {
    s != "" && s[0] == c
  }

  /** How many characters of one kind a text begins with. */
  function Span(p: char -> bool, s: string): (n: nat)
    ensures n <= |s|
  {
    if s != "" && p(s[0]) then 1 + Span(p, s[1..]) else 0
  }

  datatype Reading = Read(e: Expr, rest: string) | Unreadable

  /** Reading from the left, one operand: blanks and a word, or an operation in parentheses. */
  function ReadOperand(s: string): (r: Reading)
    ensures r.Read? ==> |r.rest| < |s|
    decreases |s|, 0
  {
    var n := Span(IsBlank, s);
    var t := s[n..];
    if StartsWith(s, '(') then ReadOperation(s[1..])
    else if t != "" && IsWordChar(t[0]) then
      var k := Span(IsWordChar, t);
      ReadWord(s[..n], t[..k], t[k..])
    else Unreadable
  }

  /** A word of digits is a literal, which may have blanks in front; any other word is a name. */
  function ReadWord(gap: string, word: string, rest: string): Reading {
    if AllDigits(word) then Read(Lit(gap, word), rest)
    else if gap == "" then Read(Name(word), rest)
    else Unreadable
  }

  /** Behind the opening parenthesis: an operator and its operand, or an operand and what follows it. */
  function ReadOperation(s: string): (r: Reading)
    ensures r.Read? ==> |r.rest| < |s|
    decreases |s|, 1
  {
    var n := Span(IsOpChar, s);
    match ReadOperand(s[n..])
    case Unreadable => Unreadable
    case Read(a, rest) =>
      if n == 0 then ReadRight(a, rest)
      else if StartsWith(rest, ')') then Read(Unary(s[..n], a), rest[1..])
      else Unreadable
  }

  /** Behind the left operand: a blank, and the operator with blanks of its own. */
  function ReadRight(a: Expr, s: string): (r: Reading)
    ensures r.Read? ==> |r.rest| < |s|
    decreases |s|, 2
  {
    if !StartsWith(s, ' ') then Unreadable
    else
      var n := Span(IsBlank, s[1..]);
      ReadOperator(a, s[1..][..n], s[1..][n..])
  }

  /** The operator, a blank, and the right operand. */
  function ReadOperator(a: Expr, gap: string, s: string): (r: Reading)
    ensures r.Read? ==> |r.rest| < |s|
    decreases |s|, 1
  {
    var n := Span(IsOpChar, s);
    if n == 0 || !StartsWith(s[n..], ' ') then Unreadable
    else
      match ReadOperand(s[n..][1..])
      case Unreadable => Unreadable
      case Read(b, rest) =>
        if StartsWith(rest, ')') then Read(Binary(a, gap, s[..n], b), rest[1..]) else Unreadable
  }

  /** The whole text reads as e. */
  predicate Reads(text: string, e: Expr) {
    ReadOperand(text) == Read(e, "")
  }

  // ---------- what is printed is what is read ----------

  /** A run of one kind of characters ends where the kind ends. */
  lemma {:induction false} SpanOfRun(p: char -> bool, u: string, r: string)
    requires forall i | 0 <= i < |u| :: p(u[i])
    requires r == "" || !p(r[0])
    ensures Span(p, u + r) == |u| && (u + r)[..|u|] == u && (u + r)[|u|..] == r
  {
    if u == "" {
      assert u + r == r;
    } else {
      assert (u + r)[1..] == u[1..] + r && (u + r)[0] == u[0];
      SpanOfRun(p, u[1..], r);
    }
  }

  lemma {:induction false} SpanIsRun(p: char -> bool, s: string)
    ensures forall i | 0 <= i < Span(p, s) :: p(s[i])
    ensures Span(p, s) < |s| ==> !p(s[Span(p, s)])
  {
    if s != "" && p(s[0]) {
      SpanIsRun(p, s[1..]);
    }
  }

  predicate NoWordAhead(r: string) {
    r == "" || !IsWordChar(r[0])
  }

  /** The white space a text begins with, and the rest. */
  function Gap(e: Expr): string {
    if e.Lit? then e.gap else ""
  }

  function Core(e: Expr): string {
    if e.Lit? then e.digits else Print(e)
  }

  lemma GapAndCore(e: Expr, r: string)
    requires WellFormed(e)
    ensures Print(e) + r == Gap(e) + (Core(e) + r) && IsGap(Gap(e))
    ensures Core(e) != "" && Core(e)[0] == (Core(e) + r)[0]
    ensures if e.Name? || e.Lit? then AllWord(Core(e)) && IsWordChar(Core(e)[0]) else Core(e)[0] == '('
  {
  }

  lemma UnaryParts(e: Expr, r: string)
    requires e.Unary?
    ensures Print(e) + r == "(" + (e.op + (Print(e.e) + (")" + r)))
  {
  }

  /** A binary text behind its opening parenthesis and its left operand. */
  function Behind(e: Expr, r: string): string
    requires e.Binary?
  {
    " " + (e.gap + (e.op + (" " + (Print(e.r) + (")" + r)))))
  }

  lemma BinaryParts(e: Expr, r: string)
    requires e.Binary?
    ensures Print(e) + r == "(" + (Print(e.l) + Behind(e, r))
  {
  }

  lemma Seam(u: string, r: string)
    ensures u != "" ==> (u + r)[0] == u[0]
    ensures (u + r)[|u|..] == r
  {
  }

  lemma WordRead(e: Expr, r: string)
    requires WellFormed(e) && (e.Name? || e.Lit?) && NoWordAhead(r)
    ensures ReadOperand(Print(e) + r) == Read(e, r)
  {
    GapAndCore(e, r);
    SpanOfRun(IsBlank, Gap(e), Core(e) + r);
    SpanOfRun(IsWordChar, Core(e), r);
    Seam(Gap(e), Core(e) + r);
  }

  /** No operator begins where an operand begins. */
  lemma NoOperatorAhead(e: Expr, r: string)
    requires WellFormed(e)
    ensures Print(e) + r != "" && !IsOpChar((Print(e) + r)[0])
  {
    GapAndCore(e, r);
    Seam(Gap(e), Core(e) + r);
  }

  /** Reading undoes printing: operators, operands and blanks come back as they are. */
  lemma {:induction false} ReadPrint(e: Expr, r: string)
    requires WellFormed(e) && NoWordAhead(r)
    ensures ReadOperand(Print(e) + r) == Read(e, r)
    decreases e, 3
  {
    match e
    case Unary(_, _) => UnaryRead(e, r);
    case Binary(_, _, _, _) => BinaryRead(e, r);
    case _ => WordRead(e, r);
  }

  lemma {:induction false} UnaryRead(e: Expr, r: string)
    requires WellFormed(e) && e.Unary?
    ensures ReadOperand(Print(e) + r) == Read(e, r)
    decreases e, 0
  {
    var inner := Print(e.e) + (")" + r);
    UnaryParts(e, r);
    Seam("(", e.op + inner);
    NoOperatorAhead(e.e, ")" + r);
    SpanOfRun(IsOpChar, e.op, inner);
    ReadPrint(e.e, ")" + r);
    Seam(")", r);
  }

  lemma {:induction false} BinaryRead(e: Expr, r: string)
    requires WellFormed(e) && e.Binary?
    ensures ReadOperand(Print(e) + r) == Read(e, r)
    decreases e, 2
  {
    var inner := Print(e.l) + Behind(e, r);
    BinaryParts(e, r);
    Seam("(", inner);
    NoOperatorAhead(e.l, Behind(e, r));
    ReadPrint(e.l, Behind(e, r));
    RightRead(e, r);
  }

  lemma {:induction false} RightRead(e: Expr, r: string)
    requires WellFormed(e) && e.Binary?
    ensures ReadRight(e.l, Behind(e, r)) == Read(e, r)
    decreases e, 1
  {
    var behind := e.op + (" " + (Print(e.r) + (")" + r)));
    Seam(" ", e.gap + behind);
    SpanOfRun(IsBlank, e.gap, behind);
    OperatorRead(e, r);
  }

  lemma {:induction false} OperatorRead(e: Expr, r: string)
    requires WellFormed(e) && e.Binary?
    ensures ReadOperator(e.l, e.gap, e.op + (" " + (Print(e.r) + (")" + r)))) == Read(e, r)
    decreases e, 0
  {
    var right := Print(e.r) + (")" + r);
    SpanOfRun(IsOpChar, e.op, " " + right);
    Seam(" ", right);
    ReadPrint(e.r, ")" + r);
    Seam(")", r);
  }

  // ---------- what is read is what was printed ----------

  lemma Cut(s: string, n: nat)
    requires n <= |s|
    ensures s == s[..n] + s[n..]
  {
  }

  lemma WordOfRead(gap: string, word: string, rest: string)
    requires ReadWord(gap, word, rest).Read? && IsGap(gap) && word != "" && AllWord(word)
    ensures var r := ReadWord(gap, word, rest);
      WellFormed(r.e) && Print(r.e) == gap + word && r.rest == rest
  {
    assert "" + word == word;
  }

  lemma WordReadBack(s: string, n: nat, t: string, k: nat)
    requires ReadOperand(s).Read? && !StartsWith(s, '(')
    requires n == Span(IsBlank, s) && t == s[n..] && k == Span(IsWordChar, t)
    ensures WellFormed(ReadOperand(s).e) && s == Print(ReadOperand(s).e) + ReadOperand(s).rest
  {
    SpanIsRun(IsBlank, s);
    SpanIsRun(IsWordChar, t);
    WordOfRead(s[..n], t[..k], t[k..]);
    Cut(s, n);
    Cut(t, k);
    Associative(s[..n], t[..k], t[k..]);
  }

  /** Every text that reads as an expression is the print of that expression. */
  lemma {:induction false} ReadBack(s: string)
    requires ReadOperand(s).Read?
    ensures WellFormed(ReadOperand(s).e) && s == Print(ReadOperand(s).e) + ReadOperand(s).rest
    decreases |s|, 0
  {
    if StartsWith(s, '(') {
      OperationReadBack(s[1..]);
      Cut(s, 1);
      var r := ReadOperation(s[1..]);
      Opened(r.e, r.rest);
    } else {
      var n := Span(IsBlank, s);
      WordReadBack(s, n, s[n..], Span(IsWordChar, s[n..]));
    }
  }

  /** A print behind its opening parenthesis, and the text that follows it. */
  function Inner(e: Expr, rest: string): string
    requires e.Unary? || e.Binary?
  {
    if e.Unary? then e.op + (Print(e.e) + (")" + rest)) else Print(e.l) + Behind(e, rest)
  }

  lemma Opened(e: Expr, rest: string)
    requires e.Unary? || e.Binary?
    ensures Print(e) + rest == "(" + Inner(e, rest)
  {
    if e.Unary? {
      UnaryParts(e, rest);
    } else {
      BinaryParts(e, rest);
    }
  }

  lemma {:induction false} OperationReadBack(s: string)
    requires ReadOperation(s).Read?
    ensures var r := ReadOperation(s);
      (r.e.Unary? || r.e.Binary?) && WellFormed(r.e) && s == Inner(r.e, r.rest)
    decreases |s|, 1
  {
    var n := Span(IsOpChar, s);
    var a, rest := ReadOperand(s[n..]).e, ReadOperand(s[n..]).rest;
    SpanIsRun(IsOpChar, s);
    Cut(s, n);
    ReadBack(s[n..]);
    if n == 0 {
      RightReadBack(a, rest, rest[1..], Span(IsBlank, rest[1..]));
    } else {
      Cut(rest, 1);
      UnaryOfRead(s[..n], a, rest[1..]);
    }
  }

  lemma UnaryOfRead(op: string, a: Expr, rest: string)
    requires WellFormed(a) && IsOperator(op)
    ensures WellFormed(Unary(op, a)) && Inner(Unary(op, a), rest) == op + (Print(a) + (")" + rest))
  {
  }

  lemma {:induction false} RightReadBack(a: Expr, s: string, behind: string, n: nat)
    requires WellFormed(a) && ReadRight(a, s).Read? && behind == s[1..] && n == Span(IsBlank, behind)
    ensures var r := ReadRight(a, s);
      r.e.Binary? && r.e.l == a && WellFormed(r.e) && s == Behind(r.e, r.rest)
    decreases |s|, 2
  {
    SpanIsRun(IsBlank, behind);
    Cut(s, 1);
    Cut(behind, n);
    OperatorReadBack(a, behind[..n], behind[n..], Span(IsOpChar, behind[n..]));
  }

  lemma {:induction false} OperatorReadBack(a: Expr, gap: string, s: string, n: nat)
    requires WellFormed(a) && IsGap(gap) && ReadOperator(a, gap, s).Read? && n == Span(IsOpChar, s)
    ensures var r := ReadOperator(a, gap, s);
      r.e.Binary? && r.e.l == a && WellFormed(r.e) && " " + (gap + s) == Behind(r.e, r.rest)
    decreases |s|, 1
  {
    var u := s[n..][1..];
    var b, rest := ReadOperand(u).e, ReadOperand(u).rest;
    OperatorSeen(a, gap, s, n, u);
    SpanIsRun(IsOpChar, s);
    ReadBack(u);
    OperatorText(s, s[..n], u, b, rest);
    BinaryOfRead(a, gap, s[..n], b, rest[1..]);
  }

  lemma OperatorSeen(a: Expr, gap: string, s: string, n: nat, u: string)
    requires ReadOperator(a, gap, s).Read? && n == Span(IsOpChar, s) && u == s[n..][1..]
    ensures n > 0 && s == s[..n] + (" " + u) && ReadOperand(u).Read?
    ensures var r := ReadOperand(u);
      StartsWith(r.rest, ')') && ReadOperator(a, gap, s) == Read(Binary(a, gap, s[..n], r.e), r.rest[1..])
  {
    BlankBehind(s, n, s[n..]);
  }

  lemma BlankBehind(s: string, n: nat, t: string)
    requires n <= |s| && t == s[n..] && StartsWith(t, ' ')
    ensures s == s[..n] + (" " + t[1..])
  {
    Cut(s, n);
    Cut(t, 1);
  }

  lemma OperatorText(s: string, op: string, u: string, b: Expr, rest: string)
    requires s == op + (" " + u) && u == Print(b) + rest && StartsWith(rest, ')')
    ensures s == op + (" " + (Print(b) + (")" + rest[1..])))
  {
    Cut(rest, 1);
  }

  lemma BinaryOfRead(a: Expr, gap: string, op: string, b: Expr, rest: string)
    requires WellFormed(a) && WellFormed(b) && IsGap(gap) && IsOperator(op)
    ensures WellFormed(Binary(a, gap, op, b))
    ensures Behind(Binary(a, gap, op, b), rest) == " " + (gap + (op + (" " + (Print(b) + (")" + rest)))))
  {
  }

  // ---------- the text has one reading ----------

  /** A text reads as an expression exactly if it is that expression's print. */
  lemma ReadsExactly(text: string, e: Expr)
    ensures Reads(text, e) <==> WellFormed(e) && text == Print(e)
  {
    if Reads(text, e) {
      ReadBack(text);
      assert Print(e) + "" == Print(e);
    }
    if WellFormed(e) && text == Print(e) {
      ReadPrint(e, "");
      assert Print(e) + "" == Print(e);
    }
  }

  /** No two expressions share a text. */
  lemma PrintUnique(a: Expr, b: Expr)
    requires WellFormed(a) && WellFormed(b) && Print(a) == Print(b)
    ensures a == b
  {
    ReadsExactly(Print(a), a);
    ReadsExactly(Print(a), b);
  }
}
