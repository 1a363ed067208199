/**
  `parse_expr_to_Z3` of `helpers/rvalue_to_z3.py` on syntax nodes: which Z3 operator a token text
  selects, when the built term is well sorted, and when its value is the value of the source.
 */
module Z3Translate {
  import opened Numerals
  import opened WordText
  import opened Wrappers

  import S = SymbolicStore

  // ---------- source expressions and their 32-bit meaning ----------

  /** The binary operators of IEEE 1800-2017, section 11.3. */
  datatype Operator =
    | Plus | Minus | Times | Divide | Modulo | Power | Less | LessEqual | Greater | GreaterEqual | Equal
    | CaseEqual | WildEqual | NotEqual | CaseNotEqual | WildNotEqual | LogicAnd | LogicOr | Implies |
    Equivalent | AndBits | OrBits | XorBits | XnorBits | NxorBits | ShiftL | ArithShiftL | ShiftR |
    ArithShiftR

  /** The text of a binary node's operator token has blanks around the operator. */
  datatype Expr =
    | Paren(inner: Expr)
    | Binary(left: Expr, before: nat, op: Operator, after: nat, right: Expr)
    | Literal(n: nat)
    | Ident(name: string)

  function Bit(b: bool): nat {
    if b then 1 else 0
  }

  /** Bit by bit; `op` works on single bits. */
  function Bitwise(op: (nat, nat) -> nat, a: nat, b: nat, width: nat): nat {
    if width == 0 then 0 else 2 * Bitwise(op, a / 2, b / 2, width - 1) + op(a % 2, b % 2)
  }

  function AndBit(x: nat, y: nat): nat {
    Bit(x == 1 && y == 1)
  }

  function OrBit(x: nat, y: nat): nat {
    Bit(x == 1 || y == 1)
  }

  function XorBit(x: nat, y: nat): nat {
    Bit(x != y)
  }

  function And(a: nat, b: nat): nat {
    Bitwise(AndBit, a, b, 32)
  }

  function Or(a: nat, b: nat): nat {
    Bitwise(OrBit, a, b, 32)
  }

  function Xor(a: nat, b: nat): nat {
    Bitwise(XorBit, a, b, 32)
  }

  function Spelling(op: Operator): string {
    match op
    case Plus => "+"
    case Minus => "-"
    case Times => "*"
    case Divide => "/"
    case Modulo => "%"
    case Power => "**"
    case Less => "<"
    case LessEqual => "<="
    case Greater => ">"
    case GreaterEqual => ">="
    case Equal => "=="
    case CaseEqual => "==="
    case WildEqual => "==?"
    case NotEqual => "!="
    case CaseNotEqual => "!=="
    case WildNotEqual => "!=?"
    case LogicAnd => "&&"
    case LogicOr => "||"
    case Implies => "->"
    case Equivalent => "<->"
    case AndBits => "&"
    case OrBits => "|"
    case XorBits => "^"
    case XnorBits => "^~"
    case NxorBits => "~^"
    case ShiftL => "<<"
    case ArithShiftL => "<<<"
    case ShiftR => ">>"
    case ArithShiftR => ">>>"
  }

  function TokenText(before: nat, op: Operator, after: nat): string {
    Repeat(' ', before) + Spelling(op) + Repeat(' ', after)
  }

  /**
    Sections 11.4.3 to 11.4.10 on two-state unsigned 32-bit operands; None where the result is
    unknown, which is division by zero.
   */
  function OpMeaning(op: Operator, a: nat, b: nat): Option<nat> {
    match op
    case Plus => Some((a + b) % TWO32)
    case Minus => Some((a - b) % TWO32)
    case Times => Some(a * b % TWO32)
    case Divide => if b == 0 then None else Some(a / b)
    case Modulo => if b == 0 then None else Some(a % b)
    case Power => Some(Pow(a, b) % TWO32)
    case Less => Some(Bit(a < b))
    case LessEqual => Some(Bit(a <= b))
    case Greater => Some(Bit(a > b))
    case GreaterEqual => Some(Bit(a >= b))
    case Equal => Some(Bit(a == b))
    case CaseEqual => Some(Bit(a == b))
    case WildEqual => Some(Bit(a == b))
    case NotEqual => Some(Bit(a != b))
    case CaseNotEqual => Some(Bit(a != b))
    case WildNotEqual => Some(Bit(a != b))
    case LogicAnd => Some(Bit(a != 0 && b != 0))
    case LogicOr => Some(Bit(a != 0 || b != 0))
    case Implies => Some(Bit(a == 0 || b != 0))
    case Equivalent => Some(Bit((a == 0) == (b == 0)))
    case AndBits => Some(And(a, b))
    case OrBits => Some(Or(a, b))
    case XorBits => Some(Xor(a, b))
    case XnorBits => Some((TWO32 - 1 - Xor(a, b)) % TWO32)
    case NxorBits => Some((TWO32 - 1 - Xor(a, b)) % TWO32)
    case ShiftL => Some(a * Pow(2, b) % TWO32)
    case ArithShiftL => Some(a * Pow(2, b) % TWO32)
    case ShiftR => Some(ShiftRight(a, b))
    case ArithShiftR => Some(ShiftRight(a, b))
  }

  function ShiftRight(a: nat, k: nat): nat
    decreases k
  {
    if k == 0 then a else ShiftRight(a / 2, k - 1)
  }

  function Meaning(e: Expr, env: map<string, nat>): Option<nat> {
    match e
    case Paren(inner) => Meaning(inner, env)
    case Literal(n) => Some(n % TWO32)
    case Ident(name) => if name in env then Some(env[name]) else None
    case Binary(l, _, op, _, r) =>
      var a, b := Meaning(l, env), Meaning(r, env);
      if a.Some? && b.Some? then OpMeaning(op, a.value, b.value) else None
  }

  // ---------- terms ----------

  datatype Op =
    | Ule | Uge | Ult | Ugt | Eq | Ne | Add | Sub | Mul | UDiv | URem | LogicalAnd | LogicalOr
    | BitAnd | BitOr | BitXor | Shl | LShr

  datatype Term =
    | Const(n: nat)
    | Symbol(name: string)
    | App(op: Op, l: Term, r: Term)

  datatype Sort = BitVec32 | Bool

  predicate IsCompare(op: Op) {
    op.Ule? || op.Uge? || op.Ult? || op.Ugt?
  }

  /** `hasattr(x, 'size')` selects `x != 0`; a Bool operand of And and Or stays. */
  function Truth(t: Term): Term {
    if SortOf(t) == BitVec32 then App(Ne, t, Const(0)) else t
  }

  function SortOf(t: Term): Sort {
    match t
    case App(op, _, _) =>
      if IsCompare(op) || op.Eq? || op.Ne? || op.LogicalAnd? || op.LogicalOr? then Bool else BitVec32
    case _ => BitVec32
  }

  /** The term for an operator; None where Z3 rejects the operand sorts. */
  function Build(op: Op, l: Term, r: Term): Option<Term> {
    if op.LogicalAnd? || op.LogicalOr? then Some(App(op, Truth(l), Truth(r)))
    else if op.Eq? || op.Ne? then
      if SortOf(l) == SortOf(r) then Some(App(op, l, r)) else None
    else if SortOf(l) == BitVec32 && SortOf(r) == BitVec32 then Some(App(op, l, r))
    else None
  }

  /** The meaning SMT-LIB gives to an operator; a Bool counts as 0 or 1. */
  function OpValue(op: Op, a: nat, b: nat): nat {
    match op
    case Ule => Bit(a <= b)
    case Uge => Bit(a >= b)
    case Ult => Bit(a < b)
    case Ugt => Bit(a > b)
    case Eq => Bit(a == b)
    case Ne => Bit(a != b)
    case Add => (a + b) % TWO32
    case Sub => (a - b) % TWO32
    case Mul => a * b % TWO32
    case UDiv => if b == 0 then TWO32 - 1 else a / b
    case URem => if b == 0 then a else a % b
    case LogicalAnd => Bit(a != 0 && b != 0)
    case LogicalOr => Bit(a != 0 || b != 0)
    case BitAnd => And(a, b)
    case BitOr => Or(a, b)
    case BitXor => Xor(a, b)
    case Shl => a * Pow(2, b) % TWO32
    case LShr => ShiftRight(a, b)
  }

  function Value(t: Term, val: string -> nat): nat {
    match t
    case Const(n) => n % TWO32
    case Symbol(name) => val(name) % TWO32
    case App(op, l, r) => OpValue(op, Value(l, val), Value(r, val))
  }

  // ---------- translation ----------

  /** Python's `c in s` for one character. */
  predicate HasChar(s: string, c: char) {
    s != "" && (s[0] == c || HasChar(s[1..], c))
  }

  /** Python's `cd in s` for two. */
  predicate HasPair(s: string, c: char, d: char) {
    |s| >= 2 && ((s[0] == c && s[1] == d) || HasPair(s[1..], c, d))
  }

  /** The chain of substring tests, in order. */
  function Dispatch(token: string): Option<Op> {
    if HasPair(token, '<', '=') then Some(Ule)
    else if HasPair(token, '>', '=') then Some(Uge)
    else if HasChar(token, '<') && !HasChar(token, '=') then Some(Ult)
    else if HasChar(token, '>') && !HasChar(token, '=') then Some(Ugt)
    else if HasPair(token, '=', '=') then Some(Eq)
    else if HasPair(token, '!', '=') then Some(Ne)
    else if HasChar(token, '+') then Some(Add)
    else if HasChar(token, '-') then Some(Sub)
    else if HasChar(token, '*') then Some(Mul)
    else if HasChar(token, '/') then Some(UDiv)
    else if HasChar(token, '%') then Some(URem)
    else if HasPair(token, '&', '&') then Some(LogicalAnd)
    else if HasPair(token, '|', '|') then Some(LogicalOr)
    else if HasChar(token, '&') then Some(BitAnd)
    else if HasChar(token, '|') then Some(BitOr)
    else if HasChar(token, '^') then Some(BitXor)
    else if HasPair(token, '<', '<') then Some(Shl)
    else if HasPair(token, '>', '>') then Some(LShr)
    else None
  }

  /** A stored text becomes a number if `isdigit`, and otherwise one symbol with that text as its name. */
  function Entry(text: string): Term {
    if text != "" && AllDigits(text) then Const(DecimalValue(text) % TWO32) else Symbol(text)
  }

  /** The result; None where Z3 raises a sort error. */
  function Translate(e: Expr, store: map<string, string>): Option<Term> {
    match e
    case Paren(inner) => Translate(inner, store)
    case Literal(n) => Some(Const(n % TWO32))
    case Ident(name) => Some(if name in store then Entry(store[name]) else Const(0))
    case Binary(l, before, op, after, r) =>
      var a, b := Translate(l, store), Translate(r, store);
      var selected := Dispatch(TokenText(before, op, after));
      if a.None? || b.None? then None
      else if selected.None? then Some(Const(0))
      else Build(selected.value, a.value, b.value)
  }

  // ---------- dispatch ----------

  lemma BlankFirst(s: string)
    ensures Dispatch(" " + s) == Dispatch(s)
  {
    assert (" " + s)[1..] == s;
    assert forall c | c != ' ' :: HasChar(" " + s, c) == HasChar(s, c);
    assert forall c, d | c != ' ' :: HasPair(" " + s, c, d) == HasPair(s, c, d);
  }

  lemma {:induction false} BlankLastChar(s: string, c: char)
    requires c != ' '
    ensures HasChar(s + " ", c) == HasChar(s, c)
  {
    if s == "" {
      assert (s + " ")[1..] == "";
    } else {
      assert (s + " ")[1..] == s[1..] + " ";
      BlankLastChar(s[1..], c);
    }
  }

  lemma {:induction false} BlankLastPair(s: string, c: char, d: char)
    requires d != ' '
    ensures HasPair(s + " ", c, d) == HasPair(s, c, d)
  {
    if |s| >= 2 {
      assert (s + " ")[1..] == s[1..] + " ";
      BlankLastPair(s[1..], c, d);
    }
  }

  lemma BlankLast(s: string)
    ensures Dispatch(s + " ") == Dispatch(s)
  {
    forall c | c != ' ' ensures HasChar(s + " ", c) == HasChar(s, c) {
      BlankLastChar(s, c);
    }
    forall c, d | d != ' ' ensures HasPair(s + " ", c, d) == HasPair(s, c, d) {
      BlankLastPair(s, c, d);
    }
  }

  /** Blanks around the operator do not matter. */
  lemma {:induction false} DispatchTrims(before: nat, op: Operator, after: nat)
    ensures Dispatch(TokenText(before, op, after)) == Dispatch(Spelling(op))
    decreases before + after
  {
    var text := TokenText(before, op, after);
    if before > 0 {
      var rest := TokenText(before - 1, op, after);
      assert text == " " + rest;
      BlankFirst(rest);
      DispatchTrims(before - 1, op, after);
    } else if after > 0 {
      var rest := TokenText(before, op, after - 1);
      BlanksEnd(after);
      assert text == rest + " ";
      BlankLast(rest);
      DispatchTrims(before, op, after - 1);
    } else {
      assert text == Spelling(op);
    }
  }

  lemma {:induction false} BlanksEnd(n: nat)
    requires n > 0
    ensures Repeat(' ', n) == Repeat(' ', n - 1) + " "
  {
    if n > 1 {
      BlanksEnd(n - 1);
    }
  }

  predicate Misdispatched(op: Operator) {
    || op.CaseNotEqual? || op.Power? || op.XnorBits? || op.NxorBits? || op.ShiftR? || op.ShiftL?
    || op.ArithShiftR? || op.ArithShiftL? || op.Implies? || op.Equivalent?
  }

  /** The selected operator computes what the source operator means, on all 32-bit operands where that is known. */
  ghost predicate Faithful(op: Operator) {
    && Dispatch(Spelling(op)).Some?
    && forall a: nat, b: nat | a < TWO32 && b < TWO32 :: SameResult(Dispatch(Spelling(op)).value, op, a, b)
  }

  predicate SameResult(z: Op, op: Operator, a: nat, b: nat) {
    OpMeaning(op, a, b) == None || OpMeaning(op, a, b) == Some(OpValue(z, a, b))
  }

  /** The operator that the chain of tests arrives at. */
  function Chosen(op: Operator): Op {
    match op
    case Plus => Add
    case Minus => Sub
    case Times => Mul
    case Power => Mul
    case Divide => UDiv
    case Modulo => URem
    case LessEqual => Ule
    case GreaterEqual => Uge
    case Less | ShiftL | ArithShiftL | Equivalent => Ult
    case Greater | ShiftR | ArithShiftR | Implies => Ugt
    case Equal | CaseEqual | WildEqual | CaseNotEqual => Eq
    case NotEqual | WildNotEqual => Ne
    case LogicAnd => LogicalAnd
    case LogicOr => LogicalOr
    case AndBits => BitAnd
    case OrBits => BitOr
    case XorBits | XnorBits | NxorBits => BitXor
  }

  lemma ShortTexts(s: string)
    requires 1 <= |s| <= 3
    ensures forall c :: HasChar(s, c) <==> s[0] == c || (|s| > 1 && s[1] == c) || (|s| > 2 && s[2] == c)
    ensures forall c, d ::
      HasPair(s, c, d) <==> |s| > 1 && ((s[0] == c && s[1] == d) || (|s| > 2 && s[1] == c && s[2] == d))
  {
    assert |s| > 1 ==> s[1..][0] == s[1];
    assert |s| > 2 ==> s[1..][1] == s[2] && s[1..][1..][0] == s[2];
  }

  lemma DispatchChooses(op: Operator)
    ensures Dispatch(Spelling(op)) == Some(Chosen(op))
  {
    ShortTexts(Spelling(op));
  }

  lemma {:induction false} BitwiseOfZeros(op: (nat, nat) -> nat, width: nat)
    requires op(0, 0) == 0
    ensures Bitwise(op, 0, 0, width) == 0
  {
    if width > 0 {
      BitwiseOfZeros(op, width - 1);
    }
  }

  /** A wrongly chosen operator shows on small operands. */
  lemma WrongResult(op: Operator, a: nat, b: nat)
    requires Misdispatched(op)
    requires a == (if op.ShiftR? || op.ArithShiftR? then 2 else 0)
    requires b == (if op.ShiftL? || op.ArithShiftL? then 1 else 0)
    ensures !SameResult(Chosen(op), op, a, b)
  {
    if op.XnorBits? || op.NxorBits? {
      XnorIsNotXor(op);
    } else if op.Power? {
      assert Pow(0, 0) == 1;
    }
  }

  lemma XnorIsNotXor(op: Operator)
    requires op.XnorBits? || op.NxorBits?
    ensures !SameResult(BitXor, op, 0, 0)
  {
    BitwiseOfZeros(XorBit, 32);
  }

  lemma RightResult(op: Operator, a: nat, b: nat)
    requires !Misdispatched(op)
    ensures SameResult(Chosen(op), op, a, b)
  {
  }

  /** Ten of the 29 binary operators are sent to an operator with another meaning, and no other. */
  lemma DispatchExactly(op: Operator)
    ensures Faithful(op) <==> !Misdispatched(op)
  {
    DispatchChooses(op);
    if Misdispatched(op) {
      WrongResult(op, if op.ShiftR? || op.ArithShiftR? then 2 else 0, if op.ShiftL? || op.ArithShiftL? then 1 else 0);
    } else {
      forall a: nat, b: nat ensures SameResult(Chosen(op), op, a, b) {
        RightResult(op, a, b);
      }
    }
  }

  // ---------- meaning preserved ----------

  /** The sort an operator gives its operands' sorts; None where the operands do not fit. */
  function Combine(op: Operator, l: Sort, r: Sort): Option<Sort> {
    match op
    case LogicAnd => Some(Bool)
    case LogicOr => Some(Bool)
    case Equal | CaseEqual | WildEqual | NotEqual | WildNotEqual => if l == r then Some(Bool) else None
    case _ =>
      if l != BitVec32 || r != BitVec32 then None
      else if op.Less? || op.LessEqual? || op.Greater? || op.GreaterEqual? then Some(Bool)
      else Some(BitVec32)
  }

  /** Well-sorted: 32-bit values and truth values are not mixed. */
  function Sorting(e: Expr): Option<Sort> {
    match e
    case Paren(inner) => Sorting(inner)
    case Literal(_) => Some(BitVec32)
    case Ident(_) => Some(BitVec32)
    case Binary(l, _, op, _, r) =>
      var a, b := Sorting(l), Sorting(r);
      if a.Some? && b.Some? then Combine(op, a.value, b.value) else None
  }

  predicate Supported(e: Expr) {
    match e
    case Paren(inner) => Supported(inner)
    case Literal(_) => true
    case Ident(_) => true
    case Binary(l, _, op, _, r) => !Misdispatched(op) && Supported(l) && Supported(r)
  }

  /** The environment gives every name the value of its entry; a name without an entry is 0. */
  ghost predicate Agrees(store: map<string, string>, env: map<string, nat>, val: string -> nat) {
    forall x | x in env :: env[x] == if x in store then Value(Entry(store[x]), val) else 0
  }

  lemma TruthValue(t: Term, val: string -> nat)
    ensures SortOf(Truth(t)) == Bool && (Value(Truth(t), val) != 0 <==> Value(t, val) != 0)
  {
    if SortOf(t) == BitVec32 {
      assert Value(Const(0), val) == 0;
    }
  }

  lemma BuildSort(op: Operator, l: Term, r: Term)
    requires !Misdispatched(op)
    ensures Build(Chosen(op), l, r).Some? <==> Combine(op, SortOf(l), SortOf(r)).Some?
    ensures Build(Chosen(op), l, r).Some? ==>
      SortOf(Build(Chosen(op), l, r).value) == Combine(op, SortOf(l), SortOf(r)).value
  {
  }

  lemma BuildValue(op: Operator, l: Term, r: Term, val: string -> nat)
    requires !Misdispatched(op) && Build(Chosen(op), l, r).Some?
    requires OpMeaning(op, Value(l, val), Value(r, val)).Some?
    ensures Value(Build(Chosen(op), l, r).value, val) == OpMeaning(op, Value(l, val), Value(r, val)).value
  {
    RightResult(op, Value(l, val), Value(r, val));
    TruthValue(l, val);
    TruthValue(r, val);
  }

  /** Without a misdispatched operator, Z3 accepts the term exactly when the source is well sorted. */
  lemma {:induction false} AcceptedExactly(e: Expr, store: map<string, string>)
    requires Supported(e)
    ensures Translate(e, store).Some? <==> Sorting(e).Some?
    ensures Translate(e, store).Some? ==> SortOf(Translate(e, store).value) == Sorting(e).value
  {
    match e
    case Paren(inner) =>
      AcceptedExactly(inner, store);
    case Binary(l, before, op, after, r) =>
      AcceptedExactly(l, store);
      AcceptedExactly(r, store);
      DispatchTrims(before, op, after);
      DispatchChooses(op);
      if Translate(l, store).Some? && Translate(r, store).Some? {
        BuildSort(op, Translate(l, store).value, Translate(r, store).value);
      }
    case _ =>
  }

  /** The term has the value of the source expression, under every valuation of the symbols. */
  lemma {:induction false} MeaningPreserved(e: Expr, store: map<string, string>,
                                            env: map<string, nat>, val: string -> nat)
    requires Supported(e) && Translate(e, store).Some? && Agrees(store, env, val)
    requires Meaning(e, env).Some?
    ensures Value(Translate(e, store).value, val) == Meaning(e, env).value
  {
    match e
    case Paren(inner) =>
      MeaningPreserved(inner, store, env, val);
    case Binary(l, before, op, after, r) =>
      MeaningPreserved(l, store, env, val);
      MeaningPreserved(r, store, env, val);
      DispatchTrims(before, op, after);
      DispatchChooses(op);
      BuildValue(op, Translate(l, store).value, Translate(r, store).value, val);
    case _ =>
  }

  // ---------- identifiers with compound entries ----------

  /** A meaning of stored expressions in which literals are decimal. */
  ghost predicate ReadsDecimals(sem: S.Sem<nat>) {
    forall digits | AllDigits(digits) :: sem.lit(digits) == DecimalValue(digits) % TWO32
  }

  /** What a stored expression is worth when every symbol has its 32-bit value. */
  function StoredValue(x: S.Expr, sem: S.Sem<nat>, val: string -> nat): nat {
    S.Eval(x, sem, map[], n => val(n) % TWO32)
  }

  /** Only the symbols of an expression matter for its value. */
  lemma {:induction false} ValueOfNames(x: S.Expr, sem: S.Sem<nat>, val: string -> nat, val': string -> nat)
    requires forall n | n in S.Names(x) :: val(n) == val'(n)
    ensures StoredValue(x, sem, val) == StoredValue(x, sem, val')
  {
    match x
    case Unary(_, a) =>
      ValueOfNames(a, sem, val, val');
    case Binary(a, _, _, b) =>
      ValueOfNames(a, sem, val, val');
      ValueOfNames(b, sem, val, val');
    case _ =>
  }

  lemma {:induction false} NamesAreWords(x: S.Expr, n: string)
    requires S.WellFormed(x) && n in S.Names(x)
    ensures S.IsName(n)
  {
    match x
    case Unary(_, a) =>
      NamesAreWords(a, n);
    case Binary(a, _, _, b) =>
      if n in S.Names(a) {
        NamesAreWords(a, n);
      } else {
        NamesAreWords(b, n);
      }
    case _ =>
  }

  lemma EntryFollows(x: S.Expr, sem: S.Sem<nat>, val: string -> nat)
    requires S.WellFormed(x) && ReadsDecimals(sem) && (x.Name? || (x.Lit? && x.gap == ""))
    ensures Value(Entry(S.Print(x)), val) == StoredValue(x, sem, val)
  {
    if x.Lit? {
      assert S.Print(x) == x.digits;
    }
  }

  /** Any other text is no number, and no name that occurs in it. */
  lemma OtherText(x: S.Expr, n: string)
    requires S.WellFormed(x) && !x.Name? && !(x.Lit? && x.gap == "")
    ensures S.Print(x) != "" && !IsWordChar(S.Print(x)[0]) && (n in S.Names(x) ==> n != S.Print(x))
  {
    S.GapAndCore(x, "");
    assert S.Print(x) + "" == S.Print(x);
    if n in S.Names(x) {
      NamesAreWords(x, n);
    }
  }

  lemma EntryUnrelated(x: S.Expr, sem: S.Sem<nat>) returns (val: string -> nat)
    requires S.WellFormed(x) && !x.Name? && !(x.Lit? && x.gap == "")
    ensures Value(Entry(S.Print(x)), val) != StoredValue(x, sem, val)
  {
    var text := S.Print(x);
    var zero: string -> nat := s => 0;
    var other := (StoredValue(x, sem, zero) + 1) % 2;
    val := s => if s == text then other else 0;
    OtherText(x, text);
    forall n | n in S.Names(x) ensures val(n) == zero(n) {
      OtherText(x, n);
    }
    ValueOfNames(x, sem, val, zero);
  }

  /**
    The term of an identifier follows its stored expression under all symbol values exactly when that
    expression is one symbol, or one number without white space in front: any other text becomes the
    name of an unrelated symbol.
   */
  lemma EntryFollowsExactly(x: S.Expr, sem: S.Sem<nat>)
    requires S.WellFormed(x) && ReadsDecimals(sem)
    ensures (forall val: string -> nat :: Value(Entry(S.Print(x)), val) == StoredValue(x, sem, val))
       <==> x.Name? || (x.Lit? && x.gap == "")
  {
    if x.Name? || (x.Lit? && x.gap == "") {
      forall val: string -> nat ensures Value(Entry(S.Print(x)), val) == StoredValue(x, sem, val) {
        EntryFollows(x, sem, val);
      }
    } else {
      var val := EntryUnrelated(x, sem);
    }
  }
}
