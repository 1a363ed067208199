/**
  Whole-word replacement on text, as Python's `re.sub` performs it for the pattern
  `\b` + name + `\b`: scan from the left, replace a match and continue behind it,
  otherwise copy one character.  Text is ASCII.
 */
module WordText {

  predicate IsDigit(c: char) {
    '0' <= c <= '9'
  }

  predicate IsWordChar(c: char) {
    || 'a' <= c <= 'z'
    || 'A' <= c <= 'Z'
    || IsDigit(c)
    || c == '_'
  }

  predicate AllWord(s: string) {
    forall i | 0 <= i < |s| :: IsWordChar(s[i])
  }

  predicate NoWord(s: string) {
    forall i | 0 <= i < |s| :: !IsWordChar(s[i])
  }

  predicate AllDigits(s: string) {
    forall i | 0 <= i < |s| :: IsDigit(s[i])
  }

  /** Python's `int` on a string of digits. */
  function DecimalValue(s: string): nat
    requires AllDigits(s)
  {
    if s == "" then 0 else DecimalValue(s[..|s| - 1]) * 10 + (s[|s| - 1] as int - '0' as int)
  }

  /** The regular-expression word boundary `\b` at position i of s. */
  predicate Boundary(s: string, i: nat)
    requires i <= |s|
  {
    (i > 0 && IsWordChar(s[i - 1])) != (i < |s| && IsWordChar(s[i]))
  }

  predicate MatchAt(s: string, name: string, i: nat)
    requires i <= |s|
  {
    && i + |name| <= |s|
    && s[i..i + |name|] == name
    && Boundary(s, i)
    && Boundary(s, i + |name|)
  }

  /** The positions of s at which the pattern matches. */
  function Hits(s: string, name: string): set<nat> {
    set k: nat | k < |s| && MatchAt(s, name, k)
  }

  ghost predicate HitsFit(s: string, hits: set<nat>, width: nat) {
    width > 0 && forall k | k in hits :: k + width <= |s|
  }

  /** The scan from position i: a hit is replaced and skipped, any other character is copied. */
  function ReplaceFrom(s: string, hits: set<nat>, width: nat, value: string, i: nat): string
    requires i <= |s| && HitsFit(s, hits, width)
    decreases |s| - i
  {
    if i == |s| then ""
    else if i in hits then value + ReplaceFrom(s, hits, width, value, i + width)
    else [s[i]] + ReplaceFrom(s, hits, width, value, i + 1)
  }

  /** `re.sub(r'\b' + re.escape(name) + r'\b', value, s)`. */
  function ReplaceWord(s: string, name: string, value: string): string
    requires name != ""
  {
    ReplaceFrom(s, Hits(s, name), |name|, value, 0)
  }

  /** Two pieces of text meet cleanly when their seam does not run through a word. */
  predicate CleanSeam(a: string, b: string) {
    a == "" || b == "" || !IsWordChar(a[|a| - 1]) || !IsWordChar(b[0])
  }

  /** A clean cut at position n of s. */
  predicate CleanCut(s: string, n: nat)
    requires n <= |s|
  {
    n == 0 || n == |s| || !IsWordChar(s[n - 1]) || !IsWordChar(s[n])
  }

  lemma MatchLeft(s: string, n: nat, name: string, i: nat)
    requires name != "" && AllWord(name) && i < n <= |s| && CleanCut(s, n)
    ensures MatchAt(s, name, i) == MatchAt(s[..n], name, i)
  {
    var end := i + |name|;
    if end <= n {
      assert s[i..end] == s[..n][i..end];
      assert s[i..end] == name ==> s[end - 1] == name[|name| - 1];
    } else if end <= |s| {
      var window := s[i..end];
      assert window[n - 1 - i] == s[n - 1] && window[n - i] == s[n];
    }
  }

  lemma MatchRight(s: string, n: nat, name: string, i: nat)
    requires name != "" && AllWord(name) && n <= i <= |s| && CleanCut(s, n)
    ensures MatchAt(s, name, i) == MatchAt(s[n..], name, i - n)
  {
    var end := i + |name|;
    if end <= |s| {
      assert s[i..end] == s[n..][i - n..end - n];
      assert s[i..end] == name ==> s[i] == name[0] && s[end - 1] == name[|name| - 1];
    }
  }

  /** t is the part of s from n on, and its hits are those of s. */
  ghost predicate IsTail(s: string, n: nat, hits: set<nat>, t: string, right: set<nat>) {
    && n + |t| == |s|
    && (forall j | 0 <= j < |t| :: t[j] == s[n + j])
    && (forall j: nat | j < |t| :: j in right <==> n + j in hits)
  }

  lemma {:induction false} ReplaceRight(
      s: string, n: nat, hits: set<nat>, t: string, right: set<nat>, width: nat, value: string, j: nat)
    requires j <= |t| && HitsFit(s, hits, width) && HitsFit(t, right, width) && IsTail(s, n, hits, t, right)
    ensures ReplaceFrom(s, hits, width, value, n + j) == ReplaceFrom(t, right, width, value, j)
    decreases |t| - j
  {
    if j < |t| {
      if j in right {
        ReplaceRight(s, n, hits, t, right, width, value, j + width);
      } else {
        ReplaceRight(s, n, hits, t, right, width, value, j + 1);
      }
    }
  }

  lemma Associative<T>(a: seq<T>, b: seq<T>, c: seq<T>)
    ensures a + b + c == a + (b + c)
  {
  }

  /** a is the part of s up to its length, and its hits are those of s. */
  ghost predicate IsHead(s: string, hits: set<nat>, a: string, left: set<nat>) {
    && |a| <= |s|
    && (forall j | 0 <= j < |a| :: a[j] == s[j])
    && (forall j: nat | j < |a| :: j in left <==> j in hits)
  }

  lemma {:induction false} ReplaceLeft(
      s: string, hits: set<nat>, a: string, left: set<nat>, t: string, right: set<nat>,
      width: nat, value: string, i: nat)
    requires i <= |a| && HitsFit(s, hits, width) && HitsFit(a, left, width) && HitsFit(t, right, width)
    requires IsHead(s, hits, a, left) && IsTail(s, |a|, hits, t, right)
    ensures ReplaceFrom(s, hits, width, value, i)
         == ReplaceFrom(a, left, width, value, i) + ReplaceFrom(t, right, width, value, 0)
    decreases |a| - i
  {
    var rest := ReplaceFrom(t, right, width, value, 0);
    if i == |a| {
      ReplaceRight(s, |a|, hits, t, right, width, value, 0);
      assert "" + rest == rest;
    } else {
      var piece, next := if i in left then value else [a[i]], if i in left then i + width else i + 1;
      ReplaceLeft(s, hits, a, left, t, right, width, value, next);
      assert ReplaceFrom(a, left, width, value, i) == piece + ReplaceFrom(a, left, width, value, next);
      Associative(piece, ReplaceFrom(a, left, width, value, next), rest);
    }
  }

  /** Replacing a word distributes over every clean seam. */
  lemma ReplaceConcat(a: string, b: string, name: string, value: string)
    requires name != "" && AllWord(name) && CleanSeam(a, b)
    ensures ReplaceWord(a + b, name, value) == ReplaceWord(a, name, value) + ReplaceWord(b, name, value)
  {
    var s, n := a + b, |a|;
    assert s[..n] == a && s[n..] == b;
    forall k | 0 <= k < |s|
      ensures k < n ==> MatchAt(s, name, k) == MatchAt(a, name, k)
      ensures k >= n ==> MatchAt(s, name, k) == MatchAt(b, name, k - n)
    {
      if k < n {
        MatchLeft(s, n, name, k);
      } else {
        MatchRight(s, n, name, k);
      }
    }
    ReplaceLeft(s, Hits(s, name), a, Hits(a, name), b, Hits(b, name), |name|, value, 0);
  }

  lemma {:induction false} ReplaceNothing(s: string, width: nat, value: string, i: nat)
    requires width > 0 && i <= |s|
    ensures ReplaceFrom(s, {}, width, value, i) == s[i..]
    decreases |s| - i
  {
    if i < |s| {
      ReplaceNothing(s, width, value, i + 1);
      assert s[i..] == [s[i]] + s[i + 1..];
    }
  }

  /** A lone word is replaced exactly when it is the name. */
  lemma ReplaceInWord(w: string, name: string, value: string)
    requires name != "" && AllWord(name) && AllWord(w)
    ensures ReplaceWord(w, name, value) == if w == name then value else w
  {
    if w == name {
      assert w[0..0 + |name|] == name;
      assert MatchAt(w, name, 0);
      assert ReplaceWord(w, name, value) == value + ReplaceFrom(w, Hits(w, name), |name|, value, |w|);
    } else {
      forall k | 0 <= k < |w|
        ensures !MatchAt(w, name, k)
      {
        if k == 0 && |name| == |w| {
          assert w[0..0 + |name|] == w;
        }
      }
      assert Hits(w, name) == {};
      ReplaceNothing(w, |name|, value, 0);
    }
  }

  lemma ReplaceInSeparator(s: string, name: string, value: string)
    requires name != "" && AllWord(name) && NoWord(s)
    ensures ReplaceWord(s, name, value) == s
  {
    forall k | 0 <= k < |s|
      ensures !MatchAt(s, name, k)
    {
      if k + |name| <= |s| {
        assert s[k..k + |name|][0] == s[k];
      }
    }
    assert Hits(s, name) == {};
    ReplaceNothing(s, |name|, value, 0);
  }
}
