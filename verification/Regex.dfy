/** Domain regular expressions, from their parsed form on, and the literal prefilter. */
module Regex {
  import opened Basics
  import opened Text

  datatype Anchor = Start | End | Boundary | NonBoundary

  /** One parsed operation. Expressions are compiled ignoring (ASCII) case. */
  datatype Op =
    | Literal(c: char)
    | NotLiteral(c: char)
    | Any
    | In(chars: set<char>, negate: bool)
    | Branch(alternatives: seq<Alternative>)
    | Repeat(min: nat, max: Option<nat>, body: seq<Op>)
    | Group(body: seq<Op>)
    | At(anchor: Anchor)
    | Look(ahead: bool, negate: bool, body: seq<Op>)

  datatype Alternative = Alternative(ops: seq<Op>)

  predicate SameLetter(c: char, d: char) {
    LowerChar(c) == LowerChar(d)
  }

  predicate IsWordChar(c: char) {
    'a' <= c <= 'z' || 'A' <= c <= 'Z' || '0' <= c <= '9' || c == '_'
  }

  predicate IsBoundary(s: string, i: nat) {
    (0 < i <= |s| && IsWordChar(s[i - 1])) != (i < |s| && IsWordChar(s[i]))
  }

  predicate AnchorHolds(a: Anchor, s: string, i: nat) {
    match a
    case Start => i == 0
    case End => i == |s| || (i + 1 == |s| && s[i] == '\n')
    case Boundary => IsBoundary(s, i)
    case NonBoundary => !IsBoundary(s, i)
  }

  /** Can the operation match the stretch of s from i to j? */
  ghost predicate OpMatches(op: Op, s: string, i: nat, j: nat)
    decreases op, 2, 0
  {
    match op
    case Literal(c) => i < |s| && j == i + 1 && SameLetter(s[i], c)
    case NotLiteral(c) => i < |s| && j == i + 1 && !SameLetter(s[i], c)
    case Any => i < |s| && j == i + 1 && s[i] != '\n'
    case In(chars, negate) => i < |s| && j == i + 1 && (exists c :: c in chars && SameLetter(s[i], c)) != negate
    case Branch(alternatives) => exists k :: 0 <= k < |alternatives| && Matches(alternatives[k].ops, s, i, j)
    case Repeat(min, max, body) =>
      exists n :: min <= n && (max.None? || n <= max.value) && Repeated(body, s, i, j, n)
    case Group(body) => Matches(body, s, i, j)
    case At(anchor) => i == j && AnchorHolds(anchor, s, i)
    case Look(ahead, negate, body) =>
      i == j && (exists k: nat :: k <= |s| && if ahead then Matches(body, s, i, k) else Matches(body, s, k, i)) != negate
  }

  /** Can the operations, in order, match the stretch of s from i to j? */
  ghost predicate Matches(ops: seq<Op>, s: string, i: nat, j: nat)
    decreases ops, 0, 0
  {
    if ops == [] then i == j
    else exists k: nat :: OpMatches(ops[0], s, i, k) && Matches(ops[1..], s, k, j)
  }

  ghost predicate Repeated(ops: seq<Op>, s: string, i: nat, j: nat, n: nat)
    decreases ops, 1, n
  {
    if n == 0 then i == j
    else exists k: nat :: Matches(ops, s, i, k) && Repeated(ops, s, k, j, n - 1)
  }

  /** `pattern.search(s) is not None`. */
  ghost predicate Search(ops: seq<Op>, s: string) {
    exists i: nat, j: nat :: i <= |s| && Matches(ops, s, i, j)
  }

  // ---- the prefilter literal -----------------------------------------------------------------

  /** A stretch of consecutive top-level literals. */
  predicate IsRun(ops: seq<Op>, a: nat, b: nat) {
    a <= b <= |ops| && forall k :: a <= k < b ==> ops[k].Literal?
  }

  function RunText(ops: seq<Op>, a: nat, b: nat): (t: string)
    requires IsRun(ops, a, b)
    ensures |t| == b - a
  {
    seq(b - a, k requires 0 <= k < b - a => ops[a + k].c)
  }

  /** The first of the longest runs. */
  ghost predicate IsLongestRun(ops: seq<Op>, a: nat, b: nat) {
    && IsRun(ops, a, b)
    && forall a': nat, b': nat :: IsRun(ops, a', b') ==>
         b' - a' <= b - a && (a < b && b' - a' == b - a ==> a <= a')
  }

  /** Lowered; dropped if short or without a dot. */
  function UsableLiteral(t: string): string {
    if '.' in Lower(t) && |Lower(t)| >= 4 then Lower(t) else ""
  }

  /** A literal is used if it has a dot and at least four characters, and then as a whole. */
  lemma UsableIs(t: string)
    ensures UsableLiteral(t) == "" <==> '.' !in t || |t| < 4
    ensures UsableLiteral(t) != "" ==> UsableLiteral(t) == Lower(t)
  {
    assert forall i :: 0 <= i < |t| ==> (Lower(t)[i] == '.' <==> t[i] == '.');
    if '.' in t {
      var i :| 0 <= i < |t| && t[i] == '.';
      assert Lower(t)[i] == '.';
    }
  }

  /** Where the anchors hold: at the beginning; at the end or before a line end that comes last; and between a
      word character (letter, digit or low line) and anything else. */
  lemma AnchorsAre(s: string, i: nat)
    requires i <= |s|
    ensures AnchorHolds(Start, s, i) <==> s[..i] == ""
    ensures AnchorHolds(End, s, i) <==> s[i..] == "" || s[i..] == "\n"
    ensures AnchorHolds(Boundary, s, i) <==> !AnchorHolds(NonBoundary, s, i)
    ensures AnchorHolds(Boundary, s, i) <==> WordBefore(s[..i]) != WordAfter(s[i..])
  {
    if i < |s| {
      assert s[i..][0] == s[i];
    }
    if i > 0 {
      assert s[..i][i - 1] == s[i - 1];
    }
  }

  ghost predicate WordNumber(c: char) {
    48 <= c as int < 58 || 65 <= c as int < 91 || c as int == 95 || 97 <= c as int < 123
  }

  ghost predicate WordBefore(s: string) {
    s != "" && WordNumber(s[|s| - 1])
  }

  ghost predicate WordAfter(s: string) {
    s != "" && WordNumber(s[0])
  }

  /** The literal that the prefilter uses for this expression. */
  ghost predicate LiteralOf(ops: seq<Op>, literal: string) {
    exists a: nat, b: nat :: IsLongestRun(ops, a, b) && literal == UsableLiteral(RunText(ops, a, b))
  }

  /** `_extract_literal` on a parsed pattern. */
  method ExtractLiteral(ops: seq<Op>) returns (literal: string)
    ensures LiteralOf(ops, literal)
  {
    var best: string := [];
    var cur: string := [];
    ghost var a: nat, b: nat, start: nat := 0, 0, 0;
    for i := 0 to |ops|
      invariant start <= i && IsRun(ops, start, i) && cur == RunText(ops, start, i)
      invariant start > 0 ==> !ops[start - 1].Literal?
      invariant IsRun(ops, a, b) && best == RunText(ops, a, b) && b <= start
      invariant forall a': nat, b': nat :: IsRun(ops, a', b') && b' <= i && a' < b' && a' < start ==>
                  b' - a' <= b - a && (b' - a' == b - a ==> a <= a')
    {
      if ops[i].Literal? {
        cur := cur + [ops[i].c];
      } else {
        if |cur| > |best| {
          best := cur;
          a, b := start, i;
        }
        cur := [];
        start := i + 1;
      }
    }
    if |cur| > |best| {
      best := cur;
      a, b := start, |ops|;
    }
    literal := UsableLiteral(best);
    assert IsLongestRun(ops, a, b);
  }

  // ---- soundness -----------------------------------------------------------------------------

  /** A match of all operations contains a match of those from position a on. */
  lemma {:induction false} MatchOfRest(ops: seq<Op>, s: string, i: nat, j: nat, a: nat) returns (k: nat)
    requires Matches(ops, s, i, j) && a <= |ops|
    ensures Matches(ops[a..], s, k, j)
    decreases a
  {
    if a == 0 {
      k := i;
      assert ops[0..] == ops;
    } else {
      var m: nat :| OpMatches(ops[0], s, i, m) && Matches(ops[1..], s, m, j);
      k := MatchOfRest(ops[1..], s, m, j, a - 1);
      assert ops[1..][a - 1..] == ops[a..];
    }
  }

  /** Leading literals match consecutive characters. */
  lemma {:induction false} LeadingLiterals(ops: seq<Op>, s: string, i: nat, j: nat, n: nat)
    requires Matches(ops, s, i, j) && IsRun(ops, 0, n)
    ensures n > 0 ==> i + n <= |s|
    ensures forall t :: 0 <= t < n ==> SameLetter(s[i + t], ops[t].c)
    decreases n
  {
    if n > 0 {
      var m: nat :| OpMatches(ops[0], s, i, m) && Matches(ops[1..], s, m, j);
      assert forall k :: 0 <= k < n - 1 ==> ops[1..][k] == ops[k + 1];
      LeadingLiterals(ops[1..], s, i + 1, j, n - 1);
      forall t | 0 <= t < n ensures SameLetter(s[i + t], ops[t].c) {
        if t > 0 {
          assert ops[1..][t - 1] == ops[t];
        }
      }
    }
  }

  /** Whatever else the expression contains, a lower-case string that it matches anywhere contains
      every run of its top-level literals, lowered. */
  lemma RunIsSubstring(ops: seq<Op>, s: string, a: nat, b: nat)
    requires IsLower(s) && Search(ops, s) && IsRun(ops, a, b) && a < b
    ensures Contains(s, Lower(RunText(ops, a, b)))
  {
    var i: nat, j: nat :| i <= |s| && Matches(ops, s, i, j);
    var k := MatchOfRest(ops, s, i, j, a);
    assert forall t :: 0 <= t < b - a ==> ops[a..][t] == ops[a + t];
    LeadingLiterals(ops[a..], s, k, j, b - a);
    var text := Lower(RunText(ops, a, b));
    assert s[k..k + |text|] == text by {
      assert forall t :: 0 <= t < b - a ==> SameLetter(s[k + t], ops[a..][t].c);
    }
    assert ContainsAt(s, text, k);
  }

  /** The prefilter never changes the answer on lower-case hosts. */
  lemma PrefilterSound(ops: seq<Op>, literal: string, host: string)
    requires IsLower(host) && LiteralOf(ops, literal)
    ensures (literal == "" || Contains(host, literal)) && Search(ops, host) <==> Search(ops, host)
  {
    if Search(ops, host) && literal != "" {
      var a: nat, b: nat :| IsLongestRun(ops, a, b) && literal == UsableLiteral(RunText(ops, a, b));
      RunIsSubstring(ops, host, a, b);
    }
  }
}
