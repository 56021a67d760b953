/** String operations on ASCII text, as the sources use them. */
module Text {
  import opened Basics

  function LowerChar(c: char): char {
    if 'A' <= c <= 'Z' then (c as int + 32) as char else c
  }

  function Lower(s: string): (t: string)
    ensures |t| == |s| && forall i :: 0 <= i < |s| ==> t[i] == LowerChar(s[i])
  {
    seq(|s|, i requires 0 <= i < |s| => LowerChar(s[i]))
  }

  predicate IsLower(s: string) {
    forall i :: 0 <= i < |s| ==> !('A' <= s[i] <= 'Z')
  }

  lemma LowerIsLower(s: string)
    ensures IsLower(Lower(s)) && Lower(Lower(s)) == Lower(s)
  {}

  predicate EndsWith(s: string, t: string) {
    |t| <= |s| && s[|s| - |t|..] == t
  }

  predicate StartsWith(s: string, t: string) {
    |t| <= |s| && s[..|t|] == t
  }

  predicate ContainsAt(s: string, t: string, i: nat) {
    i + |t| <= |s| && s[i..i + |t|] == t
  }

  /** Is t a substring of s? */
  predicate Contains(s: string, t: string) {
    exists i :: 0 <= i <= |s| && ContainsAt(s, t, i)
  }

  lemma EndsWithIs(s: string, t: string)
    ensures EndsWith(s, t) <==> exists a: string :: s == a + t
  {
    if EndsWith(s, t) {
      assert s == s[..|s| - |t|] + t;
    }
  }

  lemma ContainsIs(s: string, t: string)
    ensures Contains(s, t) <==> exists a: string, b: string :: s == a + (t + b)
  {
    if i :| 0 <= i <= |s| && ContainsAt(s, t, i) {
      assert s == s[..i] + (t + s[i + |t|..]);
    }
    if a: string, b: string :| s == a + (t + b) {
      assert ContainsAt(s, t, |a|);
    }
  }

  function DropLeft(s: string, c: char): string {
    if s != [] && s[0] == c then DropLeft(s[1..], c) else s
  }

  /** All of the characters at the front that are c go, and nothing else. */
  lemma {:induction false} DropLeftIs(s: string, c: char)
    ensures var t := DropLeft(s, c); var k := |s| - |t|;
            0 <= k && t == s[k..] && (forall i :: 0 <= i < k ==> s[i] == c) && (t == "" || t[0] != c)
  {
    if s != [] && s[0] == c {
      DropLeftIs(s[1..], c);
    }
  }

  function DropRight(s: string, c: char): string {
    if s != [] && s[|s| - 1] == c then DropRight(s[..|s| - 1], c) else s
  }

  lemma {:induction false} DropRightIs(s: string, c: char)
    ensures var t := DropRight(s, c);
            |t| <= |s| && t == s[..|t|] && (forall i :: |t| <= i < |s| ==> s[i] == c) && (t == "" || t[|t| - 1] != c)
    decreases |s|
  {
    if s != [] && s[|s| - 1] == c {
      DropRightIs(s[..|s| - 1], c);
    }
  }

  lemma {:induction false} DropsRight(s: string, tail: string, c: char)
    requires (s == "" || s[|s| - 1] != c) && forall i :: 0 <= i < |tail| ==> tail[i] == c
    ensures DropRight(s + tail, c) == s
    decreases |tail|
  {
    if tail == "" {
      assert s + tail == s;
    } else {
      var n := |tail| - 1;
      assert (s + tail)[|s + tail| - 1] == c && (s + tail)[..|s + tail| - 1] == s + tail[..n];
      DropsRight(s, tail[..n], c);
    }
  }

  predicate AllSame(s: string, c: char) {
    forall i :: 0 <= i < |s| ==> s[i] == c
  }

  lemma DroppedExactly(s: string, c: char, t: string)
    ensures t == DropRight(s, c) <==> (t == "" || t[|t| - 1] != c) && exists tail: string :: s == t + tail && AllSame(tail, c)
  {
    DropRightIs(s, c);
    hide DropRight;
    if t == DropRight(s, c) {
      assert s == t + s[|t|..];
    }
    if tail: string :| s == t + tail && AllSame(tail, c) {
      if t == "" || t[|t| - 1] != c {
        DropsRight(t, tail, c);
      }
    }
  }

  lemma {:induction false} DropRightLower(s: string, c: char)
    requires !('A' <= c <= 'Z') && !('a' <= c <= 'z')
    ensures DropRight(Lower(s), c) == Lower(DropRight(s, c))
    decreases |s|
  {
    if s != [] && s[|s| - 1] == c {
      DropRightLower(s[..|s| - 1], c);
      assert Lower(s)[..|s| - 1] == Lower(s[..|s| - 1]);
    }
  }

  function UpperChar(c: char): char {
    if 'a' <= c <= 'z' then (c as int - 32) as char else c
  }

  function Upper(s: string): (t: string)
    ensures |t| == |s| && forall i :: 0 <= i < |s| ==> t[i] == UpperChar(s[i])
  {
    seq(|s|, i requires 0 <= i < |s| => UpperChar(s[i]))
  }

  /** Each letter has the place in its alphabet that it had in the other; nothing else has a case. */
  lemma CaseOfLetters(c: char)
    ensures 'A' <= c <= 'Z' ==> 'a' <= LowerChar(c) <= 'z' && LowerChar(c) as int - 'a' as int == c as int - 'A' as int
    ensures 'a' <= c <= 'z' ==> 'A' <= UpperChar(c) <= 'Z' && UpperChar(c) as int - 'A' as int == c as int - 'a' as int
    ensures !('A' <= c <= 'Z') ==> LowerChar(c) == c
    ensures !('a' <= c <= 'z') ==> UpperChar(c) == c
  {}

  /** The white space of every script, which Python and Rust both trim. */
  predicate IsWideSpace(c: char) {
    c == '\U{85}' || c == '\U{A0}' || c == '\U{1680}' || '\U{2000}' <= c <= '\U{200A}'
    || c == '\U{2028}' || c == '\U{2029}' || c == '\U{202F}' || c == '\U{205F}' || c == '\U{3000}'
  }

  /** What Python's `str.strip` takes for white space. */
  predicate IsBlank(c: char) {
    c == ' ' || '\t' <= c <= '\r' || '\U{1C}' <= c <= '\U{1F}' || IsWideSpace(c)
  }

  /** By their numbers: the controls 9 to 13 and 28 to 31, and every space of Unicode. */
  lemma BlankNumbers(c: char)
    ensures IsBlank(c) <==> c as int in {9, 10, 11, 12, 13, 28, 29, 30, 31, 32, 133, 160, 5760, 8192, 8193, 8194, 8195,
                                         8196, 8197, 8198, 8199, 8200, 8201, 8202, 8232, 8233, 8239, 8287, 12288}
  {}

  function StripLeft(s: string): string {
    if s != [] && IsBlank(s[0]) then StripLeft(s[1..]) else s
  }

  function StripRight(s: string): string {
    if s != [] && IsBlank(s[|s| - 1]) then StripRight(s[..|s| - 1]) else s
  }

  /** `str.strip`. */
  function Strip(s: string): string {
    StripRight(StripLeft(s))
  }

  predicate AllBlank(s: string) {
    forall i :: 0 <= i < |s| ==> IsBlank(s[i])
  }

  /** The blanks at both ends go and nothing else. */
  lemma StripIs(s: string)
    ensures exists a: string, b: string :: s == a + (Strip(s) + b) && AllBlank(a) && AllBlank(b)
    ensures var t := Strip(s); t != "" ==> !IsBlank(t[0]) && !IsBlank(t[|t| - 1])
  {
    hide IsBlank;
    var l := StripLeft(s);
    StripLeftIs(s);
    StripRightIs(l);
    var t := Strip(s);
    var a, b := s[..|s| - |l|], l[|t|..];
    assert s == a + (t + b);
  }

  lemma {:induction false} StripLeftIs(s: string)
    ensures var t := StripLeft(s); var k := |s| - |t|;
            0 <= k && t == s[k..] && AllBlank(s[..k]) && (t == "" || !IsBlank(t[0]))
  {
    hide IsBlank;
    if s != [] && IsBlank(s[0]) {
      StripLeftIs(s[1..]);
      var k := |s| - |StripLeft(s)|;
      assert forall i :: 0 < i < k ==> s[i] == s[1..][..k - 1][i - 1];
    }
  }

  lemma {:induction false} StripRightIs(s: string)
    ensures var t := StripRight(s);
            |t| <= |s| && t == s[..|t|] && AllBlank(s[|t|..]) && (t == "" || !IsBlank(t[|t| - 1]))
    decreases |s|
  {
    hide IsBlank;
    if s != [] && IsBlank(s[|s| - 1]) {
      var front := s[..|s| - 1];
      StripRightIs(front);
      var n := |StripRight(s)|;
      assert s[n..] == front[n..] + [s[|s| - 1]];
    }
  }

  /** The position of the first c, or -1. */
  function Find(s: string, c: char): (p: int)
    ensures -1 <= p < |s|
    ensures p >= 0 ==> s[p] == c && forall q :: 0 <= q < p ==> s[q] != c
    ensures p < 0 <==> c !in s
  {
    if s == [] then -1
    else if s[0] == c then 0
    else var p := Find(s[1..], c); if p < 0 then -1 else p + 1
  }

  /** Split at its first c, a text is what stands before it and what stands behind. */
  lemma SplitAt(a: string, c: char, b: string)
    requires c !in a
    ensures var s := a + ([c] + b); Find(s, c) == |a| && s[..|a|] == a && s[|a| + 1..] == b
  {
    var s := a + ([c] + b);
    assert s[|a|] == c && forall i :: 0 <= i < |a| ==> s[i] == a[i];
  }
}
