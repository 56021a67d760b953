/** What plain expressions find, as a check on how expressions are read: a word is found where it stands, in any
    case, and a repeated letter where it stands often enough. */
module RegexWords {
  import opened Basics
  import opened Text
  import opened Regex

  /** The expression of a word: its letters one after the other. */
  function Letters(word: string): (ops: seq<Op>)
    ensures |ops| == |word|
  {
    seq(|word|, k requires 0 <= k < |word| => Literal(word[k]))
  }

  ghost predicate StandsAt(word: string, s: string, i: nat) {
    i + |word| <= |s| && forall k :: 0 <= k < |word| ==> SameLetter(s[i + k], word[k])
  }

  lemma {:induction false} LettersMatch(word: string, s: string, i: nat, j: nat)
    requires i <= |s|
    ensures Matches(Letters(word), s, i, j) <==> j == i + |word| && StandsAt(word, s, i)
    decreases |word|
  {
    hide SameLetter;
    var ops := Letters(word);
    if word != "" {
      var rest := word[1..];
      assert ops[0] == Literal(word[0]) && ops[1..] == Letters(rest);
      if i < |s| {
        LettersMatch(rest, s, i + 1, j);
        StandsStep(word, s, i);
        assert OpMatches(ops[0], s, i, i + 1) <==> SameLetter(s[i], word[0]);
      }
    }
  }

  lemma StandsStep(word: string, s: string, i: nat)
    requires word != "" && i < |s|
    ensures StandsAt(word, s, i) <==> SameLetter(s[i], word[0]) && StandsAt(word[1..], s, i + 1)
  {
    hide SameLetter;
    var rest := word[1..];
    if SameLetter(s[i], word[0]) && StandsAt(rest, s, i + 1) {
      forall k | 0 <= k < |word| ensures SameLetter(s[i + k], word[k]) {
        if k > 0 {
          assert SameLetter(s[i + 1 + (k - 1)], rest[k - 1]);
        }
      }
    }
    if StandsAt(word, s, i) {
      assert SameLetter(s[i + 0], word[0]);
      forall k | 0 <= k < |rest| ensures SameLetter(s[i + 1 + k], rest[k]) {
        assert SameLetter(s[i + (k + 1)], word[k + 1]);
      }
    }
  }

  /** Searching for a word is looking for it in the text, in any case. */
  lemma WordSearch(word: string, s: string)
    ensures Search(Letters(word), s) <==> Contains(Lower(s), Lower(word))
  {
    hide Matches;
    forall i: nat | i <= |s| ensures StandsAt(word, s, i) <==> ContainsAt(Lower(s), Lower(word), i) {
      StandsIs(word, s, i);
    }
    forall i: nat, j: nat | i <= |s| ensures Matches(Letters(word), s, i, j) <==> j == i + |word| && StandsAt(word, s, i) {
      LettersMatch(word, s, i, j);
    }
    if Contains(Lower(s), Lower(word)) {
      var i :| 0 <= i <= |Lower(s)| && ContainsAt(Lower(s), Lower(word), i);
      assert Matches(Letters(word), s, i, i + |word|);
    }
  }

  lemma StandsIs(word: string, s: string, i: nat)
    ensures StandsAt(word, s, i) <==> ContainsAt(Lower(s), Lower(word), i)
  {
    if i + |word| <= |s| {
      var part := Lower(s)[i..i + |word|];
      assert forall k :: 0 <= k < |word| ==> part[k] == LowerChar(s[i + k]) && Lower(word)[k] == LowerChar(word[k]);
    }
  }

  ghost predicate AllLetter(c: char, s: string, i: nat, j: nat) {
    i <= j <= |s| && forall k :: i <= k < j ==> SameLetter(s[k], c)
  }

  lemma OneLetter(c: char, s: string, i: nat, j: nat)
    ensures Matches([Literal(c)], s, i, j) <==> i < |s| && j == i + 1 && SameLetter(s[i], c)
  {
    hide SameLetter;
    assert [Literal(c)][1..] == [];
    if i < |s| && j == i + 1 && SameLetter(s[i], c) {
      assert OpMatches([Literal(c)][0], s, i, j) && Matches([], s, j, j);
    }
  }

  lemma {:induction false} RepeatedLetter(c: char, s: string, i: nat, j: nat, n: nat)
    requires i <= |s|
    ensures Repeated([Literal(c)], s, i, j, n) <==> j == i + n && AllLetter(c, s, i, j)
    decreases n
  {
    hide SameLetter, Matches;
    if n > 0 {
      forall k: nat ensures Matches([Literal(c)], s, i, k) <==> i < |s| && k == i + 1 && SameLetter(s[i], c) {
        OneLetter(c, s, i, k);
      }
      if i < |s| {
        RepeatedLetter(c, s, i + 1, j, n - 1);
        assert Matches([Literal(c)], s, i, i + 1) <==> SameLetter(s[i], c);
      }
    }
  }

  /** A repeated letter matches a stretch of it, in any case, within the bounds given. */
  lemma RepeatMatches(c: char, least: nat, most: Option<nat>, s: string, i: nat, j: nat)
    requires i <= |s|
    ensures OpMatches(Repeat(least, most, [Literal(c)]), s, i, j)
       <==> AllLetter(c, s, i, j) && least <= j - i && (most.None? || j - i <= most.value)
  {
    hide AllLetter, Repeated;
    forall n: nat ensures Repeated([Literal(c)], s, i, j, n) <==> j == i + n && AllLetter(c, s, i, j) {
      RepeatedLetter(c, s, i, j, n);
    }
    AllOrdered(c, s, i, j);
    if AllLetter(c, s, i, j) && least <= j - i && (most.None? || j - i <= most.value) {
      assert Repeated([Literal(c)], s, i, j, j - i);
    }
  }

  lemma AllOrdered(c: char, s: string, i: nat, j: nat)
    ensures AllLetter(c, s, i, j) ==> i <= j
  {}
}
