/** When rewriting the [global] section twice is rewriting it once. */
module GlobalParamsTwice {
  import opened Basics
  import opened Text
  import opened ConfText
  import opened GlobalParams

  /** Is everything to be set handled? */
  ghost predicate AllSetIn(pairs: seq<Pair>, keys: set<string>) {
    forall k :: Sets(pairs, k) ==> k in keys
  }

  /** The keys met in what is left of the section. */
  function MetHere(lines: seq<string>): set<string> {
    if lines == [] then {}
    else
      var kind := KindOf(lines[0]);
      if kind.Header? || kind.Include? then {}
      else (if kind.Entry? then {kind.key} else {}) + MetHere(lines[1..])
  }

  /** What is left of the file after the section. */
  function AfterHere(lines: seq<string>): seq<string> {
    if lines == [] then []
    else
      var kind := KindOf(lines[0]);
      if kind.Header? || kind.Include? then lines else AfterHere(lines[1..])
  }

  /** A line written before, met again: the same if its key is not handled yet, else gone. */
  lemma RewriteSetLine(pairs: seq<Pair>, key: string, rest: seq<string>, handled: set<string>)
    requires CleanPairs(pairs) && Sets(pairs, key)
    ensures Rewrite([LineFor(pairs, key)] + rest, pairs, true, handled)
         == (if key in handled then [] else [LineFor(pairs, key)]) + Rewrite(rest, pairs, true, handled + {key})
  {
    hide KindOf, CleanPairs, Rewrite, Flush;
    LineForKind(pairs, key);
    PairForFinds(pairs, key);
    RewriteStep(LineFor(pairs, key), rest, pairs, true, handled);
  }

  /** Lines written before, none of their keys handled yet: all stay. */
  lemma {:induction false} FlushedStays(pairs: seq<Pair>, keys: seq<string>, rest: seq<string>, handled: set<string>)
    requires CleanPairs(pairs) && forall i :: 0 <= i < |keys| ==> Sets(pairs, keys[i]) && keys[i] !in handled
    requires forall i, j :: 0 <= i < j < |keys| ==> keys[i] != keys[j]
    ensures Rewrite(LinesFor(pairs, keys) + rest, pairs, true, handled)
         == LinesFor(pairs, keys) + Rewrite(rest, pairs, true, handled + (set k | k in keys))
    decreases |keys|
  {
    hide KindOf, CleanPairs, LineFor, Rewrite, Sets;
    if keys == [] {
      assert LinesFor(pairs, keys) + rest == rest && [] + Rewrite(rest, pairs, true, handled) == Rewrite(rest, pairs, true, handled);
      assert handled + (set k | k in keys) == handled;
    } else {
      var more, line, lines := handled + {keys[0]}, LineFor(pairs, keys[0]), LinesFor(pairs, keys[1..]);
      assert LinesFor(pairs, keys) + rest == [line] + (lines + rest);
      RewriteSetLine(pairs, keys[0], lines + rest, handled);
      FlushedStays(pairs, keys[1..], rest, more);
      assert more + (set k | k in keys[1..]) == handled + (set k | k in keys);
      var tail := Rewrite(rest, pairs, true, handled + (set k | k in keys));
      assert [line] + (lines + tail) == LinesFor(pairs, keys) + tail;
    }
  }

  /** Lines written before, all of their keys handled by now: all go. */
  lemma {:induction false} FlushedGoes(pairs: seq<Pair>, keys: seq<string>, rest: seq<string>, handled: set<string>)
    requires CleanPairs(pairs) && forall i :: 0 <= i < |keys| ==> Sets(pairs, keys[i]) && keys[i] in handled
    ensures Rewrite(LinesFor(pairs, keys) + rest, pairs, true, handled) == Rewrite(rest, pairs, true, handled)
    decreases |keys|
  {
    hide KindOf, CleanPairs, LineFor, Rewrite, Sets;
    if keys == [] {
      assert LinesFor(pairs, keys) + rest == rest;
    } else {
      var lines := LinesFor(pairs, keys[1..]);
      assert LinesFor(pairs, keys) + rest == [LineFor(pairs, keys[0])] + (lines + rest);
      RewriteSetLine(pairs, keys[0], lines + rest, handled);
      assert handled + {keys[0]} == handled;
      FlushedGoes(pairs, keys[1..], rest, handled);
      assert [] + Rewrite(rest, pairs, true, handled) == Rewrite(rest, pairs, true, handled);
    }
  }

  lemma {:induction false} MissingDistinct(pairs: seq<Pair>, handled: set<string>)
    requires CleanPairs(pairs)
    ensures forall i, j :: 0 <= i < j < |Missing(pairs, handled)| ==> Missing(pairs, handled)[i] != Missing(pairs, handled)[j]
  {
    if pairs != [] {
      CleanTail(pairs);
      MissingDistinct(pairs[1..], handled);
      var rest := Missing(pairs[1..], handled);
      forall i | 0 <= i < |rest| ensures rest[i] != Lower(pairs[0].key) {
        MissingKeys(pairs[1..], handled, rest[i]);
        assert forall j :: 0 <= j < |pairs[1..]| ==> pairs[1..][j] == pairs[j + 1];
      }
    }
  }

  lemma {:induction false} LinesForSize(pairs: seq<Pair>, keys: seq<string>)
    ensures |LinesFor(pairs, keys)| == |keys|
  {
    if keys != [] {
      LinesForSize(pairs, keys[1..]);
    }
  }

  /** A flush is empty exactly when everything to be set is handled. */
  lemma FlushEmpty(pairs: seq<Pair>, handled: set<string>)
    requires CleanPairs(pairs)
    ensures Flush(pairs, handled) == [] <==> AllSetIn(pairs, handled)
  {
    hide Flush, Missing, Sets, CleanPairs;
    FlushLines(pairs, handled);
    var keys := Missing(pairs, handled);
    LinesForSize(pairs, keys);
    if keys != [] {
      assert keys[0] in keys;
    }
  }

  /** The two passes agree on what is handled. */
  ghost predicate SameSets(pairs: seq<Pair>, a: set<string>, b: set<string>) {
    forall k :: Sets(pairs, k) ==> (k in a <==> k in b)
  }

  /** A flush met again where nothing in it is handled stays; where all is, it goes. */
  lemma FlushAgain(pairs: seq<Pair>, handled: set<string>, rest: seq<string>, again: set<string>) returns (now: set<string>)
    requires CleanPairs(pairs) && (SameSets(pairs, handled, again) || AllSetIn(pairs, again))
    ensures AllSetIn(pairs, now)
    ensures AllSetIn(pairs, again) ==> Rewrite(Flush(pairs, handled) + rest, pairs, true, again) == Rewrite(rest, pairs, true, now)
    ensures SameSets(pairs, handled, again) ==>
      Rewrite(Flush(pairs, handled) + rest, pairs, true, again) == Flush(pairs, handled) + Rewrite(rest, pairs, true, now)
  {
    hide Flush, Missing, LinesFor, Sets, CleanPairs, Rewrite;
    FlushLines(pairs, handled);
    MissingDistinct(pairs, handled);
    var keys := Missing(pairs, handled);
    forall i | 0 <= i < |keys| ensures Sets(pairs, keys[i]) && keys[i] !in handled {
      assert keys[i] in keys;
    }
    if AllSetIn(pairs, again) {
      FlushedGoes(pairs, keys, rest, again);
      now := again;
      if SameSets(pairs, handled, again) {
        FlushEmpty(pairs, handled);
        assert [] + Rewrite(rest, pairs, true, now) == Rewrite(rest, pairs, true, now);
      }
    } else {
      FlushedStays(pairs, keys, rest, again);
      now := again + (set k | k in keys);
    }
  }

  lemma ReplacementCases(pairs: seq<Pair>, handled: set<string>, line: string)
    requires CleanPairs(pairs) && !KindOf(line).Header? && !KindOf(line).Include?
    ensures var kind := KindOf(line);
            if !kind.Entry? || PairFor(pairs, kind.key).None? then
              Replacement(pairs, handled, line) == [line] && Handled(pairs, handled, line) == handled
              && (kind.Entry? ==> !Sets(pairs, kind.key))
            else
              Handled(pairs, handled, line) == handled + {kind.key}
              && Replacement(pairs, handled, line)
                 == if kind.key !in handled && Sets(pairs, kind.key) then [LineFor(pairs, kind.key)] else []
  {
    hide KindOf, CleanPairs;
    if KindOf(line).Entry? {
      PairForFinds(pairs, KindOf(line).key);
    }
  }

  /** Behind the first section a second pass adds nothing, and removes whatever the first pass wrote. */
  lemma {:induction false} TwiceBehind(lines: seq<string>, pairs: seq<Pair>, inGlobal: bool, handled: set<string>, again: set<string>)
    requires CleanPairs(pairs) && AllSetIn(pairs, again)
    ensures var once := Rewrite(lines, pairs, inGlobal, handled);
            var twice := Rewrite(once, pairs, inGlobal, again);
            if AllSetIn(pairs, handled) || (!inGlobal && !HasGlobal(lines)) then twice == once else |twice| < |once|
    decreases |lines|
  {
    hide KindOf, CleanPairs, Rewrite, Flush, Replacement, Handled, Sets, HasGlobal, AllSetIn;
    var once := Rewrite(lines, pairs, inGlobal, handled);
    FlushEmpty(pairs, again);
    FlushEmpty(pairs, handled);
    if lines == [] {
      RewriteEnd(pairs, inGlobal, handled);
      RewriteEnd(pairs, inGlobal, again);
      NoLinesNoGlobal();
      if inGlobal {
        assert Flush(pairs, handled) + [] == once;
        var now := FlushAgain(pairs, handled, [], again);
        RewriteEnd(pairs, inGlobal, now);
        FlushEmpty(pairs, now);
      }
    } else {
      var kind, opens := KindOf(lines[0]), KindOf(lines[0]) == Header(true);
      assert lines == [lines[0]] + lines[1..];
      RewriteStep(lines[0], lines[1..], pairs, inGlobal, handled);
      HasGlobalStep(lines);
      if !inGlobal || kind.Header? || kind.Include? {
        var rest := Rewrite(lines[1..], pairs, opens, handled);
        if inGlobal {
          var now := FlushAgain(pairs, handled, [lines[0]] + rest, again);
          FlushEmpty(pairs, now);
          RewriteStep(lines[0], rest, pairs, true, now);
          assert [] + ([lines[0]] + Rewrite(rest, pairs, opens, now)) == [lines[0]] + Rewrite(rest, pairs, opens, now);
          TwiceBehind(lines[1..], pairs, opens, handled, now);
        } else {
          RewriteStep(lines[0], rest, pairs, false, again);
          TwiceBehind(lines[1..], pairs, opens, handled, again);
        }
      } else {
        TwiceBehindLine(lines, pairs, handled, again);
      }
    }
  }

  lemma NoLinesNoGlobal()
    ensures !HasGlobal([])
  {
  }

  lemma HandledGrows(pairs: seq<Pair>, handled: set<string>, key: string)
    ensures AllSetIn(pairs, handled) ==> AllSetIn(pairs, handled + {key})
    ensures key in handled || !Sets(pairs, key) ==> (AllSetIn(pairs, handled) <==> AllSetIn(pairs, handled + {key}))
    ensures key !in handled && Sets(pairs, key) ==> !AllSetIn(pairs, handled)
  {
    hide Sets;
  }

  lemma {:induction false} TwiceBehindLine(lines: seq<string>, pairs: seq<Pair>, handled: set<string>, again: set<string>)
    requires CleanPairs(pairs) && AllSetIn(pairs, again)
    requires lines != [] && !KindOf(lines[0]).Header? && !KindOf(lines[0]).Include?
    ensures var once := Rewrite(lines, pairs, true, handled);
            var twice := Rewrite(once, pairs, true, again);
            if AllSetIn(pairs, handled) then twice == once else |twice| < |once|
    decreases |lines|, 0
  {
    hide KindOf, CleanPairs, Rewrite, Flush, Replacement, Handled, Sets, HasGlobal, AllSetIn;
    var kind := KindOf(lines[0]);
    assert lines == [lines[0]] + lines[1..];
    RewriteStep(lines[0], lines[1..], pairs, true, handled);
    ReplacementCases(pairs, handled, lines[0]);
    ReplacementCases(pairs, again, lines[0]);
    var more := Handled(pairs, handled, lines[0]);
    var rest := Rewrite(lines[1..], pairs, true, more);
    if !kind.Entry? || PairFor(pairs, kind.key).None? {
      RewriteStep(lines[0], rest, pairs, true, again);
      TwiceBehind(lines[1..], pairs, true, handled, again);
    } else {
      HandledGrows(pairs, handled, kind.key);
      if kind.key !in handled && Sets(pairs, kind.key) {
        RewriteSetLine(pairs, kind.key, rest, again);
        HandledGrows(pairs, again, kind.key);
        assert [] + Rewrite(rest, pairs, true, again + {kind.key}) == Rewrite(rest, pairs, true, again + {kind.key});
        TwiceBehind(lines[1..], pairs, true, more, again + {kind.key});
      } else {
        assert [] + rest == rest;
        TwiceBehind(lines[1..], pairs, true, more, again);
      }
    }
  }

  /** In the first section a second pass writes what the first wrote, and has then handled it all. */
  lemma {:induction false} TwiceInFirst(lines: seq<string>, pairs: seq<Pair>, handled: set<string>, again: set<string>)
    requires CleanPairs(pairs) && SameSets(pairs, handled, again)
    ensures var once := Rewrite(lines, pairs, true, handled);
            var twice := Rewrite(once, pairs, true, again);
            if !HasGlobal(AfterHere(lines)) || AllSetIn(pairs, handled + MetHere(lines)) then twice == once else |twice| < |once|
    decreases |lines|
  {
    hide KindOf, CleanPairs, Rewrite, Flush, Replacement, Handled, Sets, HasGlobal, AllSetIn, SameSets;
    var once := Rewrite(lines, pairs, true, handled);
    if lines == [] {
      RewriteEnd(pairs, true, handled);
      NoLinesNoGlobal();
      assert Flush(pairs, handled) + [] == once;
      var now := FlushAgain(pairs, handled, [], again);
      RewriteEnd(pairs, true, now);
      FlushEmpty(pairs, now);
    } else {
      var kind, opens := KindOf(lines[0]), KindOf(lines[0]) == Header(true);
      assert lines == [lines[0]] + lines[1..];
      if kind.Header? || kind.Include? {
        RewriteStep(lines[0], lines[1..], pairs, true, handled);
        HasGlobalStep(lines);
        var rest := Rewrite(lines[1..], pairs, opens, handled);
        var now := FlushAgain(pairs, handled, [lines[0]] + rest, again);
        FlushEmpty(pairs, now);
        RewriteStep(lines[0], rest, pairs, true, now);
        assert [] + ([lines[0]] + Rewrite(rest, pairs, opens, now)) == [lines[0]] + Rewrite(rest, pairs, opens, now);
        assert handled + {} == handled;
        TwiceBehind(lines[1..], pairs, opens, handled, now);
      } else {
        TwiceInFirstLine(lines, pairs, handled, again);
      }
    }
  }

  lemma SameSetsGrow(pairs: seq<Pair>, a: set<string>, b: set<string>, key: string)
    requires SameSets(pairs, a, b)
    ensures SameSets(pairs, a + {key}, b + {key})
    ensures key in a || !Sets(pairs, key) ==> SameSets(pairs, a + {key}, b)
    ensures Sets(pairs, key) ==> (key in a <==> key in b)
  {
    hide Sets;
  }

  lemma AllSetInUnless(pairs: seq<Pair>, keys: set<string>, key: string)
    requires !Sets(pairs, key)
    ensures AllSetIn(pairs, keys + {key}) <==> AllSetIn(pairs, keys)
  {
    hide Sets;
  }

  lemma {:induction false} TwiceInFirstLine(lines: seq<string>, pairs: seq<Pair>, handled: set<string>, again: set<string>)
    requires CleanPairs(pairs) && SameSets(pairs, handled, again)
    requires lines != [] && !KindOf(lines[0]).Header? && !KindOf(lines[0]).Include?
    ensures var once := Rewrite(lines, pairs, true, handled);
            var twice := Rewrite(once, pairs, true, again);
            if !HasGlobal(AfterHere(lines)) || AllSetIn(pairs, handled + MetHere(lines)) then twice == once else |twice| < |once|
    decreases |lines|, 0
  {
    hide KindOf, CleanPairs, Rewrite, Flush, Replacement, Handled, Sets, HasGlobal, AllSetIn, SameSets;
    var kind := KindOf(lines[0]);
    assert lines == [lines[0]] + lines[1..];
    RewriteStep(lines[0], lines[1..], pairs, true, handled);
    ReplacementCases(pairs, handled, lines[0]);
    ReplacementCases(pairs, again, lines[0]);
    var more := Handled(pairs, handled, lines[0]);
    var rest := Rewrite(lines[1..], pairs, true, more);
    var here := MetHere(lines[1..]);
    if !kind.Entry? || PairFor(pairs, kind.key).None? {
      RewriteStep(lines[0], rest, pairs, true, again);
      TwiceInFirst(lines[1..], pairs, handled, again);
      if kind.Entry? {
        AllSetInUnless(pairs, handled + here, kind.key);
        assert (handled + here) + {kind.key} == handled + ({kind.key} + here);
      } else {
        assert handled + ({} + here) == handled + here;
      }
    } else {
      SameSetsGrow(pairs, handled, again, kind.key);
      assert more + here == handled + ({kind.key} + here);
      if kind.key !in handled && Sets(pairs, kind.key) {
        RewriteSetLine(pairs, kind.key, rest, again);
        TwiceInFirst(lines[1..], pairs, more, again + {kind.key});
      } else {
        assert [] + rest == rest;
        TwiceInFirst(lines[1..], pairs, more, again);
      }
    }
  }

  /** The lines behind the first [global] header. */
  function Section(lines: seq<string>): seq<string> {
    if lines == [] then []
    else if KindOf(lines[0]) == Header(true) then lines[1..]
    else Section(lines[1..])
  }

  /** No second [global] header, or each key to be set already occurs in the first section. */
  ghost predicate Stable(lines: seq<string>, pairs: seq<Pair>) {
    !HasGlobal(AfterHere(Section(lines))) || AllSetIn(pairs, MetHere(Section(lines)))
  }

  /** A second pass changes nothing exactly for stable files; otherwise it takes lines away. */
  lemma {:induction false} TwiceIsOnce(lines: seq<string>, pairs: seq<Pair>)
    requires CleanPairs(pairs)
    ensures var once := Rewrite(lines, pairs, false, {});
            var twice := Rewrite(once, pairs, false, {});
            if Stable(lines, pairs) then twice == once else |twice| < |once|
    decreases |lines|
  {
    hide KindOf, CleanPairs, Rewrite, HasGlobal, AllSetIn, SameSets;
    if lines == [] {
      RewriteEnd(pairs, false, {});
      NoLinesNoGlobal();
    } else {
      assert lines == [lines[0]] + lines[1..];
      var opens := KindOf(lines[0]) == Header(true);
      RewriteStep(lines[0], lines[1..], pairs, false, {});
      RewriteStep(lines[0], Rewrite(lines[1..], pairs, opens, {}), pairs, false, {});
      if opens {
        NothingHandled(pairs);
        TwiceInFirst(lines[1..], pairs, {}, {});
        assert {} + MetHere(lines[1..]) == MetHere(lines[1..]);
      } else {
        TwiceIsOnce(lines[1..], pairs);
      }
    }
  }

  lemma NothingHandled(pairs: seq<Pair>)
    ensures SameSets(pairs, {}, {})
  {
  }

  /** Lines that stay may end in a carriage return, from a line end of the form CR CR LF; the rewritten
      file then reads one CR less. */
  lemma {:induction false} NoCrOut(lines: seq<string>, pairs: seq<Pair>, inGlobal: bool, handled: set<string>)
    requires CleanPairs(pairs)
    ensures NoCr(Rewrite(lines, pairs, inGlobal, handled)) <==> NoCr(Others(lines, pairs, inGlobal))
    decreases |lines|
  {
    hide KindOf, CleanPairs, Rewrite, Others, Flush, Replacement, Handled, StripCr, NoCr;
    FlushClean(pairs, handled);
    StrippedSame(Flush(pairs, handled));
    if lines == [] {
      RewriteEnd(pairs, inGlobal, handled);
      NoneCr(pairs, inGlobal);
    } else {
      var line, rest := lines[0], lines[1..];
      assert lines == [line] + rest;
      RewriteStep(line, rest, pairs, inGlobal, handled);
      OthersStep(line, rest, pairs, inGlobal);
      var kind := KindOf(line);
      if !inGlobal || kind.Header? || kind.Include? {
        var more, opens := Rewrite(rest, pairs, kind.Header? && kind.global, handled), kind.Header? && kind.global;
        NoCrOut(rest, pairs, opens, handled);
        NoCrCons(line, more);
        NoCrCons(line, Others(rest, pairs, opens));
        if inGlobal {
          NoCrAppend(Flush(pairs, handled), [line] + more);
        }
      } else {
        var more := Rewrite(rest, pairs, true, Handled(pairs, handled, line));
        NoCrOut(rest, pairs, true, Handled(pairs, handled, line));
        NoCrAppend(Replacement(pairs, handled, line), more);
        NoCrCons(line, Others(rest, pairs, true));
        NoCrReplacement(pairs, handled, line);
      }
    }
  }

  lemma NoneCr(pairs: seq<Pair>, inGlobal: bool)
    ensures NoCr([]) && Others([], pairs, inGlobal) == []
  {
  }

  lemma NoCrCons(line: string, rest: seq<string>)
    ensures NoCr([line] + rest) <==> StripCr(line) == line && NoCr(rest)
  {
    NoCrStep([line] + rest);
    assert ([line] + rest)[1..] == rest;
  }

  lemma NoCrAppend(a: seq<string>, b: seq<string>)
    ensures NoCr(a + b) <==> NoCr(a) && NoCr(b)
  {
    hide StripCr;
    if NoCr(a + b) {
      forall i | 0 <= i < |a| ensures StripCr(a[i]) == a[i] {
        assert (a + b)[i] == a[i];
      }
      forall i | 0 <= i < |b| ensures StripCr(b[i]) == b[i] {
        assert (a + b)[|a| + i] == b[i];
      }
    }
  }

  lemma NoCrReplacement(pairs: seq<Pair>, handled: set<string>, line: string)
    requires CleanPairs(pairs)
    ensures NoCr(Replacement(pairs, handled, line)) <==>
      StripCr(line) == line || (KindOf(line).Entry? && PairFor(pairs, KindOf(line).key).Some?)
  {
    hide KindOf, StripCr, SetLine, CleanKey;
    var kind := KindOf(line);
    if kind.Entry? && PairFor(pairs, kind.key).Some? {
      PairForFinds(pairs, kind.key);
      var p := PairFor(pairs, kind.key).value;
      if p.value.Some? {
        SetLineEnds(p.key, p.value.value);
      }
    } else {
      assert [line][0] == line;
    }
  }

  lemma EmptyFile(pairs: seq<Pair>)
    ensures Rewrite([], pairs, false, {}) == [] && TextOf([]) == "\n" == TextOf([""])
    ensures Rewrite([""], pairs, false, {}) == [""] && Stable([], pairs) && NoCr(Others([], pairs, false))
  {
    BlankLine();
    NoLinesNoGlobal();
    assert [""][1..] == [];
  }

  /** Applying the same parameters twice gives the same file as once exactly when the file is stable and
      no line that stays ends in a carriage return of its own. */
  lemma ApplyTwice(conf: string, pairs: seq<Pair>)
    requires CleanPairs(pairs)
    ensures Apply(Apply(conf, pairs), pairs) == Apply(conf, pairs)
       <==> Stable(Lines(conf), pairs) && NoCr(Others(Lines(conf), pairs, false))
  {
    hide KindOf, Rewrite, CleanPairs, Lines, TextOf, Stable, NoCr, Others;
    var lines := Lines(conf);
    var out := Rewrite(lines, pairs, false, {});
    LinesHaveNoBreaks(conf);
    RewriteNoBreaks(lines, pairs, false, {});
    LinesOfText(out);
    NoCrOut(lines, pairs, false, {});
    StrippedSame(out);
    TwiceIsOnce(lines, pairs);
    if lines == [] {
      EmptyFile(pairs);
    } else {
      var again := Rewrite(out, pairs, false, {});
      RewriteStripped(out, pairs, false, {});
      StrippedSame(again);
      StrippedNoBreaks(out);
      RewriteNoBreaks(Stripped(out), pairs, false, {});
      if TextOf(Stripped(again)) == TextOf(out) {
        TextOfInjective(Stripped(again), out);
      }
    }
  }

  lemma KeySet()
    ensures CleanPairs([Pair("k", Some("v"))]) && Sets([Pair("k", Some("v"))], "k")
  {
    assert TrimLeft("k") == "k" && TrimRight("k") == "k" && Lower("k") == "k";
  }

  lemma OneGlobal()
    ensures HasGlobal(["[global]"])
  {
    hide KindOf;
    GlobalHeader();
    assert ["[global]"][0] == "[global]";
  }

  lemma NotSetIn(pairs: seq<Pair>, key: string, keys: set<string>)
    requires Sets(pairs, key) && key !in keys
    ensures !AllSetIn(pairs, keys)
  {
  }

  /** Two [global] headers: each gets the parameter, and a second pass takes it out of the second. */
  lemma TwiceCanDiffer()
    ensures var conf, pairs := "[global]\n" + "[global]\n", [Pair("k", Some("v"))];
            CleanPairs(pairs) && Apply(Apply(conf, pairs), pairs) != Apply(conf, pairs)
  {
    hide KindOf, CleanPairs, Sets, HasGlobal, AllSetIn, Lines, Apply;
    var lines, pairs := ["[global]", "[global]"], [Pair("k", Some("v"))];
    GlobalHeader();
    KeySet();
    assert lines[1..] == ["[global]"];
    assert Section(lines) == ["[global]"] == AfterHere(["[global]"]) && MetHere(["[global]"]) == {};
    OneGlobal();
    NotSetIn(pairs, "k", {});
    assert !Stable(lines, pairs);
    TwoHeaders();
    ApplyTwice("[global]\n" + "[global]\n", pairs);
  }

  lemma TwoHeaders()
    ensures Lines("[global]\n" + "[global]\n") == ["[global]", "[global]"]
  {
    hide Find;
    var line := "[global]";
    assert '\n' !in line && StripCr(line) == line;
    var lines := [line, line];
    assert lines[1..] == [line] && [line][1..] == [];
    assert TextOf([line]) == line + "\n" && TextOf(lines) == line + "\n" + TextOf([line]);
    assert TextOf(lines) == "[global]\n" + "[global]\n" by {
      assert line + "\n" == "[global]\n";
    }
    LinesOfText(lines);
    assert Stripped(lines) == [line] + Stripped([line]) && Stripped([line]) == [line] + Stripped([]);
  }
}
