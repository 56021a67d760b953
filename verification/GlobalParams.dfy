/** Rewriting parameters in the [global] section of smb.conf: what is read back, and what stays. */
module GlobalParams {
  import opened Basics
  import opened Text
  import opened ConfText

  /** A parameter to set, or with None to delete. */
  datatype Pair = Pair(key: string, value: Option<string>)

  /** What a line is. Keys are lowercased; an include line names a key too. */
  datatype Kind = Header(global: bool) | Include(key: string, value: string) | Entry(key: string, value: string) | Plain

  function KindOf(line: string): Kind {
    var t := Trim(line);
    var eq := Find(t, '=');
    if |t| >= 2 && t[0] == '[' && t[|t| - 1] == ']' then Header(Lower(Trim(t[1..|t| - 1])) == "global")
    else if eq < 0 then Plain
    else
      var key, value := Lower(Trim(t[..eq])), Trim(t[eq + 1..]);
      if StartsWith(Lower(t), "include") then Include(key, value) else Entry(key, value)
  }

  predicate Names(kind: Kind, key: string) {
    (kind.Entry? || kind.Include?) && kind.key == key
  }

  /** `read_global_param` on lines, from inside the section or outside it. The key is lowercased. */
  function Read(lines: seq<string>, key: string, inGlobal: bool): Option<string> {
    if lines == [] then None
    else
      var kind := KindOf(lines[0]);
      if kind.Header? then Read(lines[1..], key, kind.global)
      else if inGlobal && Names(kind, key) then Some(kind.value)
      else Read(lines[1..], key, inGlobal)
  }

  /** The pair for a key; keys match ignoring case. */
  function PairFor(pairs: seq<Pair>, key: string): Option<Pair> {
    if pairs == [] then None
    else if Lower(pairs[0].key) == key then Some(pairs[0])
    else PairFor(pairs[1..], key)
  }

  /** Lines for the parameters to set that have not been met. */
  function Flush(pairs: seq<Pair>, handled: set<string>): seq<string> {
    if pairs == [] then []
    else
      (if pairs[0].value.Some? && Lower(pairs[0].key) !in handled then [SetLine(pairs[0].key, pairs[0].value.value)] else [])
      + Flush(pairs[1..], handled)
  }

  /** What stands in place of a line met in the section. */
  function Replacement(pairs: seq<Pair>, handled: set<string>, line: string): seq<string> {
    var kind := KindOf(line);
    if !kind.Entry? || PairFor(pairs, kind.key).None? then [line]
    else
      var p := PairFor(pairs, kind.key).value;
      if kind.key !in handled && p.value.Some? then [SetLine(p.key, p.value.value)] else []
  }

  function Handled(pairs: seq<Pair>, handled: set<string>, line: string): set<string> {
    var kind := KindOf(line);
    if kind.Entry? && PairFor(pairs, kind.key).Some? then handled + {kind.key} else handled
  }

  /** `apply_global_params` on lines. */
  function Rewrite(lines: seq<string>, pairs: seq<Pair>, inGlobal: bool, handled: set<string>): seq<string> {
    if lines == [] then (if inGlobal then Flush(pairs, handled) else [])
    else
      var kind := KindOf(lines[0]);
      if !inGlobal then [lines[0]] + Rewrite(lines[1..], pairs, kind.Header? && kind.global, handled)
      else if kind.Header? || kind.Include? then
        Flush(pairs, handled) + ([lines[0]] + Rewrite(lines[1..], pairs, kind.Header? && kind.global, handled))
      else
        Replacement(pairs, handled, lines[0]) + Rewrite(lines[1..], pairs, true, Handled(pairs, handled, lines[0]))
  }

  ghost predicate CleanKey(key: string) {
    && key != "" && Trim(key) == key && key[0] != '['
    && '=' !in key && '\n' !in key && !StartsWith(Lower(key), "include")
  }

  /** Keys are distinct ignoring case, and neither keys nor values hold line ends: `set_global_params`
      turns control characters in values away. */
  ghost predicate CleanPairs(pairs: seq<Pair>) {
    && (forall i :: 0 <= i < |pairs| ==>
         CleanKey(pairs[i].key) && (pairs[i].value.Some? ==> '\n' !in pairs[i].value.value && '\r' !in pairs[i].value.value))
    && (forall i, j :: 0 <= i < j < |pairs| ==> Lower(pairs[i].key) != Lower(pairs[j].key))
  }

  predicate Sets(pairs: seq<Pair>, key: string) {
    PairFor(pairs, key).Some? && PairFor(pairs, key).value.value.Some?
  }

  /** What a key that is set will read as. */
  function NewValue(pairs: seq<Pair>, key: string): string {
    if Sets(pairs, key) then Trim(PairFor(pairs, key).value.value.value) else ""
  }

  // ---- pairs and their lines ----------------------------------------------------------------------

  lemma CleanEnds(key: string)
    requires CleanKey(key)
    ensures Solid(key)
  {
    SpaceFrontTrims(key);
    assert TrimLeft(key) == key;
    RightShorter(key[..|key| - 1]);
  }

  /** A line written is read as the key and the trimmed value. */
  lemma SetLineKind(key: string, value: string)
    requires CleanKey(key)
    ensures KindOf(SetLine(key, value)) == Entry(Lower(key), Trim(value))
  {
    hide SetLine, Trim, Lower;
    CleanEnds(key);
    SetLineSplits(key, value);
    NotInclude(key, Trim(SetLine(key, value))[|key| + 2..]);
  }

  lemma NotInclude(key: string, tail: string)
    requires CleanKey(key)
    ensures !StartsWith(Lower(key + " =" + tail), "include")
  {
    var t := key + " =" + tail;
    if |key| >= 7 {
      assert Lower(t)[..7] == Lower(key)[..7];
    } else {
      assert t[|key|] == ' ';
      PrefixAt(Lower(t), "include", |key|);
    }
  }

  lemma {:induction false} PairForFinds(pairs: seq<Pair>, key: string)
    ensures PairFor(pairs, key).Some? ==> PairFor(pairs, key).value in pairs && Lower(PairFor(pairs, key).value.key) == key
    ensures PairFor(pairs, key).None? ==> forall i :: 0 <= i < |pairs| ==> Lower(pairs[i].key) != key
  {
    if pairs != [] {
      PairForFinds(pairs[1..], key);
    }
  }

  lemma {:induction false} PairForAt(pairs: seq<Pair>, i: nat)
    requires CleanPairs(pairs) && i < |pairs|
    ensures PairFor(pairs, Lower(pairs[i].key)) == Some(pairs[i])
  {
    if i > 0 {
      assert Lower(pairs[0].key) != Lower(pairs[i].key);
      CleanTail(pairs);
      PairForAt(pairs[1..], i - 1);
    }
  }

  lemma CleanTail(pairs: seq<Pair>)
    requires CleanPairs(pairs) && pairs != []
    ensures CleanPairs(pairs[1..])
  {
    var rest := pairs[1..];
    assert forall i :: 0 <= i < |rest| ==> rest[i] == pairs[i + 1];
  }

  /** The line for a parameter to set. */
  function LineFor(pairs: seq<Pair>, key: string): string {
    var p := PairFor(pairs, key);
    if p.Some? && p.value.value.Some? then SetLine(p.value.key, p.value.value.value) else ""
  }

  lemma LineForKind(pairs: seq<Pair>, key: string)
    requires CleanPairs(pairs) && Sets(pairs, key)
    ensures KindOf(LineFor(pairs, key)) == Entry(key, NewValue(pairs, key))
  {
    hide KindOf;
    PairForFinds(pairs, key);
    var p := PairFor(pairs, key).value;
    SetLineKind(p.key, p.value.value);
  }

  /** The keys flushed, in order. */
  function Missing(pairs: seq<Pair>, handled: set<string>): seq<string> {
    if pairs == [] then []
    else
      (if pairs[0].value.Some? && Lower(pairs[0].key) !in handled then [Lower(pairs[0].key)] else [])
      + Missing(pairs[1..], handled)
  }

  function LinesFor(pairs: seq<Pair>, keys: seq<string>): seq<string> {
    if keys == [] then [] else [LineFor(pairs, keys[0])] + LinesFor(pairs, keys[1..])
  }

  lemma {:induction false} FlushIsMissing(pairs: seq<Pair>, i: nat, handled: set<string>)
    requires CleanPairs(pairs) && i <= |pairs|
    ensures Flush(pairs[i..], handled) == LinesFor(pairs, Missing(pairs[i..], handled))
    decreases |pairs| - i
  {
    hide CleanPairs, SetLine;
    if i < |pairs| {
      FlushIsMissing(pairs, i + 1, handled);
      assert pairs[i..][1..] == pairs[i + 1..] && pairs[i..][0] == pairs[i];
      PairForAt(pairs, i);
      var rest := Missing(pairs[i + 1..], handled);
      if pairs[i].value.Some? && Lower(pairs[i].key) !in handled {
        assert ([Lower(pairs[i].key)] + rest)[1..] == rest;
      } else {
        assert [] + rest == rest && [] + Flush(pairs[i + 1..], handled) == Flush(pairs[i + 1..], handled);
      }
    }
  }

  lemma {:induction false} MissingKeys(pairs: seq<Pair>, handled: set<string>, k: string)
    ensures k in Missing(pairs, handled) <==>
      k !in handled && exists j :: 0 <= j < |pairs| && Lower(pairs[j].key) == k && pairs[j].value.Some?
  {
    if pairs != [] {
      MissingKeys(pairs[1..], handled, k);
      if j :| 0 <= j < |pairs[1..]| && Lower(pairs[1..][j].key) == k && pairs[1..][j].value.Some? {
        assert pairs[j + 1] == pairs[1..][j];
      }
      if j :| 0 < j < |pairs| && Lower(pairs[j].key) == k && pairs[j].value.Some? {
        assert pairs[1..][j - 1] == pairs[j];
      }
    }
  }

  /** What is flushed is the lines of exactly the parameters to set not yet handled. */
  lemma FlushLines(pairs: seq<Pair>, handled: set<string>)
    requires CleanPairs(pairs)
    ensures Flush(pairs, handled) == LinesFor(pairs, Missing(pairs, handled))
    ensures forall k :: k in Missing(pairs, handled) <==> k !in handled && Sets(pairs, k)
  {
    hide Flush, Missing, LinesFor;
    assert pairs[0..] == pairs;
    FlushIsMissing(pairs, 0, handled);
    forall k ensures k in Missing(pairs, handled) <==> k !in handled && Sets(pairs, k) {
      PairForFinds(pairs, k);
      MissingKeys(pairs, handled, k);
      if j :| 0 <= j < |pairs| && Lower(pairs[j].key) == k && pairs[j].value.Some? {
        PairForAt(pairs, j);
      }
    }
  }

  // ---- reading after rewriting --------------------------------------------------------------------

  lemma ReadStep(line: string, rest: seq<string>, key: string, inGlobal: bool)
    ensures Read([line] + rest, key, inGlobal)
         == var kind := KindOf(line);
            if kind.Header? then Read(rest, key, kind.global)
            else if inGlobal && Names(kind, key) then Some(kind.value)
            else Read(rest, key, inGlobal)
  {
    assert ([line] + rest)[1..] == rest;
  }

  lemma RewriteStep(line: string, rest: seq<string>, pairs: seq<Pair>, inGlobal: bool, handled: set<string>)
    ensures Rewrite([line] + rest, pairs, inGlobal, handled)
         == var kind := KindOf(line);
            if !inGlobal then [line] + Rewrite(rest, pairs, kind.Header? && kind.global, handled)
            else if kind.Header? || kind.Include? then
              Flush(pairs, handled) + ([line] + Rewrite(rest, pairs, kind.Header? && kind.global, handled))
            else
              Replacement(pairs, handled, line) + Rewrite(rest, pairs, true, Handled(pairs, handled, line))
  {
    assert ([line] + rest)[1..] == rest;
  }

  lemma RewriteEnd(pairs: seq<Pair>, inGlobal: bool, handled: set<string>)
    ensures Rewrite([], pairs, inGlobal, handled) == if inGlobal then Flush(pairs, handled) else []
  {
  }

  /** Reading past lines that are entries, none for this key or the first for it. */
  lemma {:induction false} ReadFlushed(pairs: seq<Pair>, keys: seq<string>, rest: seq<string>, key: string)
    requires CleanPairs(pairs) && forall i :: 0 <= i < |keys| ==> Sets(pairs, keys[i])
    ensures Read(LinesFor(pairs, keys) + rest, key, true)
         == if key in keys then Some(NewValue(pairs, key)) else Read(rest, key, true)
    decreases |keys|
  {
    hide KindOf, CleanPairs, LineFor, Read;
    if keys == [] {
      assert LinesFor(pairs, keys) + rest == rest;
    } else {
      LineForKind(pairs, keys[0]);
      Assoc([LineFor(pairs, keys[0])], LinesFor(pairs, keys[1..]), rest);
      ReadStep(LineFor(pairs, keys[0]), LinesFor(pairs, keys[1..]) + rest, key, true);
      ReadFlushed(pairs, keys[1..], rest, key);
    }
  }

  /** What a flush does to a reading that goes on behind it. */
  lemma ReadFlush(pairs: seq<Pair>, handled: set<string>, rest: seq<string>, key: string)
    requires CleanPairs(pairs)
    ensures Read(Flush(pairs, handled) + rest, key, true)
         == if key !in handled && Sets(pairs, key) then Some(NewValue(pairs, key)) else Read(rest, key, true)
  {
    hide Flush, Missing, LinesFor, CleanPairs, Sets, Read;
    FlushLines(pairs, handled);
    var keys := Missing(pairs, handled);
    forall i | 0 <= i < |keys| ensures Sets(pairs, keys[i]) {
      assert keys[i] in keys;
    }
    ReadFlushed(pairs, keys, rest, key);
  }

  lemma ReadReplacement(pairs: seq<Pair>, handled: set<string>, line: string, rest: seq<string>, key: string)
    requires CleanPairs(pairs) && !KindOf(line).Header? && !KindOf(line).Include?
    ensures Read(Replacement(pairs, handled, line) + rest, key, true)
         == if !Names(KindOf(line), key) then Read(rest, key, true)
            else if PairFor(pairs, key).None? then Some(KindOf(line).value)
            else if key !in handled && Sets(pairs, key) then Some(NewValue(pairs, key))
            else Read(rest, key, true)
  {
    hide KindOf, CleanPairs, Read;
    var kind := KindOf(line);
    ReadStep(line, rest, key, true);
    if kind.Entry? && PairFor(pairs, kind.key).Some? {
      var p := PairFor(pairs, kind.key).value;
      if kind.key !in handled && p.value.Some? {
        LineForKind(pairs, kind.key);
        ReadStep(SetLine(p.key, p.value.value), rest, key, true);
      } else {
        assert [] + rest == rest;
      }
    }
  }

  /** A set key not met yet will read as its new value from here on, if the section is open or opens. */
  lemma {:induction false} SetReads(lines: seq<string>, pairs: seq<Pair>, inGlobal: bool, handled: set<string>, key: string)
    requires CleanPairs(pairs) && Sets(pairs, key) && key !in handled
    ensures Read(Rewrite(lines, pairs, inGlobal, handled), key, inGlobal)
         == if inGlobal || HasGlobal(lines) then Some(NewValue(pairs, key)) else None
    decreases |lines|
  {
    hide KindOf, CleanPairs, Read, Sets, Flush, Replacement;
    if lines == [] {
      assert Flush(pairs, handled) + [] == Flush(pairs, handled);
      ReadFlush(pairs, handled, [], key);
      ReadNone(key, inGlobal);
    } else {
      var kind := KindOf(lines[0]);
      HasGlobalStep(lines);
      if !inGlobal {
        var rest := Rewrite(lines[1..], pairs, kind.Header? && kind.global, handled);
        ReadStep(lines[0], rest, key, false);
        SetReads(lines[1..], pairs, kind.Header? && kind.global, handled, key);
      } else if kind.Header? || kind.Include? {
        var rest := Rewrite(lines[1..], pairs, kind.Header? && kind.global, handled);
        ReadFlush(pairs, handled, [lines[0]] + rest, key);
      } else {
        var more := Handled(pairs, handled, lines[0]);
        var rest := Rewrite(lines[1..], pairs, true, more);
        ReadReplacement(pairs, handled, lines[0], rest, key);
        if !Names(kind, key) {
          SetReads(lines[1..], pairs, true, more, key);
        } else {
          SetsIsPair(pairs, key);
        }
      }
    }
  }

  lemma SetsIsPair(pairs: seq<Pair>, key: string)
    requires Sets(pairs, key)
    ensures PairFor(pairs, key).Some?
  {
  }

  lemma ReadNone(key: string, inGlobal: bool)
    ensures Read([], key, inGlobal) == None
  {
  }

  ghost predicate HasGlobal(lines: seq<string>) {
    exists i :: 0 <= i < |lines| && KindOf(lines[i]) == Header(true)
  }

  lemma HasGlobalStep(lines: seq<string>)
    requires lines != []
    ensures HasGlobal(lines) <==> KindOf(lines[0]) == Header(true) || HasGlobal(lines[1..])
  {
    hide KindOf;
    if i :| 0 <= i < |lines[1..]| && KindOf(lines[1..][i]) == Header(true) {
      assert lines[i + 1] == lines[1..][i];
    }
    if i :| 0 < i < |lines| && KindOf(lines[i]) == Header(true) {
      assert lines[1..][i - 1] == lines[i];
    }
  }

  /** Does a key occur where the reader is in the section and the writer is not: behind an include? */
  ghost predicate Stray(lines: seq<string>, key: string, reading: bool, writing: bool) {
    lines != [] &&
    var kind := KindOf(lines[0]);
    if kind.Header? then Stray(lines[1..], key, kind.global, kind.global)
    else
      (reading && !writing && Names(kind, key))
      || (reading && writing && kind.Include? && Names(kind, key))
      || Stray(lines[1..], key, reading, writing && !kind.Include?)
  }

  /** A deleted key reads as absent exactly when it does not occur behind an include in the section. */
  lemma {:induction false} DeleteReads(lines: seq<string>, pairs: seq<Pair>, reading: bool, writing: bool, handled: set<string>, key: string)
    requires CleanPairs(pairs) && PairFor(pairs, key).Some? && PairFor(pairs, key).value.value.None? && (writing ==> reading)
    ensures Read(Rewrite(lines, pairs, writing, handled), key, reading) == None <==> !Stray(lines, key, reading, writing)
    decreases |lines|
  {
    hide KindOf, CleanPairs, Read, Flush, Replacement;
    if lines == [] {
      assert Flush(pairs, handled) + [] == Flush(pairs, handled);
      ReadFlush(pairs, handled, [], key);
      ReadNone(key, reading);
    } else {
      var kind := KindOf(lines[0]);
      if !writing {
        var rest := Rewrite(lines[1..], pairs, kind.Header? && kind.global, handled);
        ReadStep(lines[0], rest, key, reading);
        DeleteReads(lines[1..], pairs, if kind.Header? then kind.global else reading, kind.Header? && kind.global, handled, key);
      } else if kind.Header? || kind.Include? {
        var rest := Rewrite(lines[1..], pairs, kind.Header? && kind.global, handled);
        ReadFlush(pairs, handled, [lines[0]] + rest, key);
        ReadStep(lines[0], rest, key, true);
        DeleteReads(lines[1..], pairs, if kind.Header? then kind.global else true, kind.Header? && kind.global, handled, key);
      } else {
        var more := Handled(pairs, handled, lines[0]);
        ReadReplacement(pairs, handled, lines[0], Rewrite(lines[1..], pairs, true, more), key);
        DeleteReads(lines[1..], pairs, true, true, more, key);
      }
    }
  }

  /** A key that was not asked for reads as before. */
  lemma {:induction false} OtherReads(lines: seq<string>, pairs: seq<Pair>, reading: bool, writing: bool, handled: set<string>, key: string)
    requires CleanPairs(pairs) && PairFor(pairs, key).None? && (writing ==> reading)
    ensures Read(Rewrite(lines, pairs, writing, handled), key, reading) == Read(lines, key, reading)
    decreases |lines|
  {
    hide KindOf, CleanPairs, Read, Flush, Replacement;
    if lines == [] {
      assert Flush(pairs, handled) + [] == Flush(pairs, handled);
      ReadFlush(pairs, handled, [], key);
      ReadNone(key, reading);
    } else {
      var kind := KindOf(lines[0]);
      assert lines == [lines[0]] + lines[1..];
      ReadStep(lines[0], lines[1..], key, reading);
      if !writing {
        var rest := Rewrite(lines[1..], pairs, kind.Header? && kind.global, handled);
        ReadStep(lines[0], rest, key, reading);
        OtherReads(lines[1..], pairs, if kind.Header? then kind.global else reading, kind.Header? && kind.global, handled, key);
      } else if kind.Header? || kind.Include? {
        var rest := Rewrite(lines[1..], pairs, kind.Header? && kind.global, handled);
        ReadFlush(pairs, handled, [lines[0]] + rest, key);
        ReadStep(lines[0], rest, key, true);
        OtherReads(lines[1..], pairs, if kind.Header? then kind.global else true, kind.Header? && kind.global, handled, key);
      } else {
        var more := Handled(pairs, handled, lines[0]);
        ReadReplacement(pairs, handled, lines[0], Rewrite(lines[1..], pairs, true, more), key);
        OtherReads(lines[1..], pairs, true, true, more, key);
      }
    }
  }

  // ---- what stays ---------------------------------------------------------------------------------

  /** The lines without those in the section that belong to the parameters asked for. */
  function Others(lines: seq<string>, pairs: seq<Pair>, inGlobal: bool): seq<string> {
    if lines == [] then []
    else
      var kind := KindOf(lines[0]);
      if inGlobal && kind.Entry? && PairFor(pairs, kind.key).Some? then Others(lines[1..], pairs, true)
      else [lines[0]] + Others(lines[1..], pairs, if kind.Header? then kind.global else inGlobal && !kind.Include?)
  }

  lemma OthersStep(line: string, rest: seq<string>, pairs: seq<Pair>, inGlobal: bool)
    ensures Others([line] + rest, pairs, inGlobal)
         == var kind := KindOf(line);
            if inGlobal && kind.Entry? && PairFor(pairs, kind.key).Some? then Others(rest, pairs, true)
            else [line] + Others(rest, pairs, if kind.Header? then kind.global else inGlobal && !kind.Include?)
  {
    assert ([line] + rest)[1..] == rest;
  }

  lemma {:induction false} OthersFlushed(pairs: seq<Pair>, keys: seq<string>, rest: seq<string>)
    requires CleanPairs(pairs) && forall i :: 0 <= i < |keys| ==> Sets(pairs, keys[i])
    ensures Others(LinesFor(pairs, keys) + rest, pairs, true) == Others(rest, pairs, true)
    decreases |keys|
  {
    hide KindOf, CleanPairs, LineFor, Others;
    if keys == [] {
      assert LinesFor(pairs, keys) + rest == rest;
    } else {
      LineForKind(pairs, keys[0]);
      SetsIsPair(pairs, keys[0]);
      assert LinesFor(pairs, keys) + rest == [LineFor(pairs, keys[0])] + (LinesFor(pairs, keys[1..]) + rest);
      OthersStep(LineFor(pairs, keys[0]), LinesFor(pairs, keys[1..]) + rest, pairs, true);
      OthersFlushed(pairs, keys[1..], rest);
    }
  }

  lemma OthersFlush(pairs: seq<Pair>, handled: set<string>, rest: seq<string>)
    requires CleanPairs(pairs)
    ensures Others(Flush(pairs, handled) + rest, pairs, true) == Others(rest, pairs, true)
  {
    hide Flush, Missing, LinesFor, CleanPairs, Sets, Others;
    FlushLines(pairs, handled);
    var keys := Missing(pairs, handled);
    forall i | 0 <= i < |keys| ensures Sets(pairs, keys[i]) {
      assert keys[i] in keys;
    }
    OthersFlushed(pairs, keys, rest);
  }

  lemma OthersReplacement(pairs: seq<Pair>, handled: set<string>, line: string, rest: seq<string>)
    requires CleanPairs(pairs) && !KindOf(line).Header? && !KindOf(line).Include?
    ensures Others(Replacement(pairs, handled, line) + rest, pairs, true) == Others([line] + rest, pairs, true)
  {
    hide KindOf, CleanPairs, Others;
    var kind := KindOf(line);
    OthersStep(line, rest, pairs, true);
    if kind.Entry? && PairFor(pairs, kind.key).Some? {
      var p := PairFor(pairs, kind.key).value;
      if kind.key !in handled && p.value.Some? {
        LineForKind(pairs, kind.key);
        OthersStep(SetLine(p.key, p.value.value), rest, pairs, true);
      } else {
        assert [] + rest == rest;
      }
    }
  }

  /** Rewriting touches no other line, in the section or out of it, and keeps their order. */
  lemma {:induction false} OthersStay(lines: seq<string>, pairs: seq<Pair>, inGlobal: bool, handled: set<string>)
    requires CleanPairs(pairs)
    ensures Others(Rewrite(lines, pairs, inGlobal, handled), pairs, inGlobal) == Others(lines, pairs, inGlobal)
    decreases |lines|
  {
    hide KindOf, CleanPairs, Others, Flush, Replacement;
    if lines == [] {
      assert Flush(pairs, handled) + [] == Flush(pairs, handled);
      OthersFlush(pairs, handled, []);
    } else {
      var kind := KindOf(lines[0]);
      assert lines == [lines[0]] + lines[1..];
      OthersStep(lines[0], lines[1..], pairs, inGlobal);
      if !inGlobal || kind.Header? || kind.Include? {
        var rest := Rewrite(lines[1..], pairs, kind.Header? && kind.global, handled);
        OthersStep(lines[0], rest, pairs, inGlobal);
        OthersStay(lines[1..], pairs, kind.Header? && kind.global, handled);
        OthersFlush(pairs, handled, [lines[0]] + rest);
      } else {
        var more := Handled(pairs, handled, lines[0]);
        var rest := Rewrite(lines[1..], pairs, true, more);
        OthersReplacement(pairs, handled, lines[0], rest);
        OthersStep(lines[0], rest, pairs, true);
        OthersStay(lines[1..], pairs, true, more);
      }
    }
  }

  // ---- the promises, on text ----------------------------------------------------------------------

  function Apply(conf: string, pairs: seq<Pair>): string {
    TextOf(Rewrite(Lines(conf), pairs, false, {}))
  }

  function ReadParam(conf: string, key: string): Option<string> {
    Read(Lines(conf), Lower(key), false)
  }

  /** A carriage return at the end of a line is white space to everyone who reads it. */
  lemma StripCrKind(line: string)
    ensures KindOf(StripCr(line)) == KindOf(line)
  {
    hide Trim, StripCr, Lower, Find, StartsWith;
    TrimStripCr(line);
  }

  lemma {:induction false} ReadStripped(lines: seq<string>, key: string, inGlobal: bool)
    ensures Read(Stripped(lines), key, inGlobal) == Read(lines, key, inGlobal)
    decreases |lines|
  {
    hide KindOf, StripCr;
    if lines != [] {
      StripCrKind(lines[0]);
      assert Stripped(lines)[0] == StripCr(lines[0]) && Stripped(lines)[1..] == Stripped(lines[1..]);
      var kind := KindOf(lines[0]);
      ReadStripped(lines[1..], key, if kind.Header? then kind.global else inGlobal);
    }
  }

  lemma SetLineEnds(key: string, value: string)
    requires CleanKey(key) && '\n' !in value && '\r' !in value
    ensures StripCr(SetLine(key, value)) == SetLine(key, value) && '\n' !in SetLine(key, value)
  {
    var line := SetLine(key, value);
    assert line[|line| - 1] == if value == "" then ' ' else value[|value| - 1];
  }

  lemma {:induction false} FlushClean(pairs: seq<Pair>, handled: set<string>)
    requires CleanPairs(pairs)
    ensures Stripped(Flush(pairs, handled)) == Flush(pairs, handled) && NoBreaks(Flush(pairs, handled))
  {
    hide StripCr, SetLine, CleanKey;
    if pairs != [] {
      CleanTail(pairs);
      FlushClean(pairs[1..], handled);
      if pairs[0].value.Some? && Lower(pairs[0].key) !in handled {
        SetLineEnds(pairs[0].key, pairs[0].value.value);
        var rest := Flush(pairs[1..], handled);
        assert ([SetLine(pairs[0].key, pairs[0].value.value)] + rest)[1..] == rest;
      } else {
        assert [] + Flush(pairs[1..], handled) == Flush(pairs[1..], handled);
      }
    }
  }

  lemma ReplacementClean(pairs: seq<Pair>, handled: set<string>, line: string)
    requires CleanPairs(pairs)
    ensures Stripped(Replacement(pairs, handled, line)) == Replacement(pairs, handled, StripCr(line))
    ensures Handled(pairs, handled, StripCr(line)) == Handled(pairs, handled, line)
    ensures '\n' !in line ==> NoBreaks(Replacement(pairs, handled, line))
  {
    hide KindOf, StripCr, SetLine, CleanKey;
    StripCrKind(line);
    var kind := KindOf(line);
    assert Stripped([line]) == [StripCr(line)];
    if kind.Entry? && PairFor(pairs, kind.key).Some? {
      PairForFinds(pairs, kind.key);
      var p := PairFor(pairs, kind.key).value;
      if p.value.Some? {
        SetLineEnds(p.key, p.value.value);
        assert Stripped([SetLine(p.key, p.value.value)]) == [SetLine(p.key, p.value.value)];
      }
    }
  }

  /** Stripping carriage returns and rewriting go together in either order. */
  lemma {:induction false} RewriteStripped(lines: seq<string>, pairs: seq<Pair>, inGlobal: bool, handled: set<string>)
    requires CleanPairs(pairs)
    ensures Rewrite(Stripped(lines), pairs, inGlobal, handled) == Stripped(Rewrite(lines, pairs, inGlobal, handled))
    decreases |lines|
  {
    hide KindOf, CleanPairs, Rewrite, Flush, Replacement, Handled, StripCr;
    FlushClean(pairs, handled);
    if lines == [] {
      RewriteEnd(pairs, inGlobal, handled);
    } else {
      var line, rest := lines[0], lines[1..];
      assert lines == [line] + rest && Stripped(lines) == [StripCr(line)] + Stripped(rest);
      StripCrKind(line);
      ReplacementClean(pairs, handled, line);
      RewriteStep(line, rest, pairs, inGlobal, handled);
      RewriteStep(StripCr(line), Stripped(rest), pairs, inGlobal, handled);
      var kind := KindOf(line);
      if !inGlobal || kind.Header? || kind.Include? {
        var more := Rewrite(rest, pairs, kind.Header? && kind.global, handled);
        RewriteStripped(rest, pairs, kind.Header? && kind.global, handled);
        assert ([line] + more)[1..] == more;
        StrippedAppend(Flush(pairs, handled), [line] + more);
      } else {
        var more := Rewrite(rest, pairs, true, Handled(pairs, handled, line));
        RewriteStripped(rest, pairs, true, Handled(pairs, handled, line));
        StrippedAppend(Replacement(pairs, handled, line), more);
      }
    }
  }

  lemma {:induction false} RewriteNoBreaks(lines: seq<string>, pairs: seq<Pair>, inGlobal: bool, handled: set<string>)
    requires CleanPairs(pairs) && NoBreaks(lines)
    ensures NoBreaks(Rewrite(lines, pairs, inGlobal, handled))
    ensures lines != [] && !inGlobal ==> Rewrite(lines, pairs, inGlobal, handled) != []
    decreases |lines|
  {
    hide KindOf, CleanPairs, Rewrite, Flush, Replacement, Handled, NoBreaks;
    FlushClean(pairs, handled);
    if lines == [] {
      RewriteEnd(pairs, inGlobal, handled);
    } else {
      var line, rest := lines[0], lines[1..];
      assert lines == [line] + rest;
      NoBreaksSplit(lines);
      ReplacementClean(pairs, handled, line);
      RewriteStep(line, rest, pairs, inGlobal, handled);
      var kind := KindOf(line);
      if !inGlobal || kind.Header? || kind.Include? {
        RewriteNoBreaks(rest, pairs, kind.Header? && kind.global, handled);
        NoBreaksAppend([line], Rewrite(rest, pairs, kind.Header? && kind.global, handled));
        if inGlobal {
          NoBreaksAppend(Flush(pairs, handled), [line] + Rewrite(rest, pairs, kind.Header? && kind.global, handled));
        }
      } else {
        RewriteNoBreaks(rest, pairs, true, Handled(pairs, handled, line));
        NoBreaksAppend(Replacement(pairs, handled, line), Rewrite(rest, pairs, true, Handled(pairs, handled, line)));
      }
    }
  }

  lemma ReadApplied(conf: string, pairs: seq<Pair>, key: string)
    requires CleanPairs(pairs)
    ensures ReadParam(Apply(conf, pairs), key) == Read(Rewrite(Lines(conf), pairs, false, {}), Lower(key), false)
  {
    hide KindOf, Rewrite, CleanPairs, Lines, TextOf;
    LinesHaveNoBreaks(conf);
    RewriteNoBreaks(Lines(conf), pairs, false, {});
    var out := Rewrite(Lines(conf), pairs, false, {});
    LinesOfText(out);
    ReadStripped(out, Lower(key), false);
    if out == [] {
      BlankLine();
      assert [""][1..] == [];
    }
  }

  lemma BlankLine()
    ensures KindOf("") == Plain
  {
  }

  /** A parameter set reads as its value exactly when the file has a [global] header. */
  lemma SetIsRead(conf: string, pairs: seq<Pair>, i: nat)
    requires CleanPairs(pairs) && i < |pairs| && pairs[i].value.Some?
    ensures ReadParam(Apply(conf, pairs), pairs[i].key)
         == if HasGlobal(Lines(conf)) then Some(Trim(pairs[i].value.value)) else None
  {
    hide HasGlobal, Read, Rewrite, CleanPairs;
    PairForAt(pairs, i);
    ReadApplied(conf, pairs, pairs[i].key);
    SetReads(Lines(conf), pairs, false, {}, Lower(pairs[i].key));
  }

  /** A parameter deleted reads as absent exactly when it does not occur behind an include line within
      the section: the writer stops there, the reader does not. */
  lemma DeletedIsAbsent(conf: string, pairs: seq<Pair>, i: nat)
    requires CleanPairs(pairs) && i < |pairs| && pairs[i].value.None?
    ensures ReadParam(Apply(conf, pairs), pairs[i].key) == None <==> !Stray(Lines(conf), Lower(pairs[i].key), false, false)
  {
    hide Stray, Read, Rewrite, CleanPairs;
    PairForAt(pairs, i);
    ReadApplied(conf, pairs, pairs[i].key);
    DeleteReads(Lines(conf), pairs, false, false, {}, Lower(pairs[i].key));
  }

  /** Such a file: the parameter deleted stands behind an include, and is still read. */
  lemma DeletedCanStay()
    ensures var conf, pairs := "[global]\n" + "include = x\n" + "   k = v\n", [Pair("k", None)];
            CleanPairs(pairs) && ReadParam(Apply(conf, pairs), "k").Some?
  {
    hide KindOf, CleanPairs, Lines, Apply, ReadParam;
    var lines, pairs := ["[global]", "include = x", "   k = v"], [Pair("k", None)];
    GlobalHeader();
    IncludeLine();
    KeyLine();
    assert lines[1..] == ["include = x", "   k = v"] && lines[1..][1..] == ["   k = v"];
    assert Stray(["   k = v"], "k", true, false);
    assert Stray(lines[1..], "k", true, true);
    assert Stray(lines, "k", false, false);
    ThreeLines();
    CleanK();
    DeletedIsAbsent("[global]\n" + "include = x\n" + "   k = v\n", pairs, 0);
  }

  lemma GlobalHeader()
    ensures KindOf("[global]") == Header(true)
  {
    GlobalTrims();
    hide TrimLeft, TrimRight, Lower;
    assert "[global]"[1..7] == "global";
  }

  lemma GlobalTrims()
    ensures Trim("[global]") == "[global]" && Trim("global") == "global" && Lower("global") == "global"
  {
    assert TrimLeft("[global]") == "[global]" && TrimRight("[global]") == "[global]";
    assert TrimLeft("global") == "global" && TrimRight("global") == "global";
  }

  lemma CleanK()
    ensures CleanPairs([Pair("k", None)]) && Lower("k") == "k"
  {
    assert TrimLeft("k") == "k" && TrimRight("k") == "k";
  }

  lemma IncludeLine()
    ensures KindOf("include = x").Include?
  {
    var t := "include = x";
    assert TrimLeft(t) == t && TrimRight(t) == t;
    assert t[8] == '=' && Lower(t)[..7] == "include";
  }

  lemma KeyLine()
    ensures KindOf("   k = v").Entry? && KindOf("   k = v").key == "k"
  {
    hide KindOf;
    CleanK();
    SetLineKind("k", "v");
    assert SetLine("k", "v") == "   k = v";
  }

  lemma ThreeLines()
    ensures Lines("[global]\n" + "include = x\n" + "   k = v\n") == ["[global]", "include = x", "   k = v"]
  {
    var a, b, c := "[global]", "include = x", "   k = v";
    assert '\n' !in a && '\n' !in b && '\n' !in c;
    assert a[|a| - 1] == ']' && b[|b| - 1] == 'x' && c[|c| - 1] == 'v';
    LinesOfThree(a, b, c);
    assert a + "\n" == "[global]\n" && b + "\n" == "include = x\n" && c + "\n" == "   k = v\n";
  }

  lemma LinesOfThree(a: string, b: string, c: string)
    requires '\n' !in a && '\n' !in b && '\n' !in c
    requires StripCr(a) == a && StripCr(b) == b && StripCr(c) == c
    ensures Lines((a + "\n") + (b + "\n") + (c + "\n")) == [a, b, c]
  {
    hide StripCr, Lines;
    var lines := [a, b, c];
    assert lines[1..] == [b, c] && [b, c][1..] == [c] && [c][1..] == [];
    assert TextOf([c]) == c + "\n" && TextOf([b, c]) == (b + "\n") + TextOf([c]) && TextOf(lines) == (a + "\n") + TextOf([b, c]);
    Assoc(a + "\n", b + "\n", c + "\n");
    LinesOfText(lines);
    assert Stripped([c]) == [c] + Stripped([]) && Stripped([b, c]) == [b] + Stripped([c]);
  }

  /** Any other parameter reads as before. */
  lemma OtherIsKept(conf: string, pairs: seq<Pair>, key: string)
    requires CleanPairs(pairs) && PairFor(pairs, Lower(key)).None?
    ensures ReadParam(Apply(conf, pairs), key) == ReadParam(conf, key)
  {
    hide Read, Rewrite, CleanPairs;
    ReadApplied(conf, pairs, key);
    OtherReads(Lines(conf), pairs, false, false, {}, Lower(key));
  }

  // ---- the running form ---------------------------------------------------------------------------

  /** The closure that writes what is missing at the end of the section. */
  method FlushMissing(lines: seq<string>, pairs: seq<Pair>, handled: set<string>) returns (out: seq<string>)
    ensures out == lines + Flush(pairs, handled)
  {
    out := lines;
    for i := 0 to |pairs|
      invariant out + Flush(pairs[i..], handled) == lines + Flush(pairs, handled)
    {
      assert pairs[i..][0] == pairs[i] && pairs[i..][1..] == pairs[i + 1..];
      if pairs[i].value.Some? && Lower(pairs[i].key) !in handled {
        out := out + [SetLine(pairs[i].key, pairs[i].value.value)];
      }
    }
    assert pairs[|pairs|..] == [];
  }

  /** `apply_global_params`. */
  method ApplyGlobalParams(conf: string, pairs: seq<Pair>) returns (s: string)
    ensures s == Apply(conf, pairs)
  {
    hide KindOf, Flush, TextOf, Lines, Rewrite, SetLine;
    var lines := Lines(conf);
    var out: seq<string>, inGlobal, handled: set<string> := [], false, {};
    for i := 0 to |lines|
      invariant out + Rewrite(lines[i..], pairs, inGlobal, handled) == Rewrite(lines, pairs, false, {})
    {
      var line := lines[i];
      var kind := KindOf(line);
      ghost var rest := lines[i + 1..];
      assert lines[i..] == [line] + rest;
      RewriteStep(line, rest, pairs, inGlobal, handled);
      if kind.Header? || (inGlobal && kind.Include?) {
        ghost var more := Rewrite(rest, pairs, kind.Header? && kind.global, handled);
        if inGlobal {
          Assoc(out, Flush(pairs, handled), [line] + more);
          Assoc(out + Flush(pairs, handled), [line], more);
          out := FlushMissing(out, pairs, handled);
        } else {
          Assoc(out, [line], more);
        }
        inGlobal := kind.Header? && kind.global;
        out := out + [line];
      } else if inGlobal && kind.Entry? && PairFor(pairs, kind.key).Some? {
        var p := PairFor(pairs, kind.key).value;
        var first := kind.key !in handled;
        handled := handled + {kind.key};
        ghost var more := Rewrite(rest, pairs, true, handled);
        if first && p.value.Some? {
          Assoc(out, [SetLine(p.key, p.value.value)], more);
          out := out + [SetLine(p.key, p.value.value)];
        } else {
          assert [] + more == more;
        }
      } else {
        Assoc(out, [line], Rewrite(rest, pairs, inGlobal, handled));
        out := out + [line];
      }
    }
    assert lines[|lines|..] == [];
    RewriteEnd(pairs, inGlobal, handled);
    if inGlobal {
      out := FlushMissing(out, pairs, handled);
    } else {
      assert out + [] == out;
    }
    return TextOf(out);
  }

  /** `read_global_param`. */
  method ReadGlobalParam(conf: string, key: string) returns (value: Option<string>)
    ensures value == ReadParam(conf, key)
  {
    hide KindOf, Lines;
    var lines := Lines(conf);
    var inGlobal := false;
    for i := 0 to |lines|
      invariant Read(lines[i..], Lower(key), inGlobal) == ReadParam(conf, key)
    {
      var kind := KindOf(lines[i]);
      assert lines[i..][0] == lines[i] && lines[i..][1..] == lines[i + 1..];
      if kind.Header? {
        inGlobal := kind.global;
      } else if inGlobal && Names(kind, Lower(key)) {
        return Some(kind.value);
      }
    }
    return None;
  }
}
