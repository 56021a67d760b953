/** Configuration text: its lines, and trimming them. */
module ConfText {
  import opened Basics
  import opened Text

  // ---- trimming -----------------------------------------------------------------------------------

  /** What Rust's `str::trim` takes for white space: the characters of property White_Space. */
  predicate IsSpace(c: char) {
    c == ' ' || '\t' <= c <= '\r' || IsWideSpace(c)
  }

  function TrimLeft(s: string): string {
    if s != [] && IsSpace(s[0]) then TrimLeft(s[1..]) else s
  }

  function TrimRight(s: string): string {
    if s != [] && IsSpace(s[|s| - 1]) then TrimRight(s[..|s| - 1]) else s
  }

  /** `str::trim`. */
  function Trim(s: string): string {
    TrimRight(TrimLeft(s))
  }

  lemma {:induction false} TrimLeftSpaces(s: string, t: string)
    requires forall i :: 0 <= i < |s| ==> IsSpace(s[i])
    ensures TrimLeft(s + t) == TrimLeft(t)
  {
    if s == [] {
      assert s + t == t;
    } else {
      assert (s + t)[1..] == s[1..] + t;
      TrimLeftSpaces(s[1..], t);
    }
  }

  lemma {:induction false} TrimRightKeeps(s: string, t: string)
    requires s != [] && !IsSpace(s[|s| - 1])
    ensures TrimRight(s + t) == s + TrimRight(t)
    decreases |t|
  {
    if t == [] {
      assert s + t == s && s + [] == s;
    } else if IsSpace(t[|t| - 1]) {
      assert (s + t)[..|s + t| - 1] == s + t[..|t| - 1];
      TrimRightKeeps(s, t[..|t| - 1]);
    }
  }

  lemma {:induction false} TrimLeftKeepsRight(s: string)
    ensures TrimRight(TrimLeft(s)) == TrimLeft(TrimRight(s))
    decreases |s|
  {
    if s != [] && IsSpace(s[0]) {
      TrimLeftKeepsRight(s[1..]);
      if |s| > 1 {
        SpaceFirst(s);
      }
    } else if s != [] {
      TrimRightKeeps([s[0]], s[1..]);
      assert [s[0]] + s[1..] == s;
      assert ([s[0]] + TrimRight(s[1..]))[0] == s[0];
    }
  }

  lemma {:induction false} SpaceFirst(s: string)
    requires |s| > 1 && IsSpace(s[0])
    ensures TrimLeft(TrimRight(s)) == TrimLeft(TrimRight(s[1..]))
    decreases |s|
  {
    if IsSpace(s[|s| - 1]) {
      assert s[1..][..|s| - 2] == s[..|s| - 1][1..];
      if |s| > 2 {
        SpaceFirst(s[..|s| - 1]);
      }
    }
  }

  lemma {:induction false} TrimLeftTwice(s: string)
    ensures TrimLeft(TrimLeft(s)) == TrimLeft(s)
  {
    if s != [] && IsSpace(s[0]) {
      TrimLeftTwice(s[1..]);
    }
  }

  lemma {:induction false} TrimRightTwice(s: string)
    ensures TrimRight(TrimRight(s)) == TrimRight(s)
  {
    if s != [] && IsSpace(s[|s| - 1]) {
      TrimRightTwice(s[..|s| - 1]);
    }
  }

  lemma SpaceFrontTrims(s: string)
    requires s != ""
    ensures IsSpace(s[0]) ==> |Trim(s)| < |s|
  {
    if IsSpace(s[0]) {
      assert Trim(s) == Trim(s[1..]);
      TrimShorter(s[1..]);
    }
  }

  lemma {:induction false} TrimShorter(s: string)
    ensures |TrimLeft(s)| <= |s| && |TrimRight(s)| <= |s| && |Trim(s)| <= |s|
  {
    LeftShorter(s);
    RightShorter(s);
    RightShorter(TrimLeft(s));
  }

  lemma {:induction false} LeftShorter(s: string)
    ensures |TrimLeft(s)| <= |s|
  {
    if s != [] && IsSpace(s[0]) {
      LeftShorter(s[1..]);
    }
  }

  lemma {:induction false} RightShorter(s: string)
    ensures |TrimRight(s)| <= |s|
  {
    if s != [] && IsSpace(s[|s| - 1]) {
      RightShorter(s[..|s| - 1]);
    }
  }

  lemma PrefixAt(s: string, t: string, i: nat)
    requires i < |s| && i < |t|
    ensures StartsWith(s, t) ==> s[i] == t[i]
  {
    if StartsWith(s, t) {
      assert s[..|t|][i] == s[i];
    }
  }

  // ---- a line for a setting -----------------------------------------------------------------

  function SetLine(key: string, value: string): string {
    "   " + key + " = " + value
  }

  /** A key with something at both ends. */
  predicate Solid(key: string) {
    key != "" && !IsSpace(key[0]) && !IsSpace(key[|key| - 1])
  }

  lemma SetLineTrimmed(key: string, value: string)
    requires Solid(key)
    ensures Trim(SetLine(key, value)) == key + " =" + TrimRight(" " + value)
  {
    var body := key + " = " + value;
    assert SetLine(key, value) == "   " + body;
    TrimLeftSpaces("   ", body);
    assert body[0] == key[0];
    assert body == (key + " =") + (" " + value);
    TrimRightKeeps(key + " =", " " + value);
  }

  lemma KeyTrimmed(key: string)
    requires Solid(key)
    ensures Trim(key + " ") == key
  {
    assert (key + " ")[0] == key[0];
    TrimRightKeeps(key, " ");
    assert TrimRight(" ") == "" by { assert " "[..0] == ""; }
  }

  lemma ValueTrimmed(value: string)
    ensures Trim(TrimRight(" " + value)) == Trim(value)
  {
    TrimLeftKeepsRight(" " + value);
    TrimLeftSpaces(" ", value);
    TrimRightTwice(TrimLeft(value));
  }

  /** A line written splits at its first equals sign into the key and the trimmed value. */
  lemma SetLineSplits(key: string, value: string)
    requires Solid(key) && '=' !in key
    ensures var t := Trim(SetLine(key, value));
            |t| >= |key| + 2 && t[0] == key[0] && Find(t, '=') == |key| + 1
            && t == key + " =" + t[|key| + 2..] && Trim(t[..|key| + 1]) == key && Trim(t[|key| + 2..]) == Trim(value)
  {
    SetLineTrimmed(key, value);
    var head, tail := key + " =", TrimRight(" " + value);
    var t := head + tail;
    assert Find(t, '=') == |key| + 1 by {
      assert t[|key| + 1] == '=' && forall i :: 0 <= i < |key| ==> t[i] == key[i];
    }
    assert t[..|key| + 1] == key + " " && t[|key| + 2..] == tail;
    KeyTrimmed(key);
    ValueTrimmed(value);
  }

  // ---- lines --------------------------------------------------------------------------------------

  function StripCr(line: string): string {
    if line != "" && line[|line| - 1] == '\r' then line[..|line| - 1] else line
  }

  /** `str::lines`. */
  function Lines(text: string): seq<string>
    decreases |text|
  {
    if text == "" then []
    else
      var p := Find(text, '\n');
      if p < 0 then [text] else [StripCr(text[..p])] + Lines(text[p + 1..])
  }

  /** Lines joined, with a line end after the last even if there is none. */
  function TextOf(lines: seq<string>): string {
    if |lines| == 0 then "\n"
    else if |lines| == 1 then lines[0] + "\n"
    else lines[0] + "\n" + TextOf(lines[1..])
  }

  ghost predicate NoBreaks(lines: seq<string>) {
    forall i :: 0 <= i < |lines| ==> '\n' !in lines[i]
  }

  lemma {:induction false} FindIn(line: string, tail: string)
    requires '\n' !in line
    ensures Find(line + "\n" + tail, '\n') == |line|
  {
    var t := line + "\n" + tail;
    assert t[|line|] == '\n' && forall i :: 0 <= i < |line| ==> t[i] == line[i];
  }

  lemma {:induction false} LinesHaveNoBreaks(text: string)
    ensures NoBreaks(Lines(text))
    decreases |text|
  {
    hide Find, StripCr;
    var p := Find(text, '\n');
    if text != "" && p >= 0 {
      LinesHaveNoBreaks(text[p + 1..]);
      NoBreakBefore(text, p);
    }
  }

  lemma NoBreakBefore(text: string, p: nat)
    requires p < |text| && forall q :: 0 <= q < p ==> text[q] != '\n'
    ensures '\n' !in StripCr(text[..p])
  {
  }

  function Stripped(lines: seq<string>): seq<string> {
    if lines == [] then [] else [StripCr(lines[0])] + Stripped(lines[1..])
  }

  ghost predicate NoCr(lines: seq<string>) {
    forall i :: 0 <= i < |lines| ==> StripCr(lines[i]) == lines[i]
  }

  lemma {:induction false} StrippedSame(lines: seq<string>)
    ensures |Stripped(lines)| == |lines| && (Stripped(lines) == lines <==> NoCr(lines))
  {
    hide StripCr;
    if lines != [] {
      StrippedSame(lines[1..]);
      assert Stripped(lines)[0] == StripCr(lines[0]) && Stripped(lines)[1..] == Stripped(lines[1..]);
      assert lines == [lines[0]] + lines[1..];
      assert NoCr(lines) <==> StripCr(lines[0]) == lines[0] && NoCr(lines[1..]) by {
        NoCrStep(lines);
      }
    }
  }

  lemma NoCrStep(lines: seq<string>)
    requires lines != []
    ensures NoCr(lines) <==> StripCr(lines[0]) == lines[0] && NoCr(lines[1..])
  {
    hide StripCr;
    assert forall i :: 0 <= i < |lines[1..]| ==> lines[1..][i] == lines[i + 1];
    if StripCr(lines[0]) == lines[0] && NoCr(lines[1..]) {
      forall i | 0 <= i < |lines| ensures StripCr(lines[i]) == lines[i] {
        if i > 0 {
          assert lines[1..][i - 1] == lines[i];
        }
      }
    }
  }

  lemma {:induction false} StrippedAppend(a: seq<string>, b: seq<string>)
    ensures Stripped(a + b) == Stripped(a) + Stripped(b)
  {
    hide StripCr;
    if a == [] {
      assert a + b == b && [] + Stripped(b) == Stripped(b);
    } else {
      StrippedAppend(a[1..], b);
      assert (a + b)[1..] == a[1..] + b;
      assert [StripCr(a[0])] + (Stripped(a[1..]) + Stripped(b)) == ([StripCr(a[0])] + Stripped(a[1..])) + Stripped(b);
    }
  }

  lemma NoBreaksAppend(a: seq<string>, b: seq<string>)
    requires NoBreaks(a) && NoBreaks(b)
    ensures NoBreaks(a + b)
  {
  }

  lemma NoBreaksSplit(lines: seq<string>)
    requires NoBreaks(lines)
    ensures NoBreaks([])
    ensures lines != [] ==> NoBreaks([lines[0]]) && NoBreaks(lines[1..]) && '\n' !in lines[0]
  {
  }

  lemma {:induction false} StrippedNoBreaks(lines: seq<string>)
    requires NoBreaks(lines)
    ensures NoBreaks(Stripped(lines))
  {
    if lines != [] {
      StrippedNoBreaks(lines[1..]);
    }
  }

  lemma {:induction false} LinesOfText(lines: seq<string>)
    requires NoBreaks(lines)
    ensures Lines(TextOf(lines)) == if lines == [] then [""] else Stripped(lines)
  {
    hide Find;
    if lines == [] {
      FindIn("", "");
    } else {
      var tail := if |lines| == 1 then "" else TextOf(lines[1..]);
      var text := lines[0] + "\n" + tail;
      assert TextOf(lines) == text;
      FindIn(lines[0], tail);
      assert text[..|lines[0]|] == lines[0] && text[|lines[0]| + 1..] == tail;
      if |lines| > 1 {
        LinesOfText(lines[1..]);
      }
    }
  }

  /** What follows the first line. */
  function TailText(lines: seq<string>): string {
    if |lines| <= 1 then "" else TextOf(lines[1..])
  }

  lemma TextHead(lines: seq<string>)
    requires NoBreaks(lines) && lines != []
    ensures Find(TextOf(lines), '\n') == |lines[0]| < |TextOf(lines)|
    ensures TextOf(lines)[..|lines[0]|] == lines[0] && TextOf(lines)[|lines[0]| + 1..] == TailText(lines)
    ensures TailText(lines) == "" <==> |lines| == 1
  {
    hide Find;
    FindIn(lines[0], TailText(lines));
    assert TextOf(lines) == lines[0] + "\n" + TailText(lines);
  }

  lemma {:induction false} TextOfInjective(a: seq<string>, b: seq<string>)
    requires NoBreaks(a) && NoBreaks(b) && a != [] && b != [] && TextOf(a) == TextOf(b)
    ensures a == b
  {
    hide Find, TextOf;
    TextHead(a);
    TextHead(b);
    assert a == [a[0]] + a[1..] && b == [b[0]] + b[1..];
    if |a| > 1 {
      TextOfInjective(a[1..], b[1..]);
    }
  }

  /** A carriage return at the end of a line is trimmed with the rest. */
  lemma TrimStripCr(line: string)
    ensures Trim(StripCr(line)) == Trim(line)
  {
    TrimLeftKeepsRight(line);
    TrimLeftKeepsRight(StripCr(line));
  }
}
