/** How lines of configuration are told apart, by the texts they are put together from. */
module ConfReading {
  import opened Basics
  import opened Text
  import opened ConfText
  import G = GlobalParams
  import F = ShareFormat

  // ---- trimming ------------------------------------------------------------------------------

  /** By their numbers: the controls 9 to 13 and every character with the property White_Space. */
  lemma SpaceNumbers(c: char)
    ensures IsSpace(c) <==> c as int in {9, 10, 11, 12, 13, 32, 133, 160, 5760, 8192, 8193, 8194, 8195, 8196, 8197, 8198,
                                         8199, 8200, 8201, 8202, 8232, 8233, 8239, 8287, 12288}
  {}

  predicate AllSpace(s: string) {
    forall i :: 0 <= i < |s| ==> IsSpace(s[i])
  }

  /** The white space at both ends goes and nothing else. */
  lemma TrimIs(s: string)
    ensures exists a: string, b: string :: s == a + (Trim(s) + b) && AllSpace(a) && AllSpace(b)
    ensures var t := Trim(s); t != "" ==> !IsSpace(t[0]) && !IsSpace(t[|t| - 1])
  {
    hide IsSpace;
    var l := TrimLeft(s);
    TrimLeftIs(s);
    TrimRightIs(l);
    var t := Trim(s);
    var a, b := s[..|s| - |l|], l[|t|..];
    assert s == a + (t + b);
  }

  lemma {:induction false} TrimLeftIs(s: string)
    ensures var t := TrimLeft(s); var k := |s| - |t|;
            0 <= k && t == s[k..] && AllSpace(s[..k]) && (t == "" || !IsSpace(t[0]))
  {
    hide IsSpace;
    if s != [] && IsSpace(s[0]) {
      TrimLeftIs(s[1..]);
      var k := |s| - |TrimLeft(s)|;
      assert forall i :: 0 < i < k ==> s[i] == s[1..][..k - 1][i - 1];
    }
  }

  lemma {:induction false} TrimRightIs(s: string)
    ensures var t := TrimRight(s);
            |t| <= |s| && t == s[..|t|] && AllSpace(s[|t|..]) && (t == "" || !IsSpace(t[|t| - 1]))
    decreases |s|
  {
    hide IsSpace;
    if s != [] && IsSpace(s[|s| - 1]) {
      var front := s[..|s| - 1];
      TrimRightIs(front);
      var n := |TrimRight(s)|;
      assert s[n..] == front[n..] + [s[|s| - 1]];
    }
  }

  // ---- lines ---------------------------------------------------------------------------------

  /** A text is its first line, less one carriage return before the line end, and the rest; a last line without
      a line end is a line as it stands. */
  lemma LinesAre(line: string, rest: string)
    requires '\n' !in line
    ensures Lines("") == []
    ensures line != "" ==> Lines(line) == [line]
    ensures Lines(line + ("\n" + rest)) == [StripCr(line)] + Lines(rest)
  {
    hide StripCr;
    SplitAt(line, '\n', rest);
    assert line + (['\n'] + rest) == line + ("\n" + rest);
  }

  lemma CrGoes(line: string)
    ensures StripCr(line + "\r") == line
    ensures line == "" || line[|line| - 1] != '\r' ==> StripCr(line) == line
  {
    assert (line + "\r")[..|line|] == line;
  }

  // ---- what a line is ------------------------------------------------------------------------

  ghost predicate Bracketed(t: string) {
    exists name: string :: t == "[" + name + "]"
  }

  lemma BracketedIs(t: string)
    ensures Bracketed(t) <==> |t| >= 2 && t[0] == '[' && t[|t| - 1] == ']'
    ensures forall name: string :: t == "[" + name + "]" ==> |t| >= 2 && t[1..|t| - 1] == name
  {
    if |t| >= 2 && t[0] == '[' && t[|t| - 1] == ']' {
      assert t == "[" + t[1..|t| - 1] + "]";
    }
  }

  /** A trimmed line with an equals sign, parted at the first. */
  ghost predicate Parted(t: string, k: string, v: string) {
    '=' !in k && t == k + ("=" + v)
  }

  lemma PartedIs(t: string, k: string, v: string)
    requires Parted(t, k, v)
    ensures Find(t, '=') == |k| && t[..|k|] == k && t[|k| + 1..] == v
  {
    SplitAt(k, '=', v);
  }

  /** A line of smb.conf: a header in brackets, an include, a setting under its lowercased key, or neither. */
  lemma ConfLineIs(line: string, name: string, k: string, v: string)
    ensures var t := Trim(line);
            && (t == "[" + name + "]" ==> G.KindOf(line) == G.Header(Lower(Trim(name)) == "global"))
            && (!Bracketed(t) && '=' !in t ==> G.KindOf(line) == G.Plain)
            && (!Bracketed(t) && Parted(t, k, v) ==>
                  G.KindOf(line) == if exists r: string :: Lower(t) == "include" + r then G.Include(Lower(Trim(k)), Trim(v))
                                    else G.Entry(Lower(Trim(k)), Trim(v)))
  {
    hide Trim, Lower, Bracketed, Parted, StartsWith;
    var t := Trim(line);
    BracketedIs(t);
    StartsWithIs(Lower(t), "include");
    if Parted(t, k, v) {
      PartedIs(t, k, v);
    }
  }

  lemma StartsWithIs(s: string, t: string)
    ensures StartsWith(s, t) <==> exists r: string :: s == t + r
  {
    if StartsWith(s, t) {
      assert s == t + s[|t|..];
    }
  }

  /** A line of a share file: nothing if it is blank or a comment, a header in brackets, or a setting under its
      lowercased key. */
  lemma ShareLineIs(line: string, name: string, k: string, v: string)
    ensures var t := Trim(line);
            && (t == "" || t[0] == '#' || t[0] == ';' ==> F.LineOf(line) == F.Skip)
            && (t == "[" + name + "]" ==> F.LineOf(line) == F.Head(Trim(name)))
            && (!Bracketed(t) && '=' !in t ==> F.LineOf(line) == F.Skip)
            && (!Bracketed(t) && Parted(t, k, v) && t != "" && t[0] != '#' && t[0] != ';' ==>
                  F.LineOf(line) == F.Setting(F.LowerKey(Trim(k)), Trim(v)))
  {
    hide Trim, F.LowerKey, Bracketed, Parted;
    var t := Trim(line);
    BracketedIs(t);
    if Parted(t, k, v) {
      PartedIs(t, k, v);
    }
  }

  /** Letters of a key turn lower-case, the Kelvin sign too. */
  lemma KeyIsLower(key: string, i: nat)
    requires i < |key|
    ensures F.LowerKey(key)[i] == if key[i] as int == 0x212A then 'k' else Lower(key)[i]
  {}

  // ---- what is let through ---------------------------------------------------------------------

  lemma ControlNumbers(c: char)
    ensures F.IsControl(c) <==> c as int < 32 || 127 <= c as int < 160
  {}

  /** The bytes a character takes. */
  lemma {:induction false} Utf8SizeIs(s: string, c: char)
    ensures F.Utf8Size("") == 0
    ensures F.Utf8Size([c] + s)
         == F.Utf8Size(s) + if c as int < 0x80 then 1 else if c as int < 0x800 then 2 else if c as int < 0x10000 then 3 else 4
  {
    assert ([c] + s)[1..] == s;
  }

  /** The names let through: of 1 to 64 bytes, none of them `global`, without control characters or any of five
      signs, and with no plain space at either end. */
  lemma NameLetThrough(s: string)
    ensures F.ValidName(s)
       <==> 1 <= |s| && F.Utf8Size(s) <= 64 && Lower(s) != "global"
            && (forall i :: 0 <= i < |s| ==> !F.IsControl(s[i]) && s[i] !in ['[', ']', '=', '#', ';'])
            && !(exists t: string :: s == " " + t) && !(exists t: string :: s == t + " ")
  {
    hide F.Utf8Size, Lower, F.IsControl;
    if s != "" && s[0] == ' ' {
      assert s == " " + s[1..];
    }
    if s != "" && s[|s| - 1] == ' ' {
      assert s == s[..|s| - 1] + " ";
    }
  }
}
