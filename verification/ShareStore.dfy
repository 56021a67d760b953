/** The shares on disk: one fragment file a share under a name of its own, and an aggregate that includes
    them. Saving is all or nothing, and what was saved is what is loaded. */
module ShareStore {
  import opened Basics
  import opened Text
  import opened ConfText
  import opened ShareFormat
  import opened ShareOrder

  // ---- file names ----------------------------------------------------------------------------

  function SafeChar(c: char): char {
    if c == '/' || c == '\\' || c == ' ' || IsControl(c) then '_' else c
  }

  function Safe(name: string): (f: string)
    ensures |f| == |name| && forall i :: 0 <= i < |name| ==> f[i] == SafeChar(name[i])
  {
    seq(|name|, i requires 0 <= i < |name| => SafeChar(name[i]))
  }

  /** The stem for a name: no separators, no leading dot, not empty. */
  function SafeStem(name: string): string {
    var f := Safe(name);
    if f == "" then "_" else if f[0] == '.' then "_" + f[1..] else f
  }

  const CONF := ".conf"

  function FragmentName(name: string): string {
    SafeStem(name) + CONF
  }

  /** Is it the kind of file that is read back: extension conf? */
  predicate IsFragment(file: string) {
    EndsWith(file, CONF) && file != CONF
  }

  /** No separator of either kind, no space, no control character. */
  ghost predicate SafeChars(s: string) {
    forall i :: 0 <= i < |s| ==> s[i] != '/' && s[i] != '\\' && s[i] != ' ' && !IsControl(s[i])
  }

  /** The name of one visible file in the directory, and of one word on an include line. */
  ghost predicate SafeFile(file: string) {
    file != "" && file[0] != '.' && SafeChars(file)
  }

  lemma FragmentNameIsFile(name: string)
    ensures IsFragment(FragmentName(name)) && SafeFile(FragmentName(name))
    ensures |FragmentName(name)| > 5 && EndsWith(FragmentName(name), ".conf")
  {
    var stem := SafeStem(name);
    assert SafeFile(stem);
    assert FragmentName(name)[|stem|..] == CONF;
  }

  /** `fragment_filename`: whatever the name, one file in the directory. */
  method FragmentFilename(name: string) returns (file: string)
    ensures file == FragmentName(name)
    ensures IsFragment(file) && SafeFile(file) && |file| > 5 && EndsWith(file, ".conf")
  {
    FragmentNameIsFile(name);
    var f := Safe(name);
    ghost var first := f;
    while f != "" && f[0] == '.'
      invariant f == first || (first != "" && first[0] == '.' && f == "_" + first[1..])
      decreases f != "" && f[0] == '.'
    {
      f := "_" + f[1..];
    }
    if f == "" {
      f := f + "_";
    }
    return f + CONF;
  }

  function Digit(n: nat): char
    requires n < 10
  {
    (n + '0' as int) as char
  }

  function Decimal(n: nat): string {
    if n < 10 then [Digit(n)] else Decimal(n / 10) + [Digit(n % 10)]
  }

  function ValueOf(s: string): int {
    if s == "" then 0 else 10 * ValueOf(s[..|s| - 1]) + (s[|s| - 1] as int - '0' as int)
  }

  lemma {:induction false} DecimalSafe(n: nat)
    ensures SafeChars(Decimal(n)) && Decimal(n) != ""
  {
    if n >= 10 {
      DecimalSafe(n / 10);
    }
  }

  lemma {:induction false} DecimalReads(n: nat)
    ensures ValueOf(Decimal(n)) == n
  {
    if n >= 10 {
      DecimalReads(n / 10);
      assert (Decimal(n / 10) + [Digit(n % 10)])[..|Decimal(n)| - 1] == Decimal(n / 10);
    } else {
      assert [Digit(n)][..0] == "";
    }
  }

  function Numbered(stem: string, i: nat): string {
    stem + ("-" + Decimal(i)) + CONF
  }

  lemma NumberedApart(stem: string, i: nat, j: nat)
    requires Numbered(stem, i) == Numbered(stem, j)
    ensures i == j
  {
    var a, b := Decimal(i), Decimal(j);
    assert |a| == |b|;
    assert Numbered(stem, i)[|stem| + 1..|stem| + 1 + |a|] == a;
    assert Numbered(stem, j)[|stem| + 1..|stem| + 1 + |b|] == b;
    DecimalReads(i);
    DecimalReads(j);
  }

  /** The first number from i on whose name is free. The search ends: each name it passes is another one. */
  function FirstFree(stem: string, i: nat, used: set<string>): (n: nat)
    ensures n >= i && Numbered(stem, n) !in used
    ensures forall j :: i <= j < n ==> Numbered(stem, j) in used
    decreases |used|
  {
    if Numbered(stem, i) !in used then i
    else
      var n := FirstFree(stem, i + 1, used - {Numbered(stem, i)});
      FirstFreeHere(stem, i, n);
      n
  }

  lemma FirstFreeHere(stem: string, i: nat, n: nat)
    requires n > i
    ensures Numbered(stem, n) != Numbered(stem, i)
  {
    if Numbered(stem, n) == Numbered(stem, i) {
      NumberedApart(stem, n, i);
    }
  }

  lemma FirstFreeFrom(stem: string, i: nat, used: set<string>)
    requires Numbered(stem, i) in used
    ensures FirstFree(stem, i, used) == FirstFree(stem, i + 1, used)
  {
    var a, b := FirstFree(stem, i, used), FirstFree(stem, i + 1, used);
    assert a <= b && b <= a;
  }

  /** `trim_end_matches(".conf")`. */
  function DropConf(s: string): string {
    if EndsWith(s, CONF) then DropConf(s[..|s| - 5]) else s
  }

  /** What is left of a file name is still a stem. */
  lemma {:induction false} DropConfSafe(s: string)
    requires SafeFile(s)
    ensures SafeFile(DropConf(s))
    decreases |s|
  {
    if EndsWith(s, CONF) {
      assert s[|s| - 5..][0] == '.' == s[|s| - 5];
      DropConfSafe(s[..|s| - 5]);
    }
  }

  lemma NumberedIsFile(stem: string, n: nat)
    requires SafeFile(stem)
    ensures IsFragment(Numbered(stem, n)) && SafeFile(Numbered(stem, n))
  {
    DecimalSafe(n);
    var front := stem + ("-" + Decimal(n));
    assert Numbered(stem, n) == front + CONF && (front + CONF)[|front|..] == CONF;
  }

  function UniqueName(name: string, used: set<string>): string {
    var file := FragmentName(name);
    if file !in used then file
    else
      var stem := DropConf(file);
      Numbered(stem, FirstFree(stem, 2, used))
  }

  lemma UniqueNameIsFile(name: string, used: set<string>)
    ensures UniqueName(name, used) !in used && IsFragment(UniqueName(name, used)) && SafeFile(UniqueName(name, used))
  {
    hide FirstFree, FragmentName, DropConf, Numbered, SafeFile, IsFragment;
    var file := FragmentName(name);
    FragmentNameIsFile(name);
    DropConfSafe(file);
    if file in used {
      NumberedIsFile(DropConf(file), FirstFree(DropConf(file), 2, used));
    }
  }

  /** Texts of nothing but that ending. */
  ghost predicate Confs(s: string) {
    s == "" || (EndsWith(s, ".conf") && Confs(s[..|s| - 5]))
  }

  lemma {:induction false} DropConfIs(s: string) returns (tail: string)
    ensures s == DropConf(s) + tail && Confs(tail)
    ensures !EndsWith(DropConf(s), ".conf")
    decreases |s|
  {
    hide Confs, EndsWith, DropConf;
    DropConfStep(s);
    NoConfs();
    tail := "";
    if EndsWith(s, CONF) {
      var front := s[..|s| - 5];
      var less := DropConfIs(front);
      MoreConfs(less);
      tail := less + ".conf";
      Assoc(DropConf(s), less, ".conf");
    } else {
      assert s + "" == s;
    }
  }

  lemma DropConfStep(s: string)
    ensures if EndsWith(s, CONF) then |s| >= 5 && s == s[..|s| - 5] + ".conf" && DropConf(s) == DropConf(s[..|s| - 5])
            else DropConf(s) == s
  {}

  lemma NoConfs()
    ensures Confs("")
  {}

  lemma MoreConfs(tail: string)
    requires Confs(tail)
    ensures Confs(tail + ".conf")
  {
    var more := tail + ".conf";
    assert more[|more| - 5..] == ".conf" && more[..|more| - 5] == tail;
  }

  /** A file is named like its share, with an underscore for each character that a file name may not have and for
      a dot in front. */
  lemma FileNameIs(name: string, i: nat)
    requires i < |name|
    ensures |FragmentName(name)| == |name| + 5
    ensures FragmentName(name)[i] == if name[i] in ['/', '\\', ' '] || IsControl(name[i]) || (i == 0 && name[i] == '.') then '_'
                                     else name[i]
  {
    hide IsControl;
    var f, stem := Safe(name), SafeStem(name);
    assert f[i] == SafeChar(name[i]) && f[0] == SafeChar(name[0]);
    assert |stem| == |name| && stem[i] == if i == 0 && f[0] == '.' then '_' else f[i];
    assert FragmentName(name)[i] == stem[i];
  }

  /** If that is taken, the least number from 2 that makes a new name stands behind the stem. */
  lemma UniqueNameIs(name: string, used: set<string>) returns (stem: string, tail: string, n: nat)
    ensures FragmentName(name) !in used ==> UniqueName(name, used) == FragmentName(name)
    ensures FragmentName(name) == stem + tail && Confs(tail) && !EndsWith(stem, ".conf")
    ensures FragmentName(name) in used ==>
      n >= 2 && UniqueName(name, used) == stem + ("-" + Decimal(n)) + ".conf"
      && forall j :: 2 <= j < n ==> stem + ("-" + Decimal(j)) + ".conf" in used
  {
    hide FragmentName, DropConf, Confs, EndsWith, Decimal, FirstFree;
    var file := FragmentName(name);
    tail := DropConfIs(file);
    stem := DropConf(file);
    n := FirstFree(stem, 2, used);
    forall j | 2 <= j < n ensures stem + ("-" + Decimal(j)) + ".conf" in used {
      assert Numbered(stem, j) in used;
    }
  }

  /** `unique_fragment_filename`: the name's own file name if free, else with the least free number. */
  method UniqueFragmentFilename(name: string, used: set<string>) returns (file: string, used': set<string>)
    ensures file == UniqueName(name, used) && file !in used && used' == used + {file}
    ensures IsFragment(file) && SafeFile(file)
  {
    hide SafeFile, IsFragment;
    UniqueNameIsFile(name, used);
    file := FragmentFilename(name);
    if file in used {
      var stem := DropConf(file);
      var i := 2;
      file := Numbered(stem, i);
      while file in used
        invariant file == Numbered(stem, i) && FirstFree(stem, i, used) == FirstFree(stem, 2, used)
        decreases FirstFree(stem, 2, used) - i
      {
        FirstFreeFrom(stem, i, used);
        i := i + 1;
        file := Numbered(stem, i);
      }
    }
    used' := used + {file};
  }

  // ---- what saving writes --------------------------------------------------------------------

  /** The file names given to shares, in order. */
  function FileNames(shares: seq<Share>, used: set<string>): seq<string> {
    if shares == [] then []
    else
      var file := UniqueName(shares[0].name, used);
      [file] + FileNames(shares[1..], used + {file})
  }

  ghost predicate AllDistinct<T>(s: seq<T>) {
    forall i, j :: 0 <= i < j < |s| ==> s[i] != s[j]
  }

  /** Every share gets a file of its own. */
  lemma {:induction false} FileNamesDistinct(shares: seq<Share>, used: set<string>)
    ensures |FileNames(shares, used)| == |shares| && AllDistinct(FileNames(shares, used))
    ensures forall i :: 0 <= i < |shares| ==>
      var file := FileNames(shares, used)[i]; file !in used && IsFragment(file) && SafeFile(file)
    decreases |shares|
  {
    hide UniqueName, SafeFile, IsFragment;
    if shares != [] {
      var file := UniqueName(shares[0].name, used);
      UniqueNameIsFile(shares[0].name, used);
      FileNamesDistinct(shares[1..], used + {file});
      var rest := FileNames(shares[1..], used + {file});
      forall i | 0 <= i < |shares| ensures FileNames(shares, used)[i] == if i == 0 then file else rest[i - 1] {}
    }
  }

  /** The fragments of shares under their names. */
  function Fragments(shares: seq<Share>, names: seq<string>): map<string, string>
    requires |names| == |shares|
  {
    if shares == [] then map[]
    else
      var n := |shares| - 1;
      Fragments(shares[..n], names[..n])[names[n] := Render(shares[n])]
  }

  /** Exactly one fragment a share, and no other. */
  ghost predicate OneEach(files: map<string, string>, shares: seq<Share>, names: seq<string>) {
    |names| == |shares|
    && (forall i :: 0 <= i < |names| ==> names[i] in files && files[names[i]] == Render(shares[i]))
    && (forall f :: f in files ==> f in names)
  }

  lemma {:induction false} OneFragmentEach(shares: seq<Share>, names: seq<string>)
    requires |names| == |shares| && AllDistinct(names)
    ensures OneEach(Fragments(shares, names), shares, names) && |Fragments(shares, names)| == |shares|
  {
    hide Render, OneEach;
    if shares == [] {
      NoFiles();
    } else {
      var n := |shares| - 1;
      OneFragmentEach(shares[..n], names[..n]);
      OneEachMore(Fragments(shares[..n], names[..n]), shares, names);
    }
  }

  lemma NoFiles()
    ensures OneEach(map[], [], [])
  {
  }

  lemma OneEachMore(early: map<string, string>, shares: seq<Share>, names: seq<string>)
    requires |names| == |shares| > 0 && AllDistinct(names)
    requires OneEach(early, shares[..|shares| - 1], names[..|names| - 1])
    ensures var n := |shares| - 1;
            OneEach(early[names[n] := Render(shares[n])], shares, names) && |early[names[n] := Render(shares[n])]| == |early| + 1
  {
    hide Render;
    var n := |shares| - 1;
    forall i | 0 <= i < n ensures names[i] in early && early[names[i]] == Render(shares[i]) {
      assert names[..n][i] == names[i] && shares[..n][i] == shares[i];
    }
    OneMoreFile(early, names[n], Render(shares[n]));
  }

  lemma OneMoreFile(files: map<string, string>, file: string, text: string)
    requires file !in files
    ensures |files[file := text]| == |files| + 1
  {
    assert files[file := text].Keys == files.Keys + {file};
  }

  const DIR := "/etc/samba/" + "webgui-shares.d/"
  const NOTE2 := "# \U{6BCF}\U{4E2A}\U{5171}\U{4EAB}" + "\U{4E00}\U{4E2A}\U{7247}\U{6BB5}\U{6587}\U{4EF6}\U{FF0C}\U{89C1} " + "webgui-shares.d/"

  function IncludeLines(names: seq<string>): seq<string> {
    if names == [] then [] else ["include = " + DIR + names[0]] + IncludeLines(names[1..])
  }

  function Aggregate(names: seq<string>): string {
    TextOf([NOTE, NOTE2] + IncludeLines(names))
  }

  /** The aggregate's lines: two notes, and an include of each fragment in order, by its full path. */
  lemma AggregateLines(names: seq<string>)
    requires forall i :: 0 <= i < |names| ==> SafeFile(names[i])
    ensures var lines := Lines(Aggregate(names));
            && |lines| == 2 + |names| && lines[0] != "" && lines[0][0] == '#' && lines[1] != "" && lines[1][0] == '#'
            && forall i :: 0 <= i < |names| ==> lines[2 + i] == "include = " + ("/etc/samba/" + "webgui-shares.d/") + names[i]
  {
    hide StripCr, Lines, TextOf, Stripped, NoBreaks, LineOf;
    var head, rest := [NOTE, NOTE2], IncludeLines(names);
    NotesRead();
    NoteEnds();
    Note2Ends();
    IncludesHeadless(names);
    NoBreaksAppend(head, rest);
    LinesOfText(head + rest);
    StrippedAppend(head, rest);
    IncludesKept(names);
  }

  lemma {:induction false} IncludesKept(names: seq<string>)
    requires forall i :: 0 <= i < |names| ==> SafeFile(names[i])
    ensures Stripped(IncludeLines(names)) == IncludeLines(names) && |IncludeLines(names)| == |names|
    ensures forall i :: 0 <= i < |names| ==> IncludeLines(names)[i] == "include = " + ("/etc/samba/" + "webgui-shares.d/") + names[i]
  {
    hide StripCr, SafeFile;
    if names != [] {
      var line, rest := "include = " + DIR + names[0], IncludeLines(names[1..]);
      IncludesKept(names[1..]);
      NoCrAtEnd(names[0]);
      assert IncludeLines(names) == [line] + rest && ([line] + rest)[1..] == rest;
      assert forall i :: 0 < i < |names| ==> names[i] == names[1..][i - 1];
    }
  }

  lemma NoCrAtEnd(file: string)
    requires SafeFile(file)
    ensures StripCr("include = " + DIR + file) == "include = " + DIR + file
  {
    var line := "include = " + DIR + file;
    assert line[|line| - 1] == file[|file| - 1];
  }

  // ---- what loading reads --------------------------------------------------------------------

  /** The sections of the fragment files, in the order the files are listed. */
  function SectionsOf(fragments: map<string, string>, files: seq<string>): seq<Section> {
    if files == [] then []
    else
      Parse(Lines(if files[0] in fragments then fragments[files[0]] else ""), None) + SectionsOf(fragments, files[1..])
  }

  /** The first section of each name. */
  function FirstOfEach(sections: seq<Section>, seen: set<string>): seq<Section> {
    if sections == [] then []
    else if sections[0].name in seen then FirstOfEach(sections[1..], seen)
    else [sections[0]] + FirstOfEach(sections[1..], seen + {sections[0].name})
  }

  function Shares(sections: seq<Section>, sticky: string -> bool): seq<Share> {
    if sections == [] then []
    else [ToShare(sections[0].name, sections[0].kvs, true, sticky)] + Shares(sections[1..], sticky)
  }

  function Load(fragments: map<string, string>, aggregate: Option<string>, files: seq<string>, sticky: string -> bool): seq<Share> {
    Shares(FirstOfEach(SectionsOf(fragments, files) + Parse(Lines(OrEmpty(aggregate)), None), {}), sticky)
  }

  // ---- the aggregate holds no share ----------------------------------------------------------

  lemma {:induction false} ParseHeadless(lines: seq<string>)
    requires forall i :: 0 <= i < |lines| ==> !LineOf(lines[i]).Head?
    ensures Parse(lines, None) == []
  {
    hide LineOf;
    if lines != [] {
      assert forall i :: 0 <= i < |lines[1..]| ==> lines[1..][i] == lines[i + 1];
      ParseHeadless(lines[1..]);
    }
  }

  lemma Note2Ends()
    ensures NOTE2 != "" && NOTE2[0] == '#' && !IsSpace(NOTE2[|NOTE2| - 1]) && '\n' !in NOTE2
  {
    var a, b, c := "# \U{6BCF}\U{4E2A}\U{5171}\U{4EAB}", "\U{4E00}\U{4E2A}\U{7247}\U{6BB5}\U{6587}\U{4EF6}\U{FF0C}\U{89C1} ", "webgui-shares.d/";
    assert a[0] == '#' && c[|c| - 1] == '/' && '\n' !in a && '\n' !in b && '\n' !in c;
    assert NOTE2 == (a + b) + c;
  }

  lemma IncludeLineRead(file: string)
    requires SafeFile(file)
    ensures var line := "include = " + DIR + file; '\n' !in line && !LineOf(StripCr(line)).Head?
  {
    var a, b := "/etc/samba/", "webgui-shares.d/";
    var line := "include = " + DIR + file;
    assert '\n' !in a && '\n' !in b && '\n' !in "include = " && DIR == a + b;
    assert '\n' !in file;
    TrimStripCr(line);
    TrimStarts(line);
    assert line[0] == 'i';
  }

  lemma TrimStarts(s: string)
    requires s != "" && !IsSpace(s[0])
    ensures Trim(s) != "" && Trim(s)[0] == s[0]
  {
    assert s == [s[0]] + s[1..];
    TrimRightKeeps([s[0]], s[1..]);
  }

  lemma {:induction false} IncludesHeadless(names: seq<string>)
    requires forall i :: 0 <= i < |names| ==> SafeFile(names[i])
    ensures NoBreaks(IncludeLines(names))
    ensures forall i :: 0 <= i < |Stripped(IncludeLines(names))| ==> !LineOf(Stripped(IncludeLines(names))[i]).Head?
  {
    hide LineOf, StripCr, SafeFile;
    if names != [] {
      IncludeLineRead(names[0]);
      IncludesHeadless(names[1..]);
      var line, rest := "include = " + DIR + names[0], IncludeLines(names[1..]);
      assert IncludeLines(names) == [line] + rest;
      NoBreaksAppend([line], rest);
      assert IncludeLines(names)[1..] == rest && Stripped(IncludeLines(names)) == [StripCr(line)] + Stripped(rest);
    }
  }

  lemma AggregateIsEmpty(names: seq<string>)
    requires forall i :: 0 <= i < |names| ==> SafeFile(names[i])
    ensures Parse(Lines(Aggregate(names)), None) == []
  {
    hide LineOf, StripCr, SafeFile, Lines, TextOf, IncludeLines, Stripped, NoBreaks, Parse;
    var head, rest := [NOTE, NOTE2], IncludeLines(names);
    NotesRead();
    IncludesHeadless(names);
    NoBreaksAppend(head, rest);
    LinesOfText(head + rest);
    StrippedAppend(head, rest);
    ParseHeadless(Stripped(head + rest));
  }

  lemma NotesRead()
    ensures NoBreaks([NOTE, NOTE2]) && Stripped([NOTE, NOTE2]) == [NOTE, NOTE2] && LineOf(NOTE).Skip? && LineOf(NOTE2).Skip?
  {
    hide LineOf, StripCr;
    NoteEnds();
    Note2Ends();
    CommentRead(NOTE);
    CommentRead(NOTE2);
    StrippedSame([NOTE, NOTE2]);
  }

  // ---- save, then load -----------------------------------------------------------------------

  /** The share whose file this is. */
  ghost function Owner(shares: seq<Share>, names: seq<string>, file: string): Share
    requires |names| == |shares| && file in names
  {
    var i :| 0 <= i < |names| && names[i] == file;
    shares[i]
  }

  lemma OwnerAt(shares: seq<Share>, names: seq<string>, i: nat)
    requires |names| == |shares| && i < |names| && AllDistinct(names)
    ensures Owner(shares, names, names[i]) == shares[i]
  {
    var j :| 0 <= j < |names| && names[j] == names[i] && Owner(shares, names, names[i]) == shares[j];
    assert j == i;
  }

  ghost predicate Among(files: seq<string>, names: seq<string>) {
    forall i :: 0 <= i < |files| ==> files[i] in names
  }

  ghost function Owners(shares: seq<Share>, names: seq<string>, files: seq<string>): seq<Share>
    requires |names| == |shares| && Among(files, names)
  {
    seq(|files|, i requires 0 <= i < |files| => Owner(shares, names, files[i]))
  }

  /** The name a share is read back under. */
  function ReadName(s: Share): string {
    Trim(s.name)
  }

  function SectionFor(s: Share): Section {
    Section(ReadName(s), Kept(Items(s)))
  }

  function SectionsFor(shares: seq<Share>): seq<Section> {
    seq(|shares|, i requires 0 <= i < |shares| => SectionFor(shares[i]))
  }

  /** The files hold one section each, its share's. */
  lemma {:induction false} SectionsAreOwners(shares: seq<Share>, names: seq<string>, files: seq<string>)
    requires |names| == |shares| && AllDistinct(names) && Among(files, names)
    requires forall i :: 0 <= i < |shares| ==> ValidShare(shares[i])
    ensures SectionsOf(Fragments(shares, names), files) == SectionsFor(Owners(shares, names, files))
    decreases |files|
  {
    hide Render, ValidShare, Fragments, Parse, Lines, Kept, Items, Owner;
    var fragments := Fragments(shares, names);
    if files != [] {
      var i :| 0 <= i < |names| && names[i] == files[0];
      OneFragmentEach(shares, names);
      OwnerAt(shares, names, i);
      RenderedParses(shares[i]);
      var rest := files[1..];
      assert Among(rest, names);
      SectionsAreOwners(shares, names, rest);
      assert Owners(shares, names, files) == [shares[i]] + Owners(shares, names, rest);
      assert SectionsFor(Owners(shares, names, files)) == [SectionFor(shares[i])] + SectionsFor(Owners(shares, names, rest));
    }
  }

  ghost function ReadNames(shares: seq<Share>): seq<string> {
    seq(|shares|, i requires 0 <= i < |shares| => ReadName(shares[i]))
  }

  ghost function AllLoaded(shares: seq<Share>, sticky: string -> bool): seq<Share> {
    seq(|shares|, i requires 0 <= i < |shares| => Loaded(shares[i], sticky))
  }

  lemma {:induction false} SharesLoaded(shares: seq<Share>, sticky: string -> bool)
    requires forall i :: 0 <= i < |shares| ==> ValidShare(shares[i])
    ensures Shares(SectionsFor(shares), sticky) == AllLoaded(shares, sticky)
  {
    hide ValidShare, ToShare, Loaded, Kept, Items, Parse, Lines, Render, Trim;
    if shares != [] {
      ShareRoundTrip(shares[0], sticky);
      SharesLoaded(shares[1..], sticky);
      assert SectionsFor(shares)[1..] == SectionsFor(shares[1..]);
      assert AllLoaded(shares, sticky) == [Loaded(shares[0], sticky)] + AllLoaded(shares[1..], sticky);
    }
  }

  ghost predicate FreshNames(shares: seq<Share>, seen: set<string>) {
    AllDistinct(ReadNames(shares)) && forall i :: 0 <= i < |shares| ==> ReadName(shares[i]) !in seen
  }

  /** Nothing is dropped exactly when every name is new; what is kept has distinct names. */
  lemma {:induction false} FirstOfEachKeeps(shares: seq<Share>, seen: set<string>)
    ensures FreshNames(shares, seen) ==> FirstOfEach(SectionsFor(shares), seen) == SectionsFor(shares)
    ensures !FreshNames(shares, seen) ==> |FirstOfEach(SectionsFor(shares), seen)| < |shares|
    ensures |FirstOfEach(SectionsFor(shares), seen)| <= |shares|
    decreases |shares|
  {
    hide SectionFor, FreshNames, ReadName;
    FreshStep(shares, seen);
    if shares != [] {
      var s, rest := shares[0], shares[1..];
      assert SectionsFor(shares)[1..] == SectionsFor(rest) && SectionsFor(shares)[0].name == ReadName(s) by { SectionName(s); }
      if ReadName(s) in seen {
        FirstOfEachKeeps(rest, seen);
      } else {
        FirstOfEachKeeps(rest, seen + {ReadName(s)});
        assert [SectionsFor(shares)[0]] + SectionsFor(rest) == SectionsFor(shares);
      }
    }
  }

  lemma SectionName(s: Share)
    ensures SectionFor(s).name == ReadName(s)
  {
  }

  lemma FreshStep(shares: seq<Share>, seen: set<string>)
    ensures shares == [] ==> FreshNames(shares, seen)
    ensures shares != [] ==>
      (FreshNames(shares, seen) <==> ReadName(shares[0]) !in seen && FreshNames(shares[1..], seen + {ReadName(shares[0])}))
  {
    if shares != [] {
      if FreshNames(shares, seen) {
        FreshTail(shares, seen);
      }
      if ReadName(shares[0]) !in seen && FreshNames(shares[1..], seen + {ReadName(shares[0])}) {
        FreshCons(shares, seen);
      }
    }
  }

  lemma FreshTail(shares: seq<Share>, seen: set<string>)
    requires shares != [] && FreshNames(shares, seen)
    ensures ReadName(shares[0]) !in seen && FreshNames(shares[1..], seen + {ReadName(shares[0])})
  {
    var rest := shares[1..];
    forall i | 0 <= i < |rest| ensures ReadNames(rest)[i] == ReadNames(shares)[i + 1] && ReadName(rest[i]) !in seen + {ReadName(shares[0])} {
      assert rest[i] == shares[i + 1] && ReadNames(shares)[0] != ReadNames(shares)[i + 1];
    }
  }

  lemma FreshCons(shares: seq<Share>, seen: set<string>)
    requires shares != [] && ReadName(shares[0]) !in seen && FreshNames(shares[1..], seen + {ReadName(shares[0])})
    ensures FreshNames(shares, seen)
  {
    hide ReadName;
    var rest := shares[1..];
    assert ReadNames(shares) == [ReadName(shares[0])] + ReadNames(rest);
    forall i | 0 <= i < |rest| ensures ReadNames(rest)[i] != ReadName(shares[0]) && ReadName(shares[i + 1]) !in seen {
      assert rest[i] == shares[i + 1];
    }
    DistinctCons(ReadName(shares[0]), ReadNames(rest));
  }

  lemma DistinctCons<T>(x: T, s: seq<T>)
    requires AllDistinct(s) && forall i :: 0 <= i < |s| ==> s[i] != x
    ensures AllDistinct([x] + s)
  {
  }

  // ---- listing order does not matter -----------------------------------------------------------

  ghost function MapAll<A, B>(f: A -> B, s: seq<A>): seq<B> {
    if s == [] then [] else [f(s[0])] + MapAll(f, s[1..])
  }

  lemma {:induction false} MapAllAt<A, B>(f: A -> B, s: seq<A>)
    ensures |MapAll(f, s)| == |s| && forall i :: 0 <= i < |s| ==> MapAll(f, s)[i] == f(s[i])
  {
    if s != [] {
      MapAllAt(f, s[1..]);
    }
  }

  lemma {:induction false} MapAllAppend<A, B>(f: A -> B, a: seq<A>, b: seq<A>)
    ensures MapAll(f, a + b) == MapAll(f, a) + MapAll(f, b)
  {
    if a == [] {
      assert a + b == b;
    } else {
      MapAllAppend(f, a[1..], b);
      assert (a + b)[1..] == a[1..] + b;
      assert [f(a[0])] + (MapAll(f, a[1..]) + MapAll(f, b)) == ([f(a[0])] + MapAll(f, a[1..])) + MapAll(f, b);
    }
  }

  lemma RemoveOne<A>(a: seq<A>, b: seq<A>, j: nat)
    requires multiset(a) == multiset(b) && a != [] && j < |b| && b[j] == a[0]
    ensures multiset(a[1..]) == multiset(b[..j] + b[j + 1..])
  {
    assert a == [a[0]] + a[1..];
    assert b == b[..j] + ([b[j]] + b[j + 1..]);
    assert multiset(a[1..]) == multiset(a) - multiset{a[0]};
    assert multiset(b[..j] + b[j + 1..]) == multiset(b) - multiset{a[0]};
  }

  /** The same elements in another order give the same images. */
  lemma {:induction false} MapAllPermuted<A, B>(f: A -> B, a: seq<A>, b: seq<A>)
    requires multiset(a) == multiset(b)
    ensures multiset(MapAll(f, a)) == multiset(MapAll(f, b))
    decreases |a|
  {
    if a == [] {
      assert |multiset(b)| == 0;
    } else {
      assert a[0] in multiset(b);
      var j :| 0 <= j < |b| && b[j] == a[0];
      RemoveOne(a, b, j);
      MapAllPermuted(f, a[1..], b[..j] + b[j + 1..]);
      MapAllWithout(f, b, j);
    }
  }

  lemma MapAllWithout<A, B>(f: A -> B, b: seq<A>, j: nat)
    requires j < |b|
    ensures multiset(MapAll(f, b)) == multiset{f(b[j])} + multiset(MapAll(f, b[..j] + b[j + 1..]))
  {
    hide MapAll;
    assert b == b[..j] + ([b[j]] + b[j + 1..]);
    MapAllAppend(f, b[..j], [b[j]] + b[j + 1..]);
    MapAllAppend(f, b[..j], b[j + 1..]);
    MapAllAppend(f, [b[j]], b[j + 1..]);
    MapAllOne(f, b[j]);
  }

  lemma MapAllOne<A, B>(f: A -> B, x: A)
    ensures MapAll(f, [x]) == [f(x)]
  {
    assert [x][1..] == [];
  }

  /** Every file's owner, loaded: a function of the file alone. */
  ghost function OwnerLoaded(shares: seq<Share>, names: seq<string>, sticky: string -> bool): string -> Share
    requires |names| == |shares| && shares != []
  {
    file => Loaded(if file in names then Owner(shares, names, file) else shares[0], sticky)
  }

  lemma AmongAll(files: seq<string>, names: seq<string>)
    requires multiset(files) == multiset(names)
    ensures Among(files, names)
  {
    forall i | 0 <= i < |files| ensures files[i] in names {
      assert files[i] in multiset(names);
    }
  }

  /** The shares loaded from the files, listed in any order, are the shares saved, each loaded. */
  lemma OwnersPermute(shares: seq<Share>, names: seq<string>, files: seq<string>, sticky: string -> bool)
    requires |names| == |shares| && AllDistinct(names) && multiset(files) == multiset(names)
    ensures Among(files, names)
    ensures multiset(AllLoaded(Owners(shares, names, files), sticky)) == multiset(AllLoaded(shares, sticky))
  {
    hide Loaded, Owner;
    AmongAll(files, names);
    if shares == [] {
      assert |multiset(files)| == 0;
    } else {
      var f := OwnerLoaded(shares, names, sticky);
      MapAllPermuted(f, files, names);
      MapAllAt(f, files);
      MapAllAt(f, names);
      assert MapAll(f, files) == AllLoaded(Owners(shares, names, files), sticky);
      forall i | 0 <= i < |names| ensures MapAll(f, names)[i] == AllLoaded(shares, sticky)[i] {
        OwnerAt(shares, names, i);
      }
      assert MapAll(f, names) == AllLoaded(shares, sticky);
    }
  }

  lemma OwnersValid(shares: seq<Share>, names: seq<string>, files: seq<string>)
    requires |names| == |shares| && Among(files, names)
    requires forall i :: 0 <= i < |shares| ==> ValidShare(shares[i])
    ensures forall i :: 0 <= i < |files| ==> ValidShare(Owners(shares, names, files)[i])
  {
    hide ValidShare;
  }

  /** Do the owners of the files have new names exactly when the shares' names are distinct? */
  lemma OwnersFresh(shares: seq<Share>, names: seq<string>, files: seq<string>)
    requires |names| == |shares| && AllDistinct(names) && multiset(files) == multiset(names) && Among(files, names)
    ensures FreshNames(Owners(shares, names, files), {}) <==> AllDistinct(ReadNames(shares))
    ensures |Owners(shares, names, files)| == |shares|
  {
    var owners := Owners(shares, names, files);
    assert |multiset(files)| == |multiset(names)|;
    var f: string -> string := OwnerName(shares, names);
    MapAllPermuted(f, files, names);
    MapAllAt(f, files);
    MapAllAt(f, names);
    assert MapAll(f, files) == ReadNames(owners);
    forall i | 0 <= i < |names| ensures MapAll(f, names)[i] == ReadNames(shares)[i] {
      OwnerAt(shares, names, i);
    }
    assert MapAll(f, names) == ReadNames(shares);
    DistinctCounts(ReadNames(owners));
    DistinctCounts(ReadNames(shares));
  }

  ghost function OwnerName(shares: seq<Share>, names: seq<string>): string -> string
    requires |names| == |shares|
  {
    file => if file in names then ReadName(Owner(shares, names, file)) else ""
  }

  lemma {:induction false} DistinctCounts<T>(s: seq<T>)
    ensures AllDistinct(s) <==> forall x :: x in s ==> multiset(s)[x] == 1
  {
    if s != [] {
      var n := |s| - 1;
      var front := s[..n];
      DistinctCounts(front);
      assert s == front + [s[n]];
      assert forall i :: 0 <= i < n ==> front[i] == s[i];
      if AllDistinct(s) {
        assert AllDistinct(front) && s[n] !in front;
      }
      if forall x :: x in s ==> multiset(s)[x] == 1 {
        assert s[n] in s && multiset(s)[s[n]] == multiset(front)[s[n]] + 1;
        assert s[n] !in front;
        forall x | x in front ensures multiset(front)[x] == 1 {
          assert multiset(s)[x] == 1;
        }
      }
    }
  }

  /** Do the files written for the shares load as those shares, trimmed, in some order? */
  ghost predicate LoadsTrimmed(shares: seq<Share>, files: seq<string>, sticky: string -> bool) {
    multiset(LoadSaved(shares, files, sticky)) == multiset(AllLoaded(shares, sticky))
  }

  /** What loading finds after saving the shares. */
  function LoadSaved(shares: seq<Share>, files: seq<string>, sticky: string -> bool): seq<Share> {
    var names := FileNames(shares, {});
    FileNamesDistinct(shares, {});
    Load(Fragments(shares, names), Some(Aggregate(names)), files, sticky)
  }

  /** The sections loaded after saving are those of the files' owners. */
  lemma LoadedSections(shares: seq<Share>, files: seq<string>, sticky: string -> bool) returns (owners: seq<Share>)
    requires forall i :: 0 <= i < |shares| ==> ValidShare(shares[i])
    requires multiset(files) == multiset(FileNames(shares, {}))
    ensures |owners| == |shares| && forall i :: 0 <= i < |owners| ==> ValidShare(owners[i])
    ensures FreshNames(owners, {}) <==> AllDistinct(ReadNames(shares))
    ensures multiset(AllLoaded(owners, sticky)) == multiset(AllLoaded(shares, sticky))
    ensures LoadSaved(shares, files, sticky) == Shares(FirstOfEach(SectionsFor(owners), {}), sticky)
  {
    hide Fragments, Aggregate, SectionsOf, FirstOfEach, ValidShare, Parse, Lines, Loaded, Shares, SectionsFor, FreshNames, FileNames, UniqueName;
    FileNamesDistinct(shares, {});
    var names := FileNames(shares, {});
    AggregateIsEmpty(names);
    OwnersPermute(shares, names, files, sticky);
    owners := Owners(shares, names, files);
    SectionsAreOwners(shares, names, files);
    OwnersValid(shares, names, files);
    OwnersFresh(shares, names, files);
    assert SectionsFor(owners) + [] == SectionsFor(owners);
  }

  /** Up to trimming and order, what is saved is loaded back exactly when no two shares have one trimmed name. */
  lemma SaveThenLoadTrimmed(shares: seq<Share>, files: seq<string>, sticky: string -> bool)
    requires forall i :: 0 <= i < |shares| ==> ValidShare(shares[i])
    requires multiset(files) == multiset(FileNames(shares, {}))
    ensures LoadsTrimmed(shares, files, sticky) <==> AllDistinct(ReadNames(shares))
  {
    hide FirstOfEach, ValidShare, Loaded, Shares, SectionsFor, FreshNames, FileNames, LoadSaved;
    var owners := LoadedSections(shares, files, sticky);
    FirstOfEachKeeps(owners, {});
    SharesLoaded(owners, sticky);
    var loaded := LoadSaved(shares, files, sticky);
    SharesSize(FirstOfEach(SectionsFor(owners), {}), sticky);
    if multiset(loaded) == multiset(AllLoaded(shares, sticky)) {
      assert |loaded| == |multiset(loaded)| == |shares|;
    }
  }

  // ---- names that lose their ends ------------------------------------------------------------

  /** The shares as they should be read back: every one under the name it was saved with. */
  ghost function AllSaved(shares: seq<Share>, sticky: string -> bool): seq<Share> {
    seq(|shares|, i requires 0 <= i < |shares| => Loaded(shares[i], sticky).(name := shares[i].name))
  }

  ghost predicate LoadsBack(shares: seq<Share>, files: seq<string>, sticky: string -> bool) {
    multiset(LoadSaved(shares, files, sticky)) == multiset(AllSaved(shares, sticky))
  }

  ghost function Names(shares: seq<Share>): seq<string> {
    seq(|shares|, i requires 0 <= i < |shares| => shares[i].name)
  }

  ghost predicate TrimmedNames(shares: seq<Share>) {
    forall i :: 0 <= i < |shares| ==> Trim(shares[i].name) == shares[i].name
  }

  lemma {:induction false} LoadedNamesTrimmed(sections: seq<Section>, seen: set<string>, sticky: string -> bool)
    requires forall i :: 0 <= i < |sections| ==> Trim(sections[i].name) == sections[i].name
    ensures TrimmedNames(Shares(FirstOfEach(sections, seen), sticky))
    decreases |sections|
  {
    hide Trim, ToShare;
    if sections != [] {
      var rest := sections[1..];
      assert forall i :: 0 <= i < |rest| ==> rest[i] == sections[i + 1];
      if sections[0].name in seen {
        LoadedNamesTrimmed(rest, seen, sticky);
      } else {
        LoadedNamesTrimmed(rest, seen + {sections[0].name}, sticky);
        SharesCons(sections[0], FirstOfEach(rest, seen + {sections[0].name}), sticky);
        ToShareName(sections[0], sticky);
      }
    }
  }

  lemma ToShareName(s: Section, sticky: string -> bool)
    ensures ToShare(s.name, s.kvs, true, sticky).name == s.name
  {
  }

  lemma SectionsTrimmed(shares: seq<Share>)
    ensures forall i :: 0 <= i < |shares| ==> Trim(SectionsFor(shares)[i].name) == SectionsFor(shares)[i].name
  {
    hide Trim, Kept, Items;
    forall i | 0 <= i < |shares| ensures Trim(SectionsFor(shares)[i].name) == SectionsFor(shares)[i].name {
      TrimTrim(shares[i].name);
    }
  }

  lemma TrimmedIsSame(shares: seq<Share>, sticky: string -> bool)
    requires TrimmedNames(shares)
    ensures AllSaved(shares, sticky) == AllLoaded(shares, sticky) && Names(shares) == ReadNames(shares)
  {
    hide Trim;
  }

  /** What is saved is loaded back, every share under its own name, exactly when no two shares have one
      name and no name begins or ends with white space of any script. */
  lemma SaveThenLoad(shares: seq<Share>, files: seq<string>, sticky: string -> bool)
    requires forall i :: 0 <= i < |shares| ==> ValidShare(shares[i])
    requires multiset(files) == multiset(FileNames(shares, {}))
    ensures LoadsBack(shares, files, sticky) <==> AllDistinct(Names(shares)) && TrimmedNames(shares)
  {
    hide ValidShare, FileNames, LoadSaved, TrimmedNames, AllSaved, AllLoaded, Names, ReadNames, AllDistinct;
    SaveThenLoadTrimmed(shares, files, sticky);
    LoadedAreTrimmed(shares, files, sticky);
    if LoadsBack(shares, files, sticky) {
      SameAreTrimmed(shares, LoadSaved(shares, files, sticky), sticky);
    }
    if TrimmedNames(shares) {
      TrimmedIsSame(shares, sticky);
    }
  }

  lemma LoadedAreTrimmed(shares: seq<Share>, files: seq<string>, sticky: string -> bool)
    requires forall i :: 0 <= i < |shares| ==> ValidShare(shares[i])
    requires multiset(files) == multiset(FileNames(shares, {}))
    ensures TrimmedNames(LoadSaved(shares, files, sticky))
  {
    hide FirstOfEach, ValidShare, Shares, SectionsFor, FreshNames, FileNames, LoadSaved, TrimmedNames, AllLoaded;
    var owners := LoadedSections(shares, files, sticky);
    SectionsTrimmed(owners);
    SectionsForSize(owners);
    LoadedNamesTrimmed(SectionsFor(owners), {}, sticky);
  }

  lemma SectionsForSize(shares: seq<Share>)
    ensures |SectionsFor(shares)| == |shares|
  {
  }

  lemma SameAreTrimmed(shares: seq<Share>, loaded: seq<Share>, sticky: string -> bool)
    requires TrimmedNames(loaded) && multiset(loaded) == multiset(AllSaved(shares, sticky))
    ensures TrimmedNames(shares)
  {
    hide Trim, Loaded;
    forall i | 0 <= i < |shares| ensures Trim(shares[i].name) == shares[i].name {
      assert AllSaved(shares, sticky)[i] in multiset(loaded);
      var j :| 0 <= j < |loaded| && loaded[j] == AllSaved(shares, sticky)[i];
    }
  }

  /** A name may be valid and end in a space that is not the plain one: it comes back without. */
  lemma WideSpaceIsLost(files: seq<string>, sticky: string -> bool)
    ensures var s := Share("a\U{3000}", "/srv", "", true, false, true, "", "", "", false, false, false, true);
            ValidShare(s) && ReadName(s) == "a"
            && (multiset(files) == multiset(FileNames([s], {})) ==> !LoadsBack([s], files, sticky))
  {
    var s := Share("a\U{3000}", "/srv", "", true, false, true, "", "", "", false, false, false, true);
    hide ValidShare, Trim, FileNames, LoadsBack;
    WideShare();
    if multiset(files) == multiset(FileNames([s], {})) {
      SpacedIsLost(s, files, sticky);
    }
  }

  /** A valid name that is not its own trimmed form is lost. */
  lemma SpacedIsLost(s: Share, files: seq<string>, sticky: string -> bool)
    requires ValidShare(s) && Trim(s.name) != s.name && multiset(files) == multiset(FileNames([s], {}))
    ensures !LoadsBack([s], files, sticky)
  {
    hide ValidShare, Trim, FileNames, LoadsBack;
    SaveThenLoad([s], files, sticky);
    assert [s][0] == s;
  }

  lemma WideShare()
    ensures var s := Share("a\U{3000}", "/srv", "", true, false, true, "", "", "", false, false, false, true);
            ValidShare(s) && ReadName(s) == "a" && Trim(s.name) != s.name
  {
    hide ValidName, Trim, HasControl;
    WideName();
    PlainTexts();
    assert |"a\U{3000}"| == 2 && |"a"| == 1;
  }

  lemma WideName()
    ensures ValidName("a\U{3000}") && Trim("a\U{3000}") == "a"
  {
    var name := "a\U{3000}";
    assert name[1..] == "\U{3000}" && name[..1] == "a" && "\U{3000}"[1..] == "";
    assert Utf8Size("") == 0 && Utf8Size("\U{3000}") == 3 && Utf8Size(name) == 4;
    assert TrimLeft(name) == name && TrimRight("a") == "a";
  }

  lemma PlainTexts()
    ensures Trim("/srv") == "/srv" && "/srv"[..1] == "/" && !HasControl("/srv") && !HasControl("")
  {
    assert TrimLeft("/srv") == "/srv" && TrimRight("/srv") == "/srv";
  }

  lemma {:induction false} SharesSize(sections: seq<Section>, sticky: string -> bool)
    ensures |Shares(sections, sticky)| == |sections|
  {
    hide ToShare;
    if sections != [] {
      SharesSize(sections[1..], sticky);
    }
  }

  // ---- the running form ------------------------------------------------------------------------

  datatype Problem = BadName | BadPath | BadField

  function ProblemOf(s: Share): Option<Problem> {
    if !ValidName(s.name) then Some(BadName)
    else if Trim(s.path) == "" || s.path[..1] != "/" || HasControl(s.path) then Some(BadPath)
    else if HasControl(s.comment) || HasControl(s.validUsers) || HasControl(s.writeList) || HasControl(s.readList) then
      Some(BadField)
    else None
  }

  function FirstProblem(shares: seq<Share>): Option<Problem> {
    if shares == [] then None
    else if ProblemOf(shares[0]).Some? then ProblemOf(shares[0])
    else FirstProblem(shares[1..])
  }

  lemma NothingTrims()
    ensures Trim("") == ""
  {
  }

  /** A share is refused for the first of three reasons, the first refused share for all. */
  lemma {:induction false} RefusedFor(shares: seq<Share>, i: nat)
    requires i < |shares| && !ValidShare(shares[i]) && forall j :: 0 <= j < i ==> ValidShare(shares[j])
    ensures var s := shares[i];
            && (!ValidName(s.name) ==> FirstProblem(shares) == Some(BadName))
            && (ValidName(s.name) && (HasControl(s.path) || s.path == "" || s.path[0] != '/') ==> FirstProblem(shares) == Some(BadPath))
            && (FirstProblem(shares) == Some(BadField) ==>
                  ValidName(s.name) && !HasControl(s.path)
                  && exists t :: t in [s.comment, s.validUsers, s.writeList, s.readList] && HasControl(t))
  {
    hide ValidName, HasControl, Trim;
    if i > 0 {
      assert ValidShare(shares[0]);
      RefusedFor(shares[1..], i - 1);
    } else {
      var s := shares[0];
      var texts := [s.comment, s.validUsers, s.writeList, s.readList];
      assert texts[0] == s.comment && texts[1] == s.validUsers && texts[2] == s.writeList && texts[3] == s.readList;
      assert s.path != "" ==> s.path[..1] == [s.path[0]];
      NothingTrims();
    }
  }

  lemma {:induction false} NoProblem(shares: seq<Share>)
    ensures FirstProblem(shares) == None <==> forall i :: 0 <= i < |shares| ==> ValidShare(shares[i])
  {
    hide ValidName, HasControl, Trim;
    if shares != [] {
      NoProblem(shares[1..]);
      assert ProblemOf(shares[0]) == None <==> ValidShare(shares[0]);
      assert forall i :: 0 <= i < |shares[1..]| ==> shares[1..][i] == shares[i + 1];
      if FirstProblem(shares) == None {
        forall i | 0 <= i < |shares| ensures ValidShare(shares[i]) {
          if i > 0 {
            assert ValidShare(shares[1..][i - 1]);
          }
        }
      }
    }
  }

  /** How `testparm` may go. */
  datatype Testparm = Accepts | Rejects | CannotRun

  datatype Outcome = Refused(problem: Problem) | Saved | RolledBack | Unchecked

  /** The fragment files of the directory, and the aggregate file if there is one. */
  class ShareFiles {
    var fragments: map<string, string>
    var aggregate: Option<string>

    method WriteAll(files: map<string, string>)
      modifies `fragments
      ensures fragments == old(fragments) + files
    {
      var todo := files.Keys;
      while todo != {}
        invariant todo <= files.Keys && fragments == old(fragments) + (files - todo)
        decreases todo
      {
        var f :| f in todo;
        fragments := fragments[f := files[f]];
        todo := todo - {f};
      }
    }

    method RemoveAll(files: set<string>)
      modifies `fragments
      ensures fragments == old(fragments) - files
    {
      var todo := files;
      while todo != {}
        invariant todo <= files && fragments == old(fragments) - (files - todo)
        decreases todo
      {
        var f :| f in todo;
        fragments := fragments - {f};
        todo := todo - {f};
      }
    }

    /** `save_managed`: refused before anything is touched; put back when testparm rejects; otherwise
        exactly the shares' fragments and their aggregate, also when testparm could not be run. */
    method SaveManaged(shares: seq<Share>, testparm: Testparm) returns (r: Outcome)
      modifies this
      ensures |FileNames(shares, {})| == |shares|
      ensures FirstProblem(shares).Some? ==>
        r == Refused(FirstProblem(shares).value) && fragments == old(fragments) && aggregate == old(aggregate)
      ensures FirstProblem(shares).None? && testparm.Rejects? ==>
        r == RolledBack && fragments == old(fragments) && aggregate == Some(OrEmpty(old(aggregate)))
      ensures FirstProblem(shares).None? && !testparm.Rejects? ==>
        && r == (if testparm.Accepts? then Saved else Unchecked)
        && fragments == Fragments(shares, FileNames(shares, {})) && aggregate == Some(Aggregate(FileNames(shares, {})))
    {
      hide Fragments, Render, UniqueName, FileNames, ProblemOf, FirstProblem, Aggregate, OrEmpty;
      FileNamesDistinct(shares, {});
      var problem := Check(shares);
      if problem.Some? {
        return Refused(problem.value);
      }
      var snapshot, aggregateOld := fragments, OrEmpty(aggregate);
      var desired, text := Plan(shares);
      WriteAll(desired);
      RemoveAll(snapshot.Keys - desired.Keys);
      assert fragments == desired;
      aggregate := Some(text);
      if testparm.CannotRun? {
        return Unchecked;
      }
      if testparm.Rejects? {
        RemoveAll(fragments.Keys);
        WriteAll(snapshot);
        aggregate := Some(aggregateOld);
        return RolledBack;
      }
      return Saved;
    }

    /** `load_managed`, the files as the directory lists them; one that cannot be read counts as empty. */
    method LoadManaged(files: seq<string>, sticky: string -> bool, lower: string -> string) returns (shares: seq<Share>)
      ensures shares == ByName(Load(fragments, aggregate, files, sticky), lower)
    {
      shares := Gather(files, sticky);
      shares := ByName(shares, lower);
    }

    /** All shares there are, the first of each name: file by file, then the aggregate. */
    method Gather(files: seq<string>, sticky: string -> bool) returns (shares: seq<Share>)
      ensures shares == Load(fragments, aggregate, files, sticky)
    {
      hide Parse, Lines, ToShare, SectionsOf, Shares, FirstOfEach;
      shares := [];
      var seen: set<string> := {};
      ghost var agg := Parse(Lines(OrEmpty(aggregate)), None);
      assert [] + Load(fragments, aggregate, files, sticky) == Load(fragments, aggregate, files, sticky) && files[0..] == files;
      for i := 0 to |files|
        invariant shares + Shares(FirstOfEach(SectionsOf(fragments, files[i..]) + agg, seen), sticky)
               == Load(fragments, aggregate, files, sticky)
      {
        FileStep(fragments, files[i], files[i + 1..]);
        assert files[i..] == [files[i]] + files[i + 1..];
        var sections := ParseIni(if files[i] in fragments then fragments[files[i]] else "");
        ghost var rest := SectionsOf(fragments, files[i + 1..]);
        Assoc(sections, rest, agg);
        shares, seen := TakeNew(sections, shares, seen, sticky, rest + agg);
      }
      NothingListed(fragments);
      assert files[|files|..] == [] && [] + agg == agg;
      var sections := ParseIni(OrEmpty(aggregate));
      assert sections == agg && agg + [] == agg;
      shares, seen := TakeNew(sections, shares, seen, sticky, []);
      NoShares(seen, sticky);
      assert shares + [] == shares;
    }
  }

  lemma FileStep(fragments: map<string, string>, file: string, rest: seq<string>)
    ensures SectionsOf(fragments, [file] + rest)
         == Parse(Lines(if file in fragments then fragments[file] else ""), None) + SectionsOf(fragments, rest)
  {
    assert ([file] + rest)[1..] == rest;
  }

  lemma NothingListed(fragments: map<string, string>)
    ensures SectionsOf(fragments, []) == []
  {
  }

  lemma NoShares(seen: set<string>, sticky: string -> bool)
    ensures Shares(FirstOfEach([], seen), sticky) == []
  {
  }

  /** The checks that come before anything else. */
  method Check(shares: seq<Share>) returns (problem: Option<Problem>)
    ensures problem == FirstProblem(shares)
  {
    hide ProblemOf;
    for i := 0 to |shares|
      invariant FirstProblem(shares) == FirstProblem(shares[i..])
    {
      assert shares[i..][0] == shares[i] && shares[i..][1..] == shares[i + 1..];
      problem := ProblemOf(shares[i]);
      if problem.Some? {
        return;
      }
    }
    return None;
  }

  /** The fragments to write and the aggregate's text. */
  method Plan(shares: seq<Share>) returns (desired: map<string, string>, text: string)
    ensures |FileNames(shares, {})| == |shares|
    ensures desired == Fragments(shares, FileNames(shares, {})) && text == Aggregate(FileNames(shares, {}))
  {
    hide Render, UniqueName, TextOf, FileNames, Fragments, IncludeLines;
    var used: set<string>, lines, names: seq<string> := {}, [NOTE, NOTE2], [];
    desired := map[];
    FileNamesDistinct(shares, {});
    assert shares[0..] == shares && [] + FileNames(shares, {}) == FileNames(shares, {}) && shares[..0] == [];
    PlanStart();
    for i := 0 to |shares|
      invariant |names| == i && names + FileNames(shares[i..], used) == FileNames(shares, {})
      invariant desired == Fragments(shares[..i], names)
      invariant lines == [NOTE, NOTE2] + IncludeLines(names)
    {
      var file;
      NextName(shares, i, used);
      file, used := UniqueFragmentFilename(shares[i].name, used);
      IncludeLinesSnoc(names, file);
      NextFragment(shares, i, names, file);
      assert names + ([file] + FileNames(shares[i + 1..], used)) == (names + [file]) + FileNames(shares[i + 1..], used);
      lines := lines + ["include = " + DIR + file];
      desired := desired[file := Render(shares[i])];
      names := names + [file];
    }
    assert shares[|shares|..] == [] && names + [] == names && shares[..|shares|] == shares;
    FileNamesDistinct([], used);
    text := TextOf(lines);
  }

  lemma PlanStart()
    ensures Fragments([], []) == map[] && IncludeLines([]) == []
  {
  }

  lemma NextName(shares: seq<Share>, i: nat, used: set<string>)
    requires i < |shares|
    ensures var file := UniqueName(shares[i].name, used);
            FileNames(shares[i..], used) == [file] + FileNames(shares[i + 1..], used + {file})
  {
    hide UniqueName;
    assert shares[i..][0] == shares[i] && shares[i..][1..] == shares[i + 1..];
  }

  lemma NextFragment(shares: seq<Share>, i: nat, names: seq<string>, file: string)
    requires i < |shares| && |names| == i
    ensures Fragments(shares[..i + 1], names + [file]) == Fragments(shares[..i], names)[file := Render(shares[i])]
  {
    hide Render;
    assert shares[..i + 1][..i] == shares[..i] && (names + [file])[..i] == names;
  }

  lemma {:induction false} IncludeLinesSnoc(names: seq<string>, file: string)
    ensures IncludeLines(names + [file]) == IncludeLines(names) + ["include = " + DIR + file]
  {
    if names == [] {
      assert names + [file] == [file] && IncludeLines([file][1..]) == [];
    } else {
      IncludeLinesSnoc(names[1..], file);
      assert (names + [file])[1..] == names[1..] + [file];
    }
  }

  /** The sections of one file that are new, added to the shares. */
  method TakeNew(sections: seq<Section>, shares: seq<Share>, seen: set<string>, sticky: string -> bool, ghost rest: seq<Section>)
    returns (shares': seq<Share>, seen': set<string>)
    ensures shares' + Shares(FirstOfEach(rest, seen'), sticky) == shares + Shares(FirstOfEach(sections + rest, seen), sticky)
  {
    hide ToShare;
    shares', seen' := shares, seen;
    for i := 0 to |sections|
      invariant shares' + Shares(FirstOfEach(sections[i..] + rest, seen'), sticky)
             == shares + Shares(FirstOfEach(sections + rest, seen), sticky)
    {
      var s := sections[i];
      ghost var tail := sections[i + 1..] + rest;
      assert sections[i..] + rest == [s] + tail && ([s] + tail)[1..] == tail;
      if s.name !in seen' {
        seen' := seen' + {s.name};
        ghost var more := Shares(FirstOfEach(tail, seen'), sticky);
        var share := ToShare(s.name, s.kvs, true, sticky);
        SharesCons(s, FirstOfEach(tail, seen'), sticky);
        assert shares' + ([share] + more) == (shares' + [share]) + more;
        shares' := shares' + [share];
      }
    }
    assert sections[|sections|..] + rest == rest;
  }

  lemma SharesCons(s: Section, tail: seq<Section>, sticky: string -> bool)
    ensures Shares([s] + tail, sticky) == [ToShare(s.name, s.kvs, true, sticky)] + Shares(tail, sticky)
  {
    assert ([s] + tail)[1..] == tail;
  }
}
