/** One share as text: what is rendered for it is parsed back as the same share. */
module ShareFormat {
  import opened Basics
  import opened Text
  import opened ConfText

  /** A share as far as files keep it. The sticky bit is the directory's, read back from there. */
  datatype Share = Share(
    name: string, path: string, comment: string, readOnly: bool, guestOk: bool, browseable: bool,
    validUsers: string, writeList: string, readList: string, recycle: bool, fruit: bool,
    sticky: bool, managed: bool)

  datatype Section = Section(name: string, kvs: seq<(string, string)>)

  // ---- reading -------------------------------------------------------------------------------

  datatype LineKind = Skip | Head(name: string) | Setting(key: string, value: string)

  /** `str::to_lowercase`, as far as an ASCII key can tell: the Kelvin sign is the only character beyond
      ASCII that turns into an ASCII letter. */
  function LowerKey(s: string): (t: string)
    ensures |t| == |s|
  {
    seq(|s|, i requires 0 <= i < |s| => if s[i] == '\U{212A}' then 'k' else LowerChar(s[i]))
  }

  function LineOf(line: string): LineKind {
    var t := Trim(line);
    var eq := Find(t, '=');
    if t == "" || t[0] == '#' || t[0] == ';' then Skip
    else if |t| >= 2 && t[0] == '[' && t[|t| - 1] == ']' then Head(Trim(t[1..|t| - 1]))
    else if eq >= 0 then Setting(LowerKey(Trim(t[..eq])), Trim(t[eq + 1..]))
    else Skip
  }

  function Closed(cur: Option<Section>): seq<Section> {
    if cur.Some? then [cur.value] else []
  }

  function Parse(lines: seq<string>, cur: Option<Section>): seq<Section> {
    if lines == [] then Closed(cur)
    else
      match LineOf(lines[0])
      case Skip => Parse(lines[1..], cur)
      case Head(name) => Closed(cur) + Parse(lines[1..], Some(Section(name, [])))
      case Setting(k, v) =>
        Parse(lines[1..], if cur.Some? then Some(Section(cur.value.name, cur.value.kvs + [(k, v)])) else None)
  }

  /** `parse_ini`. */
  method ParseIni(text: string) returns (sections: seq<Section>)
    ensures sections == Parse(Lines(text), None)
  {
    hide LineOf;
    sections := [];
    var cur: Option<Section> := None;
    var lines := Lines(text);
    for i := 0 to |lines|
      invariant sections + Parse(lines[i..], cur) == Parse(lines, None)
    {
      assert lines[i..][0] == lines[i] && lines[i..][1..] == lines[i + 1..];
      match LineOf(lines[i]) {
        case Skip =>
        case Head(name) =>
          ghost var rest := Parse(lines[i + 1..], Some(Section(name, [])));
          assert sections + (Closed(cur) + rest) == (sections + Closed(cur)) + rest;
          if cur.Some? {
            sections := sections + [cur.value];
          }
          cur := Some(Section(name, []));
        case Setting(k, v) =>
          if cur.Some? {
            cur := Some(Section(cur.value.name, cur.value.kvs + [(k, v)]));
          }
      }
    }
    assert lines[|lines|..] == [];
    if cur.Some? {
      sections := sections + [cur.value];
    }
  }

  function Get(kvs: seq<(string, string)>, key: string): Option<string> {
    if kvs == [] then None
    else if kvs[0].0 == key then Some(kvs[0].1)
    else Get(kvs[1..], key)
  }

  predicate Truthy(v: string) {
    Lower(v) == "yes" || Lower(v) == "true" || Lower(v) == "1"
  }

  function AsBool(v: Option<string>, default: bool): bool {
    if v.Some? then Truthy(v.value) else default
  }

  function Or<T>(a: Option<T>, b: Option<T>): Option<T> {
    if a.Some? then a else b
  }

  function OrEmpty(v: Option<string>): string {
    if v.Some? then v.value else ""
  }

  /** `section_to_share`; `sticky` asks the file system about a directory. */
  function ToShare(name: string, kvs: seq<(string, string)>, managed: bool, sticky: string -> bool): Share {
    var writable := Or(Get(kvs, "writable"), Get(kvs, "writeable"));
    var readOnly := if writable.Some? then !Truthy(writable.value) else AsBool(Get(kvs, "read only"), true);
    var vfs := Lower(OrEmpty(Get(kvs, "vfs objects")));
    var path := OrEmpty(Get(kvs, "path"));
    Share(name, path, OrEmpty(Get(kvs, "comment")), readOnly, AsBool(Get(kvs, "guest ok"), false),
          AsBool(Or(Get(kvs, "browseable"), Get(kvs, "browsable")), true),
          OrEmpty(Get(kvs, "valid users")), OrEmpty(Get(kvs, "write list")), OrEmpty(Get(kvs, "read list")),
          HasWord(vfs, "recycle"), HasWord(vfs, "fruit") || AsBool(Get(kvs, "fruit:time machine"), false),
          path != "" && sticky(path), managed)
  }

  /** `str::contains`. */
  function HasWord(s: string, word: string): bool {
    StartsWith(s, word) || (s != "" && HasWord(s[1..], word))
  }

  // ---- writing -------------------------------------------------------------------------------

  /** A setting that is written if its condition holds. */
  datatype Item = Item(written: bool, key: string, value: string)

  function YesNo(b: bool): string {
    if b then "yes" else "no"
  }

  function VfsObjects(recycle: bool, fruit: bool): string {
    if recycle && fruit then "recycle " + "fruit streams_xattr"
    else if recycle then "recycle"
    else "fruit streams_xattr"
  }

  function Items(s: Share): seq<Item> {
    [ Item(true, "path", s.path),
      Item(s.comment != "", "comment", s.comment),
      Item(true, "read only", YesNo(s.readOnly)),
      Item(true, "guest ok", YesNo(s.guestOk)),
      Item(true, "browseable", YesNo(s.browseable)),
      Item(Trim(s.validUsers) != "", "valid users", Trim(s.validUsers)),
      Item(Trim(s.writeList) != "", "write list", Trim(s.writeList)),
      Item(Trim(s.readList) != "", "read list", Trim(s.readList)),
      Item(true, "create mask", "0664"),
      Item(true, "directory mask", "0775"),
      Item(true, "inherit acls", "yes"),
      Item(s.recycle || s.fruit, "vfs objects", VfsObjects(s.recycle, s.fruit)),
      Item(s.recycle, "recycle:repository", ".recycle"),
      Item(s.recycle, "recycle:keeptree", "yes"),
      Item(s.recycle, "recycle:versions", "yes"),
      Item(s.fruit, "fruit:time machine", "yes") ]
  }

  function ItemLines(items: seq<Item>): seq<string> {
    if items == [] then []
    else (if items[0].written then [SetLine(items[0].key, items[0].value)] else []) + ItemLines(items[1..])
  }

  const NOTE := "# Managed by " + "samba-webgui. " + "Do not edit manually."

  /** `render_fragment`. */
  function Render(s: Share): string {
    TextOf([NOTE, "[" + s.name + "]"] + ItemLines(Items(s)))
  }

  // ---- round trip ----------------------------------------------------------------------------

  /** `char::is_control`: the characters of category Cc. */
  predicate IsControl(c: char) {
    c < ' ' || '\U{7F}' <= c <= '\U{9F}'
  }

  predicate HasControl(s: string) {
    exists i :: 0 <= i < |s| && IsControl(s[i])
  }

  function Utf8Size(s: string): nat {
    if s == "" then 0
    else (if s[0] < '\U{80}' then 1 else if s[0] < '\U{800}' then 2 else if s[0] < '\U{10000}' then 3 else 4) + Utf8Size(s[1..])
  }

  /** `valid_section_name`. At the ends of a name it forbids only the plain space. */
  predicate ValidName(s: string) {
    && s != "" && Utf8Size(s) <= 64 && Lower(s) != "global" && !HasControl(s)
    && '[' !in s && ']' !in s && '=' !in s && '#' !in s && ';' !in s
    && s[0] != ' ' && s[|s| - 1] != ' '
  }

  /** What `save_managed` lets through. */
  predicate ValidShare(s: Share) {
    && ValidName(s.name)
    && Trim(s.path) != "" && s.path[..1] == "/" && !HasControl(s.path)
    && !HasControl(s.comment) && !HasControl(s.validUsers) && !HasControl(s.writeList) && !HasControl(s.readList)
  }

  /** A share as it is read back: trimmed, managed, the sticky bit its directory's. */
  function Loaded(s: Share, sticky: string -> bool): Share {
    s.(name := Trim(s.name), path := Trim(s.path), comment := Trim(s.comment), validUsers := Trim(s.validUsers), writeList := Trim(s.writeList),
       readList := Trim(s.readList), sticky := Trim(s.path) != "" && sticky(Trim(s.path)), managed := true)
  }

  // ---- the keys ------------------------------------------------------------------------------

  predicate PlainKey(key: string) {
    && Solid(key) && key[0] != '[' && key[0] != '#' && key[0] != ';'
    && forall i :: 0 <= i < |key| ==> key[i] != '=' && key[i] != '\n' && key[i] < '\U{80}' && !('A' <= key[i] <= 'Z')
  }

  /** Where a key stands among the items, told by its length and a few letters; 16 for nowhere. */
  function Rank(key: string): nat {
    if |key| < 2 then 16
    else
      var first, second, last := key[0], key[1], key[|key| - 1];
      match |key|
      case 4 => 0
      case 7 => 1
      case 8 => if first == 'g' then 3 else 16
      case 9 => if first != 'r' then 16 else if last == 'y' then 2 else 7
      case 10 => if first == 'b' then 4 else 6
      case 11 => if first == 'c' then 8 else if second == 'a' then 5 else 11
      case 12 => 10
      case 14 => 9
      case 16 => if last == 'e' then 13 else 14
      case 18 => if first == 'r' then 12 else 15
      case _ => 16
  }

  lemma KeyRanks()
    ensures Rank("path") == 0 && Rank("comment") == 1 && Rank("read only") == 2 && Rank("guest ok") == 3
    ensures Rank("browseable") == 4 && Rank("valid users") == 5 && Rank("write list") == 6 && Rank("read list") == 7
    ensures Rank("create mask") == 8 && Rank("directory mask") == 9 && Rank("inherit acls") == 10 && Rank("vfs objects") == 11
    ensures Rank("recycle:repository") == 12 && Rank("recycle:keeptree") == 13 && Rank("recycle:versions") == 14
    ensures Rank("fruit:time machine") == 15
    ensures Rank("writable") == Rank("writeable") == Rank("browsable") == 16
  {
  }

  lemma PlainKeys1()
    ensures PlainKey("path") && PlainKey("comment") && PlainKey("read only") && PlainKey("guest ok")
  {
  }

  lemma PlainKeys4()
    ensures PlainKey("browseable") && PlainKey("valid users") && PlainKey("write list") && PlainKey("read list")
  {
  }

  lemma PlainKeys2()
    ensures PlainKey("create mask") && PlainKey("directory mask") && PlainKey("inherit acls") && PlainKey("vfs objects")
  {
  }

  lemma PlainKeys3()
    ensures PlainKey("recycle:repository") && PlainKey("recycle:keeptree")
  {
  }

  lemma PlainKeys5()
    ensures PlainKey("recycle:versions") && PlainKey("fruit:time machine")
  {
  }

  lemma ItemKeys(s: Share)
    ensures forall i :: 0 <= i < |Items(s)| ==> Rank(Items(s)[i].key) == i && PlainKey(Items(s)[i].key)
  {
    hide Rank, PlainKey, Trim, YesNo, VfsObjects;
    KeyRanks();
    PlainKeys1();
    PlainKeys2();
    PlainKeys3();
    PlainKeys4();
    PlainKeys5();
  }

  // ---- parsing what was rendered -------------------------------------------------------------

  /** The settings as they are parsed. */
  function Kept(items: seq<Item>): seq<(string, string)> {
    if items == [] then []
    else (if items[0].written then [(items[0].key, Trim(items[0].value))] else []) + Kept(items[1..])
  }

  lemma SettingRead(key: string, value: string)
    requires PlainKey(key)
    ensures LineOf(SetLine(key, value)) == Setting(key, Trim(value))
  {
    hide SetLine, Trim;
    assert '=' !in key;
    SetLineSplits(key, value);
    assert LowerKey(key) == key;
  }

  lemma {:induction false} ParseItems(items: seq<Item>, name: string, kvs: seq<(string, string)>)
    requires forall i :: 0 <= i < |items| ==> PlainKey(items[i].key)
    ensures Parse(ItemLines(items), Some(Section(name, kvs))) == [Section(name, kvs + Kept(items))]
    decreases |items|
  {
    hide LineOf, PlainKey, SetLine, Trim;
    if items == [] {
      assert kvs + [] == kvs;
    } else {
      var it, rest := items[0], items[1..];
      if it.written {
        SettingRead(it.key, it.value);
        ParseItems(rest, name, kvs + [(it.key, Trim(it.value))]);
        assert ([SetLine(it.key, it.value)] + ItemLines(rest))[1..] == ItemLines(rest);
        assert (kvs + [(it.key, Trim(it.value))]) + Kept(rest) == kvs + ([(it.key, Trim(it.value))] + Kept(rest));
      } else {
        ParseItems(rest, name, kvs);
        assert [] + ItemLines(rest) == ItemLines(rest) && [] + Kept(rest) == Kept(rest);
      }
    }
  }

  lemma HeadRead(name: string)
    ensures LineOf("[" + name + "]") == Head(Trim(name))
  {
    var t := "[" + name + "]";
    assert t[0] == '[' && t[|t| - 1] == ']' && t[1..|t| - 1] == name;
    assert TrimLeft(t) == t && TrimRight(t) == t;
  }

  lemma CommentRead(line: string)
    requires line != "" && line[0] == '#' && !IsSpace(line[|line| - 1])
    ensures LineOf(line) == Skip && StripCr(line) == line
  {
  }

  lemma NoteEnds()
    ensures NOTE != "" && NOTE[0] == '#' && !IsSpace(NOTE[|NOTE| - 1]) && '\n' !in NOTE
  {
    var a, b, c := "# Managed by ", "samba-webgui. ", "Do not edit manually.";
    assert a[0] == '#' && c[|c| - 1] == '.' && '\n' !in a && '\n' !in b && '\n' !in c;
    assert NOTE == (a + b) + c;
  }

  predicate OneLine(s: string) {
    '\n' !in s && '\r' !in s
  }

  lemma {:induction false} TrimLeftIn(s: string, c: char)
    ensures c in TrimLeft(s) ==> c in s
  {
    if s != "" && IsSpace(s[0]) {
      TrimLeftIn(s[1..], c);
    }
  }

  lemma {:induction false} TrimRightIn(s: string, c: char)
    ensures c in TrimRight(s) ==> c in s
  {
    if s != "" && IsSpace(s[|s| - 1]) {
      TrimRightIn(s[..|s| - 1], c);
    }
  }

  lemma TrimOneLine(s: string)
    requires !HasControl(s)
    ensures OneLine(s) && OneLine(Trim(s))
  {
    forall c | c == '\n' || c == '\r' ensures c !in s && c !in Trim(s) {
      TrimRightIn(TrimLeft(s), c);
      TrimLeftIn(s, c);
    }
  }

  lemma ItemsOneLine(s: Share)
    requires ValidShare(s)
    ensures forall i :: 0 <= i < |Items(s)| ==> OneLine(Items(s)[i].value)
  {
    hide Trim, OneLine, HasControl, ValidName;
    TrimOneLine(s.path);
    TrimOneLine(s.comment);
    TrimOneLine(s.validUsers);
    TrimOneLine(s.writeList);
    TrimOneLine(s.readList);
    ConstantsOneLine();
  }

  lemma ConstantsOneLine()
    ensures OneLine("yes") && OneLine("no") && OneLine("0664") && OneLine("0775") && OneLine(".recycle")
    ensures OneLine("recycle " + "fruit streams_xattr") && OneLine("recycle") && OneLine("fruit streams_xattr")
  {
  }

  lemma SetLineOneLine(key: string, value: string)
    requires PlainKey(key) && OneLine(value)
    ensures '\n' !in SetLine(key, value) && StripCr(SetLine(key, value)) == SetLine(key, value)
  {
    var line := SetLine(key, value);
    assert line[|line| - 1] == if value == "" then ' ' else value[|value| - 1];
  }

  lemma {:induction false} ItemLinesClean(items: seq<Item>)
    requires forall i :: 0 <= i < |items| ==> PlainKey(items[i].key) && OneLine(items[i].value)
    ensures NoBreaks(ItemLines(items)) && Stripped(ItemLines(items)) == ItemLines(items)
  {
    hide PlainKey, OneLine, SetLine, StripCr;
    if items != [] {
      ItemLinesClean(items[1..]);
      var rest := ItemLines(items[1..]);
      if items[0].written {
        SetLineOneLine(items[0].key, items[0].value);
        assert ([SetLine(items[0].key, items[0].value)] + rest)[1..] == rest;
      } else {
        assert [] + rest == rest;
      }
    }
  }

  lemma HeadClean(name: string)
    requires ValidName(name)
    ensures '\n' !in "[" + name + "]" && StripCr("[" + name + "]") == "[" + name + "]"
  {
    NoBreakIn(name);
    var t := "[" + name + "]";
    assert t[|name| + 1] == ']';
  }

  lemma NoBreakIn(s: string)
    requires !HasControl(s)
    ensures '\n' !in s
  {
  }

  /** The lines of the rendered text are the lines it was rendered from. */
  lemma RenderedLines(s: Share)
    requires ValidShare(s)
    ensures Lines(Render(s)) == [NOTE, "[" + s.name + "]"] + ItemLines(Items(s))
  {
    hide Items, ItemLines, Lines, TextOf, PlainKey, OneLine, StripCr, ValidName, Trim, HasControl, Stripped, NoBreaks;
    var head, items := [NOTE, "[" + s.name + "]"], ItemLines(Items(s));
    HeadLinesClean(s.name);
    ItemKeys(s);
    ItemsOneLine(s);
    ItemLinesClean(Items(s));
    NoBreaksAppend(head, items);
    LinesOfText(head + items);
    StrippedAppend(head, items);
  }

  lemma HeadLinesClean(name: string)
    requires ValidName(name)
    ensures NoBreaks([NOTE, "[" + name + "]"]) && Stripped([NOTE, "[" + name + "]"]) == [NOTE, "[" + name + "]"]
  {
    hide ValidName, StripCr;
    NoteEnds();
    CommentRead(NOTE);
    HeadClean(name);
    StrippedSame([NOTE, "[" + name + "]"]);
  }

  /** A rendered share parses as one section with its settings. */
  lemma RenderedParses(s: Share)
    requires ValidShare(s)
    ensures Parse(Lines(Render(s)), None) == [Section(Trim(s.name), Kept(Items(s)))]
  {
    hide Items, ItemLines, Lines, PlainKey, LineOf, ValidName, Trim, HasControl, Render;
    RenderedLines(s);
    var items := ItemLines(Items(s));
    NoteEnds();
    CommentRead(NOTE);
    HeadRead(s.name);
    ItemKeys(s);
    ParseItems(Items(s), Trim(s.name), []);
    var lines := [NOTE, "[" + s.name + "]"] + items;
    assert lines[1..] == ["[" + s.name + "]"] + items && lines[1..][1..] == items;
    assert [] + Kept(Items(s)) == Kept(Items(s));
  }

  // ---- looking the settings up ---------------------------------------------------------------

  lemma {:induction false} GetNone(items: seq<Item>, key: string)
    requires forall i :: 0 <= i < |items| ==> items[i].key != key
    ensures Get(Kept(items), key) == None
  {
    hide Trim;
    if items != [] {
      GetNone(items[1..], key);
      var rest := Kept(items[1..]);
      if items[0].written {
        assert ([(items[0].key, Trim(items[0].value))] + rest)[1..] == rest;
      } else {
        assert [] + rest == rest;
      }
    }
  }

  lemma {:induction false} GetItem(items: seq<Item>, i: nat)
    requires i < |items| && forall j :: 0 <= j < |items| && j != i ==> items[j].key != items[i].key
    ensures Get(Kept(items), items[i].key) == if items[i].written then Some(Trim(items[i].value)) else None
  {
    hide Trim;
    var rest := Kept(items[1..]);
    if items[0].written {
      assert ([(items[0].key, Trim(items[0].value))] + rest)[1..] == rest;
    } else {
      assert [] + rest == rest;
    }
    if i > 0 {
      GetItem(items[1..], i - 1);
    } else {
      GetNone(items[1..], items[0].key);
    }
  }

  /** Is this the key of an item, written or not? */
  ghost predicate IsItemKey(s: Share, key: string) {
    exists i :: 0 <= i < |Items(s)| && Items(s)[i].key == key
  }

  /** Each item written is found under its key, trimmed, and nothing under any other key. */
  lemma GetRanked(s: Share, key: string)
    ensures IsItemKey(s, key) ==>
      Rank(key) < |Items(s)| && Items(s)[Rank(key)].key == key
      && Get(Kept(Items(s)), key) == if Items(s)[Rank(key)].written then Some(Trim(Items(s)[Rank(key)].value)) else None
    ensures !IsItemKey(s, key) ==> Get(Kept(Items(s)), key) == None
  {
    hide Rank, PlainKey, Trim, Kept, Get;
    ItemKeys(s);
    if i :| 0 <= i < |Items(s)| && Items(s)[i].key == key {
      GetItem(Items(s), i);
    } else {
      GetNone(Items(s), key);
    }
  }

  // ---- round trip ----------------------------------------------------------------------------

  lemma TrimTrim(s: string)
    ensures Trim(Trim(s)) == Trim(s)
  {
    TrimLeftKeepsRight(s);
    TrimLeftTwice(TrimRight(s));
    TrimRightTwice(TrimLeft(s));
  }

  lemma FlagTexts(b: bool)
    ensures Trim(YesNo(b)) == YesNo(b) && Truthy(YesNo(b)) == b
  {
    assert Lower("yes") == "yes" && Lower("no")[0] == 'n';
  }

  lemma {:induction false} WordIn(s: string, word: string, c: char)
    requires HasWord(s, word) && c in word
    ensures c in s
  {
    if StartsWith(s, word) {
      var i :| 0 <= i < |word| && word[i] == c;
      assert s[i] == s[..|word|][i];
    } else {
      WordIn(s[1..], word, c);
    }
  }

  lemma NoWord(s: string, word: string, c: char)
    requires c in word && c !in s
    ensures !HasWord(s, word)
  {
    if HasWord(s, word) {
      WordIn(s, word, c);
    }
  }

  lemma {:induction false} WordBehind(a: string, b: string, word: string)
    requires HasWord(b, word)
    ensures HasWord(a + b, word)
  {
    if a == "" {
      assert a + b == b;
    } else {
      WordBehind(a[1..], b, word);
      assert (a + b)[1..] == a[1..] + b;
    }
  }

  /** The VFS modules named are those asked for. */
  lemma VfsTexts(recycle: bool, fruit: bool)
    requires recycle || fruit
    ensures Trim(VfsObjects(recycle, fruit)) == VfsObjects(recycle, fruit) == Lower(VfsObjects(recycle, fruit))
    ensures HasWord(VfsObjects(recycle, fruit), "recycle") == recycle
    ensures HasWord(VfsObjects(recycle, fruit), "fruit") == fruit
  {
    hide Lower, Trim, HasWord;
    VfsLower();
    FruitWords();
    RecycleWords();
  }

  lemma FruitWords()
    ensures forall recycle, fruit :: recycle || fruit ==> HasWord(VfsObjects(recycle, fruit), "fruit") == fruit
  {
    hide HasWord;
    FruitFirst();
    WordBehind("recycle ", "fruit streams_xattr", "fruit");
    NoFruit();
  }

  lemma FruitFirst()
    ensures HasWord("fruit streams_xattr", "fruit")
  {
    assert "fruit streams_xattr"[..5] == "fruit";
  }

  lemma NoFruit()
    ensures !HasWord("recycle", "fruit")
  {
    hide HasWord;
    assert "fruit"[0] == 'f' && 'f' !in "recycle";
    NoWord("recycle", "fruit", 'f');
  }

  lemma RecycleWords()
    ensures forall recycle, fruit :: recycle || fruit ==> HasWord(VfsObjects(recycle, fruit), "recycle") == recycle
  {
    var r, f := "recycle ", "fruit streams_xattr";
    assert (r + f)[..7] == "recycle" && "recycle"[..7] == "recycle" && "recycle"[2] == 'c';
    NoWord(f, "recycle", 'c');
  }

  lemma LowerAsIs(s: string)
    requires Solid(s) && IsLower(s)
    ensures Lower(s) == s == Trim(s)
  {
  }

  lemma VfsLower()
    ensures forall recycle, fruit :: VfsObjects(recycle, fruit) == Lower(VfsObjects(recycle, fruit)) == Trim(VfsObjects(recycle, fruit))
  {
    hide Lower, Trim, IsLower, Solid;
    VfsPlain();
    LowerAsIs("recycle " + "fruit streams_xattr");
    LowerAsIs("recycle");
    LowerAsIs("fruit streams_xattr");
  }

  lemma VfsPlain()
    ensures Solid("recycle " + "fruit streams_xattr") && IsLower("recycle " + "fruit streams_xattr")
    ensures Solid("recycle") && IsLower("recycle") && Solid("fruit streams_xattr") && IsLower("fruit streams_xattr")
  {
    var r, f := "recycle ", "fruit streams_xattr";
    assert r[0] == 'r' && f[0] == 'f' && f[|f| - 1] == 'r' && IsLower(r) && IsLower(f);
    assert (r + f)[0] == 'r' && (r + f)[|r + f| - 1] == 'r';
  }

  /** A share saved and read back is the share, trimmed: every other field that files keep survives. */
  lemma ShareRoundTrip(s: Share, sticky: string -> bool)
    requires ValidShare(s)
    ensures Parse(Lines(Render(s)), None) == [Section(Trim(s.name), Kept(Items(s)))]
    ensures ToShare(Trim(s.name), Kept(Items(s)), true, sticky) == Loaded(s, sticky)
  {
    hide Kept, Get, Rank, IsItemKey, Trim, Lower, VfsObjects, YesNo, Truthy, HasWord, Parse, Render, Lines, ValidName, HasControl;
    RenderedParses(s);
    KeyRanks();
    AreItemKeys(s);
    GetRanked(s, "path");
    GetRanked(s, "comment");
    GetRanked(s, "read only");
    GetRanked(s, "writable");
    GetRanked(s, "writeable");
    GetRanked(s, "guest ok");
    GetRanked(s, "browseable");
    GetRanked(s, "browsable");
    GetRanked(s, "valid users");
    GetRanked(s, "write list");
    GetRanked(s, "read list");
    GetRanked(s, "vfs objects");
    GetRanked(s, "fruit:time machine");
    FlagTexts(s.readOnly);
    FlagTexts(s.guestOk);
    FlagTexts(s.browseable);
    FlagTexts(s.fruit);
    TrimTrim(s.validUsers);
    TrimTrim(s.writeList);
    TrimTrim(s.readList);
    EmptyTexts();
    if s.recycle || s.fruit {
      VfsTexts(s.recycle, s.fruit);
    }
  }

  lemma AreItemKeys(s: Share)
    ensures IsItemKey(s, "path") && IsItemKey(s, "comment") && IsItemKey(s, "read only") && IsItemKey(s, "guest ok")
    ensures IsItemKey(s, "browseable") && IsItemKey(s, "valid users") && IsItemKey(s, "write list")
    ensures IsItemKey(s, "read list") && IsItemKey(s, "vfs objects") && IsItemKey(s, "fruit:time machine")
    ensures !IsItemKey(s, "writable") && !IsItemKey(s, "writeable") && !IsItemKey(s, "browsable")
  {
    hide Rank, PlainKey, Trim, YesNo, VfsObjects;
    KeyRanks();
    ItemKeys(s);
    var items := Items(s);
    assert items[0].key == "path" && items[1].key == "comment" && items[2].key == "read only" && items[3].key == "guest ok";
    assert items[4].key == "browseable" && items[5].key == "valid users" && items[6].key == "write list";
    assert items[7].key == "read list" && items[11].key == "vfs objects" && items[15].key == "fruit:time machine";
  }

  lemma EmptyTexts()
    ensures Trim("") == "" && Lower("") == "" && !HasWord("", "recycle") && !HasWord("", "fruit")
  {
  }
}
