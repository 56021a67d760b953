/** How a section is read as a share, also one written by hand: which of several settings counts, and what holds
    where there is none. */
module ShareReading {
  import opened Basics
  import opened Text
  import opened ConfText
  import opened ShareFormat

  /** The key's first setting has that value. */
  ghost predicate FirstSet(kvs: seq<(string, string)>, key: string, value: string) {
    exists i :: 0 <= i < |kvs| && kvs[i] == (key, value) && forall j :: 0 <= j < i ==> kvs[j].0 != key
  }

  ghost predicate Unset(kvs: seq<(string, string)>, key: string) {
    forall i :: 0 <= i < |kvs| ==> kvs[i].0 != key
  }

  lemma {:induction false} GetIs(kvs: seq<(string, string)>, key: string)
    ensures forall v :: FirstSet(kvs, key, v) <==> Get(kvs, key) == Some(v)
    ensures Unset(kvs, key) <==> Get(kvs, key) == None
  {
    if kvs != [] {
      var rest := kvs[1..];
      GetIs(rest, key);
      assert forall i :: 0 < i < |kvs| ==> kvs[i] == rest[i - 1];
      assert forall i :: 0 <= i < |rest| ==> rest[i] == kvs[i + 1];
      if kvs[0].0 == key {
        forall v ensures FirstSet(kvs, key, v) <==> v == kvs[0].1 {
          assert kvs[0] == (key, kvs[0].1);
        }
      } else {
        forall v ensures FirstSet(kvs, key, v) <==> FirstSet(rest, key, v) {
          if FirstSet(rest, key, v) {
            var i :| 0 <= i < |rest| && rest[i] == (key, v) && forall j :: 0 <= j < i ==> rest[j].0 != key;
            assert kvs[i + 1] == (key, v);
          }
          if FirstSet(kvs, key, v) {
            var i :| 0 <= i < |kvs| && kvs[i] == (key, v) && forall j :: 0 <= j < i ==> kvs[j].0 != key;
            assert rest[i - 1] == (key, v);
          }
        }
      }
    }
  }

  ghost predicate Yes(v: string) {
    Lower(v) in {"yes", "true", "1"}
  }

  /** `writable` and its other spelling say the opposite of `read only` and come before it. */
  lemma AccessRead(name: string, kvs: seq<(string, string)>, managed: bool, sticky: string -> bool)
    ensures var s := ToShare(name, kvs, managed, sticky);
            && (forall v :: FirstSet(kvs, "writable", v) ==> (s.readOnly <==> !Yes(v)))
            && (forall v :: Unset(kvs, "writable") && FirstSet(kvs, "writeable", v) ==> (s.readOnly <==> !Yes(v)))
            && (Unset(kvs, "writable") && Unset(kvs, "writeable") ==>
                  (Unset(kvs, "read only") ==> s.readOnly)
                  && forall v :: FirstSet(kvs, "read only", v) ==> (s.readOnly <==> Yes(v)))
  {
    hide Get, FirstSet, Unset, HasWord, Lower;
    GetIs(kvs, "writable");
    GetIs(kvs, "writeable");
    GetIs(kvs, "read only");
  }

  /** Guests are kept out and a share is listed unless it says otherwise. */
  lemma FlagsRead(name: string, kvs: seq<(string, string)>, managed: bool, sticky: string -> bool)
    ensures var s := ToShare(name, kvs, managed, sticky);
            && (forall v :: FirstSet(kvs, "guest ok", v) ==> (s.guestOk <==> Yes(v)))
            && (Unset(kvs, "guest ok") ==> !s.guestOk)
            && (forall v :: FirstSet(kvs, "browseable", v) ==> (s.browseable <==> Yes(v)))
            && (forall v :: Unset(kvs, "browseable") && FirstSet(kvs, "browsable", v) ==> (s.browseable <==> Yes(v)))
            && (Unset(kvs, "browseable") && Unset(kvs, "browsable") ==> s.browseable)
  {
    hide Get, FirstSet, Unset, HasWord, Lower;
    GetIs(kvs, "guest ok");
    GetIs(kvs, "browseable");
    GetIs(kvs, "browsable");
  }

  ghost predicate TextRead(kvs: seq<(string, string)>, key: string, text: string) {
    FirstSet(kvs, key, text) || (Unset(kvs, key) && text == "")
  }

  lemma TextIs(kvs: seq<(string, string)>, key: string)
    ensures TextRead(kvs, key, OrEmpty(Get(kvs, key)))
  {
    hide Get, FirstSet, Unset;
    GetIs(kvs, key);
  }

  /** Each text is that of its own key, or empty; the sticky bit is that of the directory named. */
  lemma TextsRead(name: string, kvs: seq<(string, string)>, managed: bool, sticky: string -> bool)
    ensures var s := ToShare(name, kvs, managed, sticky);
            && s.name == name && s.managed == managed && s.sticky == (s.path != "" && sticky(s.path))
            && TextRead(kvs, "path", s.path) && TextRead(kvs, "comment", s.comment)
            && TextRead(kvs, "valid users", s.validUsers) && TextRead(kvs, "write list", s.writeList)
            && TextRead(kvs, "read list", s.readList)
  {
    hide Get, TextRead, HasWord, Lower, Truthy;
    TextIs(kvs, "path");
    TextIs(kvs, "comment");
    TextIs(kvs, "valid users");
    TextIs(kvs, "write list");
    TextIs(kvs, "read list");
  }

  lemma {:induction false} HasWordIs(s: string, word: string)
    ensures HasWord(s, word) <==> exists a: string, b: string :: s == a + (word + b)
  {
    if StartsWith(s, word) {
      assert s == "" + (word + s[|word|..]);
    } else if s != "" {
      HasWordIs(s[1..], word);
      LaterWord(s, word);
    } else {
      if a: string, b: string :| s == a + (word + b) {
        NotAtStart(s, a, word, b);
      }
    }
  }

  lemma LaterWord(s: string, word: string)
    requires s != "" && !StartsWith(s, word)
    ensures (exists a: string, b: string :: s == a + (word + b)) <==> exists a: string, b: string :: s[1..] == a + (word + b)
  {
    if a: string, b: string :| s[1..] == a + (word + b) {
      assert s == ([s[0]] + a) + (word + b);
    }
    if a: string, b: string :| s == a + (word + b) {
      NotAtStart(s, a, word, b);
      assert s[1..] == a[1..] + (word + b);
    }
  }

  lemma NotAtStart(s: string, a: string, word: string, b: string)
    requires s == a + (word + b)
    ensures a == "" ==> StartsWith(s, word)
  {
    if a == "" {
      assert s == word + b;
    }
  }

  /** The recycle bin and Time Machine are told by the module's name anywhere in the value, in any case. */
  lemma ModulesRead(name: string, kvs: seq<(string, string)>, managed: bool, sticky: string -> bool)
    ensures var s := ToShare(name, kvs, managed, sticky);
            && (forall v :: FirstSet(kvs, "vfs objects", v) ==>
                  && (s.recycle <==> exists a: string, b: string :: Lower(v) == a + ("recycle" + b))
                  && ((exists a: string, b: string :: Lower(v) == a + ("fruit" + b)) ==> s.fruit))
            && (Unset(kvs, "vfs objects") ==> !s.recycle)
            && (forall v :: FirstSet(kvs, "fruit:time machine", v) && Yes(v) ==> s.fruit)
            && (s.fruit ==> (exists v :: FirstSet(kvs, "fruit:time machine", v) && Yes(v))
                            || exists v :: FirstSet(kvs, "vfs objects", v) && exists a: string, b: string :: Lower(v) == a + ("fruit" + b))
  {
    hide Get, FirstSet, Unset, HasWord;
    GetIs(kvs, "vfs objects");
    GetIs(kvs, "fruit:time machine");
    var vfs := Lower(OrEmpty(Get(kvs, "vfs objects")));
    HasWordIs(vfs, "recycle");
    HasWordIs(vfs, "fruit");
  }

  // ---- settings that are written and not read back -------------------------------------------

  /** Every fragment gives new files their modes, and a recycle bin where it wants one: for the parser each of
      these settings stands under its key. */
  lemma FixedSettings(s: Share)
    ensures var kvs := Kept(Items(s));
            && Get(kvs, "create mask") == Some("0664") && Get(kvs, "directory mask") == Some("0775")
            && Get(kvs, "inherit acls") == Some("yes")
            && Get(kvs, "recycle:repository") == (if s.recycle then Some(".recycle") else None)
            && Get(kvs, "recycle:keeptree") == (if s.recycle then Some("yes") else None)
            && Get(kvs, "recycle:versions") == (if s.recycle then Some("yes") else None)
  {
    hide Kept, Get, Rank, IsItemKey, Trim, VfsObjects, YesNo, PlainKey;
    ModeKeys(s);
    BinKeys(s);
    GetRanked(s, "create mask");
    GetRanked(s, "directory mask");
    GetRanked(s, "inherit acls");
    GetRanked(s, "recycle:repository");
    GetRanked(s, "recycle:keeptree");
    GetRanked(s, "recycle:versions");
    FixedTexts();
  }

  lemma ModeKeys(s: Share)
    ensures IsItemKey(s, "create mask") && Rank("create mask") == 8 && Items(s)[8] == Item(true, "create mask", "0664")
    ensures IsItemKey(s, "directory mask") && Rank("directory mask") == 9 && Items(s)[9] == Item(true, "directory mask", "0775")
    ensures IsItemKey(s, "inherit acls") && Rank("inherit acls") == 10 && Items(s)[10] == Item(true, "inherit acls", "yes")
  {
    hide Trim, VfsObjects, YesNo, Rank;
    KeyRanks();
    var items := Items(s);
    assert items[8].key == "create mask" && items[9].key == "directory mask" && items[10].key == "inherit acls";
  }

  lemma BinKeys(s: Share)
    ensures IsItemKey(s, "recycle:repository") && Rank("recycle:repository") == 12
    ensures Items(s)[12] == Item(s.recycle, "recycle:repository", ".recycle")
    ensures IsItemKey(s, "recycle:keeptree") && Rank("recycle:keeptree") == 13 && Items(s)[13] == Item(s.recycle, "recycle:keeptree", "yes")
    ensures IsItemKey(s, "recycle:versions") && Rank("recycle:versions") == 14 && Items(s)[14] == Item(s.recycle, "recycle:versions", "yes")
  {
    hide Trim, VfsObjects, YesNo, Rank;
    KeyRanks();
    var items := Items(s);
    assert items[12].key == "recycle:repository" && items[13].key == "recycle:keeptree" && items[14].key == "recycle:versions";
  }

  lemma FixedTexts()
    ensures Trim("0664") == "0664" && Trim("0775") == "0775" && Trim("yes") == "yes" && Trim(".recycle") == ".recycle"
  {
    Unspaced("0664");
    Unspaced("0775");
    Unspaced("yes");
    Unspaced(".recycle");
  }

  lemma Unspaced(s: string)
    requires s != "" && !IsSpace(s[0]) && !IsSpace(s[|s| - 1])
    ensures Trim(s) == s
  {
  }
}
