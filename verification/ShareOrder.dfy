/** The order in which shares are listed: by lowercased name, shares of one lowercased name as they came. */
module ShareOrder {
  import opened Basics
  import opened ShareFormat

  /** `str::cmp`: by the first character that differs, a beginning before what it begins. */
  predicate AtMost(a: string, b: string) {
    a == "" || (b != "" && (a[0] < b[0] || (a[0] == b[0] && AtMost(a[1..], b[1..]))))
  }

  /** The texts agree up to k, where the first has the smaller character. */
  predicate LessAt(a: string, b: string, k: nat) {
    k < |a| && k < |b| && a[..k] == b[..k] && a[k] < b[k]
  }

  lemma {:induction false} AtMostIs(a: string, b: string)
    ensures AtMost(a, b) <==> a <= b || exists k :: LessAt(a, b, k)
  {
    hide LessAt;
    if a != "" && b != "" {
      AtMostIs(a[1..], b[1..]);
      LessInFront(a, b);
      LessSomewhere(a, b);
    } else {
      LessNowhere(a, b);
    }
  }

  lemma LessSomewhere(a: string, b: string)
    requires a != "" && b != ""
    ensures (exists k :: LessAt(a, b, k)) <==> LessAt(a, b, 0) || (a[0] == b[0] && exists k :: LessAt(a[1..], b[1..], k))
  {
    hide LessAt;
    if k: nat :| LessAt(a, b, k) {
      if k > 0 {
        LessBehind(a, b, k - 1);
      }
    }
    if k: nat :| LessAt(a[1..], b[1..], k) {
      LessBehind(a, b, k);
    }
  }

  lemma LessNowhere(a: string, b: string)
    ensures a == "" || b == "" ==> forall k :: !LessAt(a, b, k)
  {}

  lemma LessInFront(a: string, b: string)
    requires a != "" && b != ""
    ensures LessAt(a, b, 0) <==> a[0] < b[0]
    ensures a <= b <==> a[0] == b[0] && a[1..] <= b[1..]
  {
    assert a == [a[0]] + a[1..] && b == [b[0]] + b[1..];
  }

  lemma LessBehind(a: string, b: string, k: nat)
    requires a != "" && b != ""
    ensures LessAt(a, b, k + 1) <==> a[0] == b[0] && LessAt(a[1..], b[1..], k)
  {
    if k + 1 < |a| && k + 1 < |b| {
      assert a[..k + 1] == [a[0]] + a[1..][..k] && b[..k + 1] == [b[0]] + b[1..][..k];
    }
  }

  lemma {:induction false} AtMostTotal(a: string, b: string)
    ensures AtMost(a, b) || AtMost(b, a)
  {
    if a != "" && b != "" && a[0] == b[0] {
      AtMostTotal(a[1..], b[1..]);
    }
  }

  lemma {:induction false} AtMostTrans(a: string, b: string, c: string)
    requires AtMost(a, b) && AtMost(b, c)
    ensures AtMost(a, c)
  {
    if a != "" && a[0] == b[0] == c[0] {
      AtMostTrans(a[1..], b[1..], c[1..]);
    }
  }

  function Insert(s: Share, sorted: seq<Share>, lower: string -> string): seq<Share> {
    if sorted == [] || AtMost(lower(s.name), lower(sorted[0].name)) then [s] + sorted
    else [sorted[0]] + Insert(s, sorted[1..], lower)
  }

  /** `sort_by` on the lowercased names; `lower` is `str::to_lowercase`. */
  function ByName(shares: seq<Share>, lower: string -> string): seq<Share> {
    if shares == [] then [] else Insert(shares[0], ByName(shares[1..], lower), lower)
  }

  ghost predicate InOrder(shares: seq<Share>, lower: string -> string) {
    forall i, j :: 0 <= i < j < |shares| ==> AtMost(lower(shares[i].name), lower(shares[j].name))
  }

  /** The shares of one lowercased name, as they come. */
  ghost function Having(shares: seq<Share>, key: string, lower: string -> string): seq<Share> {
    if shares == [] then []
    else (if lower(shares[0].name) == key then [shares[0]] else []) + Having(shares[1..], key, lower)
  }

  lemma HavingCons(s: Share, rest: seq<Share>, key: string, lower: string -> string)
    ensures Having([s] + rest, key, lower) == (if lower(s.name) == key then [s] else []) + Having(rest, key, lower)
  {
    assert ([s] + rest)[1..] == rest;
  }

  lemma {:induction false} InsertSorts(s: Share, sorted: seq<Share>, lower: string -> string)
    requires InOrder(sorted, lower)
    ensures InOrder(Insert(s, sorted, lower), lower)
    ensures multiset(Insert(s, sorted, lower)) == multiset{s} + multiset(sorted)
    decreases |sorted|
  {
    hide AtMost;
    if sorted != [] {
      var first, rest := sorted[0], sorted[1..];
      assert sorted == [first] + rest;
      if AtMost(lower(s.name), lower(first.name)) {
        forall j | 0 <= j < |sorted| ensures AtMost(lower(s.name), lower(sorted[j].name)) {
          if j > 0 {
            AtMostTrans(lower(s.name), lower(first.name), lower(sorted[j].name));
          }
        }
      } else {
        AtMostTotal(lower(s.name), lower(first.name));
        InsertSorts(s, rest, lower);
        var after := Insert(s, rest, lower);
        forall j | 0 <= j < |after| ensures AtMost(lower(first.name), lower(after[j].name)) {
          assert after[j] in multiset(after);
          OthersLater(first, rest, after[j], lower);
        }
      }
    }
  }

  lemma OthersLater(first: Share, rest: seq<Share>, x: Share, lower: string -> string)
    requires InOrder([first] + rest, lower)
    ensures x in rest ==> AtMost(lower(first.name), lower(x.name))
  {
    if x in rest {
      var i :| 0 <= i < |rest| && rest[i] == x;
      assert ([first] + rest)[0] == first && ([first] + rest)[i + 1] == x;
    }
  }

  lemma {:induction false} InsertKeeps(s: Share, sorted: seq<Share>, key: string, lower: string -> string)
    ensures Having(Insert(s, sorted, lower), key, lower) == (if lower(s.name) == key then [s] else []) + Having(sorted, key, lower)
    decreases |sorted|
  {
    hide AtMost, Having;
    if sorted == [] || AtMost(lower(s.name), lower(sorted[0].name)) {
      HavingCons(s, sorted, key, lower);
    } else {
      var first, rest := sorted[0], sorted[1..];
      assert sorted == [first] + rest;
      InsertKeeps(s, rest, key, lower);
      HavingCons(first, rest, key, lower);
      HavingCons(first, Insert(s, rest, lower), key, lower);
      AtMostRefl(lower(s.name));
    }
  }

  lemma {:induction false} AtMostRefl(a: string)
    ensures AtMost(a, a)
  {
    if a != "" {
      AtMostRefl(a[1..]);
    }
  }

  /** The list is in order of lowercased names and holds the same shares, those of one lowercased name in
      the order they had. */
  lemma {:induction false} ByNameSorts(shares: seq<Share>, lower: string -> string)
    ensures InOrder(ByName(shares, lower), lower)
    ensures multiset(ByName(shares, lower)) == multiset(shares)
    ensures forall key :: Having(ByName(shares, lower), key, lower) == Having(shares, key, lower)
  {
    if shares != [] {
      var rest := shares[1..];
      assert shares == [shares[0]] + rest;
      ByNameSorts(rest, lower);
      InsertSorts(shares[0], ByName(rest, lower), lower);
      forall key ensures Having(ByName(shares, lower), key, lower) == Having(shares, key, lower) {
        InsertKeeps(shares[0], ByName(rest, lower), key, lower);
      }
    }
  }
}
