/** The caches in front of the router: ordered maps with a size bound, least recently used out first,
    and an expiry time on every entry. */
module DecisionCache {
  import opened Basics
  import opened Text
  import opened DnsMessage

  datatype Entry<K, V> = Entry(key: K, value: V, expires: real)

  /** Where a key is in the ordered map, or -1. */
  function Place<K(==), V>(items: seq<Entry<K, V>>, key: K): (p: int)
    ensures -1 <= p < |items|
    ensures p >= 0 ==> items[p].key == key
    ensures p < 0 <==> forall i :: 0 <= i < |items| ==> items[i].key != key
  {
    if items == [] then -1
    else if items[0].key == key then 0
    else
      var p := Place(items[1..], key);
      assert forall i :: 0 < i < |items| ==> items[i] == items[1..][i - 1];
      if p < 0 then -1 else p + 1
  }

  function Without<K(==), V>(items: seq<Entry<K, V>>, key: K): seq<Entry<K, V>> {
    var p := Place(items, key);
    if p < 0 then items else items[..p] + items[p + 1..]
  }

  /** What `get` finds, and the map it leaves: an expired entry goes, a live one moves to the end. */
  function Look<K(==), V>(items: seq<Entry<K, V>>, key: K, now: real): (Option<V>, seq<Entry<K, V>>) {
    var p := Place(items, key);
    if p < 0 then (None, items)
    else if now >= items[p].expires then (None, Without(items, key))
    else (Some(items[p].value), Without(items, key) + [items[p]])
  }

  function Newest<K, V>(items: seq<Entry<K, V>>, max: nat): seq<Entry<K, V>> {
    if |items| > max then items[|items| - max..] else items
  }

  /** The map `put` leaves. */
  function Store<K(==), V>(items: seq<Entry<K, V>>, e: Entry<K, V>, max: nat): seq<Entry<K, V>> {
    Newest(Without(items, e.key) + [e], max)
  }

  // ---- least recently used ------------------------------------------------------------------

  datatype Op<K, V> = GetOp(key: K, now: real) | PutOp(entry: Entry<K, V>) | DropOp(key: K) | ClearOp

  /** The map, with the keys used so far: a use is a hit or a put. */
  datatype Cache<K, V> = Cache(items: seq<Entry<K, V>>, log: seq<K>)

  function Step<K(==), V>(c: Cache<K, V>, op: Op<K, V>, max: nat): Cache<K, V> {
    match op
    case GetOp(key, now) =>
      var (found, items) := Look(c.items, key, now);
      Cache(items, if found.Some? then c.log + [key] else c.log)
    case PutOp(e) => Cache(Store(c.items, e, max), c.log + [e.key])
    case DropOp(key) => Cache(Without(c.items, key), c.log)
    case ClearOp => Cache([], c.log)
  }

  function Run<K(==), V>(c: Cache<K, V>, ops: seq<Op<K, V>>, max: nat): Cache<K, V> {
    if ops == [] then c else Step(Run(c, ops[..|ops| - 1], max), ops[|ops| - 1], max)
  }

  /** When a key was last used, or -1. */
  function LastUse<K(==)>(log: seq<K>, key: K): (t: int)
    ensures -1 <= t < |log|
    ensures t >= 0 ==> log[t] == key && forall i :: t < i < |log| ==> log[i] != key
    ensures t < 0 <==> key !in log
  {
    if log == [] then -1
    else if log[|log| - 1] == key then |log| - 1
    else LastUse(log[..|log| - 1], key)
  }

  /** The map's order is the order of last use. */
  ghost predicate InOrder<K, V>(items: seq<Entry<K, V>>, log: seq<K>) {
    && (forall i :: 0 <= i < |items| ==> LastUse(log, items[i].key) >= 0)
    && (forall i, j :: 0 <= i < j < |items| ==> LastUse(log, items[i].key) < LastUse(log, items[j].key))
  }

  lemma WithoutEntry<K, V>(items: seq<Entry<K, V>>, key: K, i: nat)
    requires i < |Without(items, key)|
    ensures var p := Place(items, key); var k := if p < 0 || i < p then i else i + 1;
            k < |items| && Without(items, key)[i] == items[k]
  {
    hide Place;
  }

  lemma UseSnoc<K>(log: seq<K>, key: K, other: K)
    ensures LastUse(log + [key], other) == if other == key then |log| else LastUse(log, other)
  {
    assert (log + [key])[..|log|] == log;
  }

  lemma WithoutInOrder<K, V>(items: seq<Entry<K, V>>, log: seq<K>, key: K)
    requires InOrder(items, log)
    ensures InOrder(Without(items, key), log)
    ensures forall i :: 0 <= i < |Without(items, key)| ==> Without(items, key)[i].key != key
  {
    hide LastUse, Without;
    var rest := Without(items, key);
    forall i | 0 <= i < |rest| ensures rest[i].key != key && LastUse(log, rest[i].key) >= 0 {
      WithoutEntry(items, key, i);
    }
    forall i, j | 0 <= i < j < |rest| ensures LastUse(log, rest[i].key) < LastUse(log, rest[j].key) {
      WithoutEntry(items, key, i);
      WithoutEntry(items, key, j);
    }
  }

  lemma AppendInOrder<K, V>(items: seq<Entry<K, V>>, log: seq<K>, e: Entry<K, V>)
    requires InOrder(items, log) && forall i :: 0 <= i < |items| ==> items[i].key != e.key
    ensures InOrder(items + [e], log + [e.key])
  {
    hide LastUse;
    var more := items + [e];
    forall i | 0 <= i < |more|
      ensures LastUse(log + [e.key], more[i].key) == if i < |items| then LastUse(log, items[i].key) else |log|
    {
      UseSnoc(log, e.key, more[i].key);
    }
  }

  lemma StepInOrder<K, V>(c: Cache<K, V>, op: Op<K, V>, max: nat)
    requires InOrder(c.items, c.log) && |c.items| <= max
    ensures InOrder(Step(c, op, max).items, Step(c, op, max).log) && |Step(c, op, max).items| <= max
  {
    hide LastUse, InOrder;
    match op
    case GetOp(key, now) =>
      var p := Place(c.items, key);
      if p >= 0 {
        WithoutInOrder(c.items, c.log, key);
        AppendInOrder(Without(c.items, key), c.log, c.items[p]);
      }
    case PutOp(e) =>
      WithoutInOrder(c.items, c.log, e.key);
      AppendInOrder(Without(c.items, e.key), c.log, e);
      SuffixInOrder(Without(c.items, e.key) + [e], c.log + [e.key], max);
    case DropOp(key) => WithoutInOrder(c.items, c.log, key);
    case ClearOp => NoneInOrder<K, V>(c.log);
  }

  lemma SuffixInOrder<K, V>(items: seq<Entry<K, V>>, log: seq<K>, max: nat)
    requires InOrder(items, log)
    ensures InOrder(Newest(items, max), log)
  {
    hide LastUse;
  }

  lemma NoneInOrder<K, V>(log: seq<K>)
    ensures InOrder<K, V>([], log)
  {
  }

  /** Over every run the map stays within its bound and in order of last use. */
  lemma {:induction false} RunInOrder<K, V>(ops: seq<Op<K, V>>, max: nat)
    ensures var c := Run(Cache([], []), ops, max); InOrder(c.items, c.log) && |c.items| <= max
  {
    hide InOrder;
    NoneInOrder<K, V>([]);
    if ops != [] {
      RunInOrder(ops[..|ops| - 1], max);
      StepInOrder(Run(Cache([], []), ops[..|ops| - 1], max), ops[|ops| - 1], max);
    }
  }

  /** What a put evicts was used less recently than anything it keeps, and only a full map evicts. */
  lemma EvictsLeastRecent<K, V>(c: Cache<K, V>, e: Entry<K, V>, max: nat, gone: Entry<K, V>, kept: Entry<K, V>)
    requires InOrder(c.items, c.log) && gone in c.items && gone.key != e.key
    requires kept in Store(c.items, e, max) && gone !in Store(c.items, e, max)
    ensures LastUse(c.log + [e.key], gone.key) < LastUse(c.log + [e.key], kept.key)
    ensures |Store(c.items, e, max)| == max
  {
    hide LastUse, InOrder;
    var rest := Without(c.items, e.key) + [e];
    WithoutInOrder(c.items, c.log, e.key);
    AppendInOrder(Without(c.items, e.key), c.log, e);
    StillListed(c.items, e.key, gone);
    var i :| 0 <= i < |rest| - 1 && Without(c.items, e.key)[i] == gone;
    var j :| 0 <= j < |Store(c.items, e, max)| && Store(c.items, e, max)[j] == kept;
    OldestFirst(rest, c.log + [e.key], max, i, j);
  }

  lemma StillListed<K, V>(items: seq<Entry<K, V>>, key: K, e: Entry<K, V>)
    requires e in items && e.key != key
    ensures e in Without(items, key)
  {
    hide Place;
    if Place(items, key) >= 0 {
      StaysWhenCut(items, Place(items, key), e);
    }
  }

  lemma StaysWhenCut<T>(s: seq<T>, p: nat, x: T)
    requires p < |s| && x in s && s[p] != x
    ensures x in s[..p] + s[p + 1..]
  {
    assert s == s[..p] + ([s[p]] + s[p + 1..]);
  }

  lemma OldestFirst<K, V>(items: seq<Entry<K, V>>, log: seq<K>, max: nat, i: nat, j: nat)
    requires InOrder(items, log) && i < |items| && j < |Newest(items, max)| && items[i] !in Newest(items, max)
    ensures LastUse(log, items[i].key) < LastUse(log, Newest(items, max)[j].key) && |Newest(items, max)| == max
  {
    hide LastUse;
    NewestKeeps(items, max);
  }

  lemma NewestKeeps<K, V>(items: seq<Entry<K, V>>, max: nat)
    ensures forall i :: 0 <= i < |items| && i >= |items| - max ==> items[i] in Newest(items, max)
  {
    if |items| > max {
      assert forall i :: |items| - max <= i < |items| ==> items[i] == Newest(items, max)[i - (|items| - max)];
    }
  }

  /** The keys used since a key was last used. */
  ghost function UsedSince<K>(log: seq<K>, key: K): set<K> {
    set i | LastUse(log, key) < i < |log| :: log[i]
  }

  ghost predicate LeavesAlone<K, V>(op: Op<K, V>, key: K) {
    match op
    case GetOp(k, _) => k != key
    case PutOp(e) => e.key != key
    case DropOp(k) => k != key
    case ClearOp => false
  }

  /** An entry stays for as long as fewer than `max` other keys have been used since it was. */
  lemma {:induction false} StaysWhileRecent<K, V>(c: Cache<K, V>, ops: seq<Op<K, V>>, max: nat, e: Entry<K, V>)
    requires InOrder(c.items, c.log) && |c.items| <= max && e in c.items
    requires forall i :: 0 <= i < |ops| ==> LeavesAlone(ops[i], e.key)
    requires |UsedSince(Run(c, ops, max).log, e.key)| < max
    ensures e in Run(c, ops, max).items
    ensures InOrder(Run(c, ops, max).items, Run(c, ops, max).log) && |Run(c, ops, max).items| <= max
  {
    hide InOrder, LastUse, UsedSince, LeavesAlone;
    if ops != [] {
      var early := ops[..|ops| - 1];
      var d := Run(c, early, max);
      UsedGrows(d, ops[|ops| - 1], max, e.key);
      StaysWhileRecent(c, early, max, e);
      StepInOrder(d, ops[|ops| - 1], max);
      StaysOneStep(d, ops[|ops| - 1], max, e);
    }
  }

  lemma UsedGrows<K, V>(c: Cache<K, V>, op: Op<K, V>, max: nat, key: K)
    requires LeavesAlone(op, key)
    ensures |UsedSince(c.log, key)| <= |UsedSince(Step(c, op, max).log, key)|
  {
    hide Look, Store;
    var log' := Step(c, op, max).log;
    if log' != c.log {
      var k := log'[|c.log|];
      assert log' == c.log + [k];
      UseSnoc(c.log, k, key);
      assert UsedSince(c.log, key) <= UsedSince(log', key) by {
        assert forall i :: 0 <= i < |c.log| ==> c.log[i] == log'[i];
      }
      SubsetSize(UsedSince(c.log, key), UsedSince(log', key));
    }
  }

  lemma StaysOneStep<K, V>(c: Cache<K, V>, op: Op<K, V>, max: nat, e: Entry<K, V>)
    requires InOrder(c.items, c.log) && e in c.items && LeavesAlone(op, e.key)
    requires |UsedSince(Step(c, op, max).log, e.key)| < max
    ensures e in Step(c, op, max).items
  {
    hide InOrder, LastUse, UsedSince;
    match op
    case GetOp(key, now) => StillListed(c.items, key, e);
    case DropOp(key) => StillListed(c.items, key, e);
    case PutOp(put) =>
      StillListed(c.items, put.key, e);
      WithoutInOrder(c.items, c.log, put.key);
      AppendInOrder(Without(c.items, put.key), c.log, put);
      var rest := Without(c.items, put.key) + [put];
      var p :| 0 <= p < |rest| - 1 && Without(c.items, put.key)[p] == e;
      LaterOnes(rest, c.log + [put.key], p);
      NewestKeeps(rest, max);
  }

  ghost function KeysIn<K, V>(items: seq<Entry<K, V>>, lo: nat, hi: nat): set<K>
    requires hi <= |items|
  {
    set i | lo <= i < hi :: items[i].key
  }

  lemma {:induction false} KeysCount<K, V>(items: seq<Entry<K, V>>, log: seq<K>, lo: nat, hi: nat)
    requires InOrder(items, log) && lo <= hi <= |items|
    ensures |KeysIn(items, lo, hi)| == hi - lo
  {
    hide LastUse;
    if lo < hi {
      KeysCount(items, log, lo, hi - 1);
      assert KeysIn(items, lo, hi) == KeysIn(items, lo, hi - 1) + {items[hi - 1].key};
    } else {
      assert KeysIn(items, lo, hi) == {};
    }
  }

  /** The entries after one in the map were all used since. */
  lemma LaterOnes<K, V>(items: seq<Entry<K, V>>, log: seq<K>, p: nat)
    requires InOrder(items, log) && p < |items|
    ensures |items| - 1 - p <= |UsedSince(log, items[p].key)|
  {
    var later := KeysIn(items, p + 1, |items|);
    KeysCount(items, log, p + 1, |items|);
    assert later <= UsedSince(log, items[p].key) by {
      forall k | k in later ensures k in UsedSince(log, items[p].key) {
        var i :| p < i < |items| && items[i].key == k;
        var t := LastUse(log, k);
        assert log[t] == k;
      }
    }
    SubsetSize(later, UsedSince(log, items[p].key));
  }

  lemma PopFirst<K, V>(items: seq<Entry<K, V>>, max: nat)
    requires |items| > max
    ensures Newest(items[1..], max) == Newest(items, max)
  {
  }

  lemma AllNewest<K, V>(items: seq<Entry<K, V>>, max: nat)
    requires |items| <= max
    ensures Newest(items, max) == items
  {
  }

  /** Looking and storing bring in no entry but the one stored. */
  lemma NothingElse<K, V>(items: seq<Entry<K, V>>, key: K, now: real, e: Entry<K, V>, max: nat)
    ensures forall x :: x in Look(items, key, now).1 ==> x in items
    ensures forall x :: x in Store(items, e, max) ==> x in items || x == e
    ensures Look(items, key, now).0.Some? ==>
      exists x :: x in items && x.key == key && x.value == Look(items, key, now).0.value && now < x.expires
  {
    hide Place;
    if Place(items, key) >= 0 {
      assert items[Place(items, key)] in items;
    }
  }

  // ---- the two caches ------------------------------------------------------------------------

  /** domain -> outbound tag. */
  class RoutingCache {
    const max: nat
    const ttl: real
    var items: seq<Entry<string, string>>
    var hits: nat
    var misses: nat

    constructor (max: nat, ttl: real)
      ensures items == [] && hits == misses == 0 && this.max == max && this.ttl == ttl
    {
      this.max, this.ttl, items, hits, misses := max, ttl, [], 0, 0;
    }

    method Get(domain: string, now: real) returns (tag: Option<string>)
      modifies this
      ensures (tag, items) == Look(old(items), Lower(domain), now)
      ensures hits == old(hits) + (if tag.Some? then 1 else 0)
      ensures misses == old(misses) + (if tag.Some? then 0 else 1)
    {
      var key := Lower(domain);
      var p := Place(items, key);
      if p < 0 {
        misses := misses + 1;
        return None;
      }
      var e := items[p];
      items := items[..p] + items[p + 1..];
      if now >= e.expires {
        misses := misses + 1;
        return None;
      }
      items := items + [e];
      hits := hits + 1;
      return Some(e.value);
    }

    method Put(domain: string, tag: string, now: real)
      modifies `items
      ensures items == Store(old(items), Entry(Lower(domain), tag, now + ttl), max)
    {
      hide Place, Newest;
      var key := Lower(domain);
      var p := Place(items, key);
      if p >= 0 {
        items := items[..p] + items[p + 1..];
      }
      items := items + [Entry(key, tag, now + ttl)];
      ghost var full := items;
      while |items| > max
        invariant Newest(items, max) == Newest(full, max)
      {
        PopFirst(items, max);
        items := items[1..];
      }
      AllNewest(items, max);
    }

    method Invalidate(domain: Option<string>) returns (n: nat)
      modifies `items
      ensures domain.None? ==> items == [] && n == |old(items)|
      ensures domain.Some? ==> items == Without(old(items), Lower(domain.value)) && n == |old(items)| - |items|
    {
      if domain.None? {
        n := |items|;
        items := [];
      } else {
        var p := Place(items, Lower(domain.value));
        n := 0;
        if p >= 0 {
          items := items[..p] + items[p + 1..];
          n := 1;
        }
      }
    }
  }

  /** A response in the cache, with the outbound it was fetched through (which the source does not keep). */
  datatype Response = Response(bytes: Bytes, via: string)

  /** (domain, qtype) -> response. */
  class DnsCache {
    const max: nat
    var items: seq<Entry<(string, nat), Response>>

    constructor (max: nat)
      ensures items == [] && this.max == max
    {
      this.max, items := max, [];
    }

    method Get(domain: string, qtype: nat, now: real) returns (r: Option<Response>)
      modifies this
      ensures (r, items) == Look(old(items), (Lower(domain), qtype), now)
    {
      var p := Place(items, (Lower(domain), qtype));
      if p < 0 {
        return None;
      }
      var e := items[p];
      items := items[..p] + items[p + 1..];
      if now >= e.expires {
        return None;
      }
      items := items + [e];
      return Some(e.value);
    }

    /** A response whose time to live is not positive is not kept. */
    method Put(domain: string, qtype: nat, r: Response, now: real)
      modifies this
      ensures items == StoreAnswer(old(items), domain, qtype, r, now, TtlOf(r.bytes), max)
    {
      hide Place, Newest, TtlOf;
      var ttl := ExtractMinTtl(r.bytes);
      if ttl <= 0.0 {
        return;
      }
      var key := (Lower(domain), qtype);
      var p := Place(items, key);
      if p >= 0 {
        items := items[..p] + items[p + 1..];
      }
      items := items + [Entry(key, r, now + ttl)];
      ghost var full := items;
      while |items| > max
        invariant Newest(items, max) == Newest(full, max)
      {
        PopFirst(items, max);
        items := items[1..];
      }
      AllNewest(items, max);
    }

    method Invalidate() returns (n: nat)
      modifies this
      ensures items == [] && n == |old(items)|
    {
      n := |items|;
      items := [];
    }
  }

  function StoreAnswer(items: seq<Entry<(string, nat), Response>>, domain: string, qtype: nat, r: Response,
                       now: real, ttl: real, max: nat): seq<Entry<(string, nat), Response>> {
    if ttl <= 0.0 then items else Store(items, Entry((Lower(domain), qtype), r, now + ttl), max)
  }
}
