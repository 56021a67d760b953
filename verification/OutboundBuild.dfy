/** `build_outbounds`: leaves first, then groups in rounds, each round adding the groups whose
    children are all there. The order in which groups are added is the rank that resolution
    descends along. */
module OutboundBuild {
  import opened Basics
  import opened Groups
  import opened GroupLaws

  datatype Kind = UrlTestKind(tolerance: real) | FallbackKind | SelectorKind(default: Option<string>)

  datatype Group = Group(tag: string, kind: Kind, children: seq<string>)

  datatype Item = LeafItem(tag: string) | GroupItem(group: Group)

  datatype BuildError = DuplicateTag(tag: string) | NoChildren(tag: string) | UndefinedOrCircular(tags: seq<string>)

  /** Where each tag leads now; the nodes in the order made, each with its own tag; and the selectors'
      initial selections. A group may take over a tag, which leaves the former node to those that use it. */
  datatype Table = Table(index: map<string, nat>, tags: seq<string>, nodes: Graph, selected: Choice)

  /** A tag leads to the last node made under it, children come before groups, selections are children. */
  ghost predicate Sound(t: Table) {
    && |t.tags| == |t.nodes|
    && (forall tag :: tag in t.index ==> t.index[tag] < |t.nodes| && t.tags[t.index[tag]] == tag)
    && (forall x :: 0 <= x < |t.tags| ==> t.tags[x] in t.index && x <= t.index[t.tags[x]])
    && Dag(t.nodes)
    && SelectionsValid(t.nodes, t.selected)
  }

  // ---- what a configuration must satisfy -----------------------------------------------------

  /** Among the groups of `some`, g waits: a child of it is no leaf and has its tag from none outside. */
  ghost predicate Blocked(leaves: set<string>, groups: seq<Group>, some: set<Group>, g: Group) {
    exists c :: c in g.children && c !in leaves && forall h :: h in groups && h.tag == c ==> h in some
  }

  /** Groups none of which can be the first of them to be added. */
  ghost predicate Stuck(leaves: set<string>, groups: seq<Group>, some: set<Group>) {
    some != {} && forall g :: g in some ==> g in groups && Blocked(leaves, groups, some, g)
  }

  /** Every group has children, and no groups are stuck. */
  ghost predicate Resolvable(leaves: set<string>, groups: seq<Group>) {
    && (forall g :: g in groups ==> g.children != [])
    && (forall some :: !Stuck(leaves, groups, some))
  }

  predicate DistinctTags(groups: seq<Group>) {
    forall i, j :: 0 <= i < j < |groups| ==> groups[i].tag != groups[j].tag
  }

  ghost predicate Refers(groups: seq<Group>, a: string, b: string) {
    exists i :: 0 <= i < |groups| && groups[i].tag == a && b in groups[i].children
  }

  ghost predicate IsWalk(groups: seq<Group>, walk: seq<string>) {
    forall i :: 0 <= i < |walk| - 1 ==> Refers(groups, walk[i], walk[i + 1])
  }

  ghost predicate Acyclic(groups: seq<Group>) {
    forall walk :: |walk| >= 2 && IsWalk(groups, walk) ==> walk[0] != walk[|walk| - 1]
  }

  ghost predicate Defined(leaves: set<string>, groups: seq<Group>) {
    forall i, c :: 0 <= i < |groups| && c in groups[i].children ==> c in leaves || HasTag(groups, c)
  }

  ghost predicate HasTag(groups: seq<Group>, tag: string) {
    exists i :: 0 <= i < |groups| && groups[i].tag == tag
  }

  ghost function TagsOf(groups: seq<Group>): set<string> {
    set i | 0 <= i < |groups| :: groups[i].tag
  }

  lemma {:induction false} DistinctSize(s: seq<string>)
    requires forall i, j :: 0 <= i < j < |s| ==> s[i] != s[j]
    ensures |set x | x in s| == |s|
  {
    if s != [] {
      DistinctSize(s[1..]);
      assert (set x | x in s) == (set x | x in s[1..]) + {s[0]};
    }
  }

  lemma Repeats(s: seq<string>, values: set<string>) returns (i: nat, j: nat)
    requires |s| > |values| && forall k :: 0 <= k < |s| ==> s[k] in values
    ensures i < j < |s| && s[i] == s[j]
  {
    if forall i, j :: 0 <= i < j < |s| ==> s[i] != s[j] {
      DistinctSize(s);
      var elements := set x | x in s;
      SubsetSize(elements, values);
      assert false;
    }
    i, j :| 0 <= i < j < |s| && s[i] == s[j];
  }

  ghost predicate WaitsWithin(groups: seq<Group>, stuck: set<string>, a: string) {
    exists b :: b in stuck && Refers(groups, a, b)
  }

  lemma {:induction false} LongWalk(groups: seq<Group>, stuck: set<string>, start: string, steps: nat) returns (walk: seq<string>)
    requires start in stuck && forall a :: a in stuck ==> WaitsWithin(groups, stuck, a)
    ensures |walk| == steps + 1 && IsWalk(groups, walk)
    ensures forall i :: 0 <= i < |walk| ==> walk[i] in stuck
  {
    hide Refers;
    if steps == 0 {
      walk := [start];
    } else {
      var w := LongWalk(groups, stuck, start, steps - 1);
      assert WaitsWithin(groups, stuck, w[steps - 1]);
      var b :| b in stuck && Refers(groups, w[steps - 1], b);
      walk := w + [b];
    }
  }

  /** Groups each waiting for another of them contain a cycle. */
  lemma StuckIsCyclic(groups: seq<Group>, stuck: set<string>)
    requires stuck != {} && forall a :: a in stuck ==> WaitsWithin(groups, stuck, a)
    ensures !Acyclic(groups)
  {
    hide Refers, WaitsWithin;
    var start :| start in stuck;
    var walk := LongWalk(groups, stuck, start, |stuck|);
    var i, j := Repeats(walk, stuck);
    var cycle := walk[i..j + 1];
    forall k | 0 <= k < |cycle| - 1 ensures Refers(groups, cycle[k], cycle[k + 1]) {
      assert Refers(groups, walk[i + k], walk[i + k + 1]);
    }
    assert IsWalk(groups, cycle) && cycle[0] == cycle[|cycle| - 1];
  }

  /** When no tag is used twice, resolvable means: no group without children, no undefined child, no cycle. */
  lemma ResolvableWhenDistinct(leaves: set<string>, groups: seq<Group>)
    requires DistinctTags(groups) && forall g :: g in groups ==> g.tag !in leaves
    ensures Resolvable(leaves, groups)
       <==> (forall g :: g in groups ==> g.children != []) && Defined(leaves, groups) && Acyclic(groups)
  {
    if Resolvable(leaves, groups) {
      ResolvableIsDefined(leaves, groups);
      ResolvableIsAcyclic(leaves, groups);
    }
    if Defined(leaves, groups) && Acyclic(groups) {
      forall some ensures !Stuck(leaves, groups, some) {
        if Stuck(leaves, groups, some) {
          StuckIsWaiting(leaves, groups, some);
        }
      }
    }
  }

  lemma StuckIsWaiting(leaves: set<string>, groups: seq<Group>, some: set<Group>)
    requires Stuck(leaves, groups, some) && Defined(leaves, groups)
    ensures !Acyclic(groups)
  {
    var waiting := set g | g in some :: g.tag;
    var first :| first in some;
    assert first.tag in waiting;
    forall a | a in waiting ensures WaitsWithin(groups, waiting, a) {
      var g :| g in some && g.tag == a;
      var i :| 0 <= i < |groups| && groups[i] == g;
      assert Blocked(leaves, groups, some, g);
      var c :| c in g.children && c !in leaves && forall h :: h in groups && h.tag == c ==> h in some;
      assert HasTag(groups, c);
      var k :| 0 <= k < |groups| && groups[k].tag == c;
      assert groups[k] in some && Refers(groups, a, c);
    }
    StuckIsCyclic(groups, waiting);
  }

  lemma ResolvableIsDefined(leaves: set<string>, groups: seq<Group>)
    requires Resolvable(leaves, groups)
    ensures Defined(leaves, groups)
  {
    forall i, c | 0 <= i < |groups| && c in groups[i].children ensures c in leaves || HasTag(groups, c) {
      if c !in leaves && !HasTag(groups, c) {
        assert Blocked(leaves, groups, {groups[i]}, groups[i]);
        assert Stuck(leaves, groups, {groups[i]});
      }
    }
  }

  lemma ResolvableIsAcyclic(leaves: set<string>, groups: seq<Group>)
    requires DistinctTags(groups) && (forall g :: g in groups ==> g.tag !in leaves) && Resolvable(leaves, groups)
    ensures Acyclic(groups)
  {
    forall walk | |walk| >= 2 && IsWalk(groups, walk) ensures walk[0] != walk[|walk| - 1] {
      if walk[0] == walk[|walk| - 1] {
        CycleIsStuck(leaves, groups, walk);
      }
    }
  }

  lemma CycleIsStuck(leaves: set<string>, groups: seq<Group>, walk: seq<string>)
    requires DistinctTags(groups) && forall g :: g in groups ==> g.tag !in leaves
    requires |walk| >= 2 && IsWalk(groups, walk) && walk[0] == walk[|walk| - 1]
    ensures !Resolvable(leaves, groups)
  {
    var some := set g | g in groups && g.tag in walk;
    forall g | g in some ensures Blocked(leaves, groups, some, g) {
      var k :| 0 <= k < |walk| && walk[k] == g.tag;
      var next := NextOnCycle(groups, walk, k);
      var i :| 0 <= i < |groups| && groups[i].tag == g.tag && next in groups[i].children;
      var m :| 0 <= m < |groups| && groups[m].tag == next;
      assert groups[i] == g && groups[m] in groups;
    }
    var i :| 0 <= i < |groups| && groups[i].tag == walk[0] && walk[1] in groups[i].children by {
      assert Refers(groups, walk[0], walk[1]);
    }
    assert groups[i] in some;
    assert Stuck(leaves, groups, some);
  }

  /** The tag after one on a cycle: its group lists it, and it is a group's too. */
  lemma NextOnCycle(groups: seq<Group>, walk: seq<string>, k: nat) returns (next: string)
    requires |walk| >= 2 && IsWalk(groups, walk) && walk[0] == walk[|walk| - 1] && k < |walk|
    ensures next in walk && Refers(groups, walk[k], next) && HasTag(groups, next)
  {
    var j := if k == |walk| - 1 then 0 else k;
    next := walk[j + 1];
    assert Refers(groups, walk[j], walk[j + 1]);
    if j + 1 < |walk| - 1 {
      assert Refers(groups, walk[j + 1], walk[j + 2]);
    } else {
      assert Refers(groups, walk[0], walk[1]);
    }
  }

  // ---- adding one group ----------------------------------------------------------------------

  function Positions(index: map<string, nat>, tags: seq<string>): seq<nat>
    requires forall i :: 0 <= i < |tags| ==> tags[i] in index
  {
    seq(|tags|, i requires 0 <= i < |tags| => index[tags[i]])
  }

  function MakeNode(kind: Kind, children: seq<nat>): Node {
    match kind
    case UrlTestKind(tolerance) => UrlTest(children, tolerance)
    case FallbackKind => Fallback(children)
    case SelectorKind(_) => Selector(children)
  }

  predicate ReadyIn(keys: set<string>, g: Group) {
    g.children != [] && forall i :: 0 <= i < |g.children| ==> g.children[i] in keys
  }

  /** The tag a selector starts with. */
  function Default(g: Group): (tag: string)
    requires g.children != []
    ensures tag in g.children
  {
    if g.kind.SelectorKind? && g.kind.default.Some? && g.kind.default.value in g.children then g.kind.default.value
    else g.children[0]
  }

  function Add(t: Table, g: Group): (t': Table)
    requires ReadyIn(t.index.Keys, g)
    ensures t'.index.Keys == t.index.Keys + {g.tag}
  {
    Table(t.index[g.tag := |t.nodes|], t.tags + [g.tag], t.nodes + [MakeNode(g.kind, Positions(t.index, g.children))],
          if g.kind.SelectorKind? then t.selected[|t.nodes| := t.index[Default(g)]] else t.selected)
  }

  ghost predicate OfKind(node: Node, kind: Kind) {
    match kind
    case UrlTestKind(tolerance) => node.UrlTest? && node.tolerance == tolerance
    case FallbackKind => node.Fallback?
    case SelectorKind(_) => node.Selector?
  }

  /** Node x is the group's: its tag, its kind, nodes under the tags it lists, in that order, and a
      selector starts with its default if that is a child, else with its first. */
  ghost predicate StandsAt(t: Table, x: nat, g: Group) {
    && x < |t.nodes| == |t.tags| && g.children != []
    && t.tags[x] == g.tag && OfKind(t.nodes[x], g.kind) && |t.nodes[x].children| == |g.children|
    && (forall i :: 0 <= i < |g.children| ==> t.nodes[x].children[i] < x && t.tags[t.nodes[x].children[i]] == g.children[i])
    && (g.kind.SelectorKind? ==>
          && x in t.selected && t.selected[x] < x
          && var first := t.tags[t.selected[x]];
             first in g.children && (if g.kind.default.Some? && g.kind.default.value in g.children then g.kind.default == Some(first)
                                     else first == g.children[0]))
  }

  ghost predicate Stands(t: Table, g: Group) {
    exists x :: StandsAt(t, x, g)
  }

  /** Nothing already made changes. */
  ghost predicate Extends(t: Table, t': Table) {
    && t.tags <= t'.tags && t.nodes <= t'.nodes
    && forall x :: 0 <= x < |t.nodes| ==> Get(t'.selected, x) == Get(t.selected, x)
  }

  lemma AddKeeps(t: Table, g: Group)
    requires Sound(t) && ReadyIn(t.index.Keys, g)
    ensures Sound(Add(t, g)) && Extends(t, Add(t, g)) && StandsAt(Add(t, g), |t.nodes|, g)
  {
    hide Dag, SelectionsValid;
    AddStands(t, g);
    AddDag(t, g);
    AddSelections(t, g);
  }

  lemma AddStands(t: Table, g: Group)
    requires Sound(t) && ReadyIn(t.index.Keys, g)
    ensures StandsAt(Add(t, g), |t.nodes|, g)
  {
    hide Dag, SelectionsValid;
    assert Add(t, g).nodes[|t.nodes|].children == Positions(t.index, g.children);
  }

  lemma AddDag(t: Table, g: Group)
    requires Dag(t.nodes) && ReadyIn(t.index.Keys, g) && forall tag :: tag in t.index ==> t.index[tag] < |t.nodes|
    ensures Dag(Add(t, g).nodes)
  {
    var nodes := Add(t, g).nodes;
    forall x | 0 <= x < |nodes| && !nodes[x].Leaf? ensures Below(nodes[x].children, x) {
      if x < |t.nodes| {
        assert nodes[x] == t.nodes[x];
      }
    }
  }

  lemma AddSelections(t: Table, g: Group)
    requires SelectionsValid(t.nodes, t.selected) && ReadyIn(t.index.Keys, g)
    ensures SelectionsValid(Add(t, g).nodes, Add(t, g).selected)
  {
    var k :| 0 <= k < |g.children| && g.children[k] == Default(g);
    assert Positions(t.index, g.children)[k] == t.index[Default(g)];
    assert forall x :: 0 <= x < |t.nodes| ==> Add(t, g).nodes[x] == t.nodes[x];
  }

  lemma StandsGrows(t: Table, t': Table, g: Group)
    requires Stands(t, g) && Extends(t, t') && |t'.tags| == |t'.nodes|
    ensures Stands(t', g)
  {
    var x :| StandsAt(t, x, g);
    assert Get(t'.selected, x) == Get(t.selected, x);
    assert StandsAt(t', x, g);
  }

  // ---- adding groups in turn -----------------------------------------------------------------

  /** Each group's children are there when its turn comes. */
  predicate InTurn(keys: set<string>, order: seq<Group>)
    decreases |order|
  {
    order == [] || (ReadyIn(keys, order[0]) && InTurn(keys + {order[0].tag}, order[1..]))
  }

  function AddAll(t: Table, order: seq<Group>): Table
    requires InTurn(t.index.Keys, order)
    decreases |order|
  {
    if order == [] then t else AddAll(Add(t, order[0]), order[1..])
  }

  lemma NoTags()
    ensures TagsOf([]) == {}
  {}

  lemma TagsCons(g: Group, rest: seq<Group>)
    ensures TagsOf([g] + rest) == {g.tag} + TagsOf(rest)
  {
    var all := [g] + rest;
    assert all[0] == g && forall i :: 0 < i < |all| ==> all[i] == rest[i - 1];
    forall tag | tag in TagsOf(rest) ensures tag in TagsOf(all) {
      var i :| 0 <= i < |rest| && rest[i].tag == tag;
      assert all[i + 1].tag == tag;
    }
  }

  /** The table after adding all: sound, larger, every group standing in it. */
  lemma {:induction false} AddAllKeeps(t: Table, order: seq<Group>)
    requires Sound(t) && InTurn(t.index.Keys, order)
    ensures var t' := AddAll(t, order);
            && Sound(t') && Extends(t, t') && t'.index.Keys == t.index.Keys + TagsOf(order)
            && |t'.nodes| == |t.nodes| + |order|
            && forall i :: 0 <= i < |order| ==> Stands(t', order[i])
    decreases |order|
  {
    hide Sound, ReadyIn, StandsAt, Stands, TagsOf, Add;
    if order == [] {
      NoTags();
    } else {
      var g, rest := order[0], order[1..];
      var t1, t' := Add(t, g), AddAll(t, order);
      AddKeeps(t, g);
      AddOne(t, g);
      AddAllKeeps(t1, rest);
      assert order == [g] + rest;
      TagsCons(g, rest);
      ExtendsTrans(t, t1, t');
      StandsGrows(t1, t', g) by {
        assert |t'.tags| == |t'.nodes| by { SoundSize(t'); }
        assert Stands(t1, g);
      }
      forall i | 0 <= i < |order| ensures Stands(t', order[i]) {
        if i > 0 {
          assert order[i] == rest[i - 1];
        }
      }
    }
  }

  lemma AddOne(t: Table, g: Group)
    requires ReadyIn(t.index.Keys, g) && StandsAt(Add(t, g), |t.nodes|, g)
    ensures |Add(t, g).nodes| == |t.nodes| + 1 && Stands(Add(t, g), g)
  {}

  lemma SoundSize(t: Table)
    requires Sound(t)
    ensures |t.tags| == |t.nodes|
  {}

  lemma ExtendsTrans(a: Table, b: Table, c: Table)
    requires Extends(a, b) && Extends(b, c)
    ensures Extends(a, c)
  {}

  lemma {:induction false} AddAllAppend(t: Table, a: seq<Group>, b: seq<Group>)
    requires InTurn(t.index.Keys, a) && InTurn(AddAll(t, a).index.Keys, b)
    ensures InTurn(t.index.Keys, a + b) && AddAll(t, a + b) == AddAll(AddAll(t, a), b)
    decreases |a|
  {
    hide ReadyIn, Add;
    if a == [] {
      assert a + b == b;
    } else {
      AddAllAppend(Add(t, a[0]), a[1..], b);
      assert (a + b)[0] == a[0] && (a + b)[1..] == a[1..] + b;
    }
  }

  lemma AddAllOne(t: Table, g: Group)
    requires ReadyIn(t.index.Keys, g)
    ensures InTurn(t.index.Keys, [g]) && AddAll(t, [g]) == Add(t, g)
  {
    assert [g][1..] == [];
  }

  // ---- the rounds ------------------------------------------------------------------------------

  /** One pass: the groups added, and those put off. */
  function Pass(keys: set<string>, pending: seq<Group>): (r: (seq<Group>, seq<Group>))
    ensures |r.0| + |r.1| == |pending|
    decreases |pending|
  {
    if pending == [] then ([], [])
    else if ReadyIn(keys, pending[0]) then
      var (added, later) := Pass(keys + {pending[0].tag}, pending[1..]);
      ([pending[0]] + added, later)
    else
      var (added, later) := Pass(keys, pending[1..]);
      (added, [pending[0]] + later)
  }

  /** Passes until one adds nothing: the order of adding, and the groups left over. */
  function Rounds(keys: set<string>, pending: seq<Group>): (r: (seq<Group>, seq<Group>))
    decreases |pending|
  {
    var (added, later) := Pass(keys, pending);
    if added == [] then ([], later)
    else
      var (order, left) := Rounds(keys + TagSet(added), later);
      (added + order, left)
  }

  function TagSet(groups: seq<Group>): (tags: set<string>)
    ensures tags == TagsOf(groups)
  {
    set g | g in groups :: g.tag
  }

  lemma {:induction false} PassSplits(keys: set<string>, pending: seq<Group>)
    ensures var (added, later) := Pass(keys, pending);
            && multiset(added) + multiset(later) == multiset(pending)
            && InTurn(keys, added)
            && forall g :: g in later ==> !ReadyIn(keys, g)
    decreases |pending|
  {
    if pending != [] {
      var first, rest := pending[0], pending[1..];
      assert pending == [first] + rest;
      if ReadyIn(keys, first) {
        PassSplits(keys + {first.tag}, rest);
        assert ([first] + Pass(keys + {first.tag}, rest).0)[1..] == Pass(keys + {first.tag}, rest).0;
      } else {
        PassSplits(keys, rest);
      }
    }
  }

  lemma {:induction false} InTurnAppend(keys: set<string>, a: seq<Group>, b: seq<Group>)
    requires InTurn(keys, a) && InTurn(keys + TagsOf(a), b)
    ensures InTurn(keys, a + b) && TagsOf(a + b) == TagsOf(a) + TagsOf(b)
    decreases |a|
  {
    hide ReadyIn, TagsOf;
    if a == [] {
      NoTags();
      assert a + b == b && keys + {} == keys;
    } else {
      var g, rest := a[0], a[1..];
      assert a == [g] + rest && a + b == [g] + (rest + b);
      TagsCons(g, rest);
      TagsCons(g, rest + b);
      assert keys + ({g.tag} + TagsOf(rest)) == (keys + {g.tag}) + TagsOf(rest);
      InTurnAppend(keys + {g.tag}, rest, b);
    }
  }

  /** The order and what is left over are the groups; each is added in turn; what is left over waits. */
  lemma {:induction false} RoundsSplit(keys: set<string>, pending: seq<Group>)
    ensures var (order, left) := Rounds(keys, pending);
            && multiset(order) + multiset(left) == multiset(pending)
            && InTurn(keys, order)
            && forall g :: g in left ==> !ReadyIn(keys + TagsOf(order), g)
    decreases |pending|
  {
    hide Pass, InTurn, ReadyIn, TagsOf;
    PassSplits(keys, pending);
    NoTags();
    var (added, later) := Pass(keys, pending);
    if added == [] {
      InTurnNone(keys);
      assert keys + {} == keys;
    } else {
      var keys' := keys + TagSet(added);
      RoundsSplit(keys', later);
      var (order, left) := Rounds(keys', later);
      InTurnAppend(keys, added, order);
      assert multiset(added + order) == multiset(added) + multiset(order);
      assert keys' + TagsOf(order) == keys + (TagsOf(added) + TagsOf(order));
    }
  }

  lemma InTurnNone(keys: set<string>)
    ensures InTurn(keys, [])
  {}

  lemma TagListed(order: seq<Group>, g: Group)
    ensures g in order ==> g.tag in TagsOf(order)
  {}

  /** What is left over is stuck. */
  lemma LeftIsStuck(leaves: set<string>, groups: seq<Group>, order: seq<Group>, left: seq<Group>)
    requires multiset(order) + multiset(left) == multiset(groups) && left != []
    requires forall g :: g in left ==> !ReadyIn(leaves + TagsOf(order), g)
    ensures !Resolvable(leaves, groups)
  {
    var some := set g | g in left;
    assert left[0] in some;
    forall g | g in some && g.children != [] ensures Blocked(leaves, groups, some, g) {
      var i :| 0 <= i < |g.children| && g.children[i] !in leaves + TagsOf(order);
      forall h | h in groups && h.tag == g.children[i] ensures h in some {
        assert h in multiset(groups);
        TagListed(order, h);
      }
    }
    forall g | g in some ensures g in groups {
      assert g in multiset(groups);
    }
    if Resolvable(leaves, groups) {
      assert Stuck(leaves, groups, some);
    }
  }

  lemma StuckNotReady(leaves: set<string>, groups: seq<Group>, some: set<Group>, keys: set<string>, g: Group)
    requires Stuck(leaves, groups, some)
    requires forall k :: k in keys ==> k in leaves || exists h :: h in groups && h.tag == k && h !in some
    ensures g in some ==> !ReadyIn(keys, g)
  {
    if g in some {
      assert Blocked(leaves, groups, some, g);
      var c :| c in g.children && c !in leaves && forall h :: h in groups && h.tag == c ==> h in some;
    }
  }

  lemma StuckMember(leaves: set<string>, groups: seq<Group>, some: set<Group>) returns (g: Group)
    requires Stuck(leaves, groups, some)
    ensures g in some && g in groups
  {
    g :| g in some;
  }

  /** No group that is added in turn belongs to a stuck set. */
  lemma {:induction false} NoneStuck(leaves: set<string>, groups: seq<Group>, some: set<Group>, keys: set<string>, order: seq<Group>)
    requires Stuck(leaves, groups, some) && InTurn(keys, order) && forall g :: g in order ==> g in groups
    requires forall k :: k in keys ==> k in leaves || exists h :: h in groups && h.tag == k && h !in some
    ensures forall g :: g in order ==> g !in some
    decreases |order|
  {
    if order != [] {
      var first := order[0];
      StuckNotReady(leaves, groups, some, keys, first);
      NoneStuck(leaves, groups, some, keys + {first.tag}, order[1..]);
      forall g | g in order ensures g !in some {
        assert g == first || g in order[1..];
      }
    }
  }

  /** The rounds place every group exactly when the configuration is resolvable. */
  lemma RoundsResolve(leaves: set<string>, groups: seq<Group>)
    ensures Rounds(leaves, groups).1 == [] <==> Resolvable(leaves, groups)
  {
    hide Rounds, ReadyIn, Stuck;
    RoundsSplit(leaves, groups);
    var (order, left) := Rounds(leaves, groups);
    if left != [] {
      LeftIsStuck(leaves, groups, order, left);
    } else {
      AllPlaced(leaves, groups, order);
    }
  }

  lemma AllPlaced(leaves: set<string>, groups: seq<Group>, order: seq<Group>)
    requires multiset(order) == multiset(groups) && InTurn(leaves, order)
    ensures Resolvable(leaves, groups)
  {
    hide InTurn;
    forall g ensures g in order <==> g in groups {
      assert g in order <==> g in multiset(order);
    }
    InTurnHaveChildren(leaves, order);
    forall some ensures !Stuck(leaves, groups, some) {
      if Stuck(leaves, groups, some) {
        var g := StuckMember(leaves, groups, some);
        NoneStuck(leaves, groups, some, leaves, order);
      }
    }
  }

  lemma {:induction false} InTurnHaveChildren(keys: set<string>, order: seq<Group>)
    requires InTurn(keys, order)
    ensures forall g :: g in order ==> g.children != []
    decreases |order|
  {
    if order != [] {
      InTurnHaveChildren(keys + {order[0].tag}, order[1..]);
      assert order == [order[0]] + order[1..];
    }
  }

  // ---- when no tag is used twice -------------------------------------------------------------

  /** The group's tag leads to a node of its kind, its children those its tags lead to. */
  ghost predicate Represents(t: Table, g: Group) {
    && g.tag in t.index && t.index[g.tag] < |t.nodes|
    && (forall i :: 0 <= i < |g.children| ==> g.children[i] in t.index)
    && OfKind(t.nodes[t.index[g.tag]], g.kind)
    && |t.nodes[t.index[g.tag]].children| == |g.children|
    && forall i :: 0 <= i < |g.children| ==> t.nodes[t.index[g.tag]].children[i] == t.index[g.children[i]]
  }

  /** With distinct tags nothing is taken over: every tag leads to its own group. */
  lemma {:induction false} DistinctRepresented(t: Table, order: seq<Group>)
    requires Sound(t) && InTurn(t.index.Keys, order) && DistinctTags(order) && forall g :: g in order ==> g.tag !in t.index
    ensures forall i :: 0 <= i < |order| ==> Represents(AddAll(t, order), order[i])
    ensures forall tag :: tag in t.index ==> tag in AddAll(t, order).index && AddAll(t, order).index[tag] == t.index[tag]
    ensures t.nodes <= AddAll(t, order).nodes
    decreases |order|
  {
    hide Sound, Positions, MakeNode;
    if order != [] {
      var g, rest := order[0], order[1..];
      AddKeeps(t, g);
      assert forall h :: h in rest ==> exists i :: 0 < i < |order| && order[i] == h;
      DistinctRepresented(Add(t, g), rest);
      AddRepresents(t, g);
      RepresentsGrows(Add(t, g), AddAll(t, order), g);
      forall i | 0 <= i < |order| ensures Represents(AddAll(t, order), order[i]) {
        if i > 0 {
          assert order[i] == rest[i - 1];
        }
      }
    }
  }

  lemma AddRepresents(t: Table, g: Group)
    requires ReadyIn(t.index.Keys, g) && g.tag !in t.index
    ensures Represents(Add(t, g), g)
  {
    assert Positions(Add(t, g).index, g.children) == Positions(t.index, g.children);
  }

  lemma RepresentsGrows(t: Table, t': Table, g: Group)
    requires Represents(t, g) && t.nodes <= t'.nodes
    requires forall tag :: tag in t.index ==> tag in t'.index && t'.index[tag] == t.index[tag]
    ensures Represents(t', g)
  {
    assert Positions(t'.index, g.children) == Positions(t.index, g.children);
  }

  /** Positions fall along every walk, from group to child. */
  lemma {:induction false} PositionsFall(t: Table, groups: seq<Group>, walk: seq<string>)
    requires Sound(t) && forall i :: 0 <= i < |groups| ==> Represents(t, groups[i])
    requires |walk| >= 2 && IsWalk(groups, walk)
    ensures walk[0] in t.index && walk[|walk| - 1] in t.index
    ensures t.index[walk[|walk| - 1]] < t.index[walk[0]]
    decreases |walk|
  {
    StepFalls(t, groups, walk[0], walk[1]);
    if |walk| > 2 {
      forall i | 0 <= i < |walk[1..]| - 1 ensures Refers(groups, walk[1..][i], walk[1..][i + 1]) {
        assert Refers(groups, walk[i + 1], walk[i + 2]);
      }
      PositionsFall(t, groups, walk[1..]);
    }
  }

  lemma StepFalls(t: Table, groups: seq<Group>, a: string, b: string)
    requires Sound(t) && Refers(groups, a, b) && forall i :: 0 <= i < |groups| ==> Represents(t, groups[i])
    ensures a in t.index && b in t.index && t.index[b] < t.index[a]
  {
    var i :| 0 <= i < |groups| && groups[i].tag == a && b in groups[i].children;
    assert Represents(t, groups[i]);
    var k :| 0 <= k < |groups[i].children| && groups[i].children[k] == b;
    var node := t.nodes[t.index[a]];
    assert node.children[k] == t.index[b];
    assert Below(node.children, t.index[a]);
  }

  // ---- the loop --------------------------------------------------------------------------------

  function FirstChildless(groups: seq<Group>): (tag: Option<string>)
    ensures tag.None? <==> forall g :: g in groups ==> g.children != []
    ensures tag.Some? ==> exists i :: 0 <= i < |groups| && groups[i].children == [] && groups[i].tag == tag.value
                                      && forall j :: 0 <= j < i ==> groups[j].children != []
  {
    if groups == [] then None
    else if groups[0].children == [] then Some(groups[0].tag)
    else
      assert forall i :: 0 <= i < |groups[1..]| ==> groups[1..][i] == groups[i + 1];
      FirstChildless(groups[1..])
  }

  /** One round over the pending groups: those ready are added, the others kept for later; a group
      without children makes the source raise. */
  method Round(start: Table, pending: seq<Group>) returns (t: Table, next: seq<Group>, progress: bool, childless: Option<string>)
    ensures childless == FirstChildless(pending)
    ensures childless.None? ==> InTurn(start.index.Keys, Pass(start.index.Keys, pending).0)
    ensures childless.None? ==> (progress <==> Pass(start.index.Keys, pending).0 != [])
    ensures childless.None? ==> next == Pass(start.index.Keys, pending).1 && t == AddAll(start, Pass(start.index.Keys, pending).0)
  {
    hide Pass, ReadyIn, InTurn, AddAll, Add;
    t, next, progress, childless := start, [], false, None;
    ghost var keys := start.index.Keys;
    ghost var added: seq<Group> := [];
    var i := 0;
    assert pending[0..] == pending && [] + Pass(keys, pending).0 == Pass(keys, pending).0 && [] + Pass(keys, pending).1 == Pass(keys, pending).1;
    NothingAdded(start);
    while i < |pending|
      invariant 0 <= i <= |pending| && FirstChildless(pending[i..]) == FirstChildless(pending)
      invariant InTurn(keys, added) && t == AddAll(start, added) && (progress <==> added != [])
      invariant added + Pass(t.index.Keys, pending[i..]).0 == Pass(keys, pending).0
      invariant next + Pass(t.index.Keys, pending[i..]).1 == Pass(keys, pending).1
    {
      var g := pending[i];
      assert pending[i..] == [g] + pending[i + 1..];
      if g.children == [] {
        return t, next, progress, Some(g.tag);
      }
      PassStep(t.index.Keys, g, pending[i + 1..]);
      if exists k :: 0 <= k < |g.children| && g.children[k] !in t.index {
        Waits(t, g);
        Assoc(next, [g], Pass(t.index.Keys, pending[i + 1..]).1);
        next := next + [g];
      } else {
        IsReady(t, g);
        AddAllOne(t, g);
        AddAllAppend(start, added, [g]);
        Assoc(added, [g], Pass(t.index.Keys + {g.tag}, pending[i + 1..]).0);
        t := Add(t, g);
        added := added + [g];
        progress := true;
      }
      i := i + 1;
    }
    PassNone(t.index.Keys);
    assert pending[i..] == [] && added + [] == added && next + [] == next;
  }

  lemma NothingAdded(t: Table)
    ensures InTurn(t.index.Keys, []) && AddAll(t, []) == t
  {}

  lemma Waits(t: Table, g: Group)
    requires exists k :: 0 <= k < |g.children| && g.children[k] !in t.index
    ensures !ReadyIn(t.index.Keys, g)
  {}

  lemma IsReady(t: Table, g: Group)
    requires g.children != [] && !exists k :: 0 <= k < |g.children| && g.children[k] !in t.index
    ensures ReadyIn(t.index.Keys, g)
  {}

  lemma PassNone(keys: set<string>)
    ensures Pass(keys, []) == ([], [])
  {}

  lemma PassStep(keys: set<string>, g: Group, rest: seq<Group>)
    ensures Pass(keys, [g] + rest)
         == if ReadyIn(keys, g) then ([g] + Pass(keys + {g.tag}, rest).0, Pass(keys + {g.tag}, rest).1)
            else (Pass(keys, rest).0, [g] + Pass(keys, rest).1)
  {
    assert ([g] + rest)[1..] == rest;
  }

  /** The table holds `done`, and the rounds from here on finish the work. */
  ghost predicate Underway(leaves: Table, groups: seq<Group>, t: Table, done: seq<Group>, pending: seq<Group>) {
    var keys := leaves.index.Keys;
    && InTurn(keys, done) && t == AddAll(leaves, done) && FirstChildless(pending) == FirstChildless(groups)
    && Rounds(keys, groups) == (done + Rounds(t.index.Keys, pending).0, Rounds(t.index.Keys, pending).1)
  }

  lemma UnderwayStart(leaves: Table, groups: seq<Group>)
    ensures Underway(leaves, groups, leaves, [], groups)
  {
    hide Rounds;
    assert [] + Rounds(leaves.index.Keys, groups).0 == Rounds(leaves.index.Keys, groups).0;
  }

  lemma UnderwayStep(leaves: Table, groups: seq<Group>, t: Table, done: seq<Group>, pending: seq<Group>)
    requires Sound(leaves) && Underway(leaves, groups, t, done, pending) && FirstChildless(pending).None?
    requires Pass(t.index.Keys, pending).0 != []
    ensures var (added, later) := Pass(t.index.Keys, pending);
            InTurn(t.index.Keys, added) && Underway(leaves, groups, AddAll(t, added), done + added, later)
  {
    hide Pass, InTurn, AddAll, Sound, TagsOf;
    PassSplits(t.index.Keys, pending);
    var (added, later) := Pass(t.index.Keys, pending);
    AddAllAppend(leaves, done, added);
    AddAllKeeps(leaves, done);
    AddAllKeeps(t, added);
    Assoc(done, added, Rounds(t.index.Keys + TagSet(added), later).0);
    forall g | g in later ensures g.children != [] {
      assert g in multiset(pending);
    }
  }

  /** The fixpoint loop over deferred groups. It ends on every input and succeeds exactly when the
      configuration is resolvable, with the groups added in the order of the rounds. */
  method Link(leaves: Table, groups: seq<Group>) returns (r: Result<Table, BuildError>)
    requires Sound(leaves)
    ensures r.Ok? <==> Resolvable(leaves.index.Keys, groups)
    ensures r.Ok? ==> Sound(r.value) && Extends(leaves, r.value) && |r.value.nodes| == |leaves.nodes| + |groups|
                      && r.value.index.Keys == leaves.index.Keys + TagsOf(groups)
                      && forall g :: g in groups ==> Stands(r.value, g)
    ensures r.Ok? ==> var order := Rounds(leaves.index.Keys, groups).0;
                      InTurn(leaves.index.Keys, order) && multiset(order) == multiset(groups) && r.value == AddAll(leaves, order)
    ensures r.Err? ==>
      r.error == if FirstChildless(groups).Some? then NoChildren(FirstChildless(groups).value)
                 else UndefinedOrCircular(TagList(Rounds(leaves.index.Keys, groups).1))
  {
    var t, pending := leaves, groups;
    ghost var done: seq<Group> := [];
    UnderwayStart(leaves, groups);
    RoundsResolve(leaves.index.Keys, groups);
    hide Sound, Extends, Stands, Resolvable, Underway, Pass, Rounds, AddAll, InTurn, TagsOf;
    while pending != []
      invariant Underway(leaves, groups, t, done, pending)
      decreases |pending|
    {
      UnderwayMeans(leaves, groups, t, done, pending);
      var t', next, progress, childless := Round(t, pending);
      if childless.Some? {
        ChildlessUnresolvable(leaves.index.Keys, groups);
        return Err(NoChildren(childless.value));
      }
      if !progress {
        NoProgress(t.index.Keys, pending);
        return Err(UndefinedOrCircular(TagList(next)));
      }
      UnderwayStep(leaves, groups, t, done, pending);
      done := done + Pass(t.index.Keys, pending).0;
      t, pending := t', next;
    }
    Finished(leaves, groups, t, done);
    return Ok(t);
  }

  function TagList(groups: seq<Group>): seq<string> {
    seq(|groups|, k requires 0 <= k < |groups| => groups[k].tag)
  }

  lemma UnderwayMeans(leaves: Table, groups: seq<Group>, t: Table, done: seq<Group>, pending: seq<Group>)
    requires Underway(leaves, groups, t, done, pending)
    ensures FirstChildless(pending) == FirstChildless(groups)
    ensures Rounds(leaves.index.Keys, groups).1 == Rounds(t.index.Keys, pending).1
  {}

  lemma ChildlessUnresolvable(leaves: set<string>, groups: seq<Group>)
    requires FirstChildless(groups).Some?
    ensures !Resolvable(leaves, groups)
  {}

  lemma NoProgress(keys: set<string>, pending: seq<Group>)
    requires Pass(keys, pending).0 == [] && pending != []
    ensures Rounds(keys, pending).1 == Pass(keys, pending).1 != []
  {}

  lemma Finished(leaves: Table, groups: seq<Group>, t: Table, done: seq<Group>)
    requires Sound(leaves) && Underway(leaves, groups, t, done, [])
    ensures Rounds(leaves.index.Keys, groups) == (done, []) && multiset(done) == multiset(groups)
    ensures InTurn(leaves.index.Keys, done) && t == AddAll(leaves, done)
    ensures Sound(t) && Extends(leaves, t) && |t.nodes| == |leaves.nodes| + |groups|
    ensures t.index.Keys == leaves.index.Keys + TagsOf(groups) && forall g :: g in groups ==> Stands(t, g)
  {
    hide Sound, Extends, Stands, AddAll, InTurn;
    assert Rounds(t.index.Keys, []) == ([], []);
    assert done + [] == done;
    RoundsSplit(leaves.index.Keys, groups);
    AddAllKeeps(leaves, done);
    SameGroups(done, groups);
    assert |multiset(done)| == |multiset(groups)|;
    forall g | g in groups ensures Stands(t, g) {
      var i :| 0 <= i < |done| && done[i] == g;
    }
  }

  lemma SameGroups(a: seq<Group>, b: seq<Group>)
    requires multiset(a) == multiset(b)
    ensures (forall g :: g in a <==> g in b) && TagsOf(a) == TagsOf(b)
  {
    forall g ensures g in a <==> g in b {
      assert g in a <==> g in multiset(a);
    }
    assert TagSet(a) == TagSet(b);
  }

  /** Declaration order does not matter: only which groups there are. */
  lemma OrderIsIrrelevant(leaves: set<string>, groups: seq<Group>, others: seq<Group>)
    requires forall g :: g in groups <==> g in others
    ensures Resolvable(leaves, groups) <==> Resolvable(leaves, others)
  {
    forall some ensures Stuck(leaves, groups, some) <==> Stuck(leaves, others, some) {
      forall g ensures Blocked(leaves, groups, some, g) <==> Blocked(leaves, others, some, g) {
      }
    }
  }

  // ---- the whole configuration -----------------------------------------------------------------

  function TagOf(item: Item): string {
    if item.LeafItem? then item.tag else item.group.tag
  }

  function LeafTags(items: seq<Item>): seq<string> {
    if items == [] then []
    else LeafTags(items[..|items| - 1]) + (if items[|items| - 1].LeafItem? then [items[|items| - 1].tag] else [])
  }

  function GroupsIn(items: seq<Item>): seq<Group> {
    if items == [] then []
    else GroupsIn(items[..|items| - 1]) + (if items[|items| - 1].GroupItem? then [items[|items| - 1].group] else [])
  }

  /** No item has the tag of a leaf before it. */
  ghost predicate NoRepeats(items: seq<Item>) {
    forall i, j :: 0 <= i < j < |items| && items[i].LeafItem? ==> TagOf(items[j]) != items[i].tag
  }

  /** The tags a group can rely on: the declared leaves and the two that are always added. */
  ghost function AllLeaves(items: seq<Item>): set<string> {
    (set tag | tag in LeafTags(items)) + {"direct", "block"}
  }

  function AddLeaf(t: Table, tag: string): Table {
    Table(t.index[tag := |t.nodes|], t.tags + [tag], t.nodes + [Leaf(true, None)], t.selected)
  }

  /** A sound table of leaves, each with a tag of its own. */
  ghost predicate LeavesOnly(t: Table, tags: seq<string>) {
    && Sound(t) && t.tags == tags && t.index.Keys == (set tag | tag in tags)
    && forall x :: 0 <= x < |t.nodes| ==> t.nodes[x] == Leaf(true, None)
  }

  lemma AddLeafKeeps(t: Table, tags: seq<string>, tag: string)
    requires LeavesOnly(t, tags)
    ensures LeavesOnly(AddLeaf(t, tag), tags + [tag])
  {}

  lemma EmptyTable()
    ensures LeavesOnly(Table(map[], [], [], map[]), [])
  {}

  lemma ItemsSnoc(items: seq<Item>, item: Item)
    ensures LeafTags(items + [item]) == LeafTags(items) + (if item.LeafItem? then [item.tag] else [])
    ensures GroupsIn(items + [item]) == GroupsIn(items) + (if item.GroupItem? then [item.group] else [])
  {
    assert (items + [item])[..|items|] == items;
  }

  lemma {:induction false} LeafTagsAre(items: seq<Item>, tag: string)
    ensures tag in LeafTags(items) <==> exists i :: 0 <= i < |items| && items[i] == LeafItem(tag)
  {
    if items != [] {
      var front := items[..|items| - 1];
      LeafTagsAre(front, tag);
      assert items == front + [items[|items| - 1]];
    }
  }

  lemma RepeatsSnoc(items: seq<Item>, item: Item)
    requires NoRepeats(items)
    ensures NoRepeats(items + [item]) <==> TagOf(item) !in LeafTags(items)
  {
    hide LeafTags;
    LeafTagsAre(items, TagOf(item));
    var more := items + [item];
    if TagOf(item) in LeafTags(items) {
      var i :| 0 <= i < |items| && items[i] == LeafItem(TagOf(item));
      assert more[i] == LeafItem(TagOf(item)) && more[|items|] == item;
    }
  }

  lemma RepeatsPrefix(items: seq<Item>, n: nat)
    requires n <= |items| && NoRepeats(items)
    ensures NoRepeats(items[..n])
  {}

  /** The first pass: leaves are added in order, groups set aside; a tag that a leaf has already is an error. */
  method AddLeaves(items: seq<Item>) returns (t: Table, deferred: seq<Group>, duplicate: Option<string>)
    ensures duplicate.None? <==> NoRepeats(items)
    ensures duplicate.Some? ==> exists j :: 0 <= j < |items| && NoRepeats(items[..j])
                                            && TagOf(items[j]) == duplicate.value && duplicate.value in LeafTags(items[..j])
    ensures duplicate.None? ==> LeavesOnly(t, LeafTags(items)) && deferred == GroupsIn(items)
  {
    hide LeavesOnly, AddLeaf, LeafTags, GroupsIn, NoRepeats;
    t, deferred, duplicate := Table(map[], [], [], map[]), [], None;
    EmptyTable();
    NoItems();
    var i := 0;
    assert items[..0] == [];
    while i < |items|
      invariant 0 <= i <= |items| && NoRepeats(items[..i])
      invariant LeavesOnly(t, LeafTags(items[..i])) && deferred == GroupsIn(items[..i])
    {
      var item := items[i];
      var tag := TagOf(item);
      ItemsSnoc(items[..i], item);
      RepeatsSnoc(items[..i], item);
      assert items[..i + 1] == items[..i] + [item];
      LeafKeys(t, LeafTags(items[..i]));
      if tag in t.index {
        if NoRepeats(items) {
          RepeatsPrefix(items, i + 1);
        }
        duplicate := Some(tag);
        return;
      }
      if item.LeafItem? {
        AddLeafKeeps(t, LeafTags(items[..i]), tag);
        t := AddLeaf(t, tag);
      } else {
        assert LeafTags(items[..i]) + [] == LeafTags(items[..i]);
        deferred := deferred + [item.group];
      }
      assert GroupsIn(items[..i]) + [] == GroupsIn(items[..i]);
      i := i + 1;
    }
    assert items[..i] == items;
  }

  lemma NoItems()
    ensures LeafTags([]) == [] && GroupsIn([]) == [] && NoRepeats([])
  {}

  lemma LeafKeys(t: Table, tags: seq<string>)
    requires LeavesOnly(t, tags)
    ensures Sound(t) && forall tag :: tag in t.index <==> tag in tags
  {}

  /** Adding a leaf of its own for a tag that has none. */
  method Complete(t: Table, ghost tags: seq<string>, tag: string) returns (t': Table, ghost tags': seq<string>)
    requires LeavesOnly(t, tags)
    ensures LeavesOnly(t', tags') && tags <= tags' && t'.index.Keys == t.index.Keys + {tag}
  {
    hide LeavesOnly, AddLeaf;
    t', tags' := t, tags;
    LeafKeys(t, tags);
    if tag !in t.index {
      AddLeafKeeps(t, tags, tag);
      t', tags' := AddLeaf(t, tag), tags + [tag];
      LeafKeys(t', tags');
    }
  }

  /** `build_outbounds`, for items of the right types. */
  method Build(items: seq<Item>) returns (r: Result<Table, BuildError>)
    ensures r.Ok? <==> NoRepeats(items) && Resolvable(AllLeaves(items), GroupsIn(items))
    ensures r.Ok? ==> Sound(r.value) && LeafTags(items) <= r.value.tags
                      && r.value.index.Keys == AllLeaves(items) + TagsOf(GroupsIn(items))
                      && forall g :: g in GroupsIn(items) ==> Stands(r.value, g)
  {
    hide Sound, Stands, Resolvable, LeafTags, GroupsIn, NoRepeats, LeavesOnly, InTurn, AddAll, Rounds, TagsOf, Extends, FirstChildless;
    var t, deferred, duplicate := AddLeaves(items);
    if duplicate.Some? {
      return Err(DuplicateTag(duplicate.value));
    }
    LeafKeys(t, LeafTags(items));
    ghost var tags;
    t, tags := Complete(t, LeafTags(items), "direct");
    t, tags := Complete(t, tags, "block");
    LeafKeys(t, tags);
    assert t.index.Keys == AllLeaves(items);
    assert t.tags == tags by { LeavesTags(t, tags); }
    r := Link(t, deferred);
    if r.Ok? {
      TagsStay(t, r.value);
    }
  }

  lemma TagsStay(t: Table, t': Table)
    requires Extends(t, t')
    ensures t.tags <= t'.tags
  {}

  lemma LeavesTags(t: Table, tags: seq<string>)
    requires LeavesOnly(t, tags)
    ensures t.tags == tags
  {}
}
