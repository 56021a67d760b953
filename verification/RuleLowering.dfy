/** Structured rules lowered to the router's flat first-match list, and what that does to their
    meaning. */
module RuleLowering {
  import opened Basics
  import opened Text
  import opened Regex
  import opened Rules
  import opened RuleMeaning
  import R = Router

  /** `[source:]name`, the source defaulting. */
  function SplitSource(value: string, default: string): (string, string) {
    var p := Find(value, ':');
    if p >= 0 then (value[..p], value[p + 1..]) else (default, value)
  }

  function KindOf(number: nat): EntryType {
    match number
    case 0 => Keyword
    case 2 => Suffix
    case 3 => Exact
    case _ => Other
  }

  function SiteEntries(list: seq<ListedDomain>): (entries: seq<SiteEntry>)
    ensures |entries| == |list| && forall i :: 0 <= i < |list| ==> entries[i] == SiteEntry(KindOf(list[i].0), list[i].1)
  {
    seq(|list|, i requires 0 <= i < |list| => SiteEntry(KindOf(list[i].0), list[i].1))
  }

  /** `_make_rule`: None for a value that cannot be used. */
  function MakeCriterion(env: Env, field: Field, value: string): Option<Criterion> {
    match field
    case FDomain => Some(Domain(value))
    case FSuffix => Some(DomainSuffix(value))
    case FKeyword => Some(DomainKeyword(value))
    case FRegex => (match env.parseRegex(value) case None => None case Some(ops) => Some(DomainRegex(ops)))
    case FCidr => (match env.parseCidr(value) case None => None case Some(net) => Some(IpCidr(net)))
    case FRuleSet =>
      var (source, tag) := SplitSource(value, env.defaultSite);
      if source == "" || source !in env.sites || Upper(tag) !in env.sites[source] then None
      else Some(Geosite(SiteEntries(env.sites[source][Upper(tag)])))
    case FGeoip =>
      var (source, code) := SplitSource(value, env.defaultIp);
      if source == "" || source !in env.ips || Upper(code) !in env.ips[source] then None
      else Some(Geoip(env.ips[source][Upper(code)].0, env.ips[source][Upper(code)].1))
  }

  /** The usable criteria among a field's values. */
  function Criteria(env: Env, field: Field, values: seq<string>): seq<Criterion> {
    if values == [] then []
    else
      var rest := Criteria(env, field, values[1..]);
      var v := Strip(values[0]);
      if v == "" then rest
      else match MakeCriterion(env, field, v)
           case None => rest
           case Some(c) => [c] + rest
  }

  /** The usable criteria of each of the entry's fields, in order. */
  function FieldGroups(env: Env, fields: map<Field, seq<string>>, order: seq<Field>): seq<seq<Criterion>> {
    if order == [] then []
    else
      (if order[0] in fields then [Criteria(env, order[0], fields[order[0]])] else [])
      + FieldGroups(env, fields, order[1..])
  }

  function Groups(env: Env, e: Entry): seq<seq<Criterion>>
    requires e.Entry?
  {
    FieldGroups(env, e.fields, FIELDS)
  }

  /** Only entries with several fields can ask for all of them. */
  predicate WantsAll(env: Env, e: Entry)
    requires e.Entry?
  {
    Lower(Strip(e.mode)) == "and" && |Groups(env, e)| != 1
  }

  /** Entries without a usable outbound are skipped. */
  predicate Routable(e: Entry, valid: Option<set<string>>) {
    e.Entry? && e.outbound.Some? && e.outbound.value != "" && (valid.Some? ==> e.outbound.value in valid.value)
  }

  function Each(cs: seq<Criterion>, action: string, invert: bool): (rules: seq<R.RuleSpec>)
    ensures |rules| == |cs| && forall i :: 0 <= i < |cs| ==> rules[i] == R.OneOf(cs[i], action, invert)
  {
    seq(|cs|, i requires 0 <= i < |cs| => R.OneOf(cs[i], action, invert))
  }

  predicate AllNonempty(groups: seq<seq<Criterion>>) {
    forall g :: 0 <= g < |groups| ==> groups[g] != []
  }

  /** The flat rules of one entry. */
  function LowerEntry(env: Env, valid: Option<set<string>>, e: Entry): seq<R.RuleSpec> {
    if !Routable(e, valid) then []
    else
      var groups := Groups(env, e);
      if WantsAll(env, e) then
        if groups != [] && AllNonempty(groups) then [R.AllOf(groups, e.outbound.value, e.invert)] else []
      else Each(Flatten(groups), e.outbound.value, e.invert)
  }

  function LowerAll(env: Env, valid: Option<set<string>>, entries: seq<Entry>): seq<R.RuleSpec> {
    if entries == [] then [] else LowerEntry(env, valid, entries[0]) + LowerAll(env, valid, entries[1..])
  }

  // ---- what becomes of a value ---------------------------------------------------------------

  ghost predicate SomeFails(cs: seq<Criterion>, host: string, addr: Option<Addr>) {
    exists i :: 0 <= i < |cs| && !Holds(cs[i], host, addr)
  }

  lemma BareIs(name: string, d: string)
    ensures Bare(name, d) <==> d == DropLeft(name, '.')
  {
    DropLeftIs(name, '.');
    var k := |name| - |DropLeft(name, '.')|;
    assert name == name[..k] + DropLeft(name, '.');
    if Bare(name, d) {
      var dots: string :| name == dots + d && (forall i :: 0 <= i < |dots| ==> dots[i] == '.') && (d == "" || d[0] != '.');
      DropsDots(dots, d);
    }
  }

  lemma {:induction false} DropsDots(dots: string, d: string)
    requires (forall i :: 0 <= i < |dots| ==> dots[i] == '.') && (d == "" || d[0] != '.')
    ensures DropLeft(dots + d, '.') == d
  {
    if dots == "" {
      assert dots + d == d;
    } else {
      assert (dots + d)[0] == '.' && (dots + d)[1..] == dots[1..] + d;
      DropsDots(dots[1..], d);
    }
  }

  lemma BelowIs(host: string, domain: string)
    ensures Below(host, domain) <==> EndsWith(host, "." + domain)
  {
    EndsWithIs(host, "." + domain);
  }

  lemma WithinIs(host: string, word: string)
    ensures Within(host, word) <==> Contains(host, word)
  {
    ContainsIs(host, word);
  }

  lemma SuffixMeans(v: string, host: string, addr: Option<Addr>)
    ensures Holds(DomainSuffix(v), host, addr) <==> exists d :: Bare(Lower(v), d) && (host == d || Below(host, d))
  {
    hide Bare, Below;
    var d := DropLeft(Lower(v), '.');
    BareIs(Lower(v), d);
    BelowIs(host, d);
    forall e | Bare(Lower(v), e) ensures e == d {
      BareIs(Lower(v), e);
    }
  }

  lemma ListMeans(list: seq<ListedDomain>, host: string, addr: Option<Addr>)
    ensures Holds(Geosite(SiteEntries(list)), host, addr) <==> Listed(list, host)
  {
    hide Below, Within, EndsWith, Contains;
    var entries := SiteEntries(list);
    forall i | 0 <= i < |list| ensures EntryHolds(entries[i], host) <==> ListedHolds(list[i], host) {
      BelowIs(host, Lower(list[i].1));
      WithinIs(host, Lower(list[i].1));
    }
    if i :| 0 <= i < |entries| && EntryHolds(entries[i], host) {
      assert ListedHolds(list[i], host);
    }
    if i :| 0 <= i < |list| && ListedHolds(list[i], host) {
      assert EntryHolds(entries[i], host);
    }
  }

  /** A value refers to one source and name. */
  lemma RefersIs(value: string, default: string, source: string, name: string)
    ensures Refers(value, default, source, name) <==> (source, name) == SplitSource(value, default)
  {
    var p := Find(value, ':');
    if p >= 0 {
      assert value == value[..p] + (":" + value[p + 1..]);
    }
    if ':' !in source {
      SplitAt(source, ':', name);
    }
  }

  /** What is made of a value answers for it, and something is made exactly of what can be used. */
  lemma CriterionMeans(env: Env, field: Field, v: string, host: string, addr: Option<Addr>)
    ensures MakeCriterion(env, field, v).Some? <==> Taken(env, field, v)
    ensures Taken(env, field, v) ==> (Holds(MakeCriterion(env, field, v).value, host, addr) <==> Means(env, field, v, host, addr))
  {
    hide Refers, Listed, InSome, SiteEntries, Below, Within, Bare, Contains, EndsWith;
    match field
    case FSuffix => SuffixMeans(v, host, addr);
    case FKeyword => WithinIs(host, Lower(v));
    case FRuleSet => RuleSetMeans(env, v, host, addr);
    case FGeoip => GeoipMeans(env, v, host, addr);
    case _ =>
  }

  lemma RuleSetMeans(env: Env, v: string, host: string, addr: Option<Addr>)
    ensures MakeCriterion(env, FRuleSet, v).Some? <==> Taken(env, FRuleSet, v)
    ensures Taken(env, FRuleSet, v) ==>
      (Holds(MakeCriterion(env, FRuleSet, v).value, host, addr) <==> Means(env, FRuleSet, v, host, addr))
  {
    hide Refers, Listed, Holds, SplitSource;
    var (source, name) := SplitSource(v, env.defaultSite);
    forall s, n ensures Refers(v, env.defaultSite, s, n) <==> s == source && n == name {
      RefersIs(v, env.defaultSite, s, n);
    }
    assert Refers(v, env.defaultSite, source, name);
    if HasList(env.sites, source, name) {
      ListMeans(env.sites[source][Upper(name)], host, addr);
    }
  }

  lemma GeoipMeans(env: Env, v: string, host: string, addr: Option<Addr>)
    ensures MakeCriterion(env, FGeoip, v).Some? <==> Taken(env, FGeoip, v)
    ensures Taken(env, FGeoip, v) ==>
      (Holds(MakeCriterion(env, FGeoip, v).value, host, addr) <==> Means(env, FGeoip, v, host, addr))
  {
    hide Refers, InSome, SplitSource;
    var (source, name) := SplitSource(v, env.defaultIp);
    forall s, n ensures Refers(v, env.defaultIp, s, n) <==> s == source && n == name {
      RefersIs(v, env.defaultIp, s, n);
    }
    assert Refers(v, env.defaultIp, source, name);
  }

  lemma {:induction false} CriteriaMean(env: Env, field: Field, values: seq<string>, host: string, addr: Option<Addr>)
    ensures var cs := Criteria(env, field, values);
            && (cs != [] <==> exists i :: 0 <= i < |values| && Usable(env, field, values[i]))
            && (R.SomeHolds(cs, host, addr) <==> exists i :: 0 <= i < |values| && ValueHolds(env, field, values[i], host, addr))
            && (SomeFails(cs, host, addr) <==> exists i :: 0 <= i < |values| && ValueFails(env, field, values[i], host, addr))
    decreases |values|
  {
    hide Usable, ValueHolds, ValueFails, Criteria, R.SomeHolds, SomeFails;
    NoCriteria(env, field, host, addr);
    if values != [] {
      CriteriaMean(env, field, values[1..], host, addr);
      FirstValue(env, field, values, host, addr);
      SomeOf(values, i => Usable(env, field, i));
      SomeOf(values, i => ValueHolds(env, field, i, host, addr));
      SomeOf(values, i => ValueFails(env, field, i, host, addr));
    }
  }

  lemma NoCriteria(env: Env, field: Field, host: string, addr: Option<Addr>)
    ensures Criteria(env, field, []) == [] && !R.SomeHolds([], host, addr) && !SomeFails([], host, addr)
  {}

  lemma FirstValue(env: Env, field: Field, values: seq<string>, host: string, addr: Option<Addr>)
    requires values != []
    ensures var cs, rest, v := Criteria(env, field, values), Criteria(env, field, values[1..]), values[0];
            && (cs != [] <==> Usable(env, field, v) || rest != [])
            && (R.SomeHolds(cs, host, addr) <==> ValueHolds(env, field, v, host, addr) || R.SomeHolds(rest, host, addr))
            && (SomeFails(cs, host, addr) <==> ValueFails(env, field, v, host, addr) || SomeFails(rest, host, addr))
  {
    hide Strip, MakeCriterion, Holds, Taken, Means, R.SomeHolds, SomeFails;
    CriterionMeans(env, field, Strip(values[0]), host, addr);
    ConsMeans(Criteria(env, field, values), Criteria(env, field, values[1..]), host, addr);
  }

  lemma SomeOf(values: seq<string>, p: string -> bool)
    requires values != []
    ensures (exists i :: 0 <= i < |values| && p(values[i])) <==> p(values[0]) || exists i :: 0 <= i < |values[1..]| && p(values[1..][i])
  {
    if i :| 0 <= i < |values| && p(values[i]) {
      assert i > 0 ==> values[1..][i - 1] == values[i];
    }
    if i :| 0 <= i < |values[1..]| && p(values[1..][i]) {
      assert values[i + 1] == values[1..][i];
    }
  }

  lemma ConsMeans(all: seq<Criterion>, rest: seq<Criterion>, host: string, addr: Option<Addr>)
    ensures all != [] && all[1..] == rest ==>
      (R.SomeHolds(all, host, addr) <==> Holds(all[0], host, addr) || R.SomeHolds(rest, host, addr))
      && (SomeFails(all, host, addr) <==> !Holds(all[0], host, addr) || SomeFails(rest, host, addr))
  {
    hide Holds;
    if all != [] && all[1..] == rest {
      assert forall i :: 0 <= i < |rest| ==> rest[i] == all[i + 1];
      assert forall i :: 0 < i < |all| ==> all[i] == rest[i - 1];
    }
  }

  /** Does the entry's flat form match? */
  ghost predicate LoweredMatches(env: Env, valid: Option<set<string>>, e: Entry, host: string, addr: Option<Addr>) {
    !R.NoneHolds(LowerEntry(env, valid, e), host, addr)
  }

  /** Exactly when lowering keeps an entry's meaning on a host: it always does, except that it makes
      torn entries match. */
  lemma LoweredExactly(env: Env, valid: Option<set<string>>, e: Entry, host: string, addr: Option<Addr>)
    ensures LoweredMatches(env, valid, e, host, addr)
      <==> (Applies(env, valid, e) && EntryMatches(env, e, host, addr)) || Torn(env, valid, e, host, addr)
  {
    hide Groups, Applies, EntryMatches, Torn, LowerEntry, WantsAll, AllWanted;
    if Routable(e, valid) {
      WantsAllIs(env, e);
      if AllWanted(e) {
        LoweredAll(env, valid, e, host, addr);
      } else {
        LoweredEach(env, valid, e, host, addr);
      }
    } else {
      NotRoutable(env, valid, e, host, addr);
    }
  }

  lemma NotRoutable(env: Env, valid: Option<set<string>>, e: Entry, host: string, addr: Option<Addr>)
    requires !Routable(e, valid)
    ensures !LoweredMatches(env, valid, e, host, addr) && !Applies(env, valid, e) && !Torn(env, valid, e, host, addr)
  {
    hide AllWanted, FieldUsable, FieldHolds, FieldFails;
  }

  lemma WantsAllIs(env: Env, e: Entry)
    requires e.Entry?
    ensures WantsAll(env, e) && Groups(env, e) != [] <==> AllWanted(e)
  {
    hide Lower, Strip, FieldGroups;
    EveryField();
    GroupCount(env, e.fields, FIELDS);
    FieldsPresent(e.fields);
  }

  lemma LoweredAll(env: Env, valid: Option<set<string>>, e: Entry, host: string, addr: Option<Addr>)
    requires Routable(e, valid) && AllWanted(e) && WantsAll(env, e) && Groups(env, e) != []
    ensures LoweredMatches(env, valid, e, host, addr) <==> Applies(env, valid, e) && EntryMatches(env, e, host, addr)
    ensures !Torn(env, valid, e, host, addr)
  {
    hide Holds, FieldGroups, Flatten, WantsAll, AllWanted, FieldUsable, FieldHolds, FieldFails, R.SomeHolds, SomeFails;
    var rule := R.AllOf(Groups(env, e), e.outbound.value, e.invert);
    GroupsMean(env, e, FIELDS, host, addr);
    EveryField();
    assert R.NoneHolds([rule], host, addr) <==> !R.RuleHolds([rule][0], host, addr);
  }

  lemma LoweredEach(env: Env, valid: Option<set<string>>, e: Entry, host: string, addr: Option<Addr>)
    requires Routable(e, valid) && !AllWanted(e) && !(WantsAll(env, e) && Groups(env, e) != [])
    ensures LoweredMatches(env, valid, e, host, addr)
       <==> (Applies(env, valid, e) && EntryMatches(env, e, host, addr)) || Torn(env, valid, e, host, addr)
  {
    hide Holds, FieldGroups, WantsAll, AllWanted, FieldUsable, FieldHolds, FieldFails, R.SomeHolds, SomeFails, R.NoneHolds, Each;
    var cs := Flatten(Groups(env, e));
    FlattenNone<Criterion>();
    EachMatches([], e.outbound.value, e.invert, host, addr);
    EachMatches(cs, e.outbound.value, e.invert, host, addr);
    NoCriteria(env, FDomain, host, addr);
    GroupsMean(env, e, FIELDS, host, addr);
    EveryField();
    NoRules(host, addr);
    HoldsOrFails(cs, host, addr);
  }

  lemma NoRules(host: string, addr: Option<Addr>)
    ensures R.NoneHolds([], host, addr)
  {}

  lemma HoldsOrFails(cs: seq<Criterion>, host: string, addr: Option<Addr>)
    ensures cs != [] <==> R.SomeHolds(cs, host, addr) || SomeFails(cs, host, addr)
  {
    hide Holds;
    if cs != [] {
      assert Holds(cs[0], host, addr) || !Holds(cs[0], host, addr);
    }
  }

  // ---- what becomes of the fields --------------------------------------------------------------

  lemma EveryField()
    ensures forall f: Field :: f in FIELDS
  {
    forall f: Field ensures f in FIELDS {
      match f
      case FDomain => assert FIELDS[0] == f;
      case FSuffix => assert FIELDS[1] == f;
      case FKeyword => assert FIELDS[2] == f;
      case FRegex => assert FIELDS[3] == f;
      case FCidr => assert FIELDS[4] == f;
      case FRuleSet => assert FIELDS[5] == f;
      case FGeoip => assert FIELDS[6] == f;
    }
  }

  /** The fields' criteria, whether put in groups or in a row, say of a host what the values do. */
  lemma {:induction false} GroupsMean(env: Env, e: Entry, order: seq<Field>, host: string, addr: Option<Addr>)
    requires e.Entry?
    ensures var groups := FieldGroups(env, e.fields, order);
            && (AllNonempty(groups) <==> forall f :: f in order && f in e.fields ==> FieldUsable(env, e, f))
            && ((forall g :: 0 <= g < |groups| ==> R.SomeHolds(groups[g], host, addr))
                <==> forall f :: f in order && f in e.fields ==> FieldHolds(env, e, f, host, addr))
            && (Flatten(groups) != [] <==> exists f :: f in order && FieldUsable(env, e, f))
            && (R.SomeHolds(Flatten(groups), host, addr) <==> exists f :: f in order && FieldHolds(env, e, f, host, addr))
            && (SomeFails(Flatten(groups), host, addr) <==> exists f :: f in order && FieldFails(env, e, f, host, addr))
    decreases |order|
  {
    hide Flatten, FieldUsable, FieldHolds, FieldFails, R.SomeHolds, SomeFails, Criteria;
    FlattenNone<Criterion>();
    NoCriteria(env, FDomain, host, addr);
    if order != [] {
      var f, rest := order[0], order[1..];
      var later := FieldGroups(env, e.fields, rest);
      GroupsMean(env, e, rest, host, addr);
      assert order == [f] + rest;
      NotPresent(env, e, f, host, addr);
      if f in e.fields {
        var cs := Criteria(env, f, e.fields[f]);
        FieldMeans(env, e, f, host, addr);
        FlattenCons(cs, later);
        AppendMeans(cs, Flatten(later), host, addr);
        GroupStep(cs, later, host, addr);
      } else {
        assert [] + later == later;
      }
    }
  }

  lemma NotPresent(env: Env, e: Entry, f: Field, host: string, addr: Option<Addr>)
    requires e.Entry?
    ensures f !in e.fields ==> !FieldUsable(env, e, f) && !FieldHolds(env, e, f, host, addr) && !FieldFails(env, e, f, host, addr)
  {}

  lemma FieldMeans(env: Env, e: Entry, f: Field, host: string, addr: Option<Addr>)
    requires e.Entry? && f in e.fields
    ensures var cs := Criteria(env, f, e.fields[f]);
            && (cs != [] <==> FieldUsable(env, e, f))
            && (R.SomeHolds(cs, host, addr) <==> FieldHolds(env, e, f, host, addr))
            && (SomeFails(cs, host, addr) <==> FieldFails(env, e, f, host, addr))
  {
    hide Criteria, R.SomeHolds, SomeFails, Usable, ValueHolds, ValueFails;
    CriteriaMean(env, f, e.fields[f], host, addr);
  }

  lemma AppendMeans(a: seq<Criterion>, b: seq<Criterion>, host: string, addr: Option<Addr>)
    ensures R.SomeHolds(a + b, host, addr) <==> R.SomeHolds(a, host, addr) || R.SomeHolds(b, host, addr)
    ensures SomeFails(a + b, host, addr) <==> SomeFails(a, host, addr) || SomeFails(b, host, addr)
  {
    hide Holds;
    assert forall i :: 0 <= i < |a| ==> a[i] == (a + b)[i];
    assert forall i :: 0 <= i < |b| ==> b[i] == (a + b)[|a| + i];
  }

  lemma GroupStep(cs: seq<Criterion>, later: seq<seq<Criterion>>, host: string, addr: Option<Addr>)
    ensures AllNonempty([cs] + later) <==> cs != [] && AllNonempty(later)
    ensures (forall g :: 0 <= g < |[cs] + later| ==> R.SomeHolds(([cs] + later)[g], host, addr))
       <==> R.SomeHolds(cs, host, addr) && forall g :: 0 <= g < |later| ==> R.SomeHolds(later[g], host, addr)
  {
    hide R.SomeHolds;
    var groups := [cs] + later;
    assert groups[0] == cs && forall g :: 0 <= g < |later| ==> groups[g + 1] == later[g];
    assert forall g :: 0 < g < |groups| ==> groups[g] == later[g - 1];
  }

  /** There is a group for each field present. */
  lemma {:induction false} GroupCount(env: Env, fields: map<Field, seq<string>>, order: seq<Field>)
    requires forall i, j :: 0 <= i < j < |order| ==> order[i] != order[j]
    ensures |FieldGroups(env, fields, order)| == |set f | f in order && f in fields|
    decreases |order|
  {
    hide Criteria;
    if order == [] {
      assert (set f | f in order && f in fields) == {};
    } else {
      GroupCount(env, fields, order[1..]);
      PresentStep(fields, order);
    }
  }

  lemma PresentStep(fields: map<Field, seq<string>>, order: seq<Field>)
    requires order != [] && forall i, j :: 0 <= i < j < |order| ==> order[i] != order[j]
    ensures var present := set f | f in order[1..] && f in fields;
            |set f | f in order && f in fields| == |present| + if order[0] in fields then 1 else 0
  {
    var rest := order[1..];
    var present := set f | f in rest && f in fields;
    assert order[0] !in rest;
    assert forall f :: f in order <==> f == order[0] || f in rest by {
      assert order == [order[0]] + rest;
    }
    if order[0] in fields {
      assert (set f | f in order && f in fields) == present + {order[0]};
    } else {
      assert (set f | f in order && f in fields) == present;
    }
  }

  lemma FieldsPresent(fields: map<Field, seq<string>>)
    requires forall f: Field :: f in FIELDS
    ensures |set f | f in FIELDS && f in fields| == |fields|
  {
    assert (set f | f in FIELDS && f in fields) == fields.Keys;
  }

  lemma EachMatches(cs: seq<Criterion>, action: string, invert: bool, host: string, addr: Option<Addr>)
    ensures !R.NoneHolds(Each(cs, action, invert), host, addr)
      <==> if invert then SomeFails(cs, host, addr) else R.SomeHolds(cs, host, addr)
    ensures cs != [] && !SomeFails(cs, host, addr) ==> R.SomeHolds(cs, host, addr)
  {
    hide Holds;
    var rules := Each(cs, action, invert);
    forall i | 0 <= i < |cs| ensures R.RuleHolds(rules[i], host, addr) <==> Holds(cs[i], host, addr) != invert {}
    if i :| 0 <= i < |cs| && Holds(cs[i], host, addr) {
      assert !invert ==> R.RuleHolds(rules[i], host, addr);
    }
    if i :| 0 <= i < |cs| && !Holds(cs[i], host, addr) {
      assert invert ==> R.RuleHolds(rules[i], host, addr);
    }
    if cs != [] {
      assert Holds(cs[0], host, addr) || !Holds(cs[0], host, addr);
    }
  }

  /** A flat list that matches gives the entry's outbound. */
  lemma {:induction false} SameActionWins(rules: seq<R.RuleSpec>, more: seq<R.RuleSpec>, action: string, default: string,
                                          host: string, addr: Option<Addr>)
    requires forall i :: 0 <= i < |rules| ==> rules[i].action == action
    requires !R.NoneHolds(rules, host, addr)
    ensures R.NaiveAction(rules + more, default, host, addr) == action
  {
    hide R.RuleHolds;
    assert (rules + more)[0] == rules[0] && (rules + more)[1..] == rules[1..] + more;
    if !R.RuleHolds(rules[0], host, addr) {
      var i :| 0 <= i < |rules| && R.RuleHolds(rules[i], host, addr);
      assert rules[1..][i - 1] == rules[i];
      SameActionWins(rules[1..], more, action, default, host, addr);
    }
  }

  ghost predicate NoneTorn(env: Env, valid: Option<set<string>>, entries: seq<Entry>, host: string, addr: Option<Addr>) {
    forall i :: 0 <= i < |entries| ==> !Torn(env, valid, entries[i], host, addr)
  }

  ghost predicate Decides(env: Env, valid: Option<set<string>>, e: Entry, host: string, addr: Option<Addr>) {
    Applies(env, valid, e) && EntryMatches(env, e, host, addr)
  }

  /** Entry i is torn, no entry before it matches or is torn, and the entries behind it give another outbound. */
  ghost predicate MisledAt(env: Env, valid: Option<set<string>>, entries: seq<Entry>, i: nat, default: string,
                           host: string, addr: Option<Addr>) {
    && i < |entries| && Torn(env, valid, entries[i], host, addr)
    && (forall j :: 0 <= j < i ==> !Decides(env, valid, entries[j], host, addr) && !Torn(env, valid, entries[j], host, addr))
    && entries[i].outbound.value != EntryAction(env, valid, entries[i + 1..], default, host, addr)
  }

  ghost predicate Misled(env: Env, valid: Option<set<string>>, entries: seq<Entry>, default: string,
                         host: string, addr: Option<Addr>) {
    exists i :: MisledAt(env, valid, entries, i, default, host, addr)
  }

  /** For every list of entries and every host, first match over the flat list differs from first match over
      the entries exactly when the first entry that matches or is torn is torn, and its outbound is not the
      one that the entries behind it give. */
  lemma {:induction false} LoweringDiffersExactly(env: Env, valid: Option<set<string>>, entries: seq<Entry>, default: string,
                                                  host: string, addr: Option<Addr>)
    ensures R.NaiveAction(LowerAll(env, valid, entries), default, host, addr)
         != EntryAction(env, valid, entries, default, host, addr)
       <==> Misled(env, valid, entries, default, host, addr)
    decreases |entries|
  {
    hide R.RuleHolds, R.NoneHolds, LowerEntry, Torn, Applies, EntryMatches, MisledAt;
    if entries == [] {
      forall i ensures !MisledAt(env, valid, [], i, default, host, addr) {
        NotPast(env, valid, [], i, default, host, addr);
      }
    } else {
      var first, rest := entries[0], entries[1..];
      var rules, more := LowerEntry(env, valid, first), LowerAll(env, valid, rest);
      LoweredExactly(env, valid, first, host, addr);
      LoweringDiffersExactly(env, valid, rest, default, host, addr);
      assert entries == [first] + rest;
      if R.NoneHolds(rules, host, addr) {
        R.NaiveActionSkips(rules, more, default, host, addr);
        MisledLater(env, valid, first, rest, default, host, addr);
      } else {
        LoweredActions(env, valid, first);
        AppliesIsRoutable(env, valid, first);
        TornIsPassed(env, valid, first, host, addr);
        SameActionWins(rules, more, first.outbound.value, default, host, addr);
        MisledFirst(env, valid, first, rest, default, host, addr);
      }
    }
  }

  lemma NotPast(env: Env, valid: Option<set<string>>, entries: seq<Entry>, i: nat, default: string,
                host: string, addr: Option<Addr>)
    requires i >= |entries|
    ensures !MisledAt(env, valid, entries, i, default, host, addr)
  {}

  /** A torn entry takes part and does not match. */
  lemma TornIsPassed(env: Env, valid: Option<set<string>>, e: Entry, host: string, addr: Option<Addr>)
    ensures Torn(env, valid, e, host, addr) ==> Applies(env, valid, e) && !Decides(env, valid, e, host, addr)
  {
    hide Groups, Flatten, Holds, R.SomeHolds;
  }

  /** Behind an entry that neither matches nor is torn. */
  lemma MisledLater(env: Env, valid: Option<set<string>>, first: Entry, rest: seq<Entry>, default: string,
                    host: string, addr: Option<Addr>)
    requires !Decides(env, valid, first, host, addr) && !Torn(env, valid, first, host, addr)
    ensures Misled(env, valid, [first] + rest, default, host, addr) <==> Misled(env, valid, rest, default, host, addr)
  {
    hide Torn, Decides, EntryAction;
    var all := [first] + rest;
    forall i: nat ensures MisledAt(env, valid, all, i + 1, default, host, addr) <==> MisledAt(env, valid, rest, i, default, host, addr) {
      if i < |rest| {
        assert all[i + 1] == rest[i] && all[i + 2..] == rest[i + 1..];
        assert forall j :: 0 < j <= i ==> all[j] == rest[j - 1];
        assert forall j :: 0 <= j < i ==> rest[j] == all[j + 1];
      }
    }
    if Misled(env, valid, all, default, host, addr) {
      var i: nat :| MisledAt(env, valid, all, i, default, host, addr);
      assert all[0] == first;
      assert MisledAt(env, valid, rest, i - 1, default, host, addr);
    }
    if Misled(env, valid, rest, default, host, addr) {
      var i: nat :| MisledAt(env, valid, rest, i, default, host, addr);
      assert MisledAt(env, valid, all, i + 1, default, host, addr);
    }
  }

  /** From an entry on that matches or is torn. */
  lemma MisledFirst(env: Env, valid: Option<set<string>>, first: Entry, rest: seq<Entry>, default: string,
                    host: string, addr: Option<Addr>)
    requires Decides(env, valid, first, host, addr) || Torn(env, valid, first, host, addr)
    requires first.Entry? && first.outbound.Some?
    ensures Misled(env, valid, [first] + rest, default, host, addr)
       <==> Torn(env, valid, first, host, addr)
            && first.outbound.value != EntryAction(env, valid, rest, default, host, addr)
  {
    hide Torn, Decides, EntryAction;
    var all := [first] + rest;
    assert all[0] == first && all[1..] == rest;
    if Torn(env, valid, first, host, addr) && first.outbound.value != EntryAction(env, valid, rest, default, host, addr) {
      assert MisledAt(env, valid, all, 0, default, host, addr);
    }
  }

  /** So lowering preserves meaning on every host on which no entry is torn. */
  lemma LoweringPreserves(env: Env, valid: Option<set<string>>, entries: seq<Entry>, default: string,
                          host: string, addr: Option<Addr>)
    requires NoneTorn(env, valid, entries, host, addr)
    ensures R.NaiveAction(LowerAll(env, valid, entries), default, host, addr)
         == EntryAction(env, valid, entries, default, host, addr)
  {
    hide Torn, Decides, EntryAction, R.NaiveAction, LowerAll;
    LoweringDiffersExactly(env, valid, entries, default, host, addr);
  }

  lemma AppliesIsRoutable(env: Env, valid: Option<set<string>>, e: Entry)
    ensures Applies(env, valid, e) ==> e.Entry? && e.outbound.Some?
  {}

  lemma LoweredActions(env: Env, valid: Option<set<string>>, e: Entry)
    ensures LowerEntry(env, valid, e) != [] ==> e.Entry? && e.outbound.Some?
    ensures forall i :: 0 <= i < |LowerEntry(env, valid, e)| ==>
              LowerEntry(env, valid, e)[i].action == e.outbound.value
  {}

  /** Entries that are not inverted, have a single value, or ask for all their fields are never torn, on
      any host. */
  lemma NeverTorn(env: Env, valid: Option<set<string>>, e: Entry, host: string, addr: Option<Addr>)
    requires e.Entry? ==> !e.invert || AllWanted(e) || exists f :: e.fields.Keys == {f} && |e.fields[f]| == 1
    ensures !Torn(env, valid, e, host, addr)
  {
    hide Strip, Taken, Means;
  }

  /** Inverting two domains is read as "not a, or not b": host a then matches, though it is one of
      the domains that the entry is documented to exclude. */
  lemma InvertedPairIsTorn(env: Env)
    ensures var e := Entry(Some("out"), true, "or", map[FDomain := ["a", "b"]]);
            && Applies(env, None, e)
            && !EntryMatches(env, e, "a", None) && LoweredMatches(env, None, e, "a", None)
  {
    var e := Entry(Some("out"), true, "or", map[FDomain := ["a", "b"]]);
    PairTexts();
    hide Strip, Lower, LoweredMatches, Applies, EntryMatches, Torn;
    PairTorn(env, e, "a", None);
    LoweredExactly(env, None, e, "a", None);
  }

  lemma PairTorn(env: Env, e: Entry, host: string, addr: Option<Addr>)
    requires e.Entry? && e.invert && e.outbound.Some? && e.outbound.value != ""
    requires e.fields.Keys == {FDomain} && |e.fields[FDomain]| == 2
    requires ValueHolds(env, FDomain, e.fields[FDomain][0], host, addr) && ValueFails(env, FDomain, e.fields[FDomain][1], host, addr)
    ensures Applies(env, None, e) && Torn(env, None, e, host, addr) && !EntryMatches(env, e, host, addr)
  {
    hide FieldHolds, FieldFails, FieldUsable, AllWanted;
    PairFields(env, e, host, addr);
    OneField(e);
    NotMet(env, e, FDomain, host, addr);
  }

  lemma PairTexts()
    ensures Strip("a") == "a" && Strip("b") == "b" && Lower("a") == "a" && Lower("b") != "a"
  {
    assert Lower("b")[0] == 'b';
  }

  lemma OneField(e: Entry)
    requires e.Entry? && e.fields.Keys == {FDomain}
    ensures !AllWanted(e)
  {
    assert |e.fields| == |e.fields.Keys|;
  }

  lemma NotMet(env: Env, e: Entry, f: Field, host: string, addr: Option<Addr>)
    requires e.Entry? && e.invert && !AllWanted(e) && FieldHolds(env, e, f, host, addr)
    ensures !EntryMatches(env, e, host, addr)
  {
    hide FieldHolds;
  }

  lemma PairFields(env: Env, e: Entry, host: string, addr: Option<Addr>)
    requires e.Entry? && FDomain in e.fields && |e.fields[FDomain]| == 2
    requires ValueHolds(env, FDomain, e.fields[FDomain][0], host, addr) && ValueFails(env, FDomain, e.fields[FDomain][1], host, addr)
    ensures FieldHolds(env, e, FDomain, host, addr) && FieldFails(env, e, FDomain, host, addr) && FieldUsable(env, e, FDomain)
  {
    hide Strip, Taken, Means;
  }

  // ---- the loops -------------------------------------------------------------------------------

  /** A rule together with what it was compiled from. */
  ghost predicate CompiledFrom(rules: seq<R.Rule>, cs: seq<Criterion>, action: string, invert: bool) {
    |rules| == |cs| &&
    forall i :: 0 <= i < |rules| ==> R.RuleMadeFrom(rules[i], R.OneOf(cs[i], action, invert))
  }

  /** `_make_rule`: None for a value that cannot be used. */
  method MakeRule(env: Env, field: Field, value: string, action: string, invert: bool) returns (r: Option<R.Rule>)
    requires env.Valid()
    ensures r.Some? == MakeCriterion(env, field, value).Some? && (r.Some? <==> Taken(env, field, value))
    ensures r.Some? ==> R.RuleMadeFrom(r.value, R.OneOf(MakeCriterion(env, field, value).value, action, invert))
  {
    hide MadeFrom, MakeCriterion, Taken;
    var c := MakeCriterion(env, field, value);
    CriterionMeans(env, field, value, "", None);
    if c.None? {
      return None;
    }
    var m := R.Compile(c.value, env.bloom, if c.value.DomainRegex? then env.engine(c.value.ops) else (s => false));
    r := Some(R.Simple(m, action, invert));
  }

  /** `_expand_field`: one rule for each usable value. */
  method ExpandField(env: Env, field: Field, values: seq<string>, action: string, invert: bool)
    returns (rules: seq<R.Rule>)
    requires env.Valid()
    ensures CompiledFrom(rules, Criteria(env, field, values), action, invert)
  {
    hide R.RuleMadeFrom, Strip, MakeCriterion, Criteria;
    rules := [];
    ghost var done: seq<Criterion>, all := [], Criteria(env, field, values);
    assert values[0..] == values && done + all == all;
    for i := 0 to |values|
      invariant done + Criteria(env, field, values[i..]) == all
      invariant CompiledFrom(rules, done, action, invert)
    {
      ghost var later := Criteria(env, field, values[i + 1..]);
      CriteriaStep(env, field, values, i);
      var v := Strip(values[i]);
      if v != "" {
        var r := MakeRule(env, field, v, action, invert);
        if r.Some? {
          ghost var c := MakeCriterion(env, field, v).value;
          Assoc(done, [c], later);
          rules := rules + [r.value];
          done := done + [c];
        }
      }
    }
    assert values[|values|..] == [];
    CriteriaNone(env, field);
    assert done + [] == done;
  }

  lemma CriteriaNone(env: Env, field: Field)
    ensures Criteria(env, field, []) == []
  {
  }

  lemma CriteriaStep(env: Env, field: Field, values: seq<string>, i: nat)
    requires i < |values|
    ensures var v, later := Strip(values[i]), Criteria(env, field, values[i + 1..]);
            Criteria(env, field, values[i..])
              == if v != "" && MakeCriterion(env, field, v).Some? then [MakeCriterion(env, field, v).value] + later else later
  {
    hide Strip, MakeCriterion;
    assert values[i..][0] == values[i] && values[i..][1..] == values[i + 1..];
  }

  method AddEach(router: R.Router, rules: seq<R.Rule>, ghost cs: seq<Criterion>, ghost action: string, ghost invert: bool)
    requires router.Valid() && CompiledFrom(rules, cs, action, invert)
    modifies router
    ensures router.Valid() && router.specs == old(router.specs) + Each(cs, action, invert)
    ensures router.default == old(router.default)
  {
    hide R.RuleMadeFrom;
    ghost var specs := Each(cs, action, invert);
    for i := 0 to |rules|
      invariant router.Valid() && router.specs == old(router.specs) + specs[..i]
      invariant router.default == old(router.default)
    {
      router.Add(rules[i], specs[i]);
      assert specs[..i + 1] == specs[..i] + [specs[i]];
    }
    assert specs[..|rules|] == specs;
  }

  ghost predicate GroupsCompiled(rules: seq<seq<R.Rule>>, groups: seq<seq<Criterion>>, action: string, invert: bool) {
    |rules| == |groups| && forall g :: 0 <= g < |rules| ==> CompiledFrom(rules[g], groups[g], action, invert)
  }

  /** The rules of each field present, in order. */
  method ExpandFields(env: Env, e: Entry, action: string, invert: bool) returns (rules: seq<seq<R.Rule>>)
    requires env.Valid() && e.Entry?
    ensures GroupsCompiled(rules, Groups(env, e), action, invert)
  {
    hide CompiledFrom, Criteria;
    rules := [];
    ghost var done: seq<seq<Criterion>>, all := [], Groups(env, e);
    assert FIELDS[0..] == FIELDS && done + all == all;
    for i := 0 to |FIELDS|
      invariant done + FieldGroups(env, e.fields, FIELDS[i..]) == all
      invariant GroupsCompiled(rules, done, action, invert)
    {
      assert FIELDS[i..][0] == FIELDS[i] && FIELDS[i..][1..] == FIELDS[i + 1..];
      ghost var later := FieldGroups(env, e.fields, FIELDS[i + 1..]);
      if FIELDS[i] in e.fields {
        var group := ExpandField(env, FIELDS[i], e.fields[FIELDS[i]], action, invert);
        ghost var cs := Criteria(env, FIELDS[i], e.fields[FIELDS[i]]);
        Assoc(done, [cs], later);
        rules := rules + [group];
        done := done + [cs];
      } else {
        assert [] + later == later;
      }
    }
    assert done + [] == done;
  }

  /** One entry of `_apply_structured_rules`. */
  method ApplyEntry(router: R.Router, env: Env, valid: Option<set<string>>, e: Entry)
    requires env.Valid() && router.Valid()
    modifies router
    ensures router.Valid() && router.specs == old(router.specs) + LowerEntry(env, valid, e)
    ensures router.default == old(router.default)
  {
    hide CompiledFrom, Groups, Lower, Strip, R.RuleMadeFrom;
    if !Routable(e, valid) {
      assert router.specs + [] == router.specs;
      return;
    }
    var action := e.outbound.value;
    if WantsAll(env, e) {
      var rules := ExpandFields(env, e, action, false);
      ghost var groups := Groups(env, e);
      GroupSizes(rules, groups, action, false);
      if rules != [] && forall g :: 0 <= g < |rules| ==> rules[g] != [] {
        var compound := R.Compound(Matchers(rules), action, e.invert);
        CompoundMadeFrom(rules, groups, action, e.invert);
        router.Add(compound, R.AllOf(groups, action, e.invert));
      } else {
        assert router.specs + [] == router.specs;
      }
    } else {
      var rules := ExpandFields(env, e, action, e.invert);
      AddGroups(router, rules, Groups(env, e), action, e.invert);
    }
  }

  function RulesMatcher(r: R.Rule): Matcher {
    if r.Simple? then r.m else MDomain("")
  }

  function Matchers(rules: seq<seq<R.Rule>>): seq<seq<Matcher>> {
    seq(|rules|, g requires 0 <= g < |rules| =>
      seq(|rules[g]|, i requires 0 <= i < |rules[g]| => RulesMatcher(rules[g][i])))
  }

  lemma GroupSizes(rules: seq<seq<R.Rule>>, groups: seq<seq<Criterion>>, action: string, invert: bool)
    requires GroupsCompiled(rules, groups, action, invert)
    ensures (forall g :: 0 <= g < |rules| ==> rules[g] != []) <==> AllNonempty(groups)
  {
    hide R.RuleMadeFrom;
    assert forall g :: 0 <= g < |rules| ==> CompiledFrom(rules[g], groups[g], action, invert);
    assert forall g :: 0 <= g < |rules| ==> |rules[g]| == |groups[g]|;
  }

  lemma CompoundMadeFrom(rules: seq<seq<R.Rule>>, groups: seq<seq<Criterion>>, action: string, invert: bool)
    requires GroupsCompiled(rules, groups, action, false)
    ensures R.RuleMadeFrom(R.Compound(Matchers(rules), action, invert), R.AllOf(groups, action, invert))
  {
    hide MadeFrom;
    forall g | 0 <= g < |rules| ensures R.GroupMadeFrom(Matchers(rules)[g], groups[g]) {
      assert CompiledFrom(rules[g], groups[g], action, false);
    }
  }

  method AddGroups(router: R.Router, rules: seq<seq<R.Rule>>, ghost groups: seq<seq<Criterion>>, action: string, invert: bool)
    requires router.Valid() && GroupsCompiled(rules, groups, action, invert)
    modifies router
    ensures router.Valid() && router.specs == old(router.specs) + Each(Flatten(groups), action, invert)
    ensures router.default == old(router.default)
  {
    hide CompiledFrom, R.RuleMadeFrom, Each, Flatten;
    assert groups[..0] == [];
    FlattenNone<Criterion>();
    EachNone(action, invert);
    for g := 0 to |rules|
      invariant router.Valid() && router.specs == old(router.specs) + Each(Flatten(groups[..g]), action, invert)
      invariant router.default == old(router.default)
    {
      AddEach(router, rules[g], groups[g], action, invert);
      FlattenSnoc(groups[..g], groups[g]);
      assert groups[..g + 1] == groups[..g] + [groups[g]];
      EachAppend(Flatten(groups[..g]), groups[g], action, invert);
    }
    assert groups[..|rules|] == groups;
  }

  lemma EachNone(action: string, invert: bool)
    ensures Each([], action, invert) == []
  {
  }

  lemma EachAppend(a: seq<Criterion>, b: seq<Criterion>, action: string, invert: bool)
    ensures Each(a + b, action, invert) == Each(a, action, invert) + Each(b, action, invert)
  {}

  /** `_apply_structured_rules`. */
  method ApplyStructuredRules(router: R.Router, env: Env, valid: Option<set<string>>, entries: seq<Entry>)
    requires env.Valid() && router.Valid()
    modifies router
    ensures router.Valid() && router.specs == old(router.specs) + LowerAll(env, valid, entries)
    ensures router.default == old(router.default)
  {
    hide LowerEntry;
    ghost var all := old(router.specs) + LowerAll(env, valid, entries);
    assert entries[0..] == entries;
    for i := 0 to |entries|
      invariant router.Valid() && router.specs + LowerAll(env, valid, entries[i..]) == all
      invariant router.default == old(router.default)
    {
      assert entries[i..][0] == entries[i] && entries[i..][1..] == entries[i + 1..];
      ghost var before := router.specs;
      ApplyEntry(router, env, valid, entries[i]);
      ghost var now, later := LowerEntry(env, valid, entries[i]), LowerAll(env, valid, entries[i + 1..]);
      Assoc(before, now, later);
    }
    assert router.specs + [] == router.specs;
  }

  // ---- the factory -----------------------------------------------------------------------------

  /** The structured part of a configuration: the rules, `default` and `final` (empty if not given),
      and the outbound that the old PROXY keyword maps to, if there is such a map. */
  datatype RouteConfig = RouteConfig(entries: seq<Entry>, default: string, final: string, legacyProxy: Option<string>)

  /** `default` over `final` over the initial action. */
  function DefaultAction(cfg: RouteConfig): string {
    if cfg.default != "" then cfg.default
    else if cfg.final != "" then cfg.final
    else if cfg.legacyProxy.Some? then cfg.legacyProxy.value
    else "direct"
  }

  /** `build_router` for structured rules: the router built decides as the entries mean, else as the default
      says, on exactly the hosts on which a torn entry does not mislead it. */
  method BuildRouter(cfg: RouteConfig, env: Env, valid: Option<set<string>>) returns (router: R.Router)
    requires env.Valid()
    ensures fresh(router) && router.Valid() && router.default == DefaultAction(cfg)
    ensures forall host, addr ::
      R.NaiveAction(router.specs, router.default, host, addr) == EntryAction(env, valid, cfg.entries, DefaultAction(cfg), host, addr)
      <==> !Misled(env, valid, cfg.entries, DefaultAction(cfg), host, addr)
  {
    hide Misled, LowerAll, R.NaiveAction, EntryAction;
    router := new R.Router(if cfg.legacyProxy.Some? then cfg.legacyProxy.value else "direct");
    var action := if cfg.default != "" then cfg.default else cfg.final;
    if action != "" {
      router.SetDefault(action);
    }
    ApplyStructuredRules(router, env, valid, cfg.entries);
    assert router.specs == LowerAll(env, valid, cfg.entries);
    forall host, addr
      ensures R.NaiveAction(router.specs, router.default, host, addr) == EntryAction(env, valid, cfg.entries, DefaultAction(cfg), host, addr)
         <==> !Misled(env, valid, cfg.entries, DefaultAction(cfg), host, addr)
    {
      LoweringDiffersExactly(env, valid, cfg.entries, router.default, host, addr);
    }
  }
}
