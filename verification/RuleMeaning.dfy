/** What configured routing entries mean, value by value, before any rule is made of them. */
module RuleMeaning {
  import opened Basics
  import opened Text
  import opened Regex
  import opened Rules
  import R = Router

  datatype Field = FDomain | FSuffix | FKeyword | FRegex | FCidr | FRuleSet | FGeoip

  /** The order in which an entry's fields are looked at. */
  const FIELDS := [FDomain, FSuffix, FKeyword, FRegex, FCidr, FRuleSet, FGeoip]

  /** One JSON entry: the outbound if it is a string, the mode as written, and the values of each
      criterion field present (a scalar is a list of one). */
  datatype Entry =
    | NotAnObject
    | Entry(outbound: Option<string>, invert: bool, mode: string, fields: map<Field, seq<string>>)

  /** An entry of a geosite list: its type's number and its value. */
  type ListedDomain = (nat, string)

  /** What the lowering looks up: parsers of other libraries, and the loaded geo data. */
  datatype Env = Env(
    parseRegex: string -> Option<seq<Op>>,
    engine: seq<Op> -> (string -> bool),
    parseCidr: string -> Option<Net>,
    sites: map<string, map<string, seq<ListedDomain>>>,
    ips: map<string, map<string, (seq<Net>, bool)>>,
    defaultSite: string,
    defaultIp: string,
    bloom: R.BloomParams)
  {
    ghost predicate Valid() {
      bloom.Valid() && forall ops: seq<Op>, s: string :: engine(ops)(s) <==> Search(ops, s)
    }
  }

  // ---- one value -----------------------------------------------------------------------------

  /** A value `source:name`, the source being what stands before the first colon; without one, the default. */
  ghost predicate Refers(value: string, default: string, source: string, name: string) {
    (':' !in value && source == default && name == value) || (':' !in source && value == source + (":" + name))
  }

  ghost predicate HasList<T>(lists: map<string, map<string, T>>, source: string, name: string) {
    source != "" && source in lists && Upper(name) in lists[source]
  }

  /** Can anything be made of the (stripped) value? */
  ghost predicate Taken(env: Env, field: Field, v: string) {
    match field
    case FRegex => env.parseRegex(v).Some?
    case FCidr => env.parseCidr(v).Some?
    case FRuleSet => exists source, name :: Refers(v, env.defaultSite, source, name) && HasList(env.sites, source, name)
    case FGeoip => exists source, name :: Refers(v, env.defaultIp, source, name) && HasList(env.ips, source, name)
    case _ => true
  }

  ghost predicate Below(host: string, domain: string) {
    exists a: string :: host == a + ("." + domain)
  }

  ghost predicate Within(host: string, word: string) {
    exists a: string, b: string :: host == a + (word + b)
  }

  /** A name without the dots it begins with. */
  ghost predicate Bare(name: string, d: string) {
    exists dots: string :: name == dots + d && (forall i :: 0 <= i < |dots| ==> dots[i] == '.') && (d == "" || d[0] != '.')
  }

  ghost predicate ListedHolds(d: ListedDomain, host: string) {
    || (d.0 == 3 && host == Lower(d.1))
    || (d.0 == 2 && Below(host, Lower(d.1)))
    || (d.0 == 0 && Within(host, Lower(d.1)))
  }

  ghost predicate Listed(list: seq<ListedDomain>, host: string) {
    exists i :: 0 <= i < |list| && ListedHolds(list[i], host)
  }

  /** Does the (stripped) value hold of the host? */
  ghost predicate Means(env: Env, field: Field, v: string, host: string, addr: Option<Addr>) {
    match field
    case FDomain => host == Lower(v)
    case FSuffix => exists d :: Bare(Lower(v), d) && (host == d || Below(host, d))
    case FKeyword => Within(host, Lower(v))
    case FRegex => env.parseRegex(v).Some? && Search(env.parseRegex(v).value, host)
    case FCidr => env.parseCidr(v).Some? && addr.Some? && InNet(addr.value, env.parseCidr(v).value)
    case FRuleSet =>
      exists source, name :: Refers(v, env.defaultSite, source, name) && HasList(env.sites, source, name)
                             && Listed(env.sites[source][Upper(name)], host)
    case FGeoip =>
      exists source, name :: Refers(v, env.defaultIp, source, name) && HasList(env.ips, source, name)
                             && addr.Some? && InSome(addr.value, env.ips[source][Upper(name)].0) != env.ips[source][Upper(name)].1
  }

  /** As written in the entry: blanks around a value do not count, and a value of blanks is none. */
  ghost predicate Usable(env: Env, field: Field, value: string) {
    Strip(value) != "" && Taken(env, field, Strip(value))
  }

  ghost predicate ValueHolds(env: Env, field: Field, value: string, host: string, addr: Option<Addr>) {
    Usable(env, field, value) && Means(env, field, Strip(value), host, addr)
  }

  ghost predicate ValueFails(env: Env, field: Field, value: string, host: string, addr: Option<Addr>) {
    Usable(env, field, value) && !Means(env, field, Strip(value), host, addr)
  }

  // ---- one entry -----------------------------------------------------------------------------

  ghost predicate FieldUsable(env: Env, e: Entry, f: Field)
    requires e.Entry?
  {
    f in e.fields && exists i :: 0 <= i < |e.fields[f]| && Usable(env, f, e.fields[f][i])
  }

  ghost predicate FieldHolds(env: Env, e: Entry, f: Field, host: string, addr: Option<Addr>)
    requires e.Entry?
  {
    f in e.fields && exists i :: 0 <= i < |e.fields[f]| && ValueHolds(env, f, e.fields[f][i], host, addr)
  }

  ghost predicate FieldFails(env: Env, e: Entry, f: Field, host: string, addr: Option<Addr>)
    requires e.Entry?
  {
    f in e.fields && exists i :: 0 <= i < |e.fields[f]| && ValueFails(env, f, e.fields[f][i], host, addr)
  }

  /** Only entries with several fields can ask for all of them. */
  ghost predicate AllWanted(e: Entry)
    requires e.Entry?
  {
    |e.fields| > 1 && Lower(Strip(e.mode)) == "and"
  }

  /** Does the entry take part at all? It needs an outbound that there is. In OR mode one usable value is then
      enough; in AND mode each field must have one. */
  ghost predicate Applies(env: Env, valid: Option<set<string>>, e: Entry) {
    && e.Entry? && e.outbound.Some? && |e.outbound.value| > 0 && (valid == None || e.outbound.value in valid.value)
    && if AllWanted(e) then forall f :: f in e.fields ==> FieldUsable(env, e, f) else exists f :: FieldUsable(env, e, f)
  }

  /** The entry's criteria, OR within a field, OR or AND between fields. */
  ghost predicate Meets(env: Env, e: Entry, host: string, addr: Option<Addr>)
    requires e.Entry?
  {
    if AllWanted(e) then forall f :: f in e.fields ==> FieldHolds(env, e, f, host, addr)
    else exists f :: FieldHolds(env, e, f, host, addr)
  }

  /** As documented: `invert` negates the whole entry. */
  ghost predicate EntryMatches(env: Env, e: Entry, host: string, addr: Option<Addr>)
    requires e.Entry?
  {
    Meets(env, e, host, addr) != e.invert
  }

  /** The outbound of the first entry that takes part and matches, else the default. */
  ghost function EntryAction(env: Env, valid: Option<set<string>>, entries: seq<Entry>, default: string,
                             host: string, addr: Option<Addr>): string
  {
    if entries == [] then default
    else if Applies(env, valid, entries[0]) && EntryMatches(env, entries[0], host, addr) then entries[0].outbound.value
    else EntryAction(env, valid, entries[1..], default, host, addr)
  }

  /** An inverted entry in OR mode some of whose values hold while others do not: each value is
      inverted by itself, so the entry matches where its documentation says it does not. */
  ghost predicate Torn(env: Env, valid: Option<set<string>>, e: Entry, host: string, addr: Option<Addr>) {
    && Applies(env, valid, e) && e.invert && !AllWanted(e)
    && (exists f :: FieldHolds(env, e, f, host, addr)) && (exists f :: FieldFails(env, e, f, host, addr))
  }
}
