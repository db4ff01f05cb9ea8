/**
 * The `api` provider of the older `dns_record` type. It reads every managed
 * domain's entries into records keyed `fqdn/type`, finds a resource's domain
 * with a greedy regular expression, and on flush writes back the domain's
 * entry list with this resource's key rewritten.
 */
module DnsRecordProvider {
  import opened Wrappers
  import opened Dns
  import Text
  import Seqs
  import TransipClient
  import TransipDnsEntryProvider

  /**
   * The three calls this provider makes on `Transip::Client`: the account's
   * domain names, one domain's entries, and replacing one domain's entries.
   * Each rescues any failure and raises a Puppet::Error of its own.
   */
  class Backend {
    /** Every call fails. */
    var failing: bool
    var names: seq<string>
    var zones: map<string, seq<Entry>>

    constructor(failing: bool, names: seq<string>, zones: map<string, seq<Entry>>)
      ensures this.failing == failing && this.names == names && this.zones == zones
    {
      this.failing := failing;
      this.names := names;
      this.zones := zones;
    }

    /** `self.domain_names`. */
    method DomainNames() returns (r: Result<seq<string>, string>)
      ensures r == if failing then Err(TransipClient.NamesError) else Ok(names)
    {
      if failing {
        return Err(TransipClient.NamesError);
      }
      r := Ok(names);
    }

    /** `self.get_entries(domain)`: an unknown domain fails like any other call. */
    method GetEntries(domain: string) returns (r: Result<seq<Entry>, string>)
      ensures r == if failing || domain !in zones then Err(TransipClient.EntriesError(domain)) else Ok(zones[domain])
    {
      if failing || domain !in zones {
        return Err(TransipClient.EntriesError(domain));
      }
      r := Ok(zones[domain]);
    }

    /** `self.set_entries(domain, entries)`: the domain's whole entry list is replaced. */
    method SetEntries(domain: string, entries: seq<Entry>) returns (r: Result<(), string>)
      modifies this
      ensures r == if old(failing) || domain !in old(zones) then Err(TransipClient.SetEntriesError(domain)) else Ok(())
      ensures zones == if r.Ok? then old(zones)[domain := entries] else old(zones)
      ensures failing == old(failing) && names == old(names)
    {
      if failing || domain !in zones {
        return Err(TransipClient.SetEntriesError(domain));
      }
      zones := zones[domain := entries];
      r := Ok(());
    }
  }

  // ------------------------------------------------------------------
  // Reading: self.entries
  // ------------------------------------------------------------------

  /**
   * The members `self.entries` visits: each domain's entries in turn, in
   * order. Reading stops at the first domain whose entries cannot be read.
   */
  function Gathered(names: seq<string>, zones: map<string, seq<Entry>>): (r: Result<seq<Instance>, string>)
    ensures r.Ok? <==> forall i :: 0 <= i < |names| ==> names[i] in zones
    ensures r.Err? ==> exists i :: 0 <= i < |names| && names[i] !in zones && r.error == TransipClient.EntriesError(names[i])
                                   && forall j :: 0 <= j < i ==> names[j] in zones
  {
    if names == [] then Ok([])
    else
      var n := |names| - 1;
      var pre := Gathered(names[..n], zones);
      assert forall i :: 0 <= i < n ==> names[..n][i] == names[i];
      if pre.Err? then pre
      else if names[n] !in zones then Err(TransipClient.EntriesError(names[n]))
      else Ok(pre.value + ToInstances(zones[names[n]], names[n]))
  }

  /** The number of entries stored for the given domains. */
  function EntryTotal(names: seq<string>, zones: map<string, seq<Entry>>): nat
    requires forall i :: 0 <= i < |names| ==> names[i] in zones
  {
    if names == [] then 0
    else
      var n := |names| - 1;
      assert forall i :: 0 <= i < n ==> names[..n][i] == names[i];
      EntryTotal(names[..n], zones) + |zones[names[n]]|
  }

  /** What `self.entries` answers: first-member grouping of every domain's entries together. */
  function RecordsAnswer(failing: bool, names: seq<string>, zones: map<string, seq<Entry>>): Result<seq<Record>, string>
  {
    if failing then Err(TransipClient.NamesError)
    else
      var g := Gathered(names, zones);
      if g.Err? then Err(g.error) else Ok(Collapse(g.value, FirstMember))
  }

  /**
   * Against a backend whose calls all raise, which is the provider as
   * shipped, `entries` answers the domain-names error whatever the account holds.
   */
  lemma FailingBackendAnswersNamesError(names: seq<string>, zones: map<string, seq<Entry>>)
    ensures RecordsAnswer(true, names, zones) == Err(TransipClient.NamesError)
    ensures TransipClient.NamesError == "Unable to get domain names"
  {
  }

  lemma {:induction false} GatheredCount(names: seq<string>, zones: map<string, seq<Entry>>)
    requires forall i :: 0 <= i < |names| ==> names[i] in zones
    ensures Gathered(names, zones).Ok? && |Gathered(names, zones).value| == EntryTotal(names, zones)
  {
    if names != [] {
      var n := |names| - 1;
      GatheredCount(names[..n], zones);
    }
  }

  /** Grouping loses no entry: the records hold as many content values as the domains hold entries. */
  lemma RecordsKeepEveryEntry(names: seq<string>, zones: map<string, seq<Entry>>)
    requires forall i :: 0 <= i < |names| ==> names[i] in zones
    ensures var r := RecordsAnswer(false, names, zones);
      r.Ok? && TotalContent(r.value) == EntryTotal(names, zones)
  {
    GatheredCount(names, zones);
    CollapseKeepsEveryContent(Gathered(names, zones).value, FirstMember);
  }

  lemma GatheredStep(names: seq<string>, zones: map<string, seq<Entry>>, k: nat)
    requires k < |names| && Gathered(names[..k], zones).Ok?
    ensures names[k] !in zones ==> Gathered(names[..k + 1], zones) == Err(TransipClient.EntriesError(names[k]))
    ensures names[k] in zones ==>
      Gathered(names[..k + 1], zones) == Ok(Gathered(names[..k], zones).value + ToInstances(zones[names[k]], names[k]))
  {
    assert names[..k + 1][..k] == names[..k];
  }

  /** After the first domain that cannot be read, reading more domains keeps that error. */
  lemma {:induction false} GatheredStopsAt(names: seq<string>, zones: map<string, seq<Entry>>, k: nat, m: nat)
    requires k < m <= |names| && Gathered(names[..k], zones).Ok? && names[k] !in zones
    ensures Gathered(names[..m], zones) == Err(TransipClient.EntriesError(names[k]))
  {
    if m == k + 1 {
      GatheredStep(names, zones, k);
    } else {
      GatheredStopsAt(names, zones, k, m - 1);
      assert names[..m][..m - 1] == names[..m - 1];
    }
  }

  /**
   * `r.find { |f| f[:name] == name }` then `i[:content] << content`, or a new
   * record `{name, fqdn, content: [content], type, ttl}`.
   */
  function FindOrAdd(rs: seq<Record>, x: Instance): seq<Record>
  {
    if x.name in RecordNames(rs) then
      var j := Seqs.FirstIndex(RecordNames(rs), x.name);
      rs[j := rs[j].(content := rs[j].content + [x.content])]
    else rs + [Record(x.name, x.fqdn, [x.content], x.rtype, x.expire)]
  }

  /** One find-or-add step is one step of the first-member grouping. */
  lemma AddMember(xs: seq<Instance>, x: Instance)
    ensures Collapse(xs + [x], FirstMember) == FindOrAdd(Collapse(xs, FirstMember), x)
  {
    CollapseSnoc(xs, x, FirstMember);
    assert x.name in NamesOf(xs) <==> x.name in Seqs.Dedup(NamesOf(xs));
    assert Contents([x]) == [x.content];
  }

  lemma NextEntry(xs: seq<Instance>, es: seq<Entry>, m: nat, d: string)
    requires m < |es|
    ensures xs + ToInstances(es[..m + 1], d) == (xs + ToInstances(es[..m], d)) + [ToInstance(es[m], d)]
  {
    ToInstancesPrefix(es, m, d);
    Seqs.AppendAssoc(xs, ToInstances(es[..m], d), [ToInstance(es[m], d)]);
  }

  /** One entry of `self.entries`' inner loop: its fqdn and key, then find its record or add one. */
  method AddEntry(rs: seq<Record>, ghost xs: seq<Instance>, d: string, e: Entry) returns (r: seq<Record>)
    requires rs == Collapse(xs, FirstMember)
    ensures r == Collapse(xs + [ToInstance(e, d)], FirstMember)
  {
    var fqdn := if e.name == Some("@") then d else Str(e.name) + "." + d;
    var name := fqdn + "/" + Str(e.rtype);
    ghost var x := ToInstance(e, d);
    assert x == Instance(name, fqdn, e.content, e.rtype, e.expire);
    if name in RecordNames(rs) {
      var j := Seqs.FirstIndex(RecordNames(rs), name);
      r := rs[j := rs[j].(content := rs[j].content + [e.content])];
    } else {
      r := rs + [Record(name, fqdn, [e.content], e.rtype, e.expire)];
    }
    assert r == FindOrAdd(rs, x);
    AddMember(xs, x);
  }

  /** The inner loop of `self.entries`: each entry of domain d in turn. */
  method AddEntries(rs: seq<Record>, ghost xs: seq<Instance>, d: string, es: seq<Entry>) returns (r: seq<Record>)
    requires rs == Collapse(xs, FirstMember)
    ensures r == Collapse(xs + ToInstances(es, d), FirstMember)
  {
    r := rs;
    var m := 0;
    assert xs + ToInstances(es[..0], d) == xs;
    while m < |es|
      invariant 0 <= m <= |es|
      invariant r == Collapse(xs + ToInstances(es[..m], d), FirstMember)
    {
      r := AddEntry(r, xs + ToInstances(es[..m], d), d, es[m]);
      NextEntry(xs, es, m, d);
      m := m + 1;
    }
    assert es[..m] == es;
  }

  /** `self.entries`: for each domain name, for each of its entries, find the record or add one. */
  method Records(backend: Backend) returns (r: Result<seq<Record>, string>)
    ensures r == RecordsAnswer(backend.failing, backend.names, backend.zones)
  {
    var names := backend.DomainNames();
    if names.Err? {
      return Err(names.error);
    }
    var ds := names.value;
    var rs: seq<Record> := [];
    ghost var xs: seq<Instance> := [];
    var k := 0;
    while k < |ds|
      invariant 0 <= k <= |ds|
      invariant Gathered(ds[..k], backend.zones) == Ok(xs)
      invariant rs == Collapse(xs, FirstMember)
    {
      var d := ds[k];
      var got := backend.GetEntries(d);
      if got.Err? {
        GatheredStopsAt(ds, backend.zones, k, |ds|);
        assert ds[..|ds|] == ds;
        return Err(got.error);
      }
      var es := got.value;
      rs := AddEntries(rs, xs, d, es);
      GatheredStep(ds, backend.zones, k);
      xs := xs + ToInstances(es, d);
      k := k + 1;
    }
    assert ds[..k] == ds;
    r := Ok(rs);
  }

  /** `self.instances`: one present provider per record. */
  method Instances(backend: Backend) returns (r: Result<seq<Properties>, string>)
    ensures var a := RecordsAnswer(backend.failing, backend.names, backend.zones);
      && (r.Err? <==> a.Err?)
      && (r.Err? ==> r.error == a.error)
      && (r.Ok? ==> |r.value| == |a.value| && forall i :: 0 <= i < |r.value| ==> r.value[i] == Properties(Present, Found(a.value[i])))
  {
    var rs := Records(backend);
    if rs.Err? {
      return Err(rs.error);
    }
    var ps := FoundAll(rs.value);
    r := Ok(ps);
  }

  /** The `.map` over the records: each becomes the properties of a present resource. */
  method FoundAll(rs: seq<Record>) returns (ps: seq<Properties>)
    ensures |ps| == |rs| && forall j :: 0 <= j < |rs| ==> ps[j] == Properties(Present, Found(rs[j]))
  {
    ps := [];
    var i := 0;
    while i < |rs|
      invariant 0 <= i <= |rs|
      invariant |ps| == i && forall j :: 0 <= j < i ==> ps[j] == Properties(Present, Found(rs[j]))
    {
      ps := ps + [Properties(Present, Found(rs[i]))];
      i := i + 1;
    }
  }

  /**
   * Keys carry no domain: two entries of different domains whose fqdn and
   * type agree become ONE record, where the transip_dns_entry provider keeps
   * one record per domain.
   */
  lemma SameKeyMerges(d1: string, d2: string, e1: Entry, e2: Entry)
    requires d1 != d2 && ToInstance(e1, d1).name == ToInstance(e2, d2).name
    ensures var x1 := ToInstance(e1, d1);
      RecordsAnswer(false, [d1, d2], map[d1 := [e1], d2 := [e2]])
        == Ok([Record(x1.name, x1.fqdn, [e1.content, e2.content], e1.rtype, e1.expire)])
  {
    GatheredPair(d1, d2, e1, e2);
    GroupPair(ToInstance(e1, d1), ToInstance(e2, d2));
  }

  lemma GatheredPair(d1: string, d2: string, e1: Entry, e2: Entry)
    requires d1 != d2
    ensures Gathered([d1, d2], map[d1 := [e1], d2 := [e2]]) == Ok([ToInstance(e1, d1), ToInstance(e2, d2)])
  {
    var zones := map[d1 := [e1], d2 := [e2]];
    var x1 := ToInstance(e1, d1);
    var x2 := ToInstance(e2, d2);
    assert ToInstances([e1], d1) == [x1];
    assert ToInstances([e2], d2) == [x2];
    assert [d1, d2][..1] == [d1] && [d1][..0] == [];
    assert Gathered([d1], zones) == Ok([] + [x1]);
    assert [] + [x1] == [x1];
    assert [x1] + [x2] == [x1, x2];
  }

  lemma GroupOne(x: Instance)
    ensures Collapse([x], FirstMember) == [Record(x.name, x.fqdn, [x.content], x.rtype, x.expire)]
  {
    MembersOne(x);
    Seqs.DedupOne(x.name);
    CollapseOneKey([x], x.name, FirstMember);
  }

  lemma GroupPair(x1: Instance, x2: Instance)
    requires x1.name == x2.name
    ensures Collapse([x1, x2], FirstMember) == [Record(x1.name, x1.fqdn, [x1.content, x2.content], x1.rtype, x1.expire)]
  {
    MembersPair(x1, x2);
    Seqs.DedupTwice(x1.name);
    CollapseOneKey([x1, x2], x1.name, FirstMember);
  }

  /** For instance entry `p` of domain `q.d` and entry `p.q` of domain `d`. */
  lemma DomainsMerge(p: string, q: string, d: string, e1: Entry, e2: Entry)
    requires p != "@" && e1.name == Some(p) && e2.name == Some(p + "." + q) && e1.rtype == e2.rtype
    ensures var r := RecordsAnswer(false, [q + "." + d, d], map[q + "." + d := [e1], d := [e2]]);
      r.Ok? && |r.value| == 1 && r.value[0].content == [e1.content, e2.content]
  {
    assert |q + "." + d| > |d|;
    if p == "" && q == "" {
      assert p + "." + q == ".";
    } else {
      assert |p + "." + q| > 1;
    }
    assert p + "." + (q + "." + d) == (p + "." + q) + "." + d;
    SameKeyMerges(q + "." + d, d, e1, e2);
  }

  // ------------------------------------------------------------------
  // Names
  // ------------------------------------------------------------------

  /** The capture of `^.*(names)$`: greedy `.*` leaves the SHORTEST matching suffix. */
  function MatchDomain(fqdn: string, names: seq<string>): Result<string, string>
  {
    var m := GreedyFrom(fqdn, Alternatives(names), |fqdn|);
    if m.None? then Err("cannot find domain matching " + fqdn) else Ok(m.value)
  }

  /** The match fails exactly when no name ends the fqdn; otherwise it is the shortest one that does. */
  lemma MatchDomainIsShortestSuffix(fqdn: string, names: seq<string>)
    ensures var r := MatchDomain(fqdn, names);
      && (r.Err? <==> forall a :: a in Alternatives(names) ==> !Text.EndsWith(fqdn, a))
      && (r.Err? ==> r.error == "cannot find domain matching " + fqdn)
      && (r.Ok? ==> r.value in Alternatives(names) && Text.EndsWith(fqdn, r.value)
                    && forall a :: a in Alternatives(names) && Text.EndsWith(fqdn, a) ==> |r.value| <= |a|)
  {
    GreedyIsShortestSuffix(fqdn, names);
  }

  /** record: the fqdn without the domain, then without one dot. */
  function RecordName(fqdn: string, domain: string): string
  {
    Text.Chomp(Text.Chomp(fqdn, domain), ".")
  }

  /** A name below the domain comes back as its label part. */
  lemma RecordNameOfFqdn(p: string, domain: string)
    ensures RecordName(p + "." + domain, domain) == p
    ensures p != "@" ==> Fqdn(RecordName(p + "." + domain, domain), domain) == p + "." + domain
  {
    ChompDomain(p, domain);
    Text.ChompSuffix(p, ".");
  }

  /**
   * The apex gets the record name "", not `'@'`: the entries a flush writes
   * for it read back under fqdn `.domain`, not under the domain itself.
   */
  lemma ApexRecordName(domain: string)
    ensures RecordName(domain, domain) == ""
    ensures Fqdn(RecordName(domain, domain), domain) == "." + domain != domain
  {
    if domain == "" {
      assert Text.ChompNewlines("") == "";
    } else if domain != "\n" {
      assert Text.EndsWith(domain, domain);
    }
    assert Text.Chomp("", ".") == "";
  }

  // ------------------------------------------------------------------
  // Writing
  // ------------------------------------------------------------------

  /**
   * The list flush writes: every entry not at `(record, type)`, then, only
   * when the property hash says present, one entry per distinct content value.
   */
  function Written(current: seq<Entry>, record: string, rtype: string, content: seq<string>, ttl: int, ensure: Ensure): (r: seq<Entry>)
    ensures ensure != Present ==> r == Keep(current, record, rtype)
  {
    Keep(current, record, rtype) + (if ensure == Present then Added(record, rtype, Text.IntToString(ttl), Seqs.Dedup(content)) else [])
  }

  /**
   * For a present or absent property hash the two providers write the same
   * list; for one prefetch did not set, this one deletes the record where
   * transip_dns_entry writes it.
   */
  lemma WrittenLikeTransip(current: seq<Entry>, record: string, rtype: string, content: seq<string>, ttl: int, ensure: Ensure)
    ensures ensure != Unset ==>
      Written(current, record, rtype, content, ttl, ensure) == TransipDnsEntryProvider.NewEntries(current, record, rtype, content, ttl, ensure)
    ensures ensure == Unset ==>
      Written(current, record, rtype, content, ttl, ensure) == TransipDnsEntryProvider.NewEntries(current, record, rtype, content, ttl, Absent)
  {
  }

  /** Flushing the same resource twice writes what flushing it once does. */
  lemma WrittenIdempotent(current: seq<Entry>, record: string, rtype: string, content: seq<string>, ttl: int, ensure: Ensure)
    ensures var once := Written(current, record, rtype, content, ttl, ensure);
      Written(once, record, rtype, content, ttl, ensure) == once
  {
    WrittenLikeTransip(current, record, rtype, content, ttl, ensure);
    var e := if ensure == Unset then Absent else ensure;
    TransipDnsEntryProvider.FlushIdempotent(current, record, rtype, content, ttl, e);
    WrittenLikeTransip(Written(current, record, rtype, content, ttl, ensure), record, rtype, content, ttl, ensure);
  }

  /** An instance of the provider: its resource, its property hash and its three memos. */
  class Provider {
    const resource: Resource
    var properties: Properties
    /** `@domains_re`, by the domain names it was built from. */
    var patternNames: Option<seq<string>>
    /** `@domain`. */
    var domainMemo: Option<string>
    /** `@record`. */
    var recordMemo: Option<string>

    constructor(resource: Resource, properties: Properties)
      ensures this.resource == resource && this.properties == properties
      ensures patternNames == None && domainMemo == None && recordMemo == None
    {
      this.resource := resource;
      this.properties := properties;
      patternNames := None;
      domainMemo := None;
      recordMemo := None;
    }

    /** What domain answers: the names are fetched on every call; the pattern and the capture are memoised. */
    function DomainAnswer(backend: Backend): Result<string, string>
      reads this, backend
    {
      if backend.failing then Err(TransipClient.NamesError)
      else
        var m := MatchDomain(resource.fqdn, if patternNames.Some? then patternNames.value else backend.names);
        if m.Err? then m else Ok(if domainMemo.Some? then domainMemo.value else m.value)
    }

    /** `@domains_re` after a call of domain. */
    function PatternAfter(backend: Backend): Option<seq<string>>
      reads this, backend
    {
      if backend.failing || patternNames.Some? then patternNames else Some(backend.names)
    }

    /** `@domain` after a call of domain. */
    function DomainMemoAfter(backend: Backend): Option<string>
      reads this, backend
    {
      var r := DomainAnswer(backend);
      if r.Ok? then Some(r.value) else domainMemo
    }

    /** What record answers. */
    function RecordAnswer(backend: Backend): Result<string, string>
      reads this, backend
    {
      if recordMemo.Some? then Ok(recordMemo.value)
      else
        var d := DomainAnswer(backend);
        if d.Err? then d else Ok(RecordName(resource.fqdn, d.value))
    }

    /** exists?: `@property_hash[:ensure] == :present`. */
    method Exists() returns (b: bool)
      ensures b <==> properties.ensure == Present
    {
      b := properties.ensure == Present;
    }

    method Create()
      modifies this
      ensures properties == old(properties).(ensure := Present)
      ensures patternNames == old(patternNames) && domainMemo == old(domainMemo) && recordMemo == old(recordMemo)
    {
      properties := properties.(ensure := Present);
    }

    method Destroy()
      modifies this
      ensures properties == old(properties).(ensure := Absent)
      ensures patternNames == old(patternNames) && domainMemo == old(domainMemo) && recordMemo == old(recordMemo)
    {
      properties := properties.(ensure := Absent);
    }

    /** After create the resource exists. */
    method CreateThenExists() returns (b: bool)
      modifies this
      ensures b && properties == old(properties).(ensure := Present)
      ensures patternNames == old(patternNames) && domainMemo == old(domainMemo) && recordMemo == old(recordMemo)
    {
      Create();
      b := Exists();
    }

    /** After destroy it does not. */
    method DestroyThenExists() returns (b: bool)
      modifies this
      ensures !b && properties == old(properties).(ensure := Absent)
      ensures patternNames == old(patternNames) && domainMemo == old(domainMemo) && recordMemo == old(recordMemo)
    {
      Destroy();
      b := Exists();
    }

    /**
     * domain: fetch the names, `@domains_re ||= ...`, match the fqdn, raise
     * when it does not match, `@domain ||= m[1]`.
     */
    method Domain(backend: Backend) returns (r: Result<string, string>)
      modifies this
      ensures r == old(DomainAnswer(backend))
      ensures patternNames == old(PatternAfter(backend)) && domainMemo == old(DomainMemoAfter(backend))
      ensures recordMemo == old(recordMemo) && properties == old(properties)
      ensures r.Ok? ==> Settled(backend) && RecordAnswer(backend) == old(RecordAnswer(backend))
    {
      ghost var answer := DomainAnswer(backend);
      ghost var record := RecordAnswer(backend);
      var names := backend.DomainNames();
      if names.Err? {
        return Err(names.error);
      }
      if patternNames.None? {
        patternNames := Some(names.value);
      }
      var m := MatchDomain(resource.fqdn, patternNames.value);
      if m.Err? {
        return m;
      }
      if domainMemo.None? {
        domainMemo := Some(m.value);
      }
      r := Ok(domainMemo.value);
      assert r == answer;
      SettledIsStable(backend);
      assert RecordAnswer(backend) == record;
    }

    /** The memos a successful call of domain leaves: another call answers the same and changes nothing. */
    predicate Settled(backend: Backend)
      reads this, backend
    {
      && !backend.failing && patternNames.Some? && domainMemo.Some?
      && MatchDomain(resource.fqdn, patternNames.value).Ok?
    }

    lemma SettledIsStable(backend: Backend)
      requires Settled(backend)
      ensures DomainAnswer(backend) == Ok(domainMemo.value)
      ensures PatternAfter(backend) == patternNames && DomainMemoAfter(backend) == domainMemo
      ensures RecordAnswer(backend).Ok?
    {
    }

    /** record: `@record ||= fqdn.chomp(domain).chomp('.')`. */
    method Record(backend: Backend) returns (r: Result<string, string>)
      modifies this
      ensures r == old(RecordAnswer(backend))
      ensures recordMemo == if r.Ok? then Some(r.value) else old(recordMemo)
      ensures old(recordMemo).Some? ==> patternNames == old(patternNames) && domainMemo == old(domainMemo)
      ensures old(recordMemo).None? ==> patternNames == old(PatternAfter(backend)) && domainMemo == old(DomainMemoAfter(backend))
      ensures properties == old(properties)
    {
      if recordMemo.Some? {
        return Ok(recordMemo.value);
      }
      var d := Domain(backend);
      if d.Err? {
        return d;
      }
      var name := RecordName(resource.fqdn, d.value);
      recordMemo := Some(name);
      r := Ok(name);
    }

    /**
     * The middle of flush: `reject!` the entries at `(record, type)`, then,
     * when present, append one entry per distinct value. record is evaluated
     * only when an entry or a value needs it.
     */
    method Rewrite(backend: Backend, current: seq<Entry>) returns (r: Result<seq<Entry>, string>)
      requires Settled(backend)
      modifies this
      ensures r == if properties.ensure == Present && resource.content.None? then Err(NoContentError)
                   else Ok(Written(current, old(RecordAnswer(backend)).value, resource.rtype,
                                   if resource.content.Some? then resource.content.value else [], resource.ttl, properties.ensure))
      ensures recordMemo == if old(recordMemo).None? && (|current| > 0 || (properties.ensure == Present && resource.content.Some?
                                                                            && |Seqs.Dedup(resource.content.value)| > 0))
                            then Some(RecordName(resource.fqdn, old(domainMemo).value)) else old(recordMemo)
      ensures patternNames == old(patternNames) && domainMemo == old(domainMemo) && properties == old(properties)
    {
      SettledIsStable(backend);
      ghost var record := RecordAnswer(backend).value;
      var name := "";
      if |current| > 0 {
        var got := Record(backend);
        name := got.value;
      }
      var entries := Keep(current, name, resource.rtype);
      assert entries == Keep(current, record, resource.rtype);
      if properties.ensure == Present {
        if resource.content.None? {
          return Err(NoContentError);
        }
        var cs := Seqs.Dedup(resource.content.value);
        if |cs| > 0 {
          var got := Record(backend);
          name := got.value;
        }
        entries := AddContents(entries, name, resource.rtype, Text.IntToString(resource.ttl), cs);
        assert entries == Written(current, record, resource.rtype, resource.content.value, resource.ttl, properties.ensure);
      }
      r := Ok(entries);
    }

    /** Whether a flush in the current state reaches set_entries and succeeds. */
    predicate FlushSucceeds(backend: Backend)
      reads this, backend
    {
      var d := DomainAnswer(backend);
      && d.Ok? && d.value in backend.zones
      && (properties.ensure != Present || resource.content.Some?)
    }

    /** The rest of flush once domain d has answered and its entries are read: rewrite, set_entries, record the resource. */
    method Store(backend: Backend, d: string, current: seq<Entry>) returns (r: Result<(), string>)
      requires Settled(backend) && domainMemo == Some(d) && d in backend.zones
      modifies this, backend
      ensures r.Err? <==> old(properties.ensure) == Present && resource.content.None?
      ensures r.Err? ==> r.error == NoContentError
      ensures r.Ok? ==>
        backend.zones == old(backend.zones)[d := Written(current, old(RecordAnswer(backend)).value, resource.rtype,
                                                         if resource.content.Some? then resource.content.value else [],
                                                         resource.ttl, old(properties.ensure))]
        && properties == Properties(resource.ensure, Copied(resource))
      ensures r.Err? ==> backend.zones == old(backend.zones) && properties == old(properties)
      ensures backend.failing == old(backend.failing) && backend.names == old(backend.names)
      ensures patternNames == old(patternNames) && domainMemo == old(domainMemo)
      ensures recordMemo.Some? ==> old(RecordAnswer(backend)) == Ok(recordMemo.value)
    {
      var entries := Rewrite(backend, current);
      if entries.Err? {
        return Err(entries.error);
      }
      var again := Domain(backend);
      assert again == Ok(d);
      var written := backend.SetEntries(d, entries.value);
      assert written.Ok?;
      properties := Properties(resource.ensure, Copied(resource));
      r := Ok(());
    }

    /** flush: the domain's entries with this key rewritten, sent back with set_entries. */
    method Flush(backend: Backend) returns (r: Result<(), string>)
      modifies this, backend
      ensures r.Ok? <==> old(FlushSucceeds(backend))
      ensures old(DomainAnswer(backend)).Err? ==> r == Err(old(DomainAnswer(backend)).error)
      ensures old(DomainAnswer(backend)).Ok? && old(DomainAnswer(backend)).value !in old(backend.zones) ==>
        r == Err(TransipClient.EntriesError(old(DomainAnswer(backend)).value))
      ensures old(DomainAnswer(backend)).Ok? && old(DomainAnswer(backend)).value in old(backend.zones)
              && old(properties.ensure) == Present && resource.content.None? ==>
        r == Err(NoContentError)
      ensures r.Ok? ==>
        var d := old(DomainAnswer(backend)).value;
        backend.zones == old(backend.zones)[d := Written(old(backend.zones)[d], old(RecordAnswer(backend)).value, resource.rtype,
                                                         if resource.content.Some? then resource.content.value else [],
                                                         resource.ttl, old(properties.ensure))]
      ensures r.Ok? ==> properties == Properties(resource.ensure, Copied(resource))
      ensures r.Err? ==> backend.zones == old(backend.zones) && properties == old(properties)
      ensures backend.failing == old(backend.failing) && backend.names == old(backend.names)
      ensures patternNames == old(PatternAfter(backend)) && domainMemo == old(DomainMemoAfter(backend))
      ensures recordMemo.Some? ==> old(RecordAnswer(backend)) == Ok(recordMemo.value)
    {
      ghost var answer := DomainAnswer(backend);
      ghost var record := RecordAnswer(backend);
      ghost var zones := backend.zones;
      ghost var ensure := properties.ensure;
      ghost var succeeds := FlushSucceeds(backend);
      var domain := Domain(backend);
      assert domain == answer;
      if domain.Err? {
        return Err(domain.error);
      }
      assert RecordAnswer(backend) == record && backend.zones == zones && properties.ensure == ensure;
      assert succeeds <==> domain.value in zones && (ensure != Present || resource.content.Some?);
      var got := backend.GetEntries(domain.value);
      if got.Err? {
        return Err(got.error);
      }
      r := Store(backend, domain.value, got.value);
    }
  }
}
