/**
 * The `api` provider of `transip_dns_entry`: it maps fully qualified names to
 * entry names of a managed domain and back, groups a domain's one-value
 * entries into multi-value records, and on flush writes back the domain's
 * whole entry list with this resource's key rewritten.
 */
module TransipDnsEntryProvider {
  import opened Wrappers
  import opened Dns
  import Text
  import Seqs
  import opened TransipClient

  // ------------------------------------------------------------------
  // Names
  // ------------------------------------------------------------------

  /** entryname: the apex is `'@'`; any other fqdn loses the domain, then one dot. */
  function EntryName(fqdn: string, domain: string): string
  {
    if fqdn == domain then "@" else Text.Chomp(Text.Chomp(fqdn, domain), ".")
  }

  /** Every entry name survives the trip to its fqdn and back. */
  lemma EntryNameOfFqdn(name: string, domain: string)
    ensures EntryName(Fqdn(name, domain), domain) == name
  {
    if name != "@" {
      var f := name + "." + domain;
      assert |f| > |domain|;
      ChompDomain(name, domain);
      Text.ChompSuffix(name, ".");
    }
  }

  /** The apex, and every fqdn `p.domain` whose label part p is not `'@'`, survive the trip to an entry name and back. */
  lemma FqdnOfEntryName(p: string, domain: string)
    requires p != "@"
    ensures Fqdn(EntryName(domain, domain), domain) == domain
    ensures Fqdn(EntryName(p + "." + domain, domain), domain) == p + "." + domain
  {
    EntryNameOfFqdn(p, domain);
  }

  /** fqdn `@.domain` does not survive: its entry name `'@'` stands for the apex. */
  lemma AtLabelIsLost(domain: string)
    ensures Fqdn(EntryName("@" + "." + domain, domain), domain) == domain
  {
    EntryNameOfFqdn("@", domain);
    ChompDomain("@", domain);
    Text.ChompSuffix("@", ".");
  }

  /**
   * domain's pattern `^.*?(names)$`: the capture, or the error flush and
   * domain raise when it does not match.
   */
  function MatchDomain(fqdn: string, names: seq<string>, resourceName: string): (r: Result<string, string>)
    ensures r.Err? <==> forall a :: a in Alternatives(names) ==> !Text.EndsWith(fqdn, a)
    ensures r.Err? ==> r.error == "cannot find domain matching " + resourceName
    ensures r.Ok? ==> r.value in Alternatives(names) && Text.EndsWith(fqdn, r.value)
                      && forall a :: a in Alternatives(names) && Text.EndsWith(fqdn, a) ==> |a| <= |r.value|
  {
    LazyIsLongestSuffix(fqdn, names);
    var m := LazyFrom(fqdn, Alternatives(names), 0);
    if m.None? then Err("cannot find domain matching " + resourceName) else Ok(m.value)
  }

  // ------------------------------------------------------------------
  // Reading: records from entries
  // ------------------------------------------------------------------

  /** The memo Hash of `each_with_object({})`: a field is None until the first assignment. */
  datatype Memo = Memo(name: Option<string>, fqdn: Option<string>, content: seq<Option<string>>,
                       rtype: Option<string>, expire: Option<string>)

  /** `memo[k] ||= v`. */
  function OrAssign(current: Option<string>, v: Option<string>): Option<string>
  {
    if current.Some? then current else v
  }

  /** One member merged in: `(memo[:content] ||= []) << content`, and `memo[k] ||= e[k]` for the other keys. */
  function MergeOne(m: Memo, e: Instance): Memo
  {
    Memo(OrAssign(m.name, Some(e.name)), OrAssign(m.fqdn, Some(e.fqdn)), m.content + [e.content],
         OrAssign(m.rtype, e.rtype), OrAssign(m.expire, e.expire))
  }

  function Merge(ms: seq<Instance>): Memo
  {
    if ms == [] then Memo(None, None, [], None, None)
    else MergeOne(Merge(ms[..|ms| - 1]), ms[|ms| - 1])
  }

  function MemoRecord(m: Memo): Record
  {
    Record(Str(m.name), Str(m.fqdn), m.content, m.rtype, m.expire)
  }

  /** group_by on the record key: each key of first appearance with its members in order. */
  function GroupBy(xs: seq<Instance>): (r: seq<(string, seq<Instance>)>)
    ensures |r| == |Seqs.Dedup(NamesOf(xs))|
  {
    var ks := Seqs.Dedup(NamesOf(xs));
    seq(|ks|, i requires 0 <= i < |ks| => (ks[i], Members(xs, ks[i])))
  }

  /**
   * group_by partitions the instances: one group per distinct key, in order of
   * first appearance, none empty, each holding only instances of its key, in
   * their order, and every instance in the group of its key.
   */
  lemma GroupByPartition(xs: seq<Instance>)
    ensures var r := GroupBy(xs);
      && (forall i :: 0 <= i < |r| ==> r[i].0 == Seqs.Dedup(NamesOf(xs))[i] && r[i].1 == Members(xs, r[i].0))
      && (forall i, j :: 0 <= i < j < |r| ==> r[i].0 != r[j].0)
      && (forall i :: 0 <= i < |r| ==> r[i].1 != [] && forall m :: m in r[i].1 ==> m.name == r[i].0)
      && (forall x :: x in xs ==> exists i :: 0 <= i < |r| && r[i].0 == x.name && x in r[i].1)
  {
    var r := GroupBy(xs);
    var ks := Seqs.Dedup(NamesOf(xs));
    forall i | 0 <= i < |r| ensures r[i].1 != [] {
      var t :| 0 <= t < |xs| && NamesOf(xs)[t] == ks[i];
      MembersHas(xs, xs[t]);
    }
    forall x | x in xs ensures exists i :: 0 <= i < |r| && r[i].0 == x.name && x in r[i].1 {
      var t :| 0 <= t < |xs| && xs[t] == x;
      assert NamesOf(xs)[t] == x.name;
      var i :| 0 <= i < |ks| && ks[i] == x.name;
      MembersHas(xs, x);
      assert r[i].0 == x.name && x in r[i].1;
    }
  }

  /** collapsed_content: each group merged into one record. */
  function CollapsedContent(entries: seq<Entry>, domain: string): (r: seq<Record>)
    ensures |r| == |GroupBy(ToInstances(entries, domain))|
  {
    var gs := GroupBy(ToInstances(entries, domain));
    seq(|gs|, i requires 0 <= i < |gs| => MemoRecord(Merge(gs[i].1)))
  }

  lemma {:induction false} MergeIsRecordOf(k: string, ms: seq<Instance>)
    requires ms != [] && forall i :: 0 <= i < |ms| ==> ms[i].name == k
    ensures MemoRecord(Merge(ms)) == RecordOf(k, ms, FirstNonNil)
  {
    var n := |ms| - 1;
    if n == 0 {
      assert ms == [ms[0]];
      MergeFirst(ms[0]);
    } else {
      var pre := ms[..n];
      assert forall i :: 0 <= i < |pre| ==> pre[i] == ms[i];
      MergeIsRecordOf(k, pre);
      MergeNext(k, pre, ms[n]);
      Seqs.SplitLast(ms);
    }
  }

  lemma MergeFirst(x: Instance)
    ensures MemoRecord(Merge([x])) == RecordOf(x.name, [x], FirstNonNil)
  {
    assert [x][..0] == [];
    MembersOne(x);
    assert Types([x]) == [x.rtype] && Expires([x]) == [x.expire];
    FirstSetOne(x.rtype);
    FirstSetOne(x.expire);
  }

  lemma {:induction false} MergeNext(k: string, pre: seq<Instance>, x: Instance)
    requires pre != [] && pre[0].name == k
    requires MemoRecord(Merge(pre)) == RecordOf(k, pre, FirstNonNil)
    ensures MemoRecord(Merge(pre + [x])) == RecordOf(k, pre + [x], FirstNonNil)
  {
    Seqs.SplitLast(pre + [x]);
    assert (pre + [x])[|pre|] == x;
    RecordOfSnoc(k, pre, x, FirstNonNil);
    MergeSetsName(pre);
  }

  lemma {:induction false} MergeSetsName(ms: seq<Instance>)
    requires ms != []
    ensures Merge(ms).name == Some(ms[0].name) && Merge(ms).fqdn == Some(ms[0].fqdn)
  {
    var n := |ms| - 1;
    if n > 0 {
      MergeSetsName(ms[..n]);
    }
  }

  /**
   * collapsed_content groups exactly as the reference grouping does under the
   * `||=` policy: one record per key of first appearance, all contents of its
   * members in order, type and ttl from the first member that has them.
   */
  lemma CollapsedContentIsCollapse(entries: seq<Entry>, domain: string)
    ensures CollapsedContent(entries, domain) == Collapse(ToInstances(entries, domain), FirstNonNil)
  {
    var xs := ToInstances(entries, domain);
    var gs := GroupBy(xs);
    var r := CollapsedContent(entries, domain);
    var c := Collapse(xs, FirstNonNil);
    forall i | 0 <= i < |r| ensures r[i] == c[i] {
      var k := Seqs.Dedup(NamesOf(xs))[i];
      assert k in NamesOf(xs);
      MembersPresent(xs, k);
      MergeIsRecordOf(k, Members(xs, k));
    }
  }

  /** Grouping keeps every content value of the domain: as many values as entries. */
  lemma CollapsedContentKeepsValues(entries: seq<Entry>, domain: string)
    ensures TotalContent(CollapsedContent(entries, domain)) == |entries|
    ensures RecordNames(CollapsedContent(entries, domain)) == Seqs.Dedup(NamesOf(ToInstances(entries, domain)))
  {
    CollapsedContentIsCollapse(entries, domain);
    CollapseKeepsEveryContent(ToInstances(entries, domain), FirstNonNil);
  }

  lemma CollapsePair(x0: Instance, x1: Instance)
    requires x0.name == x1.name
    ensures Collapse([x0, x1], FirstNonNil)
         == [Record(x0.name, x0.fqdn, [x0.content, x1.content], OrAssign(x0.rtype, x1.rtype), OrAssign(x0.expire, x1.expire))]
  {
    MembersPair(x0, x1);
    Seqs.DedupTwice(x0.name);
    CollapseOneKey([x0, x1], x0.name, FirstNonNil);
    FirstSetPair(x0.rtype, x1.rtype);
    FirstSetPair(x0.expire, x1.expire);
  }

  /** Two entries at one key of a domain become one record with both values, in order. */
  lemma CollapsedContentPair(e1: Entry, e2: Entry, domain: string)
    requires e1.name == e2.name && e1.rtype == e2.rtype
    ensures var f := Fqdn(Str(e1.name), domain);
      CollapsedContent([e1, e2], domain)
        == [Record(f + "/" + Str(e1.rtype), f, [e1.content, e2.content], e1.rtype, OrAssign(e1.expire, e2.expire))]
  {
    var xs := ToInstances([e1, e2], domain);
    CollapsedContentIsCollapse([e1, e2], domain);
    assert xs == [ToInstance(e1, domain), ToInstance(e2, domain)];
    CollapsePair(xs[0], xs[1]);
  }

  /** collapsed_instances: the domains' records one after the other, each domain grouped on its own. */
  function CollapsedInstances(all: seq<(string, seq<Entry>)>): seq<Record>
  {
    if all == [] then []
    else
      var n := |all| - 1;
      CollapsedInstances(all[..n]) + CollapsedContent(all[n].1, all[n].0)
  }

  function EntryCount(all: seq<(string, seq<Entry>)>): nat
  {
    if all == [] then 0 else EntryCount(all[..|all| - 1]) + |all[|all| - 1].1|
  }

  lemma {:induction false} TotalContentAppend(a: seq<Record>, b: seq<Record>)
    ensures TotalContent(a + b) == TotalContent(a) + TotalContent(b)
  {
    if b != [] {
      var n := |b| - 1;
      assert (a + b)[..|a| + n] == a + b[..n];
      TotalContentAppend(a, b[..n]);
    } else {
      assert a + b == a;
    }
  }

  /** Across domains nothing is lost or merged: every entry of every domain is one content value. */
  lemma {:induction false} CollapsedInstancesKeepValues(all: seq<(string, seq<Entry>)>)
    ensures TotalContent(CollapsedInstances(all)) == EntryCount(all)
  {
    if all != [] {
      var n := |all| - 1;
      CollapsedInstancesKeepValues(all[..n]);
      CollapsedContentKeepsValues(all[n].1, all[n].0);
      TotalContentAppend(CollapsedInstances(all[..n]), CollapsedContent(all[n].1, all[n].0));
    }
  }

  lemma CollapsedContentSingle(e: Entry, domain: string)
    ensures |CollapsedContent([e], domain)| == 1
  {
    var xs := ToInstances([e], domain);
    assert NamesOf(xs) == [xs[0].name];
    assert NamesOf(xs)[..0] == [];
  }

  /** Two domains' entries stay two records even when their keys coincide. */
  lemma DomainsNeverMerge(d1: string, e1: Entry, d2: string, e2: Entry)
    ensures |CollapsedInstances([(d1, [e1]), (d2, [e2])])| == 2
  {
    var all := [(d1, [e1]), (d2, [e2])];
    assert all[..1] == [(d1, [e1])] && all[..1][..0] == [];
    assert CollapsedInstances(all[..1]) == CollapsedContent([e1], d1);
    assert CollapsedInstances(all) == CollapsedInstances(all[..1]) + CollapsedContent([e2], d2);
    CollapsedContentSingle(e1, d1);
    CollapsedContentSingle(e2, d2);
  }

  /** instances: one present provider per collapsed record, expire becoming ttl. */
  function Instances(all: seq<(string, seq<Entry>)>): (r: seq<Properties>)
    ensures |r| == |CollapsedInstances(all)|
    ensures forall i :: 0 <= i < |r| ==>
      (r[i].ensure == Present && r[i].values.Found? && r[i].values.record == CollapsedInstances(all)[i])
  {
    var rs := CollapsedInstances(all);
    seq(|rs|, i requires 0 <= i < |rs| => Properties(Present, Found(rs[i])))
  }

  /** The records the providers of instances carry. */
  function RecordsOf(ps: seq<Properties>): (r: seq<Record>)
    requires forall i :: 0 <= i < |ps| ==> ps[i].values.Found?
    ensures |r| == |ps|
  {
    seq(|ps|, i requires 0 <= i < |ps| => ps[i].values.record)
  }

  /**
   * instances gives a present provider for every collapsed record, and
   * together they hold one content value per entry of the account.
   */
  lemma InstancesKeepEveryEntry(all: seq<(string, seq<Entry>)>)
    ensures forall i :: 0 <= i < |Instances(all)| ==> Instances(all)[i].ensure == Present && Instances(all)[i].values.Found?
    ensures RecordsOf(Instances(all)) == CollapsedInstances(all)
    ensures TotalContent(RecordsOf(Instances(all))) == EntryCount(all)
  {
    Seqs.Pointwise(RecordsOf(Instances(all)), CollapsedInstances(all));
    CollapsedInstancesKeepValues(all);
  }

  /**
   * An instance reads back as its entry: entryname of its fqdn is the entry's
   * name, and content, type and expire are the entry's own.
   */
  lemma ToInstancesReadBack(es: seq<Entry>, domain: string)
    ensures |ToInstances(es, domain)| == |es|
    ensures forall i :: 0 <= i < |es| ==>
      var x := ToInstances(es, domain)[i];
      EntryName(x.fqdn, domain) == Str(es[i].name) && x.content == es[i].content
      && x.rtype == es[i].rtype && x.expire == es[i].expire
  {
    forall i | 0 <= i < |es|
      ensures EntryName(ToInstances(es, domain)[i].fqdn, domain) == Str(es[i].name)
    {
      EntryNameOfFqdn(Str(es[i].name), domain);
    }
  }

  // ------------------------------------------------------------------
  // Writing: the entry list a flush sends
  // ------------------------------------------------------------------

  /**
   * The list flush writes: every entry not at the key `(name, type)`, in
   * order, then, unless ensure is absent, one entry per distinct content value.
   */
  function NewEntries(current: seq<Entry>, name: string, rtype: string, content: seq<string>, ttl: int, ensure: Ensure): seq<Entry>
  {
    Keep(current, name, rtype) + (if ensure == Absent then [] else Added(name, rtype, Text.IntToString(ttl), Seqs.Dedup(content)))
  }

  lemma AddedAtKey(name: string, rtype: string, ttl: string, cs: seq<string>)
    ensures Keep(Added(name, rtype, ttl, cs), name, rtype) == []
    ensures AtKeyEntries(Added(name, rtype, ttl, cs), name, rtype) == Added(name, rtype, ttl, cs)
  {
    var a := Added(name, rtype, ttl, cs);
    assert forall i :: 0 <= i < |a| ==> AtKey(a[i], name, rtype);
    AtKeyEntriesAll(a, name, rtype);
    KeepNone(a, name, rtype);
  }

  /** Every entry at another key is written back unchanged, in order, ahead of the new ones. */
  lemma FlushKeepsOtherEntries(current: seq<Entry>, name: string, rtype: string, content: seq<string>, ttl: int, ensure: Ensure)
    ensures var r := NewEntries(current, name, rtype, content, ttl, ensure);
      && r[..|Keep(current, name, rtype)|] == Keep(current, name, rtype)
      && Keep(r, name, rtype) == Keep(current, name, rtype)
  {
    var added := if ensure == Absent then [] else Added(name, rtype, Text.IntToString(ttl), Seqs.Dedup(content));
    KeepAppend(Keep(current, name, rtype), added, name, rtype);
    KeepAll(Keep(current, name, rtype), name, rtype);
    AddedAtKey(name, rtype, Text.IntToString(ttl), Seqs.Dedup(content));
  }

  /**
   * At the key, the old values are gone: unless ensure is absent there is
   * exactly one entry per distinct content value, in first-occurrence order,
   * with this resource's type and ttl; when absent there is none.
   */
  lemma FlushWritesContent(current: seq<Entry>, name: string, rtype: string, content: seq<string>, ttl: int, ensure: Ensure)
    ensures var at := AtKeyEntries(NewEntries(current, name, rtype, content, ttl, ensure), name, rtype);
      && (ensure == Absent ==> at == [])
      && (ensure != Absent ==> at == Added(name, rtype, Text.IntToString(ttl), Seqs.Dedup(content)))
  {
    var added := if ensure == Absent then [] else Added(name, rtype, Text.IntToString(ttl), Seqs.Dedup(content));
    AtKeyEntriesAppend(Keep(current, name, rtype), added, name, rtype);
    AtKeyEntriesNone(Keep(current, name, rtype), name, rtype);
    AddedAtKey(name, rtype, Text.IntToString(ttl), Seqs.Dedup(content));
  }

  /** After a flush that did not remove it, the values at the key are the resource's values as a set. */
  lemma FlushInSync(current: seq<Entry>, name: string, rtype: string, content: seq<string>, ttl: int, ensure: Ensure)
    requires ensure != Absent
    ensures var at := EntryContents(AtKeyEntries(NewEntries(current, name, rtype, content, ttl, ensure), name, rtype));
      && Seqs.NoDuplicates(at)
      && forall c :: Some(c) in at <==> c in content
  {
    FlushWritesContent(current, name, rtype, content, ttl, ensure);
    var cs := Seqs.Dedup(content);
    var at := EntryContents(Added(name, rtype, Text.IntToString(ttl), cs));
    forall c ensures Some(c) in at <==> c in content {
      if Some(c) in at {
        var i :| 0 <= i < |at| && at[i] == Some(c);
        assert cs[i] == c;
      }
      if c in content {
        var i :| 0 <= i < |content| && content[i] == c;
        var j :| 0 <= j < |cs| && cs[j] == c;
        assert at[j] == Some(c);
      }
    }
  }

  /** Flushing the same resource again changes nothing: the write is idempotent. */
  lemma FlushIdempotent(current: seq<Entry>, name: string, rtype: string, content: seq<string>, ttl: int, ensure: Ensure)
    ensures var once := NewEntries(current, name, rtype, content, ttl, ensure);
      NewEntries(once, name, rtype, content, ttl, ensure) == once
  {
    FlushKeepsOtherEntries(current, name, rtype, content, ttl, ensure);
  }

  /** An instance of the provider: its resource, its property hash and its memoised domain. */
  class Provider {
    const resource: Resource
    var properties: Properties
    /** `@domain`. */
    var domainMemo: Option<string>

    constructor(resource: Resource, properties: Properties)
      ensures this.resource == resource && this.properties == properties && domainMemo == None
    {
      this.resource := resource;
      this.properties := properties;
      domainMemo := None;
    }

    /** What domain answers for the client's current state. */
    function DomainAnswer(client: Client): Result<string, string>
      reads this, client
    {
      if domainMemo.Some? then Ok(domainMemo.value)
      else
        var names := client.NamesAnswer();
        if names.Err? then Err(names.error) else MatchDomain(resource.fqdn, names.value, resource.name)
    }

    /** exists?: `@property_hash[:ensure] == :present`. */
    method Exists() returns (b: bool)
      ensures b <==> properties.ensure == Present
    {
      b := properties.ensure == Present;
    }

    method Create()
      modifies this
      ensures properties == old(properties).(ensure := Present) && domainMemo == old(domainMemo)
    {
      properties := properties.(ensure := Present);
    }

    method Destroy()
      modifies this
      ensures properties == old(properties).(ensure := Absent) && domainMemo == old(domainMemo)
    {
      properties := properties.(ensure := Absent);
    }

    /** After create the resource exists. */
    method CreateThenExists() returns (b: bool)
      modifies this
      ensures b && properties == old(properties).(ensure := Present) && domainMemo == old(domainMemo)
    {
      Create();
      b := Exists();
    }

    /** After destroy it does not. */
    method DestroyThenExists() returns (b: bool)
      modifies this
      ensures !b && properties == old(properties).(ensure := Absent) && domainMemo == old(domainMemo)
    {
      Destroy();
      b := Exists();
    }

    /** domain: `@domain ||= ...`, asking the client for the names only while nothing is memoised. */
    method Domain(client: Client) returns (r: Result<string, string>)
      modifies this, client
      ensures r == old(DomainAnswer(client))
      ensures domainMemo == if r.Ok? then Some(r.value) else old(domainMemo)
      ensures client.cachedNames == if old(domainMemo).Some? then old(client.cachedNames)
                                    else if old(client.NamesAnswer()).Ok? then Some(old(client.NamesAnswer()).value) else None
      ensures client.requests == old(client.requests) + (if old(domainMemo).None? && old(client.cachedNames).None? then 1 else 0)
      ensures client.failing == old(client.failing) && client.accountNames == old(client.accountNames)
      ensures client.zones == old(client.zones)
      ensures properties == old(properties)
    {
      if domainMemo.Some? {
        return Ok(domainMemo.value);
      }
      var names := client.DomainNames();
      if names.Err? {
        return Err(names.error);
      }
      r := MatchDomain(resource.fqdn, names.value, resource.name);
      if r.Ok? {
        domainMemo := Some(r.value);
      }
    }

    /** Whether a flush in the current state reaches set_entries and succeeds. */
    predicate FlushSucceeds(client: Client)
      reads this, client
    {
      var d := DomainAnswer(client);
      && d.Ok? && !client.failing && d.value in client.zones
      && (properties.ensure == Absent || resource.content.Some?)
    }

    /** The body of flush between entries and set_entries: `reject`, then one entry per distinct value unless absent. */
    method Rewrite(fetched: seq<Entry>, entryname: string) returns (r: Result<seq<Entry>, string>)
      ensures r == if properties.ensure != Absent && resource.content.None? then Err(NoContentError)
                   else Ok(NewEntries(fetched, entryname, resource.rtype,
                                      if resource.content.Some? then resource.content.value else [], resource.ttl, properties.ensure))
    {
      var entries := Keep(fetched, entryname, resource.rtype);
      if properties.ensure != Absent {
        if resource.content.None? {
          return Err(NoContentError);
        }
        entries := AddContents(entries, entryname, resource.rtype, Text.IntToString(resource.ttl), Seqs.Dedup(resource.content.value));
        assert entries == NewEntries(fetched, entryname, resource.rtype, resource.content.value, resource.ttl, properties.ensure);
      } else {
        assert entries + [] == entries;
      }
      r := Ok(entries);
    }

    /** Whether the write-back of flush succeeds for domain d. */
    predicate WriteBackSucceeds(client: Client, d: string)
      reads this, client
    {
      !client.failing && d in client.zones && (properties.ensure == Absent || resource.content.Some?)
    }

    /** flush once the domain d is known: entries of d, then the rewritten list sent back with set_entries. */
    method WriteBack(client: Client, d: string) returns (r: Result<(), string>)
      modifies this, client
      ensures r.Ok? <==> old(WriteBackSucceeds(client, d))
      ensures (old(client.failing) || d !in old(client.zones)) ==> r == Err(EntriesError(d))
      ensures !old(client.failing) && d in old(client.zones) && old(properties.ensure) != Absent && resource.content.None? ==>
        r == Err(NoContentError)
      ensures r.Ok? ==>
        && client.zones == old(client.zones)[d := ToDnsEntries(NewEntries(Stored(old(client.zones), d), EntryName(resource.fqdn, d),
                             resource.rtype, if resource.content.Some? then resource.content.value else [],
                             resource.ttl, old(properties.ensure)))]
        && properties == Properties(resource.ensure, Copied(resource))
      ensures r.Err? ==> client.zones == old(client.zones) && properties == old(properties)
      ensures client.requests == old(client.requests) + 1 + (if old(WriteBackSucceeds(client, d)) then 1 else 0)
      ensures domainMemo == old(domainMemo) && client.cachedNames == old(client.cachedNames)
      ensures client.failing == old(client.failing) && client.accountNames == old(client.accountNames)
    {
      var entryname := EntryName(resource.fqdn, d);
      var fetched := client.Entries(d);
      if fetched.Err? {
        return Err(fetched.error);
      }
      var entries := Rewrite(fetched.value, entryname);
      if entries.Err? {
        return Err(entries.error);
      }
      var written := client.SetEntries(d, entries.value);
      assert written.Ok?;
      properties := Properties(resource.ensure, Copied(resource));
      r := Ok(());
    }

    /** flush: the domain's entries with this key rewritten, sent back with set_entries. */
    method Flush(client: Client) returns (r: Result<(), string>)
      modifies this, client
      ensures r.Ok? <==> old(FlushSucceeds(client))
      ensures old(DomainAnswer(client)).Err? ==> r == Err(old(DomainAnswer(client)).error)
      ensures old(DomainAnswer(client)).Ok? && (old(client.failing) || old(DomainAnswer(client)).value !in old(client.zones)) ==>
        r == Err(EntriesError(old(DomainAnswer(client)).value))
      ensures old(DomainAnswer(client)).Ok? && !old(client.failing) && old(DomainAnswer(client)).value in old(client.zones)
              && old(properties.ensure) != Absent && resource.content.None? ==>
        r == Err(NoContentError)
      ensures r.Ok? ==>
        var d := old(DomainAnswer(client)).value;
        && client.zones == old(client.zones)[d := ToDnsEntries(NewEntries(Stored(old(client.zones), d), EntryName(resource.fqdn, d),
                             resource.rtype, if resource.content.Some? then resource.content.value else [],
                             resource.ttl, old(properties.ensure)))]
        && properties == Properties(resource.ensure, Copied(resource))
      ensures r.Err? ==> client.zones == old(client.zones) && properties == old(properties)
      ensures domainMemo == if old(DomainAnswer(client)).Ok? then Some(old(DomainAnswer(client)).value) else old(domainMemo)
      ensures client.cachedNames == if old(domainMemo).Some? then old(client.cachedNames)
                                    else if old(client.NamesAnswer()).Ok? then Some(old(client.NamesAnswer()).value) else None
      ensures client.requests == old(client.requests)
        + (if old(domainMemo).None? && old(client.cachedNames).None? then 1 else 0)
        + (if old(DomainAnswer(client)).Ok? then 1 else 0)
        + (if old(FlushSucceeds(client)) then 1 else 0)
      ensures client.failing == old(client.failing) && client.accountNames == old(client.accountNames)
    {
      ghost var succeeds := FlushSucceeds(client);
      var domain := Domain(client);
      if domain.Err? {
        return Err(domain.error);
      }
      assert succeeds == WriteBackSucceeds(client, domain.value);
      r := WriteBack(client, domain.value);
    }
  }
}
