/**
 * Transip::Client: the shaping of API responses into entry hashes, the
 * conversion back into DnsEntry objects, and the requests with their error
 * translation. The TransIP account the requests reach is part of the state:
 * its domain names, the entries of each domain, and whether it answers
 * requests at all.
 */
module TransipClient {
  import opened Wrappers
  import opened Values
  import opened Dns
  import Seqs

  /** A DNS entry as the API returns it: a Hash from field name to its text. */
  type RemoteEntry = seq<(string, string)>

  /** A domain as get_info and batch_get_info return it: its `'name'` and its `'dnsEntries'`. */
  datatype RemoteDomain = RemoteDomain(name: string, dnsEntries: seq<RemoteEntry>)

  /** A Transip::DnsEntry, built as `DnsEntry.new(name, expire, type, content)`. */
  datatype DnsEntry = DnsEntry(name: Option<string>, expire: Option<string>, rtype: Option<string>, content: Option<string>)

  /** to_entry: the four string keys name, content, type and expire become the entry's fields. */
  function ToEntry(dnsentry: RemoteEntry): (r: Entry)
    ensures r.name.None? <==> forall i :: 0 <= i < |dnsentry| ==> dnsentry[i].0 != "name"
    ensures r.content.None? <==> forall i :: 0 <= i < |dnsentry| ==> dnsentry[i].0 != "content"
    ensures r.rtype.None? <==> forall i :: 0 <= i < |dnsentry| ==> dnsentry[i].0 != "type"
    ensures r.expire.None? <==> forall i :: 0 <= i < |dnsentry| ==> dnsentry[i].0 != "expire"
    ensures r.name.Some? ==> exists i :: 0 <= i < |dnsentry| && dnsentry[i] == ("name", r.name.value) && forall j :: 0 <= j < i ==> dnsentry[j].0 != "name"
    ensures r.content.Some? ==> exists i :: 0 <= i < |dnsentry| && dnsentry[i] == ("content", r.content.value) && forall j :: 0 <= j < i ==> dnsentry[j].0 != "content"
    ensures r.rtype.Some? ==> exists i :: 0 <= i < |dnsentry| && dnsentry[i] == ("type", r.rtype.value) && forall j :: 0 <= j < i ==> dnsentry[j].0 != "type"
    ensures r.expire.Some? ==> exists i :: 0 <= i < |dnsentry| && dnsentry[i] == ("expire", r.expire.value) && forall j :: 0 <= j < i ==> dnsentry[j].0 != "expire"
  {
    Entry(Lookup(dnsentry, "name"), Lookup(dnsentry, "content"), Lookup(dnsentry, "type"), Lookup(dnsentry, "expire"))
  }

  /** to_dnsentry: the entry's fields in the constructor's order name, expire, type, content. */
  function ToDnsEntry(e: Entry): DnsEntry
  {
    DnsEntry(e.name, e.expire, e.rtype, e.content)
  }

  function Field(key: string, value: Option<string>): RemoteEntry
  {
    if value.None? then [] else [(key, value.value)]
  }

  /** How the API hands a stored DnsEntry back: one string key per field that is set. */
  function Serialized(d: DnsEntry): RemoteEntry
  {
    Field("name", d.name) + Field("expire", d.expire) + Field("type", d.rtype) + Field("content", d.content)
  }

  /** to_array: to_entry of every entry of the domain, in order. */
  function ToArray(domain: RemoteDomain): (r: seq<Entry>)
    ensures |r| == |domain.dnsEntries|
    ensures forall i :: 0 <= i < |r| ==> r[i] == ToEntry(domain.dnsEntries[i])
  {
    seq(|domain.dnsEntries|, i requires 0 <= i < |domain.dnsEntries| => ToEntry(domain.dnsEntries[i]))
  }

  /** set_entries' conversion: to_dnsentry of every entry, in order. */
  function ToDnsEntries(es: seq<Entry>): (r: seq<DnsEntry>)
    ensures |r| == |es|
    ensures forall i :: 0 <= i < |r| ==> r[i] == ToDnsEntry(es[i])
  {
    seq(|es|, i requires 0 <= i < |es| => ToDnsEntry(es[i]))
  }

  /** The domain the API answers for stored entries. */
  function Answer(name: string, stored: seq<DnsEntry>): (r: RemoteDomain)
    ensures r.name == name && |r.dnsEntries| == |stored|
  {
    RemoteDomain(name, seq(|stored|, i requires 0 <= i < |stored| => Serialized(stored[i])))
  }

  lemma LookupField(pre: RemoteEntry, key: string, value: Option<string>, post: RemoteEntry)
    requires forall i :: 0 <= i < |pre| ==> pre[i].0 != key
    requires forall i :: 0 <= i < |post| ==> post[i].0 != key
    ensures Lookup(pre + Field(key, value) + post, key) == value
  {
    var s := pre + Field(key, value) + post;
    Seqs.PrefixOfConcat(pre, Field(key, value), post);
    if value.None? {
      forall i | 0 <= i < |s| ensures s[i].0 != key {
        if i < |pre| { assert s[i] == pre[i]; } else { assert s[i] == post[i - |pre|]; }
      }
    } else {
      assert s[|pre|] == (key, value.value);
      LookupAfter(pre, s, key);
    }
  }

  lemma {:induction false} LookupAfter(pre: RemoteEntry, s: RemoteEntry, key: string)
    requires |pre| < |s| && s[..|pre|] == pre && s[|pre|].0 == key
    requires forall i :: 0 <= i < |pre| ==> pre[i].0 != key
    ensures Lookup(s, key) == Some(s[|pre|].1)
  {
    if pre != [] {
      assert s[1..][..|pre[1..]|] == pre[1..];
      LookupAfter(pre[1..], s[1..], key);
    }
  }

  /** An entry written through set_entries reads back through to_entry as it was. */
  lemma EntryRoundTrip(e: Entry)
    ensures ToEntry(Serialized(ToDnsEntry(e))) == e
  {
    FourFields("name", "expire", "type", "content", e.name, e.expire, e.rtype, e.content);
  }

  /** Four fields under four different keys each read back under their own key. */
  lemma FourFields(a: string, b: string, c: string, d: string,
                   va: Option<string>, vb: Option<string>, vc: Option<string>, vd: Option<string>)
    requires a != b && a != c && a != d && b != c && b != d && c != d
    ensures var s := Field(a, va) + Field(b, vb) + Field(c, vc) + Field(d, vd);
      Lookup(s, a) == va && Lookup(s, b) == vb && Lookup(s, c) == vc && Lookup(s, d) == vd
  {
    var fa, fb, fc, fd := Field(a, va), Field(b, vb), Field(c, vc), Field(d, vd);
    Seqs.Regroup(fa, fb, fc, fd);
    FieldAvoids(b, vb, a); FieldAvoids(c, vc, a); FieldAvoids(d, vd, a);
    FieldAvoids(a, va, b); FieldAvoids(c, vc, b); FieldAvoids(d, vd, b);
    FieldAvoids(a, va, c); FieldAvoids(b, vb, c); FieldAvoids(d, vd, c);
    FieldAvoids(a, va, d); FieldAvoids(b, vb, d); FieldAvoids(c, vc, d);
    FirstOfFour(a, va, fb, fc, fd);
    SecondOfFour(fa, b, vb, fc, fd);
    ThirdOfFour(fa, fb, c, vc, fd);
    FourthOfFour(fa, fb, fc, d, vd);
  }

  lemma FieldAvoids(k: string, v: Option<string>, key: string)
    requires k != key
    ensures forall i :: 0 <= i < |Field(k, v)| ==> Field(k, v)[i].0 != key
  {
  }

  lemma FirstOfFour(key: string, v: Option<string>, q: RemoteEntry, r: RemoteEntry, t: RemoteEntry)
    requires forall i :: 0 <= i < |q| ==> q[i].0 != key
    requires forall i :: 0 <= i < |r| ==> r[i].0 != key
    requires forall i :: 0 <= i < |t| ==> t[i].0 != key
    ensures Lookup([] + Field(key, v) + (q + r + t), key) == v
  {
    KeysAvoid(q, r, key);
    KeysAvoid(q + r, t, key);
    LookupField([], key, v, q + r + t);
  }

  lemma SecondOfFour(p: RemoteEntry, key: string, v: Option<string>, r: RemoteEntry, t: RemoteEntry)
    requires forall i :: 0 <= i < |p| ==> p[i].0 != key
    requires forall i :: 0 <= i < |r| ==> r[i].0 != key
    requires forall i :: 0 <= i < |t| ==> t[i].0 != key
    ensures Lookup(p + Field(key, v) + (r + t), key) == v
  {
    KeysAvoid(r, t, key);
    LookupField(p, key, v, r + t);
  }

  lemma ThirdOfFour(p: RemoteEntry, q: RemoteEntry, key: string, v: Option<string>, t: RemoteEntry)
    requires forall i :: 0 <= i < |p| ==> p[i].0 != key
    requires forall i :: 0 <= i < |q| ==> q[i].0 != key
    requires forall i :: 0 <= i < |t| ==> t[i].0 != key
    ensures Lookup(p + q + Field(key, v) + t, key) == v
  {
    KeysAvoid(p, q, key);
    LookupField(p + q, key, v, t);
  }

  lemma FourthOfFour(p: RemoteEntry, q: RemoteEntry, r: RemoteEntry, key: string, v: Option<string>)
    requires forall i :: 0 <= i < |p| ==> p[i].0 != key
    requires forall i :: 0 <= i < |q| ==> q[i].0 != key
    requires forall i :: 0 <= i < |r| ==> r[i].0 != key
    ensures Lookup(p + q + r + Field(key, v) + [], key) == v
  {
    KeysAvoid(p, q, key);
    KeysAvoid(p + q, r, key);
    LookupField(p + q + r, key, v, []);
  }

  lemma KeysAvoid(p: RemoteEntry, q: RemoteEntry, key: string)
    requires forall i :: 0 <= i < |p| ==> p[i].0 != key
    requires forall i :: 0 <= i < |q| ==> q[i].0 != key
    ensures forall i :: 0 <= i < |p + q| ==> (p + q)[i].0 != key
  {
    forall i | 0 <= i < |p + q| ensures (p + q)[i].0 != key {
      if i >= |p| { assert (p + q)[i] == q[i - |p|]; }
    }
  }

  /** The entries of a domain read back as set_entries wrote them, in number and order. */
  lemma EntriesRoundTrip(name: string, es: seq<Entry>)
    ensures ToArray(Answer(name, ToDnsEntries(es))) == es
  {
    var r := ToArray(Answer(name, ToDnsEntries(es)));
    forall i | 0 <= i < |es| ensures r[i] == es[i] {
      EntryRoundTrip(es[i]);
    }
  }

  /** Keys other than the four fields do not reach the entry. */
  lemma ToEntryIgnoresOtherKeys(dnsentry: RemoteEntry, key: string, value: string)
    requires key != "name" && key != "content" && key != "type" && key != "expire"
    ensures ToEntry(Put(dnsentry, key, value)) == ToEntry(dnsentry)
  {
  }

  function DomainNamesOf(ds: seq<RemoteDomain>): (r: seq<string>)
    ensures |r| == |ds| && forall i :: 0 <= i < |ds| ==> r[i] == ds[i].name
  {
    seq(|ds|, i requires 0 <= i < |ds| => ds[i].name)
  }

  /** all_entries' fold: `memo[d['name']] = to_array(d)` for each domain in turn. */
  function AllEntriesOf(ds: seq<RemoteDomain>): seq<(string, seq<Entry>)>
  {
    if ds == [] then []
    else
      var n := |ds| - 1;
      Put(AllEntriesOf(ds[..n]), ds[n].name, ToArray(ds[n]))
  }

  /** The fold over one domain more. */
  lemma AllEntriesStep(ds: seq<RemoteDomain>, k: nat)
    requires k < |ds|
    ensures AllEntriesOf(ds[..k + 1]) == Put(AllEntriesOf(ds[..k]), ds[k].name, ToArray(ds[k]))
  {
    Seqs.PrefixOfPrefix(ds, k);
  }

  /** all_entries' inject loop over the domains of the response. */
  method FoldEntries(ds: seq<RemoteDomain>) returns (memo: seq<(string, seq<Entry>)>)
    ensures memo == AllEntriesOf(ds)
  {
    memo := [];
    var k := 0;
    while k < |ds|
      invariant 0 <= k <= |ds|
      invariant memo == AllEntriesOf(ds[..k])
    {
      AllEntriesStep(ds, k);
      memo := Put(memo, ds[k].name, ToArray(ds[k]));
      k := k + 1;
    }
    Seqs.WholePrefix(ds);
  }

  /** One key per distinct domain name, in order of first appearance. */
  lemma {:induction false} AllEntriesKeys(ds: seq<RemoteDomain>)
    ensures Keys(AllEntriesOf(ds)) == Seqs.Dedup(DomainNamesOf(ds))
  {
    if ds != [] {
      var n := |ds| - 1;
      AllEntriesKeys(ds[..n]);
      assert DomainNamesOf(ds)[..n] == DomainNamesOf(ds[..n]);
      PutKeys(AllEntriesOf(ds[..n]), ds[n].name, ToArray(ds[n]));
    }
  }

  /** Each name maps to the entries of its LAST domain in the response: later duplicates overwrite. */
  lemma {:induction false} AllEntriesLastWins(ds: seq<RemoteDomain>, i: nat)
    requires i < |ds|
    requires forall j :: i < j < |ds| ==> ds[j].name != ds[i].name
    ensures Lookup(AllEntriesOf(ds), ds[i].name) == Some(ToArray(ds[i]))
  {
    var n := |ds| - 1;
    if i < n {
      AllEntriesLastWins(ds[..n], i);
    }
  }

  /** A name is looked up successfully exactly when some domain of the response carries it. */
  lemma AllEntriesDomains(ds: seq<RemoteDomain>, name: string)
    ensures Lookup(AllEntriesOf(ds), name).Some? <==> name in DomainNamesOf(ds)
  {
    AllEntriesKeys(ds);
    LookupSomeIffKey(AllEntriesOf(ds), name);
    Seqs.DedupSameElements(DomainNamesOf(ds), name);
  }

  /** batch_get_info's answer: one domain per requested name, in the order requested. */
  function BatchAnswer(names: seq<string>, zones: map<string, seq<DnsEntry>>): (r: seq<RemoteDomain>)
    requires forall i :: 0 <= i < |names| ==> names[i] in zones
    ensures DomainNamesOf(r) == names
  {
    seq(|names|, i requires 0 <= i < |names| => Answer(names[i], zones[names[i]]))
  }

  /** The entries of a domain as get_info reports them. */
  function Stored(zones: map<string, seq<DnsEntry>>, domainname: string): seq<Entry>
    requires domainname in zones
  {
    ToArray(Answer(domainname, zones[domainname]))
  }

  const NamesError := "Unable to get domain names"
  const AllEntriesError := "Unable to get entries for all domains"

  function EntriesError(domainname: string): string { "Unable to get entries for " + domainname }
  function SetEntriesError(domain: string): string { "Unable to set entries for " + domain }

  /** Transip::Client together with the account its requests reach. */
  class Client {
    /** The account answers every request with a Transip::ApiError. */
    var failing: bool
    /** What get_domain_names answers. */
    var accountNames: seq<string>
    /** The DNS entries of each domain of the account; a domain outside it is refused. */
    var zones: map<string, seq<DnsEntry>>
    /** `@domain_names`. */
    var cachedNames: Option<seq<string>>
    /** The number of requests sent. */
    var requests: nat

    constructor(failing: bool, accountNames: seq<string>, zones: map<string, seq<DnsEntry>>)
      ensures this.failing == failing && this.accountNames == accountNames && this.zones == zones
      ensures cachedNames == None && requests == 0
    {
      this.failing := failing;
      this.accountNames := accountNames;
      this.zones := zones;
      cachedNames := None;
      requests := 0;
    }

    /** What domain_names answers in the current state. */
    function NamesAnswer(): Result<seq<string>, string>
      reads this
    {
      if cachedNames.Some? then Ok(cachedNames.value)
      else if failing then Err(NamesError)
      else Ok(accountNames)
    }

    /** domain_names: `@domain_names ||= request(:get_domain_names)`. */
    method DomainNames() returns (r: Result<seq<string>, string>)
      modifies this
      ensures r == old(NamesAnswer())
      ensures old(cachedNames).Some? ==> requests == old(requests) && cachedNames == old(cachedNames)
      ensures old(cachedNames).None? ==> requests == old(requests) + 1
      ensures old(cachedNames).None? ==> cachedNames == (if r.Ok? then Some(r.value) else None)
      ensures failing == old(failing) && accountNames == old(accountNames) && zones == old(zones)
    {
      if cachedNames.Some? {
        return Ok(cachedNames.value);
      }
      requests := requests + 1;
      if failing {
        return Err(NamesError);
      }
      cachedNames := Some(accountNames);
      r := Ok(accountNames);
    }

    /** entries: get_info of one domain, shaped by to_array. */
    method Entries(domainname: string) returns (r: Result<seq<Entry>, string>)
      modifies this
      ensures r == if old(failing) || domainname !in old(zones) then Err(EntriesError(domainname))
                   else Ok(Stored(old(zones), domainname))
      ensures requests == old(requests) + 1
      ensures failing == old(failing) && accountNames == old(accountNames) && zones == old(zones)
      ensures cachedNames == old(cachedNames)
    {
      requests := requests + 1;
      if failing || domainname !in zones {
        return Err(EntriesError(domainname));
      }
      r := Ok(ToArray(Answer(domainname, zones[domainname])));
    }

    /** all_entries: domain_names, then one batch_get_info, folded by domain name. */
    method AllEntries() returns (r: Result<seq<(string, seq<Entry>)>, string>)
      modifies this
      ensures old(NamesAnswer()).Err? ==> r == Err(NamesError)
      ensures old(NamesAnswer()).Ok? ==>
        var names := old(NamesAnswer()).value;
        r == if old(failing) || exists i :: 0 <= i < |names| && names[i] !in old(zones) then Err(AllEntriesError)
             else Ok(AllEntriesOf(BatchAnswer(names, old(zones))))
      ensures cachedNames == if old(NamesAnswer()).Ok? then Some(old(NamesAnswer()).value) else None
      ensures requests == old(requests) + (if old(cachedNames).None? then 1 else 0) + (if old(NamesAnswer()).Ok? then 1 else 0)
      ensures failing == old(failing) && accountNames == old(accountNames) && zones == old(zones)
    {
      var names := DomainNames();
      if names.Err? {
        return Err(names.error);
      }
      var ns := names.value;
      requests := requests + 1;
      if failing || exists i :: 0 <= i < |ns| && ns[i] !in zones {
        return Err(AllEntriesError);
      }
      var memo := FoldEntries(BatchAnswer(ns, zones));
      r := Ok(memo);
    }

    /** set_entries: every entry through to_dnsentry, then set_dns_entries for the domain. */
    method SetEntries(domain: string, entries: seq<Entry>) returns (r: Result<(), string>)
      modifies this
      ensures r == if old(failing) || domain !in old(zones) then Err(SetEntriesError(domain)) else Ok(())
      ensures zones == if r.Ok? then old(zones)[domain := ToDnsEntries(entries)] else old(zones)
      ensures requests == old(requests) + 1
      ensures failing == old(failing) && accountNames == old(accountNames) && cachedNames == old(cachedNames)
    {
      requests := requests + 1;
      if failing || domain !in zones {
        return Err(SetEntriesError(domain));
      }
      zones := zones[domain := ToDnsEntries(entries)];
      r := Ok(());
    }
  }

  /** After a successful set_entries, entries for that domain answers exactly what was written. */
  lemma SetThenGet(zones: map<string, seq<DnsEntry>>, domain: string, entries: seq<Entry>)
    ensures ToArray(Answer(domain, zones[domain := ToDnsEntries(entries)][domain])) == entries
  {
    EntriesRoundTrip(domain, entries);
  }
}
