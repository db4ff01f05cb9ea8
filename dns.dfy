/**
 * What both DNS providers share: the entries the TransIP API holds for a
 * domain, the records Puppet manages (one per `fqdn/type`, holding every
 * content value), the grouping that turns the first into the second, and the
 * suffix search the domain regular expressions perform.
 */
module Dns {
  import opened Wrappers
  import Text
  import Seqs

  /**
   * One DNS entry of a domain: the Hash `{name:, content:, type:, expire:}`.
   * A field is nil (None) where the remote entry did not carry it.
   */
  datatype Entry = Entry(name: Option<string>, content: Option<string>, rtype: Option<string>, expire: Option<string>)

  /** `@property_hash[:ensure]`: unset for a provider that prefetch did not create. */
  datatype Ensure = Unset | Present | Absent

  /**
   * A managed resource as the provider reads `@resource`: its title, fqdn,
   * type, content values (nil when the manifest gives none), ttl (munged to an
   * Integer) and ensure.
   */
  datatype Resource = Resource(name: string, fqdn: string, rtype: string, content: Option<seq<string>>, ttl: int, ensure: Ensure)

  /** What `@property_hash` holds besides ensure. */
  datatype PropertyValues =
    | NoValues              // a provider prefetch did not create
    | Found(record: Record) // the record instances found
    | Copied(resource: Resource) // `@resource.to_hash`, after a flush

  /** `@property_hash`. */
  datatype Properties = Properties(ensure: Ensure, values: PropertyValues)

  /** `"#{x}"`: nil interpolates as the empty string. */
  function Str(o: Option<string>): string
  {
    if o.None? then "" else o.value
  }

  /** The fully qualified name of entry `name` in `domain`: `'@'` stands for the domain itself. */
  function Fqdn(name: string, domain: string): (r: string)
    ensures name == "@" ==> r == domain
    ensures name != "@" ==> Text.EndsWith(r, "." + domain) && |name| < |r| && r[..|name|] == name
  {
    if name == "@" then domain else name + "." + domain
  }

  /** An entry seen as a member of a record: its record key `fqdn/type` and its fields. */
  datatype Instance = Instance(name: string, fqdn: string, content: Option<string>, rtype: Option<string>, expire: Option<string>)

  /** A managed record: the key, its fqdn, every member's content in order, its type and its ttl. */
  datatype Record = Record(name: string, fqdn: string, content: seq<Option<string>>, rtype: Option<string>, ttl: Option<string>)

  /** chomp(domain) takes the domain off `p.domain` and leaves the dot, whatever the domain. */
  lemma ChompDomain(p: string, domain: string)
    ensures Text.Chomp(p + "." + domain, domain) == p + "."
  {
    var s := p + "." + domain;
    if domain == "" {
      assert s == p + ".";
      assert s[|s| - 1] == '.';
    } else if domain == "\n" {
      assert s[|s| - 2..] == ".\n";
      assert !Text.EndsWith(s, "\r\n");
      assert s[|s| - 1..] == "\n";
      assert s[..|s| - 1] == p + ".";
    } else {
      Text.ChompSuffix(p + ".", domain);
    }
  }

  /** An entry of `domain` seen as a record member: it gains its fqdn, and its name becomes the record key `fqdn/type`. */
  function ToInstance(e: Entry, domain: string): (r: Instance)
    ensures r.fqdn == Fqdn(Str(e.name), domain) && r.name == r.fqdn + "/" + Str(e.rtype)
    ensures r.content == e.content && r.rtype == e.rtype && r.expire == e.expire
  {
    var fqdn := Fqdn(Str(e.name), domain);
    Instance(fqdn + "/" + Str(e.rtype), fqdn, e.content, e.rtype, e.expire)
  }

  function ToInstances(es: seq<Entry>, domain: string): (r: seq<Instance>)
    ensures |r| == |es| && forall i :: 0 <= i < |es| ==> r[i] == ToInstance(es[i], domain)
  {
    seq(|es|, i requires 0 <= i < |es| => ToInstance(es[i], domain))
  }

  /** One entry more in the prefix is one instance more at the end. */
  lemma ToInstancesPrefix(es: seq<Entry>, m: nat, domain: string)
    requires m < |es|
    ensures ToInstances(es[..m + 1], domain) == ToInstances(es[..m], domain) + [ToInstance(es[m], domain)]
  {
    var a := ToInstances(es[..m], domain);
    var b := ToInstances(es[..m + 1], domain);
    forall i | 0 <= i < |a| ensures b[i] == a[i] {
      assert es[..m + 1][i] == es[..m][i];
    }
    Seqs.ExtendedBy(a, b, ToInstance(es[m], domain));
  }

  // ------------------------------------------------------------------
  // Grouping entries into records
  // ------------------------------------------------------------------

  function NamesOf(xs: seq<Instance>): (r: seq<string>)
    ensures |r| == |xs| && forall i :: 0 <= i < |xs| ==> r[i] == xs[i].name
  {
    seq(|xs|, i requires 0 <= i < |xs| => xs[i].name)
  }

  function RecordNames(rs: seq<Record>): (r: seq<string>)
    ensures |r| == |rs| && forall i :: 0 <= i < |rs| ==> r[i] == rs[i].name
  {
    seq(|rs|, i requires 0 <= i < |rs| => rs[i].name)
  }

  /** The members of group k, in the order they occur in xs. */
  function Members(xs: seq<Instance>, k: string): (r: seq<Instance>)
    ensures forall i :: 0 <= i < |r| ==> r[i].name == k && r[i] in xs
  {
    if xs == [] then []
    else
      var n := |xs| - 1;
      var ms := Members(xs[..n], k);
      assert forall i :: 0 <= i < |ms| ==> ms[i] in xs[..n] && ms[i] in xs;
      assert forall i :: 0 <= i < n ==> xs[..n][i] == xs[i];
      if xs[n].name == k then ms + [xs[n]] else ms
  }

  /** Every instance of key k is a member of group k. */
  lemma {:induction false} MembersHas(xs: seq<Instance>, x: Instance)
    requires x in xs
    ensures x in Members(xs, x.name)
  {
    var n := |xs| - 1;
    if xs[n] != x {
      assert xs == xs[..n] + [xs[n]];
      assert x in xs[..n];
      MembersHas(xs[..n], x);
    }
  }

  function Contents(ms: seq<Instance>): (r: seq<Option<string>>)
    ensures |r| == |ms| && forall i :: 0 <= i < |ms| ==> r[i] == ms[i].content
  {
    seq(|ms|, i requires 0 <= i < |ms| => ms[i].content)
  }

  function Types(ms: seq<Instance>): (r: seq<Option<string>>)
    ensures |r| == |ms| && forall i :: 0 <= i < |ms| ==> r[i] == ms[i].rtype
  {
    seq(|ms|, i requires 0 <= i < |ms| => ms[i].rtype)
  }

  function Expires(ms: seq<Instance>): (r: seq<Option<string>>)
    ensures |r| == |ms| && forall i :: 0 <= i < |ms| ==> r[i] == ms[i].expire
  {
    seq(|ms|, i requires 0 <= i < |ms| => ms[i].expire)
  }

  /** The value `memo[k] ||= e[k]` ends with: the first non-nil one. */
  function FirstSet(os: seq<Option<string>>): (r: Option<string>)
    ensures r.None? <==> forall i :: 0 <= i < |os| ==> os[i].None?
    ensures r.Some? ==> exists i :: 0 <= i < |os| && os[i] == r && forall j :: 0 <= j < i ==> os[j].None?
  {
    if os == [] then None
    else if os[0].Some? then os[0]
    else
      var r := FirstSet(os[1..]);
      assert r.Some? ==> exists i :: 1 <= i < |os| && os[i] == r && forall j :: 0 <= j < i ==> os[j].None? by {
        if r.Some? {
          var i :| 0 <= i < |os[1..]| && os[1..][i] == r && forall j :: 0 <= j < i ==> os[1..][j].None?;
          assert forall j :: 1 <= j < i + 1 ==> os[j] == os[1..][j - 1];
        }
      }
      r
  }

  lemma FirstSetOne(a: Option<string>)
    ensures FirstSet([a]) == a
  {
    assert [a][1..] == [];
  }

  lemma FirstSetPair(a: Option<string>, b: Option<string>)
    ensures FirstSet([a, b]) == if a.Some? then a else b
  {
    assert [a, b][1..] == [b] && [b][1..] == [];
  }

  /** Which member supplies a record's type and ttl. */
  datatype FieldPolicy =
    | FirstNonNil   // `memo[k] ||= e[k]`: the first member that has one
    | FirstMember   // the member that created the record

  /** The record the members ms of group k form. */
  function RecordOf(k: string, ms: seq<Instance>, policy: FieldPolicy): Record
  {
    if ms == [] then Record(k, "", [], None, None)
    else if policy == FirstNonNil then Record(k, ms[0].fqdn, Contents(ms), FirstSet(Types(ms)), FirstSet(Expires(ms)))
    else Record(k, ms[0].fqdn, Contents(ms), ms[0].rtype, ms[0].expire)
  }

  /** One record per distinct key, in order of first appearance, holding its group's contents in order. */
  function Collapse(xs: seq<Instance>, policy: FieldPolicy): (r: seq<Record>)
    ensures RecordNames(r) == Seqs.Dedup(NamesOf(xs))
  {
    var ks := Seqs.Dedup(NamesOf(xs));
    seq(|ks|, i requires 0 <= i < |ks| => RecordOf(ks[i], Members(xs, ks[i]), policy))
  }

  /** Instances that all share the key k collapse into the one record of k. */
  lemma CollapseOneKey(xs: seq<Instance>, k: string, policy: FieldPolicy)
    requires Seqs.Dedup(NamesOf(xs)) == [k]
    ensures Collapse(xs, policy) == [RecordOf(k, Members(xs, k), policy)]
  {
  }

  lemma MembersOne(x: Instance)
    ensures NamesOf([x]) == [x.name]
    ensures Members([x], x.name) == [x]
    ensures Contents([x]) == [x.content]
  {
    assert [x][..0] == [];
  }

  lemma MembersPair(x1: Instance, x2: Instance)
    requires x1.name == x2.name
    ensures NamesOf([x1, x2]) == [x1.name, x1.name]
    ensures Members([x1, x2], x1.name) == [x1, x2]
    ensures Contents([x1, x2]) == [x1.content, x2.content]
    ensures Types([x1, x2]) == [x1.rtype, x2.rtype] && Expires([x1, x2]) == [x1.expire, x2.expire]
  {
    assert [x1, x2][..1] == [x1] && [x1][..0] == [];
    assert Members([x1], x1.name) == [x1];
  }

  /** A record taking one more member: `content << c`, and the policy's choice of type and ttl. */
  function Absorb(r: Record, x: Instance, policy: FieldPolicy): Record
  {
    if policy == FirstNonNil then
      r.(content := r.content + [x.content],
         rtype := if r.rtype.None? then x.rtype else r.rtype,
         ttl := if r.ttl.None? then x.expire else r.ttl)
    else r.(content := r.content + [x.content])
  }

  lemma {:induction false} FirstSetSnoc(os: seq<Option<string>>, o: Option<string>)
    ensures FirstSet(os + [o]) == if FirstSet(os).None? then o else FirstSet(os)
  {
    if os != [] {
      assert (os + [o])[1..] == os[1..] + [o];
      FirstSetSnoc(os[1..], o);
    }
  }

  lemma RecordOfSnoc(k: string, ms: seq<Instance>, x: Instance, policy: FieldPolicy)
    requires ms != []
    ensures RecordOf(k, ms + [x], policy) == Absorb(RecordOf(k, ms, policy), x, policy)
  {
    assert Contents(ms + [x]) == Contents(ms) + [x.content];
    assert Types(ms + [x]) == Types(ms) + [x.rtype];
    assert Expires(ms + [x]) == Expires(ms) + [x.expire];
    FirstSetSnoc(Types(ms), x.rtype);
    FirstSetSnoc(Expires(ms), x.expire);
  }

  lemma MembersSnoc(xs: seq<Instance>, x: Instance, k: string)
    ensures Members(xs + [x], k) == Members(xs, k) + (if x.name == k then [x] else [])
  {
    assert (xs + [x])[..|xs|] == xs;
  }

  /**
   * Adding one instance to the grouped records: its content joins the record
   * with its key, where there is one, or it starts a new record at the end.
   */
  lemma CollapseSnoc(xs: seq<Instance>, x: Instance, policy: FieldPolicy)
    ensures x.name !in NamesOf(xs) ==> Collapse(xs + [x], policy) == Collapse(xs, policy) + [RecordOf(x.name, [x], policy)]
    ensures x.name in NamesOf(xs) ==>
      var j := Seqs.FirstIndex(RecordNames(Collapse(xs, policy)), x.name);
      Collapse(xs + [x], policy) == Collapse(xs, policy)[j := Absorb(Collapse(xs, policy)[j], x, policy)]
  {
    if x.name in NamesOf(xs) {
      CollapseSnocJoin(xs, x, policy);
    } else {
      CollapseSnocNew(xs, x, policy);
    }
  }

  lemma NamesOfSnoc(xs: seq<Instance>, x: Instance)
    ensures NamesOf(xs + [x]) == NamesOf(xs) + [x.name]
    ensures NamesOf(xs + [x])[..|xs|] == NamesOf(xs)
  {
  }

  lemma CollapseSnocNew(xs: seq<Instance>, x: Instance, policy: FieldPolicy)
    requires x.name !in NamesOf(xs)
    ensures Collapse(xs + [x], policy) == Collapse(xs, policy) + [RecordOf(x.name, [x], policy)]
  {
    var old_ := Collapse(xs, policy);
    var new_ := Collapse(xs + [x], policy);
    var ks := Seqs.Dedup(NamesOf(xs));
    assert |old_| == |ks|;
    CollapseSnocLast(xs, x, policy);
    forall i | 0 <= i < |old_| ensures new_[i] == old_[i] {
      assert ks[i] in NamesOf(xs);
      CollapseSnocKeeps(xs, x, policy, i);
    }
    Seqs.ExtendedBy(old_, new_, RecordOf(x.name, [x], policy));
  }

  /** A new key adds one record, for that key alone, at the end. */
  lemma CollapseSnocLast(xs: seq<Instance>, x: Instance, policy: FieldPolicy)
    requires x.name !in NamesOf(xs)
    ensures |Collapse(xs + [x], policy)| == |Collapse(xs, policy)| + 1
    ensures Collapse(xs + [x], policy)[|Collapse(xs, policy)|] == RecordOf(x.name, [x], policy)
  {
    var ks := Seqs.Dedup(NamesOf(xs));
    var ks' := Seqs.Dedup(NamesOf(xs + [x]));
    KeysSnocNew(xs, x);
    assert ks'[|ks|] == x.name;
    MembersSnocNew(xs, x);
    assert Collapse(xs + [x], policy)[|ks|] == RecordOf(ks'[|ks|], Members(xs + [x], ks'[|ks|]), policy);
  }

  lemma KeysSnocNew(xs: seq<Instance>, x: Instance)
    requires x.name !in NamesOf(xs)
    ensures Seqs.Dedup(NamesOf(xs + [x])) == Seqs.Dedup(NamesOf(xs)) + [x.name]
  {
    NamesOfSnoc(xs, x);
    Seqs.DedupSnoc(NamesOf(xs), x.name);
  }

  lemma MembersSnocNew(xs: seq<Instance>, x: Instance)
    requires x.name !in NamesOf(xs)
    ensures Members(xs + [x], x.name) == [x]
  {
    MembersSnoc(xs, x, x.name);
    MembersAbsent(xs, x.name);
  }

  /** The records of keys other than the new instance's are untouched. */
  lemma CollapseSnocKeeps(xs: seq<Instance>, x: Instance, policy: FieldPolicy, i: nat)
    requires i < |Seqs.Dedup(NamesOf(xs))|
    requires Seqs.Dedup(NamesOf(xs))[i] != x.name
    ensures i < |Collapse(xs + [x], policy)|
    ensures Collapse(xs + [x], policy)[i] == Collapse(xs, policy)[i]
  {
    NamesOfSnoc(xs, x);
    Seqs.DedupSnoc(NamesOf(xs), x.name);
    var ks := Seqs.Dedup(NamesOf(xs));
    var ks' := Seqs.Dedup(NamesOf(xs + [x]));
    assert ks'[i] == ks[i];
    var k := ks[i];
    MembersSnoc(xs, x, k);
    assert Members(xs + [x], k) == Members(xs, k);
    assert Collapse(xs + [x], policy)[i] == RecordOf(k, Members(xs + [x], k), policy);
    assert Collapse(xs, policy)[i] == RecordOf(k, Members(xs, k), policy);
  }

  lemma {:induction false} MembersAbsent(xs: seq<Instance>, k: string)
    requires k !in NamesOf(xs)
    ensures Members(xs, k) == []
  {
    if xs != [] {
      var n := |xs| - 1;
      assert NamesOf(xs)[n] == xs[n].name;
      assert NamesOf(xs[..n]) == NamesOf(xs)[..n];
      MembersAbsent(xs[..n], k);
    }
  }

  lemma CollapseSnocJoin(xs: seq<Instance>, x: Instance, policy: FieldPolicy)
    requires x.name in NamesOf(xs)
    ensures var j := Seqs.FirstIndex(RecordNames(Collapse(xs, policy)), x.name);
      Collapse(xs + [x], policy) == Collapse(xs, policy)[j := Absorb(Collapse(xs, policy)[j], x, policy)]
  {
    var old_ := Collapse(xs, policy);
    var new_ := Collapse(xs + [x], policy);
    var j := Seqs.FirstIndex(RecordNames(old_), x.name);
    CollapseSnocJoinIndex(xs, x, policy);
    CollapseSnocJoinAt(xs, x, policy, j);
    forall i | 0 <= i < |old_| && i != j ensures new_[i] == old_[i] {
      CollapseSnocKeeps(xs, x, policy, i);
    }
    Seqs.UpdatedAt(old_, new_, j, Absorb(old_[j], x, policy));
  }

  /** A repeated key leaves the number of records alone and is found among the old keys. */
  lemma CollapseSnocJoinIndex(xs: seq<Instance>, x: Instance, policy: FieldPolicy)
    requires x.name in NamesOf(xs)
    ensures var j := Seqs.FirstIndex(RecordNames(Collapse(xs, policy)), x.name);
      var ks := Seqs.Dedup(NamesOf(xs));
      |Collapse(xs + [x], policy)| == |Collapse(xs, policy)| == |ks| && j < |ks| && ks[j] == x.name
  {
    NamesOfSnoc(xs, x);
    Seqs.DedupSnoc(NamesOf(xs), x.name);
  }

  /** The record of a key already present absorbs the new instance. */
  lemma CollapseSnocJoinAt(xs: seq<Instance>, x: Instance, policy: FieldPolicy, i: nat)
    requires x.name in NamesOf(xs)
    requires i < |Seqs.Dedup(NamesOf(xs))| && Seqs.Dedup(NamesOf(xs))[i] == x.name
    ensures i < |Collapse(xs + [x], policy)|
    ensures Collapse(xs + [x], policy)[i] == Absorb(Collapse(xs, policy)[i], x, policy)
  {
    NamesOfSnoc(xs, x);
    Seqs.DedupSnoc(NamesOf(xs), x.name);
    var ks := Seqs.Dedup(NamesOf(xs));
    var ks' := Seqs.Dedup(NamesOf(xs + [x]));
    assert ks' == ks;
    MembersSnoc(xs, x, x.name);
    assert Members(xs + [x], x.name) == Members(xs, x.name) + [x];
    MembersPresent(xs, x.name);
    RecordOfSnoc(x.name, Members(xs, x.name), x, policy);
    assert Collapse(xs + [x], policy)[i] == RecordOf(x.name, Members(xs + [x], x.name), policy);
    assert Collapse(xs, policy)[i] == RecordOf(x.name, Members(xs, x.name), policy);
  }

  lemma {:induction false} MembersPresent(xs: seq<Instance>, k: string)
    requires k in NamesOf(xs)
    ensures Members(xs, k) != []
  {
    var n := |xs| - 1;
    if xs[n].name != k {
      assert NamesOf(xs) == NamesOf(xs[..n]) + [xs[n].name];
      MembersPresent(xs[..n], k);
    }
  }

  function TotalContent(rs: seq<Record>): nat
  {
    if rs == [] then 0 else TotalContent(rs[..|rs| - 1]) + |rs[|rs| - 1].content|
  }

  lemma {:induction false} TotalContentUpdate(rs: seq<Record>, j: nat, r: Record)
    requires j < |rs|
    ensures TotalContent(rs[j := r]) == TotalContent(rs) - |rs[j].content| + |r.content|
  {
    var n := |rs| - 1;
    if j < n {
      assert rs[j := r][..n] == rs[..n][j := r];
      TotalContentUpdate(rs[..n], j, r);
    } else {
      assert rs[j := r][..n] == rs[..n];
    }
  }

  lemma TotalContentSnoc(rs: seq<Record>, r: Record)
    ensures TotalContent(rs + [r]) == TotalContent(rs) + |r.content|
  {
    assert (rs + [r])[..|rs|] == rs;
  }

  lemma AbsorbContent(r: Record, x: Instance, policy: FieldPolicy)
    ensures |Absorb(r, x, policy).content| == |r.content| + 1
  {
  }

  lemma TotalContentStep(ys: seq<Instance>, x: Instance, policy: FieldPolicy)
    ensures TotalContent(Collapse(ys + [x], policy)) == TotalContent(Collapse(ys, policy)) + 1
  {
    if x.name in NamesOf(ys) {
      TotalContentJoin(ys, x, policy);
    } else {
      TotalContentNew(ys, x, policy);
    }
  }

  lemma TotalContentJoin(ys: seq<Instance>, x: Instance, policy: FieldPolicy)
    requires x.name in NamesOf(ys)
    ensures TotalContent(Collapse(ys + [x], policy)) == TotalContent(Collapse(ys, policy)) + 1
  {
    var old_ := Collapse(ys, policy);
    CollapseSnocJoin(ys, x, policy);
    var j := Seqs.FirstIndex(RecordNames(old_), x.name);
    TotalContentUpdate(old_, j, Absorb(old_[j], x, policy));
    AbsorbContent(old_[j], x, policy);
  }

  lemma TotalContentNew(ys: seq<Instance>, x: Instance, policy: FieldPolicy)
    requires x.name !in NamesOf(ys)
    ensures TotalContent(Collapse(ys + [x], policy)) == TotalContent(Collapse(ys, policy)) + 1
  {
    var old_ := Collapse(ys, policy);
    CollapseSnocNew(ys, x, policy);
    TotalContentSnoc(old_, RecordOf(x.name, [x], policy));
    assert Contents([x]) == [x.content];
  }

  /** Grouping loses no value and invents none: the records hold one content per instance. */
  lemma {:induction false} CollapseKeepsEveryContent(xs: seq<Instance>, policy: FieldPolicy)
    ensures TotalContent(Collapse(xs, policy)) == |xs|
  {
    if xs != [] {
      var n := |xs| - 1;
      var ys := xs[..n];
      assert xs == ys + [xs[n]];
      CollapseKeepsEveryContent(ys, policy);
      TotalContentStep(ys, xs[n], policy);
    }
  }

  // ------------------------------------------------------------------
  // Entries at one key, and the write-back list
  // ------------------------------------------------------------------

  /** The entry sits at the record key `(name, type)` a flush rewrites. */
  predicate AtKey(e: Entry, name: string, rtype: string)
  {
    e.name == Some(name) && e.rtype == Some(rtype)
  }

  /** The entries not at the key, in their order. */
  function Keep(es: seq<Entry>, name: string, rtype: string): (r: seq<Entry>)
    ensures |r| <= |es|
    ensures forall i :: 0 <= i < |r| ==> !AtKey(r[i], name, rtype) && r[i] in es
    ensures forall i :: 0 <= i < |es| && !AtKey(es[i], name, rtype) ==> es[i] in r
  {
    if es == [] then []
    else
      var n := |es| - 1;
      var k := Keep(es[..n], name, rtype);
      assert forall i :: 0 <= i < n ==> es[..n][i] == es[i];
      if AtKey(es[n], name, rtype) then k else k + [es[n]]
  }

  lemma KeepAll(es: seq<Entry>, name: string, rtype: string)
    requires forall i :: 0 <= i < |es| ==> !AtKey(es[i], name, rtype)
    ensures Keep(es, name, rtype) == es
  {
    if es != [] {
      KeepAll(es[..|es| - 1], name, rtype);
      assert es == es[..|es| - 1] + [es[|es| - 1]];
    }
  }

  lemma KeepNone(es: seq<Entry>, name: string, rtype: string)
    requires forall i :: 0 <= i < |es| ==> AtKey(es[i], name, rtype)
    ensures Keep(es, name, rtype) == []
  {
    if es != [] {
      KeepNone(es[..|es| - 1], name, rtype);
    }
  }

  lemma {:induction false} KeepAppend(a: seq<Entry>, b: seq<Entry>, name: string, rtype: string)
    ensures Keep(a + b, name, rtype) == Keep(a, name, rtype) + Keep(b, name, rtype)
  {
    if b != [] {
      var n := |b| - 1;
      assert (a + b)[..|a| + n] == a + b[..n];
      assert (a + b)[|a| + n] == b[n];
      KeepAppend(a, b[..n], name, rtype);
    } else {
      assert a + b == a;
    }
  }

  /** The entries at the key, in their order. */
  function AtKeyEntries(es: seq<Entry>, name: string, rtype: string): (r: seq<Entry>)
    ensures |r| <= |es|
    ensures forall i :: 0 <= i < |r| ==> AtKey(r[i], name, rtype) && r[i] in es
    ensures forall i :: 0 <= i < |es| && AtKey(es[i], name, rtype) ==> es[i] in r
  {
    if es == [] then []
    else
      var n := |es| - 1;
      var k := AtKeyEntries(es[..n], name, rtype);
      assert forall i :: 0 <= i < |k| ==> k[i] in es[..n] && k[i] in es;
      assert forall i :: 0 <= i < n ==> es[..n][i] == es[i];
      if AtKey(es[n], name, rtype) then k + [es[n]] else k
  }

  /**
   * The entries at the key and the entries reject keeps split the list: every
   * entry goes to exactly one side, as often as it occurs.
   */
  lemma {:induction false} AtKeyEntriesPartition(es: seq<Entry>, name: string, rtype: string)
    ensures multiset(AtKeyEntries(es, name, rtype)) + multiset(Keep(es, name, rtype)) == multiset(es)
    ensures |AtKeyEntries(es, name, rtype)| + |Keep(es, name, rtype)| == |es|
  {
    if es != [] {
      var n := |es| - 1;
      AtKeyEntriesPartition(es[..n], name, rtype);
      assert es == es[..n] + [es[n]];
      assert multiset(es) == multiset(es[..n]) + multiset([es[n]]);
    }
  }

  /** Filtering one entry: it is kept exactly when it is at the key. */
  lemma AtKeyEntriesSingle(e: Entry, name: string, rtype: string)
    ensures AtKeyEntries([e], name, rtype) == if AtKey(e, name, rtype) then [e] else []
  {
    assert [e][..0] == [];
  }

  lemma {:induction false} AtKeyEntriesAppend(a: seq<Entry>, b: seq<Entry>, name: string, rtype: string)
    ensures AtKeyEntries(a + b, name, rtype) == AtKeyEntries(a, name, rtype) + AtKeyEntries(b, name, rtype)
  {
    if b != [] {
      var n := |b| - 1;
      assert (a + b)[..|a| + n] == a + b[..n];
      assert (a + b)[|a| + n] == b[n];
      AtKeyEntriesAppend(a, b[..n], name, rtype);
    } else {
      assert a + b == a;
    }
  }

  lemma AtKeyEntriesNone(es: seq<Entry>, name: string, rtype: string)
    requires forall i :: 0 <= i < |es| ==> !AtKey(es[i], name, rtype)
    ensures AtKeyEntries(es, name, rtype) == []
  {
    if es != [] {
      AtKeyEntriesNone(es[..|es| - 1], name, rtype);
    }
  }

  lemma AtKeyEntriesAll(es: seq<Entry>, name: string, rtype: string)
    requires forall i :: 0 <= i < |es| ==> AtKey(es[i], name, rtype)
    ensures AtKeyEntries(es, name, rtype) == es
  {
    if es != [] {
      AtKeyEntriesAll(es[..|es| - 1], name, rtype);
      assert es == es[..|es| - 1] + [es[|es| - 1]];
    }
  }

  /** The fresh entries a flush writes for record `(name, type)`: one per content, in order. */
  function Added(name: string, rtype: string, ttl: string, contents: seq<string>): (r: seq<Entry>)
    ensures |r| == |contents|
    ensures forall i :: 0 <= i < |r| ==> r[i] == Entry(Some(name), Some(contents[i]), Some(rtype), Some(ttl))
  {
    seq(|contents|, i requires 0 <= i < |contents| => Entry(Some(name), Some(contents[i]), Some(rtype), Some(ttl)))
  }

  function EntryContents(es: seq<Entry>): (r: seq<Option<string>>)
    ensures |r| == |es| && forall i :: 0 <= i < |es| ==> r[i] == es[i].content
  {
    seq(|es|, i requires 0 <= i < |es| => es[i].content)
  }

  /** The error a flush runs into when content is nil: `nil.to_set`. */
  const NoContentError := "undefined method `to_set' for nil"

  /** The loop of flush: one new entry `(name, c, type, ttl)` appended for each value c in turn. */
  method AddContents(entries: seq<Entry>, name: string, rtype: string, ttl: string, cs: seq<string>) returns (r: seq<Entry>)
    ensures r == entries + Added(name, rtype, ttl, cs)
  {
    r := entries;
    var i := 0;
    while i < |cs|
      invariant 0 <= i <= |cs|
      invariant r == entries + Added(name, rtype, ttl, cs[..i])
    {
      assert Added(name, rtype, ttl, cs[..i + 1]) == Added(name, rtype, ttl, cs[..i]) + [Entry(Some(name), Some(cs[i]), Some(rtype), Some(ttl))];
      r := r + [Entry(Some(name), Some(cs[i]), Some(rtype), Some(ttl))];
      i := i + 1;
    }
    assert cs[..i] == cs;
  }

  // ------------------------------------------------------------------
  // The domain regular expressions
  // ------------------------------------------------------------------

  /**
   * The alternatives of `(#{names.join('|')})`. Dots are escaped, so each name
   * matches itself; an empty list leaves the group `()`, which matches "".
   */
  function Alternatives(names: seq<string>): (r: seq<string>)
    ensures r != []
    ensures forall a :: a in names ==> a in r
    ensures forall a :: a in r ==> a in names || (names == [] && a == "")
    ensures names == [] ==> r == [""]
  {
    if names == [] then [""] else names
  }

  predicate SuffixIn(fqdn: string, alts: seq<string>, k: nat)
    requires k <= |fqdn|
  {
    fqdn[k..] in alts
  }

  /** What `^.*?(alts)$` captures, trying start positions k, k+1, ... : the earliest one wins. */
  function LazyFrom(fqdn: string, alts: seq<string>, k: nat): (r: Option<string>)
    requires k <= |fqdn|
    ensures r.None? <==> forall j :: k <= j <= |fqdn| ==> !SuffixIn(fqdn, alts, j)
    ensures r.Some? ==> exists j :: k <= j <= |fqdn| && SuffixIn(fqdn, alts, j) && r.value == fqdn[j..]
                          && forall i :: k <= i < j ==> !SuffixIn(fqdn, alts, i)
    decreases |fqdn| - k
  {
    if SuffixIn(fqdn, alts, k) then Some(fqdn[k..])
    else if k == |fqdn| then None
    else LazyFrom(fqdn, alts, k + 1)
  }

  /** What `^.*(alts)$` captures: greedy `.*` backs off from the end, so the latest start wins. */
  function GreedyFrom(fqdn: string, alts: seq<string>, k: nat): (r: Option<string>)
    requires k <= |fqdn|
    ensures r.None? <==> forall j :: 0 <= j <= k ==> !SuffixIn(fqdn, alts, j)
    ensures r.Some? ==> exists j :: 0 <= j <= k && SuffixIn(fqdn, alts, j) && r.value == fqdn[j..]
                          && forall i :: j < i <= k ==> !SuffixIn(fqdn, alts, i)
  {
    if SuffixIn(fqdn, alts, k) then Some(fqdn[k..])
    else if k == 0 then None
    else GreedyFrom(fqdn, alts, k - 1)
  }

  lemma SuffixPosition(fqdn: string, a: string)
    requires Text.EndsWith(fqdn, a)
    ensures fqdn[|fqdn| - |a|..] == a
  {
  }

  /**
   * The lazy pattern selects the LONGEST alternative that is a suffix of the
   * fqdn (a suffix of characters, not of labels), and fails only when none is.
   */
  lemma LazyIsLongestSuffix(fqdn: string, names: seq<string>)
    ensures var r := LazyFrom(fqdn, Alternatives(names), 0);
      && (r.None? <==> forall a :: a in Alternatives(names) ==> !Text.EndsWith(fqdn, a))
      && (r.Some? ==> r.value in Alternatives(names) && Text.EndsWith(fqdn, r.value)
                      && forall a :: a in Alternatives(names) && Text.EndsWith(fqdn, a) ==> |a| <= |r.value|)
  {
    var alts := Alternatives(names);
    forall a | a in alts && Text.EndsWith(fqdn, a) ensures LazyFrom(fqdn, alts, 0).Some? && |a| <= |LazyFrom(fqdn, alts, 0).value| {
      LazyReaches(fqdn, alts, a);
    }
    LazyMatches(fqdn, alts);
  }

  /** An alternative that ends the fqdn is found, and the capture is at least as long. */
  lemma LazyReaches(fqdn: string, alts: seq<string>, a: string)
    requires a in alts && Text.EndsWith(fqdn, a)
    ensures LazyFrom(fqdn, alts, 0).Some? && |a| <= |LazyFrom(fqdn, alts, 0).value|
  {
    var k := |fqdn| - |a|;
    assert SuffixIn(fqdn, alts, k);
    var r := LazyFrom(fqdn, alts, 0);
    var j :| 0 <= j <= |fqdn| && SuffixIn(fqdn, alts, j) && r.value == fqdn[j..]
             && forall i :: 0 <= i < j ==> !SuffixIn(fqdn, alts, i);
    assert j <= k;
  }

  /** The capture is an alternative and ends the fqdn. */
  lemma LazyMatches(fqdn: string, alts: seq<string>)
    ensures var r := LazyFrom(fqdn, alts, 0); r.Some? ==> r.value in alts && Text.EndsWith(fqdn, r.value)
  {
    var r := LazyFrom(fqdn, alts, 0);
    if r.Some? {
      var j :| 0 <= j <= |fqdn| && SuffixIn(fqdn, alts, j) && r.value == fqdn[j..];
      assert |fqdn| - |r.value| == j;
    }
  }

  /** The greedy pattern selects the SHORTEST alternative that is a suffix of the fqdn. */
  lemma GreedyIsShortestSuffix(fqdn: string, names: seq<string>)
    ensures var r := GreedyFrom(fqdn, Alternatives(names), |fqdn|);
      && (r.None? <==> forall a :: a in Alternatives(names) ==> !Text.EndsWith(fqdn, a))
      && (r.Some? ==> r.value in Alternatives(names) && Text.EndsWith(fqdn, r.value)
                      && forall a :: a in Alternatives(names) && Text.EndsWith(fqdn, a) ==> |r.value| <= |a|)
  {
    var alts := Alternatives(names);
    var r := GreedyFrom(fqdn, alts, |fqdn|);
    forall a | a in alts && Text.EndsWith(fqdn, a) ensures r.Some? && |r.value| <= |a| {
      assert SuffixIn(fqdn, alts, |fqdn| - |a|);
      if r.Some? {
        var j :| 0 <= j <= |fqdn| && SuffixIn(fqdn, alts, j) && r.value == fqdn[j..]
                 && forall i :: j < i <= |fqdn| ==> !SuffixIn(fqdn, alts, i);
        assert j >= |fqdn| - |a|;
      }
    }
    if r.Some? {
      var j :| 0 <= j <= |fqdn| && SuffixIn(fqdn, alts, j) && r.value == fqdn[j..];
      assert Text.EndsWith(fqdn, r.value);
    }
  }

  /** With no managed domain at all, both patterns still match, capturing "". */
  lemma NoNamesMatchEmpty(fqdn: string)
    ensures LazyFrom(fqdn, Alternatives([]), 0) == Some("")
    ensures GreedyFrom(fqdn, Alternatives([]), |fqdn|) == Some("")
  {
    assert fqdn[|fqdn|..] == "";
    assert SuffixIn(fqdn, [""], |fqdn|);
  }
}
