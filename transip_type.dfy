/**
 * The `transip_dns_entry` type: its record types, its content checks, and
 * the resource a manifest declares.
 */
module TransipDnsEntryType {
  import opened Wrappers
  import opened TypeRules
  import Dns

  const Types := ["A", "AAAA", "CAA", "CNAME", "MX", "NS", "SRV", "TXT"]

  const EmptyRecordError := "An empty record is not allowed"
  const CnameError := "The content of a CNAME record cannot have multiple entries"
  const BlankError := "The content of the record must not be blank"

  // ------------------------------------------------------------------
  // content, as written
  // ------------------------------------------------------------------

  /**
   * The content validate block as written. Puppet runs it on each value of
   * the array in turn, so `value.length` is the length of one STRING.
   */
  function CheckValueAsWritten(value: string, rtype: string): (r: Result<(), string>)
    ensures r.Err? <==> value == "" || (|value| > 1 && rtype == "CNAME")
    ensures r.Err? ==> r.error == if value == "" then EmptyRecordError else CnameError
  {
    if value == "" then Err(EmptyRecordError)
    else if |value| > 1 && rtype == "CNAME" then Err(CnameError)
    else Ok(())
  }

  /** The values checked in order; the first failure is raised. */
  function CheckContentAsWritten(values: seq<string>, rtype: string): (r: Result<(), string>)
    ensures r.Ok? <==> forall i :: 0 <= i < |values| ==> CheckValueAsWritten(values[i], rtype).Ok?
    ensures r.Err? ==> exists i :: 0 <= i < |values| && r == CheckValueAsWritten(values[i], rtype)
  {
    if values == [] then Ok(())
    else
      var first := CheckValueAsWritten(values[0], rtype);
      if first.Err? then first
      else
        var rest := CheckContentAsWritten(values[1..], rtype);
        assert forall i :: 1 <= i < |values| ==> values[i] == values[1..][i - 1];
        rest
  }

  /** As written, a CNAME with ONE value of two characters or more, i.e. any real host name, is rejected. */
  lemma CnameAsWrittenRejectsOneValue(value: string)
    requires |value| > 1
    ensures CheckContentAsWritten([value], "CNAME") == Err(CnameError)
  {
  }

  // ------------------------------------------------------------------
  // content, as intended
  // ------------------------------------------------------------------

  /** Each value must be non-empty; a CNAME record may hold at most one value. */
  function CheckContent(values: seq<string>, rtype: string): (r: Result<(), string>)
    ensures r.Ok? <==> (forall i :: 0 <= i < |values| ==> values[i] != "") && (rtype == "CNAME" ==> |values| <= 1)
    ensures r.Err? ==> r.error == if exists i :: 0 <= i < |values| && values[i] == "" then EmptyRecordError else CnameError
  {
    if exists i :: 0 <= i < |values| && values[i] == "" then Err(EmptyRecordError)
    else if rtype == "CNAME" && |values| > 1 then Err(CnameError)
    else Ok(())
  }

  /** The intended check accepts every one-value CNAME and rejects every CNAME with several values. */
  lemma CnameAcceptsOneValue(value: string, other: string)
    requires value != "" && other != ""
    ensures CheckContent([value], "CNAME") == Ok(())
    ensures CheckContent([value, other], "CNAME") == Err(CnameError)
  {
  }

  /** For every other type both checks agree. */
  lemma ChecksAgreeOffCname(values: seq<string>, rtype: string)
    requires rtype != "CNAME"
    ensures CheckContentAsWritten(values, rtype).Ok? <==> CheckContent(values, rtype).Ok?
  {
  }

  // ------------------------------------------------------------------
  // The resource, as written
  // ------------------------------------------------------------------

  /**
   * The resource a manifest declares, as the type is written: each
   * attribute checked and munged, content through the per-value check,
   * then the resource-level validate rejecting an empty content array.
   */
  function NewResourceAsWritten(m: Manifest): (r: Result<Dns.Resource, string>)
    ensures r.Ok? ==>
      && r.value.name == m.title
      && r.value.fqdn == NamedFields(m).0
      && r.value.rtype in Types
      && (NamedFields(m).1.None? ==> r.value.rtype == "A")
      && (NamedFields(m).1.Some? ==> r.value.rtype == NamedFields(m).1.value)
      && r.value.content == m.content
      && (m.ttl.None? ==> r.value.ttl == 3600)
      && (r.value.ensure != Dns.Unset <==> m.ensure.Some?)
    ensures r.Ok? <==>
      && EnsureOf(m.ensure).Ok?
      && OneOf(NamedFields(m).1, Types, "A").Ok?
      && (m.content.Some? ==> CheckContentAsWritten(m.content.value, OneOf(NamedFields(m).1, Types, "A").value).Ok? && m.content.value != [])
      && Ttl(m.ttl).Ok?
    ensures m.content == Some([]) && r.Err? && EnsureOf(m.ensure).Ok? && OneOf(NamedFields(m).1, Types, "A").Ok? && Ttl(m.ttl).Ok?
            ==> r.error == BlankError
  {
    var (fqdn, t) := NamedFields(m);
    var ensure := EnsureOf(m.ensure);
    var rtype := OneOf(t, Types, "A");
    var ttl := Ttl(m.ttl);
    if ensure.Err? then Err(ensure.error)
    else if rtype.Err? then Err(rtype.error)
    else if m.content.Some? && CheckContentAsWritten(m.content.value, rtype.value).Err? then Err(CheckContentAsWritten(m.content.value, rtype.value).error)
    else if ttl.Err? then Err(ttl.error)
    else if m.content.Some? && m.content.value == [] then Err(BlankError)
    else Ok(Dns.Resource(m.title, fqdn, rtype.value, m.content, ttl.value, ensure.value))
  }

  // ------------------------------------------------------------------
  // The resource, as intended
  // ------------------------------------------------------------------

  /**
   * The resource the type evidently intends: as written, but with the
   * corrected content check, so that a CNAME holds at most one value.
   */
  function NewResource(m: Manifest): (r: Result<Dns.Resource, string>)
    ensures r.Ok? ==>
      && r.value.name == m.title
      && r.value.fqdn == NamedFields(m).0
      && r.value.rtype in Types
      && (NamedFields(m).1.None? ==> r.value.rtype == "A")
      && (NamedFields(m).1.Some? ==> r.value.rtype == NamedFields(m).1.value)
      && r.value.content == m.content
      && (m.ttl.None? ==> r.value.ttl == 3600)
      && (r.value.ensure != Dns.Unset <==> m.ensure.Some?)
    ensures r.Ok? <==>
      && EnsureOf(m.ensure).Ok?
      && OneOf(NamedFields(m).1, Types, "A").Ok?
      && (m.content.Some? ==> CheckContent(m.content.value, OneOf(NamedFields(m).1, Types, "A").value).Ok? && m.content.value != [])
      && Ttl(m.ttl).Ok?
    ensures m.content == Some([]) && r.Err? && EnsureOf(m.ensure).Ok? && OneOf(NamedFields(m).1, Types, "A").Ok? && Ttl(m.ttl).Ok?
            ==> r.error == BlankError
  {
    var (fqdn, t) := NamedFields(m);
    var ensure := EnsureOf(m.ensure);
    var rtype := OneOf(t, Types, "A");
    var ttl := Ttl(m.ttl);
    if ensure.Err? then Err(ensure.error)
    else if rtype.Err? then Err(rtype.error)
    else if m.content.Some? && CheckContent(m.content.value, rtype.value).Err? then Err(CheckContent(m.content.value, rtype.value).error)
    else if ttl.Err? then Err(ttl.error)
    else if m.content.Some? && m.content.value == [] then Err(BlankError)
    else Ok(Dns.Resource(m.title, fqdn, rtype.value, m.content, ttl.value, ensure.value))
  }

  /**
   * The two resources differ only in CNAME content: for any other type, or
   * with no content, they are the same; and as written a CNAME is refused
   * only where a value is longer than one character.
   */
  lemma NewResourceAsWrittenDiffers(m: Manifest)
    ensures (OneOf(NamedFields(m).1, Types, "A") != Ok("CNAME") || m.content.None?) ==> NewResourceAsWritten(m) == NewResource(m)
    ensures NewResource(m).Ok? && !NewResourceAsWritten(m).Ok? ==>
              NewResource(m).value.rtype == "CNAME" && exists i :: 0 <= i < |m.content.value| && |m.content.value[i]| > 1
    ensures NewResourceAsWritten(m).Ok? && !NewResource(m).Ok? ==>
              NewResourceAsWritten(m).value.rtype == "CNAME" && 1 < |m.content.value|
  {
    if m.content.Some? && OneOf(NamedFields(m).1, Types, "A").Ok? && OneOf(NamedFields(m).1, Types, "A").value != "CNAME" {
      ChecksAgreeOffCname(m.content.value, OneOf(NamedFields(m).1, Types, "A").value);
    }
  }

  /** A CNAME pointing at a real host name: refused as written, built as intended. */
  lemma CnameResourceAsWrittenRefused(fqdn: string, host: string)
    requires '/' !in fqdn && |host| > 1
    ensures !NewResourceAsWritten(Manifest(fqdn + "/" + "CNAME", Some("present"), None, None, Some([host]), None)).Ok?
    ensures NewResource(Manifest(fqdn + "/" + "CNAME", Some("present"), None, None, Some([host]), None)).Ok?
  {
    var m := Manifest(fqdn + "/" + "CNAME", Some("present"), None, None, Some([host]), None);
    TitleRoundTrip(fqdn, "CNAME");
    assert NamedFields(m) == (fqdn, Some("CNAME"));
    assert OneOf(Some("CNAME"), Types, "A") == Ok("CNAME") by {
      assert Types[3] == "CNAME";
    }
    CnameAsWrittenRejectsOneValue(host);
    assert CheckContent([host], "CNAME") == Ok(());
  }
}
