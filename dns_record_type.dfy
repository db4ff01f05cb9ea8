/**
 * The older `dns_record` type: the same attributes as `transip_dns_entry`,
 * without the CAA record type, the CNAME rule or the check on the whole
 * content array.
 */
module DnsRecordType {
  import opened Wrappers
  import opened TypeRules
  import Dns
  import TransipDnsEntryType

  const Types := ["A", "AAAA", "CNAME", "MX", "NS", "TXT", "SRV"]

  const BlankError := "The content of the record must not be blank"

  /** Each value of the content array must be non-empty; the first empty one is reported. */
  function CheckContent(values: seq<string>): (r: Result<(), string>)
    ensures r.Ok? <==> forall i :: 0 <= i < |values| ==> values[i] != ""
    ensures r.Err? ==> r.error == BlankError
  {
    if values == [] then Ok(())
    else if values[0] == "" then Err(BlankError)
    else
      var rest := CheckContent(values[1..]);
      assert forall i :: 1 <= i < |values| ==> values[i] == values[1..][i - 1];
      rest
  }

  /** The resource a manifest declares, each attribute checked and munged in turn. */
  function NewResource(m: Manifest): (r: Result<Dns.Resource, string>)
    ensures r.Ok? ==>
      && r.value.name == m.title
      && r.value.fqdn == NamedFields(m).0
      && r.value.rtype in Types
      && (NamedFields(m).1.None? ==> r.value.rtype == "A")
      && (NamedFields(m).1.Some? ==> r.value.rtype == NamedFields(m).1.value)
      && r.value.content == m.content
      && (m.ttl.None? ==> r.value.ttl == 3600)
      && (r.value.ensure != Dns.Unset <==> m.ensure.Some?)
    ensures r.Ok? <==>
      && EnsureOf(m.ensure).Ok?
      && OneOf(NamedFields(m).1, Types, "A").Ok?
      && (m.content.Some? ==> CheckContent(m.content.value).Ok?)
      && Ttl(m.ttl).Ok?
  {
    var (fqdn, t) := NamedFields(m);
    var ensure := EnsureOf(m.ensure);
    var rtype := OneOf(t, Types, "A");
    var ttl := Ttl(m.ttl);
    if ensure.Err? then Err(ensure.error)
    else if rtype.Err? then Err(rtype.error)
    else if m.content.Some? && CheckContent(m.content.value).Err? then Err(CheckContent(m.content.value).error)
    else if ttl.Err? then Err(ttl.error)
    else Ok(Dns.Resource(m.title, fqdn, rtype.value, m.content, ttl.value, ensure.value))
  }

  /** CAA records exist only in the newer type; every other record type is common to both. */
  lemma CaaOnlyInTransip()
    ensures "CAA" !in Types && "CAA" in TransipDnsEntryType.Types
    ensures forall t :: t in Types ==> t in TransipDnsEntryType.Types
    ensures forall t :: t in TransipDnsEntryType.Types && t != "CAA" ==> t in Types
  {
  }

  /**
   * The two types disagree on content exactly where the newer one is
   * stricter: an empty array, or several values for a CNAME.
   */
  lemma NewerTypeIsStricter(m: Manifest)
    requires NamedFields(m).1 != Some("CAA")
    ensures TransipDnsEntryType.NewResource(m).Ok? ==> NewResource(m) == TransipDnsEntryType.NewResource(m)
    ensures NewResource(m).Ok? && !TransipDnsEntryType.NewResource(m).Ok? ==>
              m.content == Some([]) || (NewResource(m).value.rtype == "CNAME" && |m.content.value| > 1)
    ensures TransipDnsEntryType.NewResourceAsWritten(m).Ok? ==> NewResource(m) == TransipDnsEntryType.NewResourceAsWritten(m)
    ensures NewResource(m).Ok? && !TransipDnsEntryType.NewResourceAsWritten(m).Ok? ==>
              m.content == Some([]) || (NewResource(m).value.rtype == "CNAME" && exists i :: 0 <= i < |m.content.value| && |m.content.value[i]| > 1)
  {
    TransipDnsEntryType.NewResourceAsWrittenDiffers(m);
  }

  /** Unlike the newer type, an empty content array is accepted. */
  lemma EmptyContentAccepted(title: string)
    requires '/' !in title
    ensures NewResource(Manifest(title, Some("present"), None, None, Some([]), None)).Ok?
    ensures !TransipDnsEntryType.NewResource(Manifest(title, Some("present"), None, None, Some([]), None)).Ok?
  {
  }
}
