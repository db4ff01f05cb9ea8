/**
 * The attribute rules the `transip_dns_entry` and `dns_record` types share:
 * the title patterns, the ttl check and munge, the ensure values, a value
 * set for the record type, and `insync?` on content.
 */
module TypeRules {
  import opened Wrappers
  import Text
  import Dns

  // ------------------------------------------------------------------
  // Title patterns
  // ------------------------------------------------------------------

  /**
   * The title patterns `^(([^/]*)/(.*))$` and `^((.*))$`: a title holding a
   * `/` splits at its FIRST `/` into fqdn and type; any other title is all
   * fqdn and leaves the type to its default.
   */
  function TitleFields(title: string): (r: (string, Option<string>))
    ensures r.1.None? <==> '/' !in title
    ensures r.1.None? ==> r.0 == title
    ensures r.1.Some? ==> title == r.0 + "/" + r.1.value && '/' !in r.0
  {
    if '/' in title then
      var i := SlashAt(title);
      (title[..i], Some(title[i + 1..]))
    else (title, None)
  }

  /** The position of the first `/`. */
  function SlashAt(s: string): (i: nat)
    requires '/' in s
    ensures i < |s| && s[i] == '/' && '/' !in s[..i]
  {
    if s[0] == '/' then 0
    else
      var i := 1 + SlashAt(s[1..]);
      assert s[..i] == [s[0]] + s[1..][..i - 1];
      i
  }

  /** The first `/` of `fqdn/type` is the one after the fqdn. */
  lemma {:induction false} SlashAfter(fqdn: string, rtype: string)
    requires '/' !in fqdn
    ensures SlashAt(fqdn + "/" + rtype) == |fqdn|
  {
    var t := fqdn + "/" + rtype;
    if fqdn != [] {
      assert t[0] == fqdn[0];
      assert t[1..] == fqdn[1..] + "/" + rtype;
      SlashAfter(fqdn[1..], rtype);
    }
  }

  /** A title written as `fqdn/type`, the fqdn free of `/`, splits back into exactly those two. */
  lemma TitleRoundTrip(fqdn: string, rtype: string)
    requires '/' !in fqdn
    ensures TitleFields(fqdn + "/" + rtype) == (fqdn, Some(rtype))
  {
    var t := fqdn + "/" + rtype;
    assert t[|fqdn|] == '/';
    SlashAfter(fqdn, rtype);
    assert t[..|fqdn|] == fqdn;
    assert t[|fqdn| + 1..] == rtype;
  }

  // ------------------------------------------------------------------
  // ttl
  // ------------------------------------------------------------------

  /** The ttl check `value.to_i.to_s == value.to_s`. */
  predicate ValidTtl(value: string)
  {
    Text.IntToString(Text.StringToI(value)) == value
  }

  /** The ttl munge `to_i`. */
  function MungeTtl(value: string): (r: int)
    ensures ValidTtl(value) ==> Text.IntToString(r) == value
  {
    Text.StringToI(value)
  }

  const DefaultTtl := "3600"
  const TtlError := "TTL must be an integer"

  /** The check accepts exactly the canonical decimal integers: no sign `+`, no leading zero, no `-0`, no space. */
  lemma ValidTtlIsCanonical(value: string)
    ensures ValidTtl(value) <==> Text.IsCanonicalInt(value)
  {
    if ValidTtl(value) {
      Text.IntToStringCanonical(Text.StringToI(value));
    }
    if Text.IsCanonicalInt(value) {
      Text.StringToICanonical(value);
      Text.CanonicalIntRoundTrip(value);
    }
  }

  /** Every integer's text passes the check and munges back to the integer itself. */
  lemma TtlOfInteger(n: int)
    ensures ValidTtl(Text.IntToString(n)) && MungeTtl(Text.IntToString(n)) == n
  {
    Text.IntToStringToI(n);
  }

  lemma DefaultTtlIsValid()
    ensures ValidTtl(DefaultTtl) && MungeTtl(DefaultTtl) == 3600
  {
    assert Text.IsCanonicalNat(DefaultTtl);
    ValidTtlIsCanonical(DefaultTtl);
    assert Text.DigitsValue("3") == 3;
    assert Text.DigitsValue("36") == 36;
    assert Text.DigitsValue("360") == 360;
    assert Text.DigitsValue("3600") == 3600;
    Text.StringToICanonical(DefaultTtl);
  }

  /** The ttl attribute: the default when none is given, the check, then the munge. */
  function Ttl(value: Option<string>): (r: Result<int, string>)
    ensures value.None? ==> r == Ok(3600)
    ensures value.Some? ==> (r.Ok? <==> Text.IsCanonicalInt(value.value))
    ensures r.Err? ==> r.error == TtlError
    ensures value.Some? && r.Ok? ==> Text.IntToString(r.value) == value.value
  {
    DefaultTtlIsValid();
    var v := if value.Some? then value.value else DefaultTtl;
    ValidTtlIsCanonical(v);
    if ValidTtl(v) then Ok(MungeTtl(v)) else Err(TtlError)
  }

  // ------------------------------------------------------------------
  // Value sets
  // ------------------------------------------------------------------

  /** Puppet's message for a value outside a property's `newvalues`. */
  function InvalidValue(value: string, allowed: seq<string>): string
  {
    "Invalid value \"" + value + "\". Valid values are " + Text.Join(allowed, ", ") + "."
  }

  /** A property restricted to `newvalues(allowed)`, munged with `to_s` and defaulting to `default`. */
  function OneOf(value: Option<string>, allowed: seq<string>, default: string): (r: Result<string, string>)
    ensures value.None? ==> r == Ok(default)
    ensures value.Some? ==> (r.Ok? <==> value.value in allowed)
    ensures value.Some? && r.Ok? ==> r.value == value.value
    ensures r.Err? ==> r.error == InvalidValue(value.value, allowed)
  {
    if value.None? then Ok(default)
    else if value.value in allowed then Ok(value.value)
    else Err(InvalidValue(value.value, allowed))
  }

  /**
   * Validation is stable: an accepted value passes again unchanged, so
   * munging a munged value changes nothing.
   */
  lemma OneOfStable(value: Option<string>, allowed: seq<string>, default: string)
    requires default in allowed
    ensures OneOf(value, allowed, default).Ok? ==>
      OneOf(value, allowed, default).value in allowed &&
      OneOf(Some(OneOf(value, allowed, default).value), allowed, default) == OneOf(value, allowed, default)
  {
  }

  /** Allowing more values keeps every value accepted before, unchanged. */
  lemma OneOfWiden(value: Option<string>, allowed: seq<string>, wider: seq<string>, default: string)
    requires forall a :: a in allowed ==> a in wider
    ensures OneOf(value, allowed, default).Ok? ==> OneOf(value, wider, default) == OneOf(value, allowed, default)
  {
  }

  /** `ensurable`: present or absent, nothing else. */
  function EnsureValue(value: string): (r: Result<Dns.Ensure, string>)
    ensures r.Ok? <==> value == "present" || value == "absent"
    ensures r.Ok? ==> r.value != Dns.Unset && (r.value == Dns.Present <==> value == "present")
    ensures r.Err? ==> r.error == InvalidValue(value, ["present", "absent"])
  {
    if value == "present" then Ok(Dns.Present)
    else if value == "absent" then Ok(Dns.Absent)
    else Err(InvalidValue(value, ["present", "absent"]))
  }

  /** ensure accepts two words and tells them apart: each of present and absent is named by exactly one. */
  lemma EnsureValueOneToOne(a: string, b: string)
    ensures EnsureValue("present") == Ok(Dns.Present) && EnsureValue("absent") == Ok(Dns.Absent)
    ensures EnsureValue(a).Ok? && EnsureValue(a) == EnsureValue(b) ==> a == b
  {
  }

  /**
   * The instance key `fqdn/type` of an entry splits back, through the title
   * patterns, into the instance's fqdn and the entry's type, provided the
   * fqdn holds no '/'.
   */
  lemma InstanceTitleSplits(e: Dns.Entry, domain: string)
    requires '/' !in Dns.Fqdn(Dns.Str(e.name), domain)
    ensures TitleFields(Dns.ToInstance(e, domain).name) == (Dns.ToInstance(e, domain).fqdn, Some(Dns.Str(e.rtype)))
  {
    TitleRoundTrip(Dns.Fqdn(Dns.Str(e.name), domain), Dns.Str(e.rtype));
  }

  // ------------------------------------------------------------------
  // insync?
  // ------------------------------------------------------------------

  /** content's `insync?`: `is.to_set == should.to_set`. */
  predicate InSync(current: seq<string>, should: seq<string>)
  {
    (set c | c in current) == (set c | c in should)
  }

  /** In sync means holding the same values: order and repetition do not matter. */
  lemma InSyncIsSameValues(a: seq<string>, b: seq<string>)
    ensures InSync(a, b) <==> forall x :: x in a <==> x in b
  {
    var sa := set y | y in a;
    var sb := set y | y in b;
    if sa == sb {
      forall x ensures x in a <==> x in b {
        assert x in a <==> x in sa;
        assert x in b <==> x in sb;
      }
    }
    if forall x :: x in a <==> x in b {
      forall x ensures x in sa <==> x in sb {
        assert x in sa <==> x in a;
        assert x in sb <==> x in b;
      }
      assert sa == sb;
    }
  }

  /** In-sync content is an equivalence that ignores order and repetition. */
  lemma InSyncIsEquivalence(a: seq<string>, b: seq<string>, c: seq<string>)
    ensures InSync(a, a)
    ensures InSync(a, b) ==> InSync(b, a)
    ensures InSync(a, b) && InSync(b, c) ==> InSync(a, c)
    ensures InSync(a + b, b + a) && InSync(a + a, a)
  {
    InSyncIsSameValues(a + b, b + a);
    InSyncIsSameValues(a + a, a);
  }

  // ------------------------------------------------------------------
  // A declared resource
  // ------------------------------------------------------------------

  /** What a manifest declares: the title and any of the attributes, as written. */
  datatype Manifest = Manifest(title: string, ensure: Option<string>, fqdn: Option<string>, rtype: Option<string>,
                               content: Option<seq<string>>, ttl: Option<string>)

  /** fqdn and type after the title patterns: an attribute given explicitly wins over the title's part. */
  function NamedFields(m: Manifest): (string, Option<string>)
  {
    var (f, t) := TitleFields(m.title);
    (if m.fqdn.Some? then m.fqdn.value else f, if m.rtype.Some? then m.rtype else t)
  }

  /** The ensure attribute: none declared leaves it unset. */
  function EnsureOf(value: Option<string>): Result<Dns.Ensure, string>
  {
    if value.None? then Ok(Dns.Unset) else EnsureValue(value.value)
  }

  /**
   * The title `fqdn/type` fills in fqdn and type, and an attribute given
   * explicitly takes precedence over the title's part.
   */
  lemma NamedFieldsPrecedence(m: Manifest, fqdn: string, rtype: string)
    requires '/' !in fqdn && m.title == fqdn + "/" + rtype
    ensures NamedFields(m).0 == if m.fqdn.Some? then m.fqdn.value else fqdn
    ensures NamedFields(m).1 == if m.rtype.Some? then m.rtype else Some(rtype)
  {
    TitleRoundTrip(fqdn, rtype);
  }

  /** A title without `/` is all fqdn, and the type comes only from the attribute. */
  lemma NamedFieldsPlainTitle(m: Manifest)
    requires '/' !in m.title
    ensures NamedFields(m) == (if m.fqdn.Some? then m.fqdn.value else m.title, m.rtype)
  {
  }

  /** An undeclared ensure is unset; a declared one is accepted exactly when it is present or absent. */
  lemma EnsureOfSpec(value: Option<string>)
    ensures EnsureOf(value) == Ok(Dns.Unset) <==> value.None?
    ensures EnsureOf(value).Ok? <==> value.None? || value == Some("present") || value == Some("absent")
  {
  }
}
