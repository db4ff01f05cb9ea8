# puppet-transip, modelled in Dafny

puppet-transip is a Puppet module that manages DNS records hosted at the
TransIP registrar. This project models its core and proves properties of
the model:

- **The SOAP codec** (`lib/puppet_x/transip/soap.rb`). Responses from the
  TransIP DomainService are decoded by `from_soap`/`from_hash`, which
  unwrap `item`/`return` envelopes and drop `@` attributes. Requests are
  encoded by `to_soap`/`array_to_soap`/`hash_to_soap`. The signed request
  is built from `encode`, `urlencode`, `camelize` and `message_options`,
  and the cookies from `to_cookie_array` and `cookies`
  (modules `SoapCodec`, `SoapSigning`, `UrlEncoding`).
- **The client** (`lib/puppet_x/transip/client.rb`): the memoised domain
  name list, entries of one domain, entries of all domains, set_entries,
  and the entry/DnsEntry conversions (module `TransipClient`). The remote
  account is a class holding a map from domain name to DNS entries, and
  the request counter shows what the memo saves.
- **The `transip_dns_entry` provider**
  (`lib/puppet/provider/transip_dns_entry/api.rb`, module
  `TransipDnsEntryProvider`):
  - existence;
  - the domain of a resource, matched with the lazy pattern `^.*?(d1|d2…)$`
    and memoised;
  - `entryname` and `fqdn`;
  - collapsing one domain's entries into records keyed `fqdn/type`;
  - instances;
  - flush, which rewrites the entries at one key and sends the domain's
    list back.
- **The older `dns_record` provider**
  (`lib/puppet/provider/dns_record/api.rb`, module `DnsRecordProvider`).
  It does the same job with the greedy pattern `^.*(d1|d2…)$`, a record
  name computed with two `chomp`s, a record memo, and the `entries` loop
  that merges entries of every domain by name.
- **Both types** (`lib/puppet/type/transip_dns_entry.rb`,
  `lib/puppet/type/dns_record.rb`; modules `TypeRules`,
  `TransipDnsEntryType`, `DnsRecordType`):
  - title patterns;
  - the record type value sets and their default;
  - content checks and `insync?`;
  - ttl check, munge and default;
  - building a resource from what a manifest declares.

Shared pieces live in:

- `Wrappers` (Option, Result);
- `Text` (Ruby's `to_i`, `to_s`, `chomp`, `split`, `join` and `capitalize` on strings);
- `Seqs` (`to_set` as first-occurrence de-duplication);
- `Values` (Ruby hashes as ordered pair sequences);
- `Dns`: the entry, instance and record shapes, the key filter and the
  content additions of a flush, the grouping specification `Collapse`
  that both providers are proved against, and the domain patterns as
  longest and shortest suffix matches.

Modelling choices:

- A Ruby hash is an ordered sequence of pairs.
- A `nil` field of an entry is `None`, and `"#{nil}"` renders as `""`.
- Integers carried in entries (expire) are their decimal text.
- Stateful objects are classes whose methods state their whole new state:
  - the provider instances, with their `@property_hash` and `||=` memos;
  - the remote account.
- Four loops of the source are methods whose loop invariants tie them to
  a specification function: the `each_with_object` of `all_entries`
  (`TransipClient.FoldEntries`), the `to_set.each` of both flushes
  (`Dns.AddContents`), the double `each` of the older provider's
  `entries` (`DnsRecordProvider.AddEntries`, `DnsRecordProvider.Records`)
  and its `instances` collect (`DnsRecordProvider.FoundAll`). The
  property of interest is proved about that function.
- The other iterations are functions: `group_by` and the merging
  `each_with_object` of `collapsed_content` (`GroupBy`, `Merge`), the
  `reduce` of `collapsed_instances`, the map of `instances`, the maps of
  `to_array`, `to_entry` and `set_entries`, and every fold and map of
  `soap.rb`. They are proved against the same specifications
  (`Dns.Collapse`, `Seqs.Dedup` and the others named in the table).

Where the tests and the code disagree, the model follows the code. The two
exceptions are the defects listed under "## Findings", where the rest of
the model uses the corrected definition: the signing input and the cookies
are built on the corrected `message_options`, and the newer type's
resource is given both as written and as intended. The older provider's
missing client methods are described under "## Left out".

- The `encode` tests (`spec/unit/puppet_x/transip/soap_spec.rb`, lines
  24-44) expect a flat list of segments. The code returns nested arrays,
  and the signed input is made from them by `Array#join`, which joins
  nested arrays recursively and writes an empty field for an empty one.
  The model encodes the nested form (`SoapSigning.EncodeTree`) and proves
  its join equal to the join of the flat segments
  (`SoapSigning.EncodeJoin`). An empty array therefore signs as an empty
  field (`SoapSigning.SigningInputEmptyEntries`).
- The shipped `from_hash` turns a one-element SOAP array into the element
  itself, not a one-element array. `SoapCodec.SingleElementArrayDecode`
  states that result.
- The `dns_record` type tests expect the message "An empty record is not
  allowed" and the rejection of an empty content array. The type's code
  has neither: its only content message is "The content of the record must
  not be blank" for an empty value. The model follows the code, and
  `DnsRecordType.EmptyContentAccepted` states it.
- A `dns_record` resource whose fqdn is the domain itself gets record name
  `""`, not `@`. The entries written for it read back as `.domain`
  (`DnsRecordProvider.ApexRecordName`).

## Model

| member | source | states |
|---|---|---|
| `SoapCodec.FromSoapMetaFree` | lib/puppet_x/transip/soap.rb:13-32 | `from_soap` (`FromSoap`): a decoded response holds no `@` attribute key at any depth |
| `SoapCodec.EnvelopeIgnoresAttributes` | lib/puppet_x/transip/soap.rb:14-16 | a hash whose first key is `item` or `return` decodes to the decoding of that value alone, whatever attributes follow |
| `SoapCodec.FromSoapPlain` | lib/puppet_x/transip/soap.rb:24-32 | a value with no envelope first key and no `@` key decodes to itself |
| `SoapCodec.SingleElementArrayDecode` | lib/puppet_x/transip/soap.rb:13-22 | a one-element SOAP string array decodes to the bare element hash with its type attribute dropped |
| `SoapCodec.MultiElementArrayDecode` | lib/puppet_x/transip/soap.rb:13-32 | a two-element SOAP string array decodes to the list of the two element hashes, attributes dropped |
| `SoapCodec.HashToSoap` | lib/puppet_x/transip/soap.rb:109-113 | encoding a hash keeps its keys in order |
| `SoapCodec.EmptyArrayLooksLikeEmptyHash` | lib/puppet_x/transip/soap.rb:96-98 | an empty array and an empty hash encode to the same `{}` |
| `SoapCodec.UnsoapToSoap` | lib/puppet_x/transip/soap.rb:85-113 | `to_soap` (`ToSoap`) loses nothing: an independent decoder of the `item`/`content!` shape recovers every value free of empty arrays and `@` keys |
| `SoapCodec.StringArrayToSoap` | lib/puppet_x/transip/soap.rb:96-107 | a two-element array whose first element has the class name `kind` (`String` for a Ruby String) encodes to `item` holding the elements under `content!` with the item type `tns:kind`, the type `tns:ArrayOfkind` and the marker `tns:kind[2]` |
| `SoapSigning.CapitalizeAll` | lib/puppet_x/transip/soap.rb:36 | every part after the first is capitalized, one for one |
| `SoapSigning.CamelizeFails` | lib/puppet_x/transip/soap.rb:34-37 | camelize raises (no first part) exactly when the word is empty or all underscores |
| `SoapSigning.CamelizeLetters` | lib/puppet_x/transip/soap.rb:34-37 | `camelize` (`Camelize`) removes every underscore and otherwise keeps the letters, up to case |
| `SoapSigning.CamelizeThreeWords` | lib/puppet_x/transip/soap.rb:34-37 | three underscore-separated words, the last one non-empty, camelize to the first word downcased followed by the other two capitalized |
| `SoapSigning.CamelizeGetDomainNames` | lib/puppet_x/transip/soap.rb:34-37 | `get_domain_names` camelizes to `getDomainNames` |
| `SoapSigning.ArrayToIndexedHashSpec` | lib/puppet_x/transip/soap.rb:39-41 | the indexed hash has keys 0 to n-1 in order, with the array's values, and looks up index k to the k-th element |
| `SoapSigning.EncodeArrayAsIndexMap` | lib/puppet_x/transip/soap.rb:54-56 | an array encodes exactly as the hash from its indexes to its elements |
| `SoapSigning.EncodeIsLeafSegments` | lib/puppet_x/transip/soap.rb:47-60 | `encode` (`Encode`, flattened) yields one `path=value` segment per leaf, in order, with the path built from the keys above it; an empty nested array or hash yields one empty segment |
| `SoapSigning.EncodeJoin` | lib/puppet_x/transip/soap.rb:47-60 | the nested arrays `encode` returns, joined recursively by `&` as `Array#join` does, give the flat segment list joined by `&` |
| `SoapSigning.UrlencodeNoSeparators` | lib/puppet_x/transip/soap.rb:43-45 | urlencoded text holds neither `=` nor `&` |
| `SoapSigning.EncodeSegmentsSeparable` | lib/puppet_x/transip/soap.rb:47-60 | there is one encoded segment per leaf; an empty leaf gives an empty segment, and every other segment is a path and a value without `=` or `&` joined by one `=` |
| `SoapSigning.EncodeExample` | lib/puppet_x/transip/soap.rb:47-60 | `['a', [{name: 'a', type: 'b'}]]` encodes to `0=a`, `1[0][name]=a`, `1[0][type]=b` |
| `SoapSigning.MessageOptionsAsWrittenRaises` | lib/puppet_x/transip/soap.rb:62-64 | as written, message_options always raises: `api_version` is undefined; the corrected definition succeeds whenever camelize does |
| `SoapSigning.MessageOptionsSpec` | lib/puppet_x/transip/soap.rb:62-64 | `message_options` (`MessageOptions`, corrected) fail only when camelize does; otherwise they are five options whose timestamp reads back as the time |
| `SoapSigning.SigningInputIgnoresNames` | lib/puppet_x/transip/soap.rb:80 | only the parameter values are signed: two parameter lists with the same values give the same signing input. With `message_options` corrected (see "## Findings"); as written the call raises and nothing is signed. |
| `SoapSigning.SigningInputFlat` | lib/puppet_x/transip/soap.rb:80 | the signing input (`SigningInput`), built as Ruby joins the nested encoding and the options, is the flat segments of the parameter values and the five options joined by `&`, or the camelize error. With `message_options` corrected (see "## Findings"), `__service` carries the `api_version` that `cookies` passes in the api_service position; as written the call raises and nothing is signed. |
| `SoapSigning.SigningInputEnds` | lib/puppet_x/transip/soap.rb:80 | the signing input ends with `&__timestamp=<time>&__nonce=<nonce>`. With `message_options` corrected (see "## Findings"); as written the call raises and nothing is signed. |
| `SoapSigning.SigningInputExample` | lib/puppet_x/transip/soap.rb:80 | the signing input of a request with a scalar and a nested hash-in-array parameter: `0=a`, `1[0][name]=a`, `1[0][type]=b` and the five message options, joined by `&`. With `message_options` corrected (see "## Findings"); as written the call raises and nothing is signed. |
| `SoapSigning.SigningInputEmptyEntries` | lib/puppet_x/transip/soap.rb:47-80 | set_entries of a domain with no entries signs `0=<domain>&&__method=…`: the empty entry array becomes an empty field between two `&`. With `message_options` corrected (see "## Findings"); as written the call raises and nothing is signed. |
| `SoapSigning.CookiesReadBack` | lib/puppet_x/transip/soap.rb:72-74 | the six cookies split back at their first `=` into login, mode, timestamp, nonce, clientVersion and signature with the given values |
| `SoapSigning.StripDashesRemovesDashes` | lib/puppet_x/transip/soap.rb:79 | the nonce is the uuid with every `-` removed |
| `SoapSigning.CookiesBindTimeAndNonce` | lib/puppet_x/transip/soap.rb:76-83 | `cookies` (`Cookies`): the timestamp and nonce cookies carry the same time and nonce that end the signed input, and the signature cookie is the urlencoded signature of that input. With `message_options` corrected (see "## Findings"); as written `cookies` raises and returns no cookie. |
| `UrlEncoding.Utf8` | lib/puppet_x/transip/soap.rb:44 | a character's UTF-8 encoding is one to four bytes, ASCII as itself and all bytes high otherwise |
| `UrlEncoding.UrlencodeIsPercentEncoding` | lib/puppet_x/transip/soap.rb:43-45 | `urlencode` (`Urlencode`): the form encoding followed by the three `gsub`s is plain percent-encoding: unreserved characters kept, every other UTF-8 byte as `%XX` |
| `UrlEncoding.UrlencodeDecodes` | lib/puppet_x/transip/soap.rb:43-45 | percent-decoding urlencoded text gives back the UTF-8 bytes of the input |
| `UrlEncoding.UrlencodeUnreserved` | lib/puppet_x/transip/soap.rb:43-45 | text of unreserved characters only is left unchanged |
| `UrlEncoding.SpecialCharacters` | lib/puppet_x/transip/soap.rb:44 | space becomes `%20`, `*` becomes `%2A`, `~` stays, `+` becomes `%2B` |
| `UrlEncoding.UrlencodeAlphabet` | lib/puppet_x/transip/soap.rb:43-45 | urlencoded text holds only unreserved characters, `%` and hex digits |
| `TransipClient.ToEntry` | lib/puppet_x/transip/client.rb:35-39 | each of name, content, type and expire is nil exactly when the DNS entry has no such key, and a present key gives its value (from the first pair holding that key) |
| `TransipClient.EntryRoundTrip` | lib/puppet_x/transip/client.rb:35-43 | `to_dnsentry` (`ToDnsEntry`) then `to_entry`: an entry turned into a DnsEntry, serialised and read back is the entry itself |
| `TransipClient.ToEntryIgnoresOtherKeys` | lib/puppet_x/transip/client.rb:35-39 | to_entry reads only the four keys: setting any other key changes nothing |
| `TransipClient.EntriesRoundTrip` | lib/puppet_x/transip/client.rb:41-53 | `to_array` over the serialised DnsEntries of the entries given to set_entries reads back exactly those entries, in order |
| `TransipClient.AllEntriesKeys` | lib/puppet_x/transip/client.rb:55-60 | all_entries is keyed by the distinct domain names of the batch answer, in first-appearance order |
| `TransipClient.AllEntriesLastWins` | lib/puppet_x/transip/client.rb:57-60 | a name answered twice keeps the entries of its last answer |
| `TransipClient.AllEntriesDomains` | lib/puppet_x/transip/client.rb:55-60 | all_entries has a key exactly for each domain of the batch answer |
| `TransipClient.BatchAnswer` | lib/puppet_x/transip/client.rb:56 | the batch answer holds one domain per requested name, in order |
| `TransipClient.Client.DomainNames` | lib/puppet_x/transip/client.rb:19-23 | domain_names asks the account once and then answers from its memo; a failure raises "Unable to get domain names" and leaves the memo empty |
| `TransipClient.Client.Entries` | lib/puppet_x/transip/client.rb:45-49 | entries of a domain are the stored entries, or "Unable to get entries for <domain>" when the request fails |
| `TransipClient.FoldEntries` | lib/puppet_x/transip/client.rb:56-59 | the each_with_object loop over the batch answer builds exactly the fold `AllEntriesOf`: each domain in turn stores its entries under its name |
| `TransipClient.Client.AllEntries` | lib/puppet_x/transip/client.rb:55-63 | all entries keyed by domain, the domain-names error when the names fail, "Unable to get entries for all domains" when the batch does; the names memo is filled by a successful names request, and the request counter grows by the names request (if not memoised) and the batch request (if the names are known) |
| `TransipClient.Client.SetEntries` | lib/puppet_x/transip/client.rb:65-70 | set_entries replaces that domain's entries and nothing else, or fails with "Unable to set entries for <domain>" and changes nothing |
| `TransipClient.SetThenGet` | lib/puppet_x/transip/client.rb:65-70 | after set_entries the domain's entries read back as exactly what was set |
| `Seqs.Dedup` | lib/puppet/provider/transip_dns_entry/api.rb:41 | `to_set` keeps each value once, nothing else, and no more than the input |
| `Seqs.DedupFirstOccurrenceOrder` | lib/puppet/provider/transip_dns_entry/api.rb:41 | `to_set` keeps the values in the order of their first occurrence |
| `Seqs.DedupOfDistinct` | lib/puppet/provider/transip_dns_entry/api.rb:41 | a list without repetition is its own `to_set` |
| `Text.Chomp` | lib/puppet/provider/transip_dns_entry/api.rb:34 | chomp yields a prefix of its input |
| `Text.ChompSuffix` | lib/puppet/provider/transip_dns_entry/api.rb:34 | chomp removes exactly a trailing separator |
| `Text.IntToStringToI` | lib/puppet/type/transip_dns_entry.rb:40-43 | `to_i` reads back every integer's `to_s` |
| `Text.CanonicalIntRoundTrip` | lib/puppet/type/transip_dns_entry.rb:43 | canonical decimal text is the `to_s` of its own value |
| `Dns.Fqdn` | lib/puppet/provider/transip_dns_entry/api.rb:74-76 | `@` names the domain itself; any other name is a prefix of the fqdn, which ends in `.domain` |
| `Dns.ChompDomain` | lib/puppet/provider/transip_dns_entry/api.rb:34 | chomping the domain off `p.domain` leaves `p.` |
| `TypeRules.InstanceTitleSplits` | lib/puppet/provider/transip_dns_entry/api.rb:78-83 | the instance name `fqdn/type` splits back through the title patterns into the instance's fqdn and the entry's type, for a fqdn without `/` |
| `Dns.Members` | lib/puppet/provider/transip_dns_entry/api.rb:86 | a group holds only instances of its key taken from the input |
| `Dns.MembersHas` | lib/puppet/provider/transip_dns_entry/api.rb:86 | every instance is in the group of its own name |
| `Dns.FirstSet` | lib/puppet/provider/transip_dns_entry/api.rb:88 | `memo[k] \|\|= v` over a group is the first non-nil value, or nil when all are nil |
| `Dns.Collapse` | lib/puppet/provider/transip_dns_entry/api.rb:85-91 | the records are keyed by the distinct instance names in first-appearance order |
| `Dns.CollapseSnoc` | lib/puppet/provider/transip_dns_entry/api.rb:85-91 | one more instance either appends a new record or is absorbed into the record of its name, in place |
| `Dns.CollapseKeepsEveryContent` | lib/puppet/provider/transip_dns_entry/api.rb:85-91 | grouping loses no content: the records hold as many content values as there were instances |
| `Dns.Keep` | lib/puppet/provider/transip_dns_entry/api.rb:39 | `reject` keeps every entry not at the key and only those, drawn from the input |
| `Dns.KeepAll` | lib/puppet/provider/transip_dns_entry/api.rb:39 | with no entry at the key the list is unchanged |
| `Dns.KeepNone` | lib/puppet/provider/transip_dns_entry/api.rb:39 | a list holding only entries at the key is rejected whole |
| `Dns.KeepAppend` | lib/puppet/provider/transip_dns_entry/api.rb:39 | `reject` distributes over concatenation |
| `Dns.AtKeyEntriesPartition` | lib/puppet/provider/transip_dns_entry/api.rb:39 | the entries at the key and those `reject` keeps together are the input, as a multiset and by count |
| `Dns.AddContents` | lib/puppet/provider/transip_dns_entry/api.rb:41-43 | the `<<` loop appends exactly the added entries to the kept ones |
| `Dns.Alternatives` | lib/puppet/provider/transip_dns_entry/api.rb:51 | the alternation offers every domain name and nothing else, and exactly the empty alternative when there are none |
| `Dns.LazyIsLongestSuffix` | lib/puppet/provider/transip_dns_entry/api.rb:51-54 | `^.*?(alts)$` fails exactly when no alternative ends the fqdn, and otherwise captures the longest one that does |
| `Dns.GreedyIsShortestSuffix` | lib/puppet/provider/dns_record/api.rb:48-51 | `^.*(alts)$` fails exactly when no alternative ends the fqdn, and otherwise captures the shortest one that does |
| `Dns.NoNamesMatchEmpty` | lib/puppet/provider/transip_dns_entry/api.rb:51 | an account without domains yields the pattern `^.*?()$`, which matches every fqdn with an empty domain |
| `TransipDnsEntryProvider.EntryNameOfFqdn` | lib/puppet/provider/transip_dns_entry/api.rb:33-35 | `entryname` (`EntryName`) undoes `fqdn` for every name |
| `TransipDnsEntryProvider.FqdnOfEntryName` | lib/puppet/provider/transip_dns_entry/api.rb:33-35 | `fqdn` undoes `entryname` for the domain itself and for every `p.domain` with `p` other than `@` |
| `TransipDnsEntryProvider.AtLabelIsLost` | lib/puppet/provider/transip_dns_entry/api.rb:33-35 | the fqdn `@.domain` maps to entry name `@`, which reads back as the domain |
| `TransipDnsEntryProvider.MatchDomain` | lib/puppet/provider/transip_dns_entry/api.rb:49-56 | the domain is the longest account domain ending the fqdn, or "cannot find domain matching <resource name>" when none does |
| `TransipDnsEntryProvider.GroupByPartition` | lib/puppet/provider/transip_dns_entry/api.rb:86 | `group_by` yields the distinct names in first-appearance order as keys, each with exactly the instances of that name; the groups are non-empty and every instance lands in its own group |
| `TransipDnsEntryProvider.CollapsedContent` | lib/puppet/provider/transip_dns_entry/api.rb:85-91 | one record per group |
| `TransipDnsEntryProvider.MergeIsRecordOf` | lib/puppet/provider/transip_dns_entry/api.rb:87-89 | the `each_with_object` merge of a group (`Merge`) is the specification record: all contents, and the first non-nil of every other field |
| `TransipDnsEntryProvider.MergeSetsName` | lib/puppet/provider/transip_dns_entry/api.rb:88 | the merged name and fqdn are those of the group's first entry |
| `TransipDnsEntryProvider.CollapsedContentIsCollapse` | lib/puppet/provider/transip_dns_entry/api.rb:85-91 | collapsed_content equals the grouping specification `Collapse` under first-non-nil |
| `TransipDnsEntryProvider.CollapsedContentKeepsValues` | lib/puppet/provider/transip_dns_entry/api.rb:85-91 | collapsed_content keeps every content value and keys the records by the distinct names in order |
| `TransipDnsEntryProvider.CollapsePair` | lib/puppet/provider/transip_dns_entry/api.rb:88 | two instances of one name become one record with both contents, type and expire first non-nil |
| `TransipDnsEntryProvider.CollapsedContentPair` | lib/puppet/provider/transip_dns_entry/api.rb:85-91 | two entries with the same name and type collapse to one record `fqdn/type` holding both contents |
| `TransipDnsEntryProvider.CollapsedContentSingle` | lib/puppet/provider/transip_dns_entry/api.rb:85-91 | one entry gives one record |
| `TransipDnsEntryProvider.CollapsedInstancesKeepValues` | lib/puppet/provider/transip_dns_entry/api.rb:93-97 | `collapsed_instances` (`CollapsedInstances`) holds exactly as many content values as all domains have entries |
| `TransipDnsEntryProvider.DomainsNeverMerge` | lib/puppet/provider/transip_dns_entry/api.rb:93-97 | entries of two domains are collapsed separately, so they never share a record |
| `TransipDnsEntryProvider.InstancesKeepEveryEntry` | lib/puppet/provider/transip_dns_entry/api.rb:7-11 | `instances` gives one present provider per collapsed record, holding that record, and together they hold one content value per entry of the account |
| `TransipDnsEntryProvider.ToInstancesReadBack` | lib/puppet/provider/transip_dns_entry/api.rb:33-35 | each instance's fqdn maps back through `entryname` to the entry's name, with the entry's content, type and expire |
| `TransipDnsEntryProvider.FlushKeepsOtherEntries` | lib/puppet/provider/transip_dns_entry/api.rb:39-44 | the list flush writes (`NewEntries`) keeps every entry at another key, in order, ahead of the new ones |
| `TransipDnsEntryProvider.FlushWritesContent` | lib/puppet/provider/transip_dns_entry/api.rb:39-44 | at the key the new list holds nothing when absent, and otherwise one entry per distinct content value with the resource's ttl |
| `TransipDnsEntryProvider.FlushInSync` | lib/puppet/provider/transip_dns_entry/api.rb:40-44 | after flush the content at the key is the resource's content without repetition, so content is in sync |
| `TransipDnsEntryProvider.FlushIdempotent` | lib/puppet/provider/transip_dns_entry/api.rb:39-44 | flushing the flushed list again changes nothing |
| `TransipDnsEntryProvider.Provider.CreateThenExists` | lib/puppet/provider/transip_dns_entry/api.rb:21-27 | after create, exists? holds; ensure is present and nothing else changed |
| `TransipDnsEntryProvider.Provider.Create` | lib/puppet/provider/transip_dns_entry/api.rb:25-27 | create sets ensure to present and nothing else |
| `TransipDnsEntryProvider.Provider.Destroy` | lib/puppet/provider/transip_dns_entry/api.rb:29-31 | destroy sets ensure to absent and nothing else |
| `TransipDnsEntryProvider.Provider.DestroyThenExists` | lib/puppet/provider/transip_dns_entry/api.rb:21-31 | after destroy, exists? is false; ensure is absent and nothing else changed |
| `TransipDnsEntryProvider.Provider.Domain` | lib/puppet/provider/transip_dns_entry/api.rb:49-60 | domain answers the matched domain and memoises only a success; once memoised it asks nothing; the names it asks for fill the client's memo, and the request counter grows only when neither memo is set |
| `TransipDnsEntryProvider.Provider.Rewrite` | lib/puppet/provider/transip_dns_entry/api.rb:39-44 | the rewritten list, or the `to_set` on nil error when content is missing and ensure is not absent |
| `TransipDnsEntryProvider.Provider.WriteBack` | lib/puppet/provider/transip_dns_entry/api.rb:39-46 | the entries, reject, append and set_entries steps: the domain holds the rewritten list and the property hash is the resource, or the entries error or the `to_set` on nil error with nothing changed; one or two requests are made and no memo changes |
| `TransipDnsEntryProvider.Provider.Flush` | lib/puppet/provider/transip_dns_entry/api.rb:37-47 | flush succeeds exactly when domain, entries and content allow it. Each failure gives its own error and changes nothing but the memos domain fills. On success the domain holds the rewritten list and the property hash is the resource. The memos and the request counter are stated for every outcome |
| `DnsRecordProvider.Backend.DomainNames` | lib/puppet/provider/dns_record/api.rb:63-69 | the account's names, or "Unable to get domain names" |
| `DnsRecordProvider.Backend.GetEntries` | lib/puppet/provider/dns_record/api.rb:75-81 | the domain's entries, or "Unable to get entries for <domain>" |
| `DnsRecordProvider.Backend.SetEntries` | lib/puppet/provider/dns_record/api.rb:87-93 | replaces that domain's entries and nothing else, or fails with "Unable to set entries for <domain>" and changes nothing |
| `DnsRecordProvider.Gathered` | lib/puppet/provider/dns_record/api.rb:101-102 | the instances of every domain in order, or the error of the first domain whose entries cannot be read |
| `DnsRecordProvider.GatheredStopsAt` | lib/puppet/provider/dns_record/api.rb:101-102 | once a domain fails, later domains cannot change the error |
| `DnsRecordProvider.RecordsKeepEveryEntry` | lib/puppet/provider/dns_record/api.rb:99-113 | the records `entries` answers (`RecordsAnswer`) keep every content value of every domain |
| `DnsRecordProvider.AddMember` | lib/puppet/provider/dns_record/api.rb:105-109 | the find-or-append step is one step of the grouping specification under first-member |
| `DnsRecordProvider.AddEntry` | lib/puppet/provider/dns_record/api.rb:103-109 | one entry is added as the grouping specification says |
| `DnsRecordProvider.AddEntries` | lib/puppet/provider/dns_record/api.rb:102-110 | the inner loop adds a domain's entries as the grouping specification says |
| `DnsRecordProvider.Records` | lib/puppet/provider/dns_record/api.rb:99-113 | the double loop is the grouping specification over all domains' instances, or the first error |
| `DnsRecordProvider.FailingBackendAnswersNamesError` | lib/puppet/provider/dns_record/api.rb:63-69 | with a failing backend, which is what the shipped provider has because its client methods do not exist, `entries` answers "Unable to get domain names" whatever the account holds |
| `DnsRecordProvider.FoundAll` | lib/puppet/provider/dns_record/api.rb:9-11 | the collect over the records yields, in order, one present resource per record carrying that record's fields |
| `DnsRecordProvider.Instances` | lib/puppet/provider/dns_record/api.rb:8-12 | one present provider per record, or the error of entries |
| `DnsRecordProvider.SameKeyMerges` | lib/puppet/provider/dns_record/api.rb:99-113 | entries of two domains with the same `fqdn/type` share one record holding both contents |
| `DnsRecordProvider.DomainsMerge` | lib/puppet/provider/dns_record/api.rb:103-105 | entry `p` of domain `q.d` and entry `p.q` of domain `d` are merged into one record |
| `DnsRecordProvider.MatchDomainIsShortestSuffix` | lib/puppet/provider/dns_record/api.rb:48-57 | `MatchDomain`: the domain is the shortest account domain ending the fqdn, or "cannot find domain matching <fqdn>" |
| `DnsRecordProvider.RecordNameOfFqdn` | lib/puppet/provider/dns_record/api.rb:59-61 | the record name (`RecordName`) of `p.domain` is `p`, and it reads back as that fqdn unless `p` is `@` |
| `DnsRecordProvider.ApexRecordName` | lib/puppet/provider/dns_record/api.rb:59-61 | the record of the domain itself is `""`, which reads back as `.domain`, not the domain |
| `DnsRecordProvider.Written` | lib/puppet/provider/dns_record/api.rb:35-41 | unless ensure is present, the new list is the kept entries only |
| `DnsRecordProvider.WrittenLikeTransip` | lib/puppet/provider/dns_record/api.rb:34-44 | the list written equals the newer provider's for present and absent; an unset ensure writes as absent here, while the newer provider writes the content |
| `DnsRecordProvider.WrittenIdempotent` | lib/puppet/provider/dns_record/api.rb:34-44 | writing the written list again changes nothing |
| `DnsRecordProvider.Provider.CreateThenExists` | lib/puppet/provider/dns_record/api.rb:22-28 | after create, exists? holds; ensure is present and no memo changed |
| `DnsRecordProvider.Provider.Create` | lib/puppet/provider/dns_record/api.rb:26-28 | create sets ensure to present and nothing else |
| `DnsRecordProvider.Provider.Destroy` | lib/puppet/provider/dns_record/api.rb:30-32 | destroy sets ensure to absent and nothing else |
| `DnsRecordProvider.Provider.DestroyThenExists` | lib/puppet/provider/dns_record/api.rb:22-32 | after destroy, exists? is false; ensure is absent and no memo changed |
| `DnsRecordProvider.Provider.Domain` | lib/puppet/provider/dns_record/api.rb:48-57 | domain matches on every call, memoising the pattern and the first match; after a success the record answer is unchanged |
| `DnsRecordProvider.Provider.SettledIsStable` | lib/puppet/provider/dns_record/api.rb:53-57 | once domain has succeeded, asking again gives the memoised domain and changes no memo |
| `DnsRecordProvider.Provider.Record` | lib/puppet/provider/dns_record/api.rb:59-61 | record answers the memoised or computed record name and memoises a success |
| `DnsRecordProvider.Provider.Rewrite` | lib/puppet/provider/dns_record/api.rb:35-41 | the rewritten list, or the `to_set` on nil error; the record memo is set exactly when a comparison or an added entry needs it |
| `DnsRecordProvider.Provider.Store` | lib/puppet/provider/dns_record/api.rb:36-43 | rewrite, domain again, set_entries and the property hash, failing only for missing content |
| `DnsRecordProvider.Provider.Flush` | lib/puppet/provider/dns_record/api.rb:34-44 | flush succeeds exactly when domain, entries and content allow it. Each failure gives its own error and changes nothing but the memos `domain` and `record` fill (`@domains_re`, `@domain`, `@record`). On success the domain holds the rewritten list and the property hash is the resource |
| `TypeRules.TitleFields` | lib/puppet/type/transip_dns_entry.rb:49-54 | a title with a `/` splits at its first `/` into fqdn and type; any other title is all fqdn |
| `TypeRules.TitleRoundTrip` | lib/puppet/type/transip_dns_entry.rb:49-54 | `fqdn/type` with a `/`-free fqdn splits back into that fqdn and type |
| `TypeRules.MungeTtl` | lib/puppet/type/transip_dns_entry.rb:40 | a ttl that passes the check munges to the integer it spells |
| `TypeRules.ValidTtlIsCanonical` | lib/puppet/type/transip_dns_entry.rb:42-44 | the ttl check accepts exactly canonical decimal integers |
| `TypeRules.TtlOfInteger` | lib/puppet/type/transip_dns_entry.rb:40-44 | every integer's text passes the check and munges back to that integer |
| `TypeRules.DefaultTtlIsValid` | lib/puppet/type/transip_dns_entry.rb:46 | the default `'3600'` passes the check and munges to 3600 |
| `TypeRules.Ttl` | lib/puppet/type/transip_dns_entry.rb:37-47 | the ttl is 3600 by default; a given ttl is accepted exactly when canonical and then spells the result; otherwise "TTL must be an integer" |
| `TypeRules.OneOf` | lib/puppet/type/transip_dns_entry.rb:14-22 | a value set property accepts exactly its listed values, defaults when unset and reports any other value |
| `TypeRules.OneOfStable` | lib/puppet/type/transip_dns_entry.rb:14-22 | an accepted value is one of the listed values and passes the check again unchanged |
| `TypeRules.OneOfWiden` | lib/puppet/type/transip_dns_entry.rb:14-22 | listing more values keeps every accepted value accepted, unchanged |
| `TypeRules.EnsureValue` | lib/puppet/type/transip_dns_entry.rb:4 | ensure accepts exactly present and absent |
| `TypeRules.EnsureValueOneToOne` | lib/puppet/type/transip_dns_entry.rb:4 | present and absent map to the two states, and no two words map to the same one |
| `TypeRules.EnsureOfSpec` | lib/puppet/type/transip_dns_entry.rb:4 | an undeclared ensure is unset, and a declared one is accepted exactly when present or absent |
| `TypeRules.NamedFieldsPrecedence` | lib/puppet/type/transip_dns_entry.rb:49-54 | a title `fqdn/type` supplies fqdn and type (`NamedFields`), and an attribute given explicitly takes precedence |
| `TypeRules.NamedFieldsPlainTitle` | lib/puppet/type/transip_dns_entry.rb:49-54 | a title without `/` supplies the fqdn only; the type comes from the attribute alone |
| `TypeRules.InSyncIsSameValues` | lib/puppet/type/transip_dns_entry.rb:32-34 | content is in sync (`InSync`) exactly when both lists hold the same values |
| `TypeRules.InSyncIsEquivalence` | lib/puppet/type/transip_dns_entry.rb:32-34 | in sync is an equivalence that ignores order and repetition |
| `TransipDnsEntryType.CheckContentAsWritten` | lib/puppet/type/transip_dns_entry.rb:24-30 | content passes exactly when every value passes the per-value check, and fails with one of their errors |
| `TransipDnsEntryType.CnameAsWrittenRejectsOneValue` | lib/puppet/type/transip_dns_entry.rb:29 | as written, a CNAME with a single value of two or more characters is rejected |
| `TransipDnsEntryType.CnameAcceptsOneValue` | lib/puppet/type/transip_dns_entry.rb:29 | the corrected content check (`CheckContent`) accepts a one-value CNAME and rejects a two-value one |
| `TransipDnsEntryType.ChecksAgreeOffCname` | lib/puppet/type/transip_dns_entry.rb:27-30 | for every other type both checks agree |
| `TransipDnsEntryType.NewResourceAsWritten` | lib/puppet/type/transip_dns_entry.rb:1-59 | as written, a resource is built exactly when ensure, type, the per-value content check, ttl and the non-empty content rule pass; the built resource carries the declared or title values and defaults |
| `TransipDnsEntryType.NewResource` | lib/puppet/type/transip_dns_entry.rb:1-59 | the intended type builds a resource exactly when ensure, type, the corrected content check, ttl and the non-empty content rule pass, with the same values |
| `TransipDnsEntryType.NewResourceAsWrittenDiffers` | lib/puppet/type/transip_dns_entry.rb:24-30 | the two differ only in CNAME content: as written a CNAME is refused only for a value longer than one character, and accepted beyond the intended type only with several values |
| `TransipDnsEntryType.CnameResourceAsWrittenRefused` | lib/puppet/type/transip_dns_entry.rb:29 | a CNAME resource pointing at a host name of two or more characters is refused as written and built as intended |
| `DnsRecordType.CheckContent` | lib/puppet/type/dns_record.rb:29-39 | content passes exactly when no value is empty, else "The content of the record must not be blank" |
| `DnsRecordType.NewResource` | lib/puppet/type/dns_record.rb:3-66 | a resource is built exactly when ensure, type, content and ttl pass; the built resource carries the declared or title values and defaults |
| `DnsRecordType.CaaOnlyInTransip` | lib/puppet/type/dns_record.rb:20 | the older type offers every record type of the newer one except CAA |
| `DnsRecordType.NewerTypeIsStricter` | lib/puppet/type/dns_record.rb:29-39 | for any type but CAA, what the newer type accepts, as written or as intended, the older one builds identically; the older one accepts more only for an empty content array, or a CNAME with several values (intended) or with a value longer than one character (as written) |
| `DnsRecordType.EmptyContentAccepted` | lib/puppet/type/dns_record.rb:29-39 | an empty content array is accepted by the older type and refused by the newer |

## Left out

- RSA signing with SHA-512 and Base64 (`sign`) is a function parameter of the cookie model, because cryptography is not modelled.
- The clock and the random uuid of `cookies` are parameters, because they are inputs from outside.
- Savon, HTTPI, the SOAP transport (`request`) and the `Transip::Soap` constructor's key checks are left out, because they are I/O and foreign libraries. The remote account is a class holding the zones.
- The YAML credentials file, `config_file`, `credentials` and `domainclient` are left out, because they are configuration I/O.
- `prefetch` in both providers is left out, because attaching providers to catalogue resources is Puppet's machinery.
- Puppet's own behaviour is not modelled: the order in which it sets attributes and the wording with which it wraps a validation error. `TypeRules.InvalidValue` stands for the value-set message.
- The regex patterns treat `^` and `$` as string anchors, and domain names as literals apart from the escaped dots. An fqdn holding a newline, or a domain name holding other regex metacharacters, behaves differently in Ruby.
- `to_instance` updates the entry hash in place, which the model does not capture. It is a function returning the instance. No caller observes the aliasing.
- The number of domain-name requests a legacy flush makes is not modelled. `domain` asks for the names each time it runs, but the backend does not change during a flush, so the answers agree.
- DnsRecordProvider.Provider.Flush: on an error path its contract states only that any record memo left behind is what `record` answers, not whether it was set.
- DnsRecordProvider.Written: its own contract states only the case of an ensure other than present. The present case is stated by `WrittenLikeTransip` against the newer provider's list.
- TypeRules.EnsureOf: an undeclared ensure is unset. Puppet's own `ensurable` default, present once the resource manages some property, is Puppet's machinery and is not modelled.
- TransipClient.Serialized: the form in which the remote service stores a DnsEntry and hands it back is an assumption, because the remote service is not part of this model. The model takes it to be a hash holding each field that is set under its string name. The round trips `EntryRoundTrip` and `EntriesRoundTrip` rest on it.
- DnsRecordProvider.Backend: the `dns_record` provider calls `Transip::Client.get_domain_names` and `get_entries` (`lib/puppet/provider/dns_record/api.rb`, lines 65 and 77), which `client.rb` does not define. As written, each call raises `NoMethodError`, the bare `rescue` turns it into "Unable to get domain names" or "Unable to get entries for <domain>", and every `domain`, `instances` and `flush` of this provider fails. The model supplies the two missing methods through its own `Backend` class and describes the provider as if they existed; the code as written is only the backend's `failing` case, in which `entries` answers the domain-names error (`FailingBackendAnswersNamesError`).
- Concurrency between Puppet runs and other clients of the account is left out.
- The `autorequire` of the credentials file is left out, because it only orders resources.
- The `transip_configured` feature is context, not part of the core.
- Integers have no width in Ruby, and none is modelled.

## Findings

| source | as written | input that shows it | evidently intended | confidence | as-written member | corrected member |
|---|---|---|---|---|---|---|
| lib/puppet_x/transip/soap.rb:63 | `message_options` interpolates `api_version`, which is neither a parameter nor a method, so every call raises `NameError` | `message_options('action', 'service', 'endpoint', 1, '42')` | the `api_service` parameter as the `__service` value | not executed | `SoapSigning.MessageOptionsAsWrittenRaises` | `SoapSigning.MessageOptionsSpec` |
| lib/puppet/type/transip_dns_entry.rb:29 | Puppet runs the content validate block once per array element, so `value.length > 1` measures one string | a `CNAME` with content `['host.example.com']` is rejected | reject a CNAME whose content array has more than one value | not executed | `TransipDnsEntryType.CnameAsWrittenRejectsOneValue` | `TransipDnsEntryType.CnameAcceptsOneValue` |
