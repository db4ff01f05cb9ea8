/**
 * The request-signing side of Transip::Soap: `camelize`, `array_to_indexed_hash`,
 * `encode`, `message_options`, the signing string assembled in `cookies`, and
 * `to_cookie_array`. The RSA/SHA-512 signature and its Base64 text are a
 * function parameter; the clock and the UUID source are parameters.
 */
module SoapSigning {
  import opened Wrappers
  import opened Values
  import Text
  import opened UrlEncoding
  import Seqs

  // ------------------------------------------------------------------
  // camelize
  // ------------------------------------------------------------------

  /** The NoMethodError `nil.downcase` raises when split('_') finds no piece. */
  const UndefinedDowncase := "undefined method `downcase' for nil"

  function CapitalizeAll(parts: seq<string>): (r: seq<string>)
    ensures |r| == |parts| && forall i :: 0 <= i < |parts| ==> r[i] == Text.Capitalize(parts[i])
  {
    seq(|parts|, i requires 0 <= i < |parts| => Text.Capitalize(parts[i]))
  }

  /** The camelised text of the split pieces: first piece lower-cased, the others capitalised. */
  function CamelParts(parts: seq<string>): string
    requires parts != []
  {
    Text.Downcase(parts[0]) + Text.Concat(CapitalizeAll(parts[1..]))
  }

  /**
   * camelize: split at '_', the first piece lower-cased, every later piece
   * capitalised, joined without separator. A word of underscores only splits
   * into no pieces at all, and `parts.first` is then nil.
   */
  function Camelize(word: string): Result<string, string>
  {
    var parts := Text.Split(word, '_');
    if parts == [] then Err(UndefinedDowncase) else Ok(CamelParts(parts))
  }

  /** camelize fails exactly on words made of underscores only (the empty word included). */
  lemma CamelizeFails(word: string)
    ensures Camelize(word).Err? <==> forall i :: 0 <= i < |word| ==> word[i] == '_'
  {
    Text.SplitEmpty(word, '_');
  }

  /**
   * camelize only drops the underscores and changes letter case: lower-cased,
   * the result is the lower-cased word without its underscores, and it has no
   * underscore left.
   */
  lemma CamelizeLetters(word: string)
    requires Camelize(word).Ok?
    ensures Text.Downcase(Camelize(word).value) == Text.Downcase(Text.Without(word, '_'))
    ensures '_' !in Camelize(word).value
  {
    var parts := Text.Split(word, '_');
    Text.SplitConcat(word, '_');
    CamelPartsLetters(parts);
    CamelPartsNoUnderscore(parts);
  }

  lemma CamelPartsLetters(parts: seq<string>)
    requires parts != []
    ensures Text.Downcase(CamelParts(parts)) == Text.Downcase(Text.Concat(parts))
  {
    var tail := parts[1..];
    var caps := CapitalizeAll(tail);
    assert Text.Concat(parts) == parts[0] + Text.Concat(tail);
    Text.DowncaseAppend(Text.Downcase(parts[0]), Text.Concat(caps));
    Text.DowncaseAppend(parts[0], Text.Concat(tail));
    Text.DowncaseCapitalize(parts[0]);
    forall i | 0 <= i < |caps| ensures Text.Downcase(caps[i]) == Text.Downcase(tail[i]) {
      Text.DowncaseCapitalize(tail[i]);
    }
    Text.DowncaseConcatAgree(caps, tail);
  }

  lemma CamelPartsNoUnderscore(parts: seq<string>)
    requires parts != [] && forall i :: 0 <= i < |parts| ==> '_' !in parts[i]
    ensures '_' !in CamelParts(parts)
  {
    var tail := parts[1..];
    var caps := CapitalizeAll(tail);
    forall i | 0 <= i < |caps| ensures '_' !in caps[i] {
      var w, c := tail[i], caps[i];
      assert '_' !in w by { assert w == parts[i + 1]; }
      forall j | 0 <= j < |c| ensures c[j] != '_' {
        if j > 0 { assert c[j] == c[1..][j - 1] == Text.Lower(w[j]); }
      }
    }
    NoUnderscoreConcat(caps);
  }

  lemma {:induction false} NoUnderscoreConcat(parts: seq<string>)
    requires forall i :: 0 <= i < |parts| ==> '_' !in parts[i]
    ensures '_' !in Text.Concat(parts)
  {
    if parts != [] {
      NoUnderscoreConcat(parts[1..]);
    }
  }

  /** A word of three underscore-separated pieces: the first lower-cased, the other two capitalised, concatenated. */
  lemma CamelizeThreeWords(a: string, b: string, c: string)
    requires c != "" && '_' !in a && '_' !in b && '_' !in c
    ensures Camelize(a + "_" + b + "_" + c) == Ok(Text.Downcase(a) + Text.Capitalize(b) + Text.Capitalize(c))
  {
    var w := a + "_" + b + "_" + c;
    Seqs.TwoSeparators(a, b, c, '_');
    Text.SplitAllNoSeparator(a, '_');
    Text.SplitAllNoSeparator(b, '_');
    Text.SplitAllNoSeparator(c, '_');
    Text.SplitAllAround(b, c, '_');
    Text.SplitAllAround(a, b + ['_'] + c, '_');
    Seqs.Three(a, b, c);
    Text.DropTrailingEmptyKeeps([a, b, c]);
    var caps := CapitalizeAll([b, c]);
    Seqs.Pointwise(caps, [Text.Capitalize(b), Text.Capitalize(c)]);
    Text.ConcatPair(Text.Capitalize(b), Text.Capitalize(c));
    Seqs.AppendAssoc(Text.Downcase(a), Text.Capitalize(b), Text.Capitalize(c));
  }

  /** The spelling the TransIP API wants: `get_domain_names` is `getDomainNames`. */
  lemma CamelizeGetDomainNames(w: string)
    requires w == "get_domain_names"
    ensures Camelize(w) == Ok("getDomainNames")
  {
    assert w == "get" + "_" + "domain" + "_" + "names";
    CamelizeThreeWords("get", "domain", "names");
    GetDomainNamesPieces();
  }

  /** The three pieces of `get_domain_names`, lower-cased and capitalized. */
  lemma GetDomainNamesPieces()
    ensures Text.Downcase("get") + Text.Capitalize("domain") + Text.Capitalize("names") == "getDomainNames"
  {
    assert Text.Downcase("get") == "get" by { Text.DowncaseLower("get"); }
    CapitalizeDomain();
    CapitalizeNames();
    assert "get" + "Domain" + "Names" == "getDomainNames";
  }

  lemma CapitalizeDomain()
    ensures Text.Capitalize("domain") == "Domain"
  {
    Text.CapitalizeLower("domain");
    assert Text.Upper('d') == 'D';
  }

  lemma CapitalizeNames()
    ensures Text.Capitalize("names") == "Names"
  {
    Text.CapitalizeLower("names");
    assert Text.Upper('n') == 'N';
  }


  // ------------------------------------------------------------------
  // array_to_indexed_hash
  // ------------------------------------------------------------------

  /** array_to_indexed_hash: `Hash[(0...n).zip(array)]`, keys in index order. */
  function ArrayToIndexedHash<T>(a: seq<T>): seq<(nat, T)>
  {
    IndexedFrom(a, 0)
  }

  function IndexedFrom<T>(a: seq<T>, start: nat): (r: seq<(nat, T)>)
    ensures |r| == |a|
  {
    if a == [] then [] else [(start, a[0])] + IndexedFrom(a[1..], start + 1)
  }

  lemma {:induction false} IndexedFromLookup<T>(a: seq<T>, start: nat, k: nat)
    ensures Lookup(IndexedFrom(a, start), k) == if start <= k < start + |a| then Some(a[k - start]) else None
  {
    if a != [] {
      IndexedFromLookup(a[1..], start + 1, k);
    }
  }

  lemma {:induction false} IndexedFromParts<T>(a: seq<T>, start: nat)
    ensures forall i :: 0 <= i < |a| ==> IndexedFrom(a, start)[i] == (start + i, a[i])
  {
    if a != [] {
      IndexedFromParts(a[1..], start + 1);
      var r := IndexedFrom(a, start);
      forall i | 0 < i < |a| ensures r[i] == (start + i, a[i]) {
        assert r[i] == IndexedFrom(a[1..], start + 1)[i - 1];
      }
    }
  }

  /**
   * The indexed hash of an array has exactly the keys 0..|a|-1, in order, and
   * maps each index to the element at it; the empty array gives the empty hash.
   */
  lemma ArrayToIndexedHashSpec<T>(a: seq<T>)
    ensures |ArrayToIndexedHash(a)| == |a|
    ensures Keys(ArrayToIndexedHash(a)) == seq(|a|, i requires 0 <= i < |a| => i as nat)
    ensures ValuesOf(ArrayToIndexedHash(a)) == a
    ensures forall k: nat :: Lookup(ArrayToIndexedHash(a), k) == if k < |a| then Some(a[k]) else None
  {
    IndexedFromParts(a, 0);
    forall k: nat ensures Lookup(ArrayToIndexedHash(a), k) == if k < |a| then Some(a[k]) else None {
      IndexedFromLookup(a, 0, k);
    }
  }

  // ------------------------------------------------------------------
  // encode
  // ------------------------------------------------------------------

  /** The key path of a Hash entry: `urlencode(key)` at the top, `prefix[urlencode(key)]` below. */
  function KeyPath(prefix: Option<string>, key: string): string
  {
    if prefix.None? then Urlencode(key) else prefix.value + "[" + Urlencode(key) + "]"
  }

  /** `"#{prefix}"`: nil interpolates as the empty string. */
  function PrefixText(prefix: Option<string>): string
  {
    if prefix.None? then "" else prefix.value
  }

  /** The nested Array that encode returns: Strings, and Arrays of further results. */
  datatype Encoded = Str(text: string) | Arr(items: seq<Encoded>)

  /**
   * encode as written: a Hash gives an Array with one result per entry, an
   * Array goes through its indexed hash (Integer keys encode as their decimal
   * text), and a scalar gives the one-String Array `["prefix=value"]`.
   */
  function EncodeTree(v: Value, prefix: Option<string>): Encoded
    decreases v, 1
  {
    match v
    case Scalar(text) => Arr([Str(PrefixText(prefix) + "=" + Urlencode(text))])
    case List(items) => Arr(EncodeTreeItems(items, 0, prefix))
    case Map(fs) => Arr(EncodeTreeFields(fs, prefix))
  }

  /** The results for `array_to_indexed_hash(items)`, the first item having index `start`. */
  function EncodeTreeItems(items: seq<Value>, start: nat, prefix: Option<string>): (r: seq<Encoded>)
    ensures |r| == |items|
    decreases items, 0
  {
    if items == [] then []
    else [EncodeTree(items[0], Some(KeyPath(prefix, Text.NatToString(start))))] + EncodeTreeItems(items[1..], start + 1, prefix)
  }

  function EncodeTreeFields(fs: seq<(string, Value)>, prefix: Option<string>): (r: seq<Encoded>)
    ensures |r| == |fs|
    decreases fs, 0
  {
    if fs == [] then []
    else
      var f := fs[0];
      assert f in fs;
      assert f.1 < f;
      [EncodeTree(f.1, Some(KeyPath(prefix, f.0)))] + EncodeTreeFields(fs[1..], prefix)
  }

  /**
   * Array#join: a String is itself, an Array is the joins of its elements with
   * the separator between them, so an empty nested Array joins as "".
   */
  function JoinTree(e: Encoded, separator: string): string
    decreases e, 1
  {
    match e
    case Str(s) => s
    case Arr(items) => Text.Join(JoinEach(items, separator), separator)
  }

  function JoinEach(es: seq<Encoded>, separator: string): (r: seq<string>)
    ensures |r| == |es|
    decreases es, 0
  {
    if es == [] then [] else [JoinTree(es[0], separator)] + JoinEach(es[1..], separator)
  }

  /** The Strings `%W[...]` lists, as elements of an Array. */
  function Strs(ss: seq<string>): (r: seq<Encoded>)
    ensures |r| == |ss|
  {
    seq(|ss|, i requires 0 <= i < |ss| => Str(ss[i]))
  }

  /**
   * The fields Array#join writes for encode's result, in order: one
   * `path=value` String per scalar, and an empty field for each empty Hash or
   * Array (`[["0=a"], []].join("&")` is `"0=a&"`).
   */
  function Encode(v: Value, prefix: Option<string>): (r: seq<string>)
    ensures r != []
    decreases v, 1
  {
    match v
    case Scalar(text) => [PrefixText(prefix) + "=" + Urlencode(text)]
    case List(items) => if items == [] then [""] else EncodeItems(items, 0, prefix)
    case Map(fs) => if fs == [] then [""] else EncodeFields(fs, prefix)
  }

  /** The fields of the items of `array_to_indexed_hash(items)`, the first item having index `start`. */
  function EncodeItems(items: seq<Value>, start: nat, prefix: Option<string>): (r: seq<string>)
    ensures r == [] <==> items == []
    decreases items, 0
  {
    if items == [] then []
    else Encode(items[0], Some(KeyPath(prefix, Text.NatToString(start)))) + EncodeItems(items[1..], start + 1, prefix)
  }

  /** The fields of a Hash: each value under its key path, in key order. */
  function EncodeFields(fs: seq<(string, Value)>, prefix: Option<string>): (r: seq<string>)
    ensures r == [] <==> fs == []
    decreases fs, 0
  {
    if fs == [] then []
    else
      var f := fs[0];
      assert f in fs;
      assert f.1 < f;
      Encode(f.1, Some(KeyPath(prefix, f.0))) + EncodeFields(fs[1..], prefix)
  }

  lemma {:induction false} JoinEachAppend(a: seq<Encoded>, b: seq<Encoded>, separator: string)
    ensures JoinEach(a + b, separator) == JoinEach(a, separator) + JoinEach(b, separator)
  {
    if a != [] {
      assert (a + b)[0] == a[0] && (a + b)[1..] == a[1..] + b;
      JoinEachAppend(a[1..], b, separator);
    } else {
      assert a + b == b;
    }
  }

  lemma {:induction false} JoinEachStrs(ss: seq<string>, separator: string)
    ensures JoinEach(Strs(ss), separator) == ss
  {
    if ss != [] {
      assert Strs(ss)[1..] == Strs(ss[1..]);
      JoinEachStrs(ss[1..], separator);
    }
  }

  /** Joining the nested result of encode gives the join of its fields. */
  lemma {:induction false} EncodeJoin(v: Value, prefix: Option<string>, separator: string)
    ensures JoinTree(EncodeTree(v, prefix), separator) == Text.Join(Encode(v, prefix), separator)
    decreases v, 2
  {
    match v
    case Scalar(text) =>
      var seg := PrefixText(prefix) + "=" + Urlencode(text);
      assert JoinEach([Str(seg)], separator) == [seg];
    case List(items) =>
      if items != [] {
        EncodeItemsJoin(items, 0, prefix, [], separator);
        assert JoinEach(EncodeTreeItems(items, 0, prefix), separator) + [] == JoinEach(EncodeTreeItems(items, 0, prefix), separator);
        assert EncodeItems(items, 0, prefix) + [] == EncodeItems(items, 0, prefix);
      }
    case Map(fs) =>
      if fs != [] {
        EncodeFieldsJoin(fs, prefix, [], separator);
        assert JoinEach(EncodeTreeFields(fs, prefix), separator) + [] == JoinEach(EncodeTreeFields(fs, prefix), separator);
        assert EncodeFields(fs, prefix) + [] == EncodeFields(fs, prefix);
      }
  }

  /** One step of Array#join over the items: the head's nested result joins as its own fields. */
  lemma JoinStep(head: Encoded, tail: seq<Encoded>, p: seq<string>, f: seq<string>, rest: seq<string>, separator: string)
    requires p != [] && JoinTree(head, separator) == Text.Join(p, separator)
    requires (tail == []) == (f == [])
    requires Text.Join(JoinEach(tail, separator) + rest, separator) == Text.Join(f + rest, separator)
    ensures Text.Join(JoinEach([head] + tail, separator) + rest, separator) == Text.Join(p + f + rest, separator)
  {
    var x := JoinTree(head, separator);
    JoinEachAppend([head], tail, separator);
    assert JoinEach([head] + tail, separator) + rest == [x] + (JoinEach(tail, separator) + rest);
    Text.JoinRegroup(x, p, JoinEach(tail, separator) + rest, f, rest, separator);
  }

  lemma {:induction false} EncodeItemsJoin(items: seq<Value>, start: nat, prefix: Option<string>,
                                           rest: seq<string>, separator: string)
    ensures Text.Join(JoinEach(EncodeTreeItems(items, start, prefix), separator) + rest, separator)
         == Text.Join(EncodeItems(items, start, prefix) + rest, separator)
    decreases items, 1
  {
    if items == [] {
      assert JoinEach([], separator) + rest == rest;
      assert EncodeItems(items, start, prefix) + rest == rest;
    } else {
      var k := Some(KeyPath(prefix, Text.NatToString(start)));
      EncodeJoin(items[0], k, separator);
      EncodeItemsJoin(items[1..], start + 1, prefix, rest, separator);
      JoinStep(EncodeTree(items[0], k), EncodeTreeItems(items[1..], start + 1, prefix),
               Encode(items[0], k), EncodeItems(items[1..], start + 1, prefix), rest, separator);
    }
  }

  lemma {:induction false} EncodeFieldsJoin(fs: seq<(string, Value)>, prefix: Option<string>,
                                            rest: seq<string>, separator: string)
    ensures Text.Join(JoinEach(EncodeTreeFields(fs, prefix), separator) + rest, separator)
         == Text.Join(EncodeFields(fs, prefix) + rest, separator)
    decreases fs, 1
  {
    if fs == [] {
      assert JoinEach([], separator) + rest == rest;
      assert EncodeFields(fs, prefix) + rest == rest;
    } else {
      var f0 := fs[0];
      assert f0 in fs;
      assert f0.1 < f0;
      var k := Some(KeyPath(prefix, f0.0));
      EncodeJoin(f0.1, k, separator);
      EncodeFieldsJoin(fs[1..], prefix, rest, separator);
      JoinStep(EncodeTree(f0.1, k), EncodeTreeFields(fs[1..], prefix),
               Encode(f0.1, k), EncodeFields(fs[1..], prefix), rest, separator);
    }
  }

  /** The Hash with the decimal indexes as keys (the Value form of the indexed hash). */
  function IndexMap(items: seq<Value>, start: nat): seq<(string, Value)>
  {
    if items == [] then [] else [(Text.NatToString(start), items[0])] + IndexMap(items[1..], start + 1)
  }

  /** An Array is encoded exactly as the Hash from its indexes to its elements. */
  lemma {:induction false} EncodeArrayAsIndexMap(items: seq<Value>, start: nat, prefix: Option<string>)
    ensures EncodeItems(items, start, prefix) == EncodeFields(IndexMap(items, start), prefix)
  {
    if items != [] {
      EncodeArrayAsIndexMap(items[1..], start + 1, prefix);
      assert IndexMap(items, start)[0] == (Text.NatToString(start), items[0]);
      assert IndexMap(items, start)[1..] == IndexMap(items[1..], start + 1);
    }
  }

  /** A scalar leaf of a value tree, or an empty Hash or Array (a hole), with the keys leading to it. */
  datatype Leaf = Leaf(path: seq<string>, text: string) | Hole(path: seq<string>)

  /** The scalar leaves of v in traversal order, with their key paths (decimal indexes for Arrays). */
  function Leaves(v: Value): seq<Leaf>
    decreases v, 1
  {
    match v
    case Scalar(text) => [Leaf([], text)]
    case List(items) => if items == [] then [Hole([])] else LeavesItems(items, 0)
    case Map(fs) => if fs == [] then [Hole([])] else LeavesFields(fs)
  }

  function LeavesItems(items: seq<Value>, start: nat): seq<Leaf>
    decreases items, 0
  {
    if items == [] then []
    else Under(Text.NatToString(start), Leaves(items[0])) + LeavesItems(items[1..], start + 1)
  }

  function LeavesFields(fs: seq<(string, Value)>): seq<Leaf>
    decreases fs, 0
  {
    if fs == [] then []
    else
      var f := fs[0];
      assert f in fs;
      assert f.1 < f;
      Under(f.0, Leaves(f.1)) + LeavesFields(fs[1..])
  }

  function Under(key: string, leaves: seq<Leaf>): (r: seq<Leaf>)
    ensures |r| == |leaves|
  {
    seq(|leaves|, i requires 0 <= i < |leaves| => Prefixed(key, leaves[i]))
  }

  /** The same leaf one key further down. */
  function Prefixed(key: string, leaf: Leaf): (r: Leaf)
    ensures r.Hole? == leaf.Hole? && r.path == [key] + leaf.path
  {
    match leaf
    case Leaf(path, text) => Leaf([key] + path, text)
    case Hole(path) => Hole([key] + path)
  }

  /** The rendered key path: the first key as is, every further key in brackets. */
  function PathText(prefix: Option<string>, path: seq<string>): string
    decreases |path|
  {
    if path == [] then PrefixText(prefix) else PathText(Some(KeyPath(prefix, path[0])), path[1..])
  }

  /** The field of one leaf: `path=urlencode(text)` for a scalar, nothing for a hole. */
  function Segment(prefix: Option<string>, leaf: Leaf): string
  {
    if leaf.Hole? then "" else PathText(prefix, leaf.path) + "=" + Urlencode(leaf.text)
  }

  function Segments(prefix: Option<string>, leaves: seq<Leaf>): (r: seq<string>)
    ensures |r| == |leaves|
  {
    seq(|leaves|, i requires 0 <= i < |leaves| => Segment(prefix, leaves[i]))
  }

  lemma SegmentsAppend(prefix: Option<string>, a: seq<Leaf>, b: seq<Leaf>)
    ensures Segments(prefix, a + b) == Segments(prefix, a) + Segments(prefix, b)
  {
  }

  lemma SegmentsUnder(prefix: Option<string>, key: string, leaves: seq<Leaf>)
    ensures Segments(prefix, Under(key, leaves)) == Segments(Some(KeyPath(prefix, key)), leaves)
  {
    var u := Under(key, leaves);
    forall i | 0 <= i < |leaves|
      ensures Segment(prefix, u[i]) == Segment(Some(KeyPath(prefix, key)), leaves[i])
    {
      assert u[i] == Prefixed(key, leaves[i]);
      assert u[i].path[1..] == leaves[i].path;
    }
  }

  /**
   * encode yields one field per leaf, in traversal order: `path=urlencode(value)`
   * for a scalar, and an empty field for an empty Hash or Array.
   */
  lemma {:induction false} EncodeIsLeafSegments(v: Value, prefix: Option<string>)
    ensures Encode(v, prefix) == Segments(prefix, Leaves(v))
    decreases v, 1
  {
    match v
    case Scalar(_) =>
    case List(items) => if items != [] { EncodeItemsLeaves(items, 0, prefix); }
    case Map(fs) => if fs != [] { EncodeFieldsLeaves(fs, prefix); }
  }

  lemma {:induction false} EncodeItemsLeaves(items: seq<Value>, start: nat, prefix: Option<string>)
    ensures EncodeItems(items, start, prefix) == Segments(prefix, LeavesItems(items, start))
    decreases items, 0
  {
    if items != [] {
      var key := Text.NatToString(start);
      EncodeIsLeafSegments(items[0], Some(KeyPath(prefix, key)));
      EncodeItemsLeaves(items[1..], start + 1, prefix);
      SegmentsUnder(prefix, key, Leaves(items[0]));
      SegmentsAppend(prefix, Under(key, Leaves(items[0])), LeavesItems(items[1..], start + 1));
    }
  }

  lemma {:induction false} EncodeFieldsLeaves(fs: seq<(string, Value)>, prefix: Option<string>)
    ensures EncodeFields(fs, prefix) == Segments(prefix, LeavesFields(fs))
    decreases fs, 0
  {
    if fs != [] {
      var f := fs[0];
      assert f in fs;
      assert f.1 < f;
      EncodeIsLeafSegments(f.1, Some(KeyPath(prefix, f.0)));
      EncodeFieldsLeaves(fs[1..], prefix);
      SegmentsUnder(prefix, f.0, Leaves(f.1));
      SegmentsAppend(prefix, Under(f.0, Leaves(f.1)), LeavesFields(fs[1..]));
    }
  }

  predicate NoSeparators(s: string) { '=' !in s && '&' !in s }

  lemma UrlencodeNoSeparators(s: string)
    ensures NoSeparators(Urlencode(s))
  {
    UrlencodeAlphabet(s);
  }

  lemma {:induction false} PathTextNoSeparators(prefix: Option<string>, path: seq<string>)
    requires prefix.None? || NoSeparators(prefix.value)
    ensures NoSeparators(PathText(prefix, path))
    decreases |path|
  {
    if path != [] {
      UrlencodeNoSeparators(path[0]);
      PathTextNoSeparators(Some(KeyPath(prefix, path[0])), path[1..]);
    }
  }

  /**
   * Every field of a top-level encode is either empty, for an empty Hash or
   * Array, or `path=value` with neither '=' nor '&' in the path or the value,
   * so the `&`-joined signing string splits back into its fields, and each
   * non-empty field at its one '='.
   */
  lemma EncodeSegmentsSeparable(v: Value, i: nat)
    requires i < |Leaves(v)|
    ensures |Encode(v, None)| == |Leaves(v)|
    ensures Leaves(v)[i].Hole? ==> Encode(v, None)[i] == ""
    ensures Leaves(v)[i].Leaf? ==>
      exists path, value :: Encode(v, None)[i] == path + "=" + value && NoSeparators(path) && NoSeparators(value)
  {
    EncodeIsLeafSegments(v, None);
    var leaf := Leaves(v)[i];
    if leaf.Leaf? {
      PathTextNoSeparators(None, leaf.path);
      UrlencodeNoSeparators(leaf.text);
      assert Encode(v, None)[i] == PathText(None, leaf.path) + "=" + Urlencode(leaf.text);
    }
  }

  // ------------------------------------------------------------------
  // message_options, the signing string, to_cookie_array, cookies
  // ------------------------------------------------------------------

  /** message_options with `__service` taken from its api_service parameter. */
  function MessageOptions(action: string, apiService: string, hostname: string, time: int, nonce: string): Result<seq<string>, string>
  {
    var m := Camelize(action);
    if m.Err? then Err(m.error)
    else Ok(["__method=" + m.value, "__service=" + apiService, "__hostname=" + hostname,
             "__timestamp=" + Text.IntToString(time), "__nonce=" + nonce])
  }

  /** The NameError an undefined `api_version` raises inside the class methods of Transip::Soap. */
  const UndefinedApiVersion := "undefined local variable or method `api_version' for Transip::Soap"

  /**
   * message_options as written: the `%W[...]` list interpolates `api_version`,
   * a name no scope of the method defines, right after `camelize(method)`.
   */
  function MessageOptionsAsWritten(action: string, apiService: string, hostname: string, time: int, nonce: string): Result<seq<string>, string>
  {
    var m := Camelize(action);
    if m.Err? then Err(m.error) else Err(UndefinedApiVersion)
  }

  /** As written, message_options can never return: every call raises. */
  lemma MessageOptionsAsWrittenRaises(action: string, apiService: string, hostname: string, time: int, nonce: string)
    ensures MessageOptionsAsWritten(action, apiService, hostname, time, nonce).Err?
    ensures Camelize(action).Ok? ==>
      MessageOptionsAsWritten(action, apiService, hostname, time, nonce) == Err(UndefinedApiVersion) &&
      MessageOptions(action, apiService, hostname, time, nonce).Ok?
  {
  }

  /**
   * The message options name the camelised method, the service, the host, the
   * time and the nonce, in that order, and fail only where camelize does.
   */
  lemma MessageOptionsSpec(action: string, apiService: string, hostname: string, time: int, nonce: string)
    ensures MessageOptions(action, apiService, hostname, time, nonce).Err? <==> forall i :: 0 <= i < |action| ==> action[i] == '_'
    ensures MessageOptions(action, apiService, hostname, time, nonce).Ok? ==>
      var opts := MessageOptions(action, apiService, hostname, time, nonce).value;
      |opts| == 5 && Text.StringToI(opts[3][|"__timestamp="|..]) == time
  {
    CamelizeFails(action);
    MessageOptionsTimestamp(action, apiService, hostname, time, nonce);
  }

  lemma MessageOptionsTimestamp(action: string, apiService: string, hostname: string, time: int, nonce: string)
    ensures MessageOptions(action, apiService, hostname, time, nonce).Ok? ==>
      var opts := MessageOptions(action, apiService, hostname, time, nonce).value;
      |opts| == 5 && Text.StringToI(opts[3][|"__timestamp="|..]) == time
  {
    if Camelize(action).Ok? {
      Text.IntToStringToI(time);
      Seqs.DropPrefix("__timestamp=", Text.IntToString(time));
    }
  }

  /**
   * The string cookies signs: the nested result of encoding the parameter
   * values, their names dropped, followed by the message options, the whole
   * Array joined by '&'.
   */
  function SigningInput(params: seq<(string, Value)>, action: string, apiService: string,
                        hostname: string, time: int, nonce: string): Result<string, string>
  {
    var opts := MessageOptions(action, apiService, hostname, time, nonce);
    if opts.Err? then Err(opts.error)
    else Ok(JoinTree(Arr(EncodeTree(List(ValuesOf(params)), None).items + Strs(opts.value)), "&"))
  }

  /**
   * The signing string is the '&'-join of the fields of every parameter value,
   * an empty field for each empty nested Hash or Array included, followed by
   * the message options.
   */
  lemma SigningInputFlat(params: seq<(string, Value)>, action: string, apiService: string,
                         hostname: string, time: int, nonce: string)
    ensures var opts := MessageOptions(action, apiService, hostname, time, nonce);
      SigningInput(params, action, apiService, hostname, time, nonce)
      == if opts.Err? then Err(opts.error)
         else Ok(Text.Join(EncodeItems(ValuesOf(params), 0, None) + opts.value, "&"))
  {
    var opts := MessageOptions(action, apiService, hostname, time, nonce);
    if opts.Ok? {
      var t := EncodeTreeItems(ValuesOf(params), 0, None);
      JoinEachAppend(t, Strs(opts.value), "&");
      JoinEachStrs(opts.value, "&");
      EncodeItemsJoin(ValuesOf(params), 0, None, opts.value, "&");
    }
  }

  /** Only the parameter values are signed: renaming the parameters leaves the signing string unchanged. */
  lemma SigningInputIgnoresNames(p: seq<(string, Value)>, q: seq<(string, Value)>, action: string,
                                 apiService: string, hostname: string, time: int, nonce: string)
    requires ValuesOf(p) == ValuesOf(q)
    ensures SigningInput(p, action, apiService, hostname, time, nonce) == SigningInput(q, action, apiService, hostname, time, nonce)
  {
  }

  /** The signing string ends with the timestamp and nonce segments. */
  lemma SigningInputEnds(params: seq<(string, Value)>, action: string, apiService: string,
                         hostname: string, time: int, nonce: string)
    requires SigningInput(params, action, apiService, hostname, time, nonce).Ok?
    ensures Text.EndsWith(SigningInput(params, action, apiService, hostname, time, nonce).value,
                          "&__timestamp=" + Text.IntToString(time) + "&__nonce=" + nonce)
  {
    var opts := MessageOptions(action, apiService, hostname, time, nonce).value;
    var xs := EncodeItems(ValuesOf(params), 0, None) + opts;
    SigningInputFlat(params, action, apiService, hostname, time, nonce);
    assert SigningInput(params, action, apiService, hostname, time, nonce).value == Text.Join(xs, "&");
    assert xs[|xs| - 2] == "__timestamp=" + Text.IntToString(time) && xs[|xs| - 1] == "__nonce=" + nonce;
    Text.JoinEndsWithLastTwo(xs, "&");
    TimestampNonceTail(Text.IntToString(time), nonce);
  }

  lemma TimestampNonceTail(t: string, n: string)
    ensures "&" + ("__timestamp=" + t) + "&" + ("__nonce=" + n) == "&__timestamp=" + t + "&__nonce=" + n
  {
  }

  /** to_cookie_array: six `name=value` strings. */
  function ToCookieArray(username: string, mode: string, time: int, nonce: string,
                         apiVersion: string, signature: string): seq<string>
  {
    [Cookie("login", username), Cookie("mode", mode), Cookie("timestamp", Text.IntToString(time)),
     Cookie("nonce", nonce), Cookie("clientVersion", apiVersion), Cookie("signature", signature)]
  }

  /** One `name=value` word of the `%W[...]` list. */
  function Cookie(name: string, value: string): string
  {
    name + "=" + value
  }

  /** A cookie string cut at its first '=' into name and value. */
  function SplitCookie(c: string): (string, string)
  {
    if c == [] then ("", "")
    else if c[0] == '=' then ("", c[1..])
    else
      var nv := SplitCookie(c[1..]);
      ([c[0]] + nv.0, nv.1)
  }

  lemma {:induction false} SplitCookieAt(name: string, value: string)
    requires '=' !in name
    ensures SplitCookie(name + "=" + value) == (name, value)
  {
    var c := name + "=" + value;
    if name == [] {
      assert c == "=" + value;
      assert c[1..] == value;
    } else {
      SplitCookieAt(name[1..], value);
      assert c[1..] == name[1..] + "=" + value;
      assert [name[0]] + name[1..] == name;
    }
  }

  /** The cookies read back as login, mode, timestamp, nonce, clientVersion, signature, in that order. */
  lemma CookiesReadBack(username: string, mode: string, time: int, nonce: string,
                        apiVersion: string, signature: string)
    ensures var cs := ToCookieArray(username, mode, time, nonce, apiVersion, signature);
      |cs| == 6 &&
      SplitCookie(cs[0]) == ("login", username) &&
      SplitCookie(cs[1]) == ("mode", mode) &&
      SplitCookie(cs[2]) == ("timestamp", Text.IntToString(time)) &&
      SplitCookie(cs[3]) == ("nonce", nonce) &&
      SplitCookie(cs[4]) == ("clientVersion", apiVersion) &&
      SplitCookie(cs[5]) == ("signature", signature)
  {
    var cs := ToCookieArray(username, mode, time, nonce, apiVersion, signature);
    assert SplitCookie(cs[0]) == ("login", username) by { SplitCookieAt("login", username); }
    assert SplitCookie(cs[1]) == ("mode", mode) by { SplitCookieAt("mode", mode); }
    assert SplitCookie(cs[2]) == ("timestamp", Text.IntToString(time)) by {
      SplitCookieAt("timestamp", Text.IntToString(time));
    }
    assert SplitCookie(cs[3]) == ("nonce", nonce) by { SplitCookieAt("nonce", nonce); }
    assert SplitCookie(cs[4]) == ("clientVersion", apiVersion) by { SplitCookieAt("clientVersion", apiVersion); }
    assert SplitCookie(cs[5]) == ("signature", signature) by { SplitCookieAt("signature", signature); }
  }

  /** `SecureRandom.uuid.gsub("-", '')`. */
  function StripDashes(uuid: string): string
  {
    Gsub(uuid, "-", "")
  }

  lemma {:induction false} StripDashesRemovesDashes(s: string)
    ensures StripDashes(s) == Text.Without(s, '-')
    decreases |s|
  {
    if s != [] {
      StripDashesRemovesDashes(s[1..]);
      assert [s[0]] + s[1..] == s;
      if s[0] == '-' {
        assert "-" <= s;
        assert Gsub(s, "-", "") == "" + Gsub(s[1..], "-", "");
      } else {
        GsubSkip(s[0], s[1..], "-", "", 0);
        assert Gsub(s, "-", "") == [s[0]] + Gsub(s[1..], "-", "");
      }
    }
  }

  /**
   * cookies. `signBase64` stands for the RSA/SHA-512 signature of its input in
   * Base64; the result is URL-encoded as the signature cookie. As the source
   * calls it, the API version goes into the api_service position of
   * message_options.
   */
  function Cookies(action: string, username: string, mode: string, apiVersion: string, hostname: string,
                   signBase64: string -> string, options: seq<(string, Value)>,
                   time: int, uuid: string): Result<seq<string>, string>
  {
    var nonce := StripDashes(uuid);
    var input := SigningInput(options, action, apiVersion, hostname, time, nonce);
    if input.Err? then Err(input.error)
    else Ok(ToCookieArray(username, mode, time, nonce, apiVersion, Urlencode(signBase64(input.value))))
  }

  /**
   * The timestamp and nonce sent as cookies are the ones the signed string ends
   * with, and the signature cookie carries the URL-encoded signature of exactly
   * that string.
   */
  lemma CookiesBindTimeAndNonce(action: string, username: string, mode: string, apiVersion: string, hostname: string,
                                signBase64: string -> string, options: seq<(string, Value)>, time: int, uuid: string)
    requires Cookies(action, username, mode, apiVersion, hostname, signBase64, options, time, uuid).Ok?
    ensures var nonce := Text.Without(uuid, '-');
      var input := SigningInput(options, action, apiVersion, hostname, time, nonce);
      var cs := Cookies(action, username, mode, apiVersion, hostname, signBase64, options, time, uuid).value;
      && input.Ok?
      && Text.EndsWith(input.value, "&__timestamp=" + Text.IntToString(time) + "&__nonce=" + nonce)
      && SplitCookie(cs[2]) == ("timestamp", Text.IntToString(time))
      && SplitCookie(cs[3]) == ("nonce", nonce)
      && SplitCookie(cs[5]) == ("signature", Urlencode(signBase64(input.value)))
  {
    StripDashesRemovesDashes(uuid);
    var nonce := Text.Without(uuid, '-');
    SigningInputEnds(options, action, apiVersion, hostname, time, nonce);
    var input := SigningInput(options, action, apiVersion, hostname, time, nonce);
    CookiesReadBack(username, mode, time, nonce, apiVersion, Urlencode(signBase64(input.value)));
  }

  // ------------------------------------------------------------------
  // The worked signing example
  // ------------------------------------------------------------------

  /** Text that urlencode leaves as it is. */
  predicate UrlSafe(s: string) { forall i :: 0 <= i < |s| ==> Unreserved(s[i]) }

  /** A scalar under a Hash key below the path p, both key and text URL-safe. */
  lemma EncodeKeyedScalar(p: Option<string>, key: string, text: string)
    requires UrlSafe(key) && UrlSafe(text)
    ensures Encode(Scalar(text), Some(KeyPath(p, key)))
         == [(if p.None? then key else p.value + "[" + key + "]") + "=" + text]
  {
    UrlencodeUnreserved(key);
    UrlencodeUnreserved(text);
    var kp := KeyPath(p, key);
    assert kp == (if p.None? then key else p.value + "[" + key + "]");
    assert Encode(Scalar(text), Some(kp)) == [PrefixText(Some(kp)) + "=" + Urlencode(text)];
  }

  /** A two-field Hash of URL-safe keys and texts below the path p. */
  lemma EncodePair(p: string, k1: string, t1: string, k2: string, t2: string)
    requires UrlSafe(k1) && UrlSafe(t1) && UrlSafe(k2) && UrlSafe(t2)
    ensures EncodeFields([(k1, Scalar(t1)), (k2, Scalar(t2))], Some(p))
         == [p + "[" + k1 + "]=" + t1, p + "[" + k2 + "]=" + t2]
  {
    var fs := [(k1, Scalar(t1)), (k2, Scalar(t2))];
    EncodeKeyedScalar(Some(p), k1, t1);
    EncodeKeyedScalar(Some(p), k2, t2);
    var tail := [(k2, Scalar(t2))];
    assert fs[1..] == tail && tail[1..] == [];
    assert EncodeFields(tail, Some(p)) == Encode(Scalar(t2), Some(KeyPath(Some(p), k2))) + EncodeFields([], Some(p));
    assert EncodeFields(fs, Some(p)) == Encode(Scalar(t1), Some(KeyPath(Some(p), k1))) + EncodeFields(tail, Some(p));
    ConcatKey(p, k1, t1);
    ConcatKey(p, k2, t2);
  }

  lemma ConcatKey(p: string, k: string, t: string)
    ensures p + "[" + k + "]" + "=" + t == p + "[" + k + "]=" + t
  {
    assert "]" + "=" == "]=";
  }

  /** A one-element Array below the path p: the element sits under index 0. */
  lemma EncodeSingleton(p: Option<string>, v: Value)
    ensures Encode(List([v]), p) == Encode(v, Some(KeyPath(p, "0")))
  {
    assert Text.NatToString(0) == "0";
    assert [v][1..] == [];
    assert EncodeItems([v], 0, p) == Encode(v, Some(KeyPath(p, "0"))) + EncodeItems([], 1, p);
  }

  /** The decimal texts of the first two indexes, which urlencode keeps. */
  lemma FirstIndexes()
    ensures Text.NatToString(0) == "0" && Text.NatToString(1) == "1"
    ensures KeyPath(None, "0") == "0" && KeyPath(None, "1") == "1" && KeyPath(Some("1"), "0") == "1[0]"
  {
    UrlencodeUnreserved("0");
    UrlencodeUnreserved("1");
  }

  /** encode of the tests' shape `[a, [{name => a, kind => b}]]`, its keys and texts URL-safe. */
  lemma EncodeNested(a: string, b: string, name: string, kind: string)
    requires UrlSafe(a) && UrlSafe(b) && UrlSafe(name) && UrlSafe(kind)
    ensures Encode(List([Scalar(a), List([Map([(name, Scalar(a)), (kind, Scalar(b))])])]), None)
         == ["0" + "=" + a, "1[0]" + "[" + name + "]=" + a, "1[0]" + "[" + kind + "]=" + b]
  {
    var m := Map([(name, Scalar(a)), (kind, Scalar(b))]);
    var inner := List([m]);
    var items := [Scalar(a), inner];
    FirstIndexes();
    EncodeKeyedScalar(None, "0", a);
    assert items[1..] == [inner] && [inner][1..] == [];
    assert EncodeItems([inner], 1, None) == Encode(inner, Some("1")) + EncodeItems([], 2, None);
    assert EncodeItems(items, 0, None) == Encode(Scalar(a), Some("0")) + EncodeItems([inner], 1, None);
    EncodeSingleton(Some("1"), m);
    EncodePair("1[0]", name, a, kind, b);
  }

  /** The same with the tests' own texts: `["0=a", "1[0][name]=a", "1[0][type]=b"]`. */
  lemma EncodeExample(a: string, b: string, name: string, kind: string)
    requires a == "a" && b == "b" && name == "name" && kind == "type"
    ensures Encode(List([Scalar(a), List([Map([(name, Scalar(a)), (kind, Scalar(b))])])]), None)
         == ["0=a", "1[0][name]=a", "1[0][type]=b"]
  {
    EncodeNested(a, b, name, kind);
    assert "0" + "=" + a == "0=a";
    assert "1[0]" + "[" + name + "]=" + a == "1[0][name]=a";
    assert "1[0]" + "[" + kind + "]=" + b == "1[0][type]=b";
  }

  /**
   * The signing string of a request with parameters `param1: a` and
   * `param2: [{name => a, kind => b}]`, all texts URL-safe: the encoded
   * values, then the five message options, joined by '&'.
   */
  lemma SigningInputExample(a: string, b: string, name: string, kind: string, action: string,
                            service: string, host: string, time: int, nonce: string)
    requires UrlSafe(a) && UrlSafe(b) && UrlSafe(name) && UrlSafe(kind)
    requires Camelize(action) == Ok(action)
    ensures SigningInput([("param1", Scalar(a)), ("param2", List([Map([(name, Scalar(a)), (kind, Scalar(b))])]))],
                         action, service, host, time, nonce)
         == Ok(Text.Join(["0" + "=" + a, "1[0]" + "[" + name + "]=" + a, "1[0]" + "[" + kind + "]=" + b,
                          "__method=" + action, "__service=" + service, "__hostname=" + host,
                          "__timestamp=" + Text.IntToString(time), "__nonce=" + nonce], "&"))
  {
    var v2 := List([Map([(name, Scalar(a)), (kind, Scalar(b))])]);
    var params := [("param1", Scalar(a)), ("param2", v2)];
    var enc := ["0" + "=" + a, "1[0]" + "[" + name + "]=" + a, "1[0]" + "[" + kind + "]=" + b];
    var opts := ["__method=" + action, "__service=" + service, "__hostname=" + host,
                 "__timestamp=" + Text.IntToString(time), "__nonce=" + nonce];
    EncodeExampleParams(a, b, name, kind);
    MessageOptionsOf(action, service, host, time, nonce);
    SigningInputOf(params, action, service, host, time, nonce, enc, opts);
    ThreeThenFive("0" + "=" + a, "1[0]" + "[" + name + "]=" + a, "1[0]" + "[" + kind + "]=" + b,
                  "__method=" + action, "__service=" + service, "__hostname=" + host,
                  "__timestamp=" + Text.IntToString(time), "__nonce=" + nonce);
  }

  /**
   * The signing string of `set_entries(domain, [])`, the call that removes a
   * domain's last entries: the empty entry Array leaves an empty field, so
   * the string carries `&&` between the domain and `__method`.
   */
  lemma SigningInputEmptyEntries(domain: string, action: string, service: string, host: string, time: int, nonce: string)
    requires UrlSafe(domain)
    requires Camelize(action) == Ok(action)
    ensures SigningInput([("domainName", Scalar(domain)), ("dnsEntries", List([]))], action, service, host, time, nonce)
         == Ok(Text.Join(["0" + "=" + domain, "",
                          "__method=" + action, "__service=" + service, "__hostname=" + host,
                          "__timestamp=" + Text.IntToString(time), "__nonce=" + nonce], "&"))
  {
    var params := [("domainName", Scalar(domain)), ("dnsEntries", List([]))];
    var opts := ["__method=" + action, "__service=" + service, "__hostname=" + host,
                 "__timestamp=" + Text.IntToString(time), "__nonce=" + nonce];
    EncodeEmptyEntriesParams(domain);
    MessageOptionsOf(action, service, host, time, nonce);
    SigningInputOf(params, action, service, host, time, nonce, ["0" + "=" + domain, ""], opts);
    TwoThenFive("0" + "=" + domain, "", "__method=" + action, "__service=" + service, "__hostname=" + host,
                "__timestamp=" + Text.IntToString(time), "__nonce=" + nonce);
  }

  lemma EncodeEmptyEntriesParams(domain: string)
    requires UrlSafe(domain)
    ensures EncodeItems(ValuesOf([("domainName", Scalar(domain)), ("dnsEntries", List([]))]), 0, None)
         == ["0" + "=" + domain, ""]
  {
    var items := [Scalar(domain), List([])];
    assert ValuesOf([("domainName", Scalar(domain)), ("dnsEntries", List([]))]) == items;
    FirstIndexes();
    EncodeKeyedScalar(None, "0", domain);
    var tail: seq<Value> := [List([])];
    assert items[1..] == tail && tail[1..] == [];
    assert EncodeItems([List([])], 1, None) == Encode(List([]), Some("1")) + EncodeItems([], 2, None);
    assert EncodeItems(items, 0, None) == Encode(Scalar(domain), Some("0")) + EncodeItems([List([])], 1, None);
  }

  lemma EncodeExampleParams(a: string, b: string, name: string, kind: string)
    requires UrlSafe(a) && UrlSafe(b) && UrlSafe(name) && UrlSafe(kind)
    ensures EncodeItems(ValuesOf([("param1", Scalar(a)), ("param2", List([Map([(name, Scalar(a)), (kind, Scalar(b))])]))]), 0, None)
         == ["0" + "=" + a, "1[0]" + "[" + name + "]=" + a, "1[0]" + "[" + kind + "]=" + b]
  {
    var v2 := List([Map([(name, Scalar(a)), (kind, Scalar(b))])]);
    assert ValuesOf([("param1", Scalar(a)), ("param2", v2)]) == [Scalar(a), v2];
    EncodeNested(a, b, name, kind);
  }

  lemma MessageOptionsOf(action: string, service: string, host: string, time: int, nonce: string)
    requires Camelize(action) == Ok(action)
    ensures MessageOptions(action, service, host, time, nonce)
         == Ok(["__method=" + action, "__service=" + service, "__hostname=" + host,
                "__timestamp=" + Text.IntToString(time), "__nonce=" + nonce])
  {
  }

  lemma SigningInputOf(params: seq<(string, Value)>, action: string, apiService: string,
                       hostname: string, time: int, nonce: string, enc: seq<string>, opts: seq<string>)
    requires EncodeItems(ValuesOf(params), 0, None) == enc
    requires MessageOptions(action, apiService, hostname, time, nonce) == Ok(opts)
    ensures SigningInput(params, action, apiService, hostname, time, nonce) == Ok(Text.Join(enc + opts, "&"))
  {
    SigningInputFlat(params, action, apiService, hostname, time, nonce);
  }

  lemma TwoThenFive<T>(x0: T, x1: T, y0: T, y1: T, y2: T, y3: T, y4: T)
    ensures [x0, x1] + [y0, y1, y2, y3, y4] == [x0, x1, y0, y1, y2, y3, y4]
  {
  }

  lemma ThreeThenFive<T>(x0: T, x1: T, x2: T, y0: T, y1: T, y2: T, y3: T, y4: T)
    ensures [x0, x1, x2] + [y0, y1, y2, y3, y4] == [x0, x1, x2, y0, y1, y2, y3, y4]
  {
  }
}
