/**
 * The SOAP value codec of Transip::Soap: `to_soap` builds the SOAP-encoded
 * request shape (an `item` wrapper, `@xsi:type` annotations and a `T[n]`
 * cardinality marker); `from_soap` unwraps `item`/`return` envelopes of a
 * response and drops attribute keys.
 */
module SoapCodec {
  import opened Wrappers
  import opened Values
  import Text
  import Seqs

  // ------------------------------------------------------------------
  // Decoding: from_soap / from_hash
  // ------------------------------------------------------------------

  /** from_soap: Arrays element-wise, Hashes through FromHash, scalars unchanged. */
  function FromSoap(v: Value): Value
    decreases v, 2
  {
    match v
    case Scalar(_) => v
    case List(items) => List(seq(|items|, i requires 0 <= i < |items| => FromSoap(items[i])))
    case Map(fs) => FromHash(fs)
  }

  predicate IsEnvelopeKey(k: string) { k == "item" || k == "return" }

  /**
   * from_hash: only the FIRST key is inspected. An `item` or `return` first key
   * means the result is the decoding of that key's value alone; otherwise every
   * non-attribute field is decoded, in order.
   */
  function FromHash(fs: seq<(string, Value)>): Value
    decreases fs, 1
  {
    if fs != [] && IsEnvelopeKey(fs[0].0) then
      var f := fs[0];
      assert f in fs;
      assert f.1 < f;
      FromSoap(f.1)
    else
      Map(DecodeFields(fs))
  }

  /** The `each_with_object` of from_hash: drops keys starting with '@', decodes the other values. */
  function DecodeFields(fs: seq<(string, Value)>): seq<(string, Value)>
    decreases fs, 0
  {
    if fs == [] then []
    else
      var f := fs[0];
      assert f in fs;
      assert f.1 < f;
      (if IsMetaKey(f.0) then [] else [(f.0, FromSoap(f.1))]) + DecodeFields(fs[1..])
  }

  /** No Hash that from_soap produces has an attribute key, at any depth. */
  lemma {:induction false} FromSoapMetaFree(v: Value)
    ensures MetaFree(FromSoap(v))
    decreases v, 2
  {
    match v
    case Scalar(_) =>
    case List(items) =>
      forall i | 0 <= i < |items| ensures MetaFree(FromSoap(items[i])) {
        FromSoapMetaFree(items[i]);
      }
    case Map(fs) =>
      FromHashMetaFree(fs);
  }

  lemma {:induction false} FromHashMetaFree(fs: seq<(string, Value)>)
    ensures MetaFree(FromHash(fs))
    decreases fs, 1
  {
    if fs != [] && IsEnvelopeKey(fs[0].0) {
      var f := fs[0];
      assert f in fs;
      assert f.1 < f;
      FromSoapMetaFree(f.1);
    } else {
      DecodeFieldsMetaFree(fs);
    }
  }

  lemma {:induction false} DecodeFieldsMetaFree(fs: seq<(string, Value)>)
    ensures MetaFreeFields(DecodeFields(fs))
    decreases fs, 0
  {
    if fs != [] {
      var f := fs[0];
      assert f in fs;
      assert f.1 < f;
      DecodeFieldsMetaFree(fs[1..]);
      var r := DecodeFields(fs);
      if !IsMetaKey(f.0) {
        FromSoapMetaFree(f.1);
        assert r[0] == (f.0, FromSoap(f.1)) && r[1..] == DecodeFields(fs[1..]);
      } else {
        assert r == DecodeFields(fs[1..]);
      }
    }
  }

  /**
   * The decoder reads an array envelope by its shape alone: whatever attributes
   * (the `T[n]` cardinality marker among them) follow an `item` first key, the
   * result is the decoding of the item. A one-element array therefore decodes to
   * its element, not to a one-element list.
   */
  lemma EnvelopeIgnoresAttributes(key: string, x: Value, attributes: seq<(string, Value)>)
    requires IsEnvelopeKey(key)
    ensures FromSoap(Map([(key, x)] + attributes)) == FromSoap(x)
  {
    assert ([(key, x)] + attributes)[0] == (key, x);
  }

  /** A value is plain when no Hash in it has an attribute key or an envelope first key. */
  predicate Plain(v: Value)
    decreases v, 1
  {
    match v
    case Scalar(_) => true
    case List(items) => forall i :: 0 <= i < |items| ==> Plain(items[i])
    case Map(fs) => (fs == [] || !IsEnvelopeKey(fs[0].0)) && PlainFields(fs)
  }

  predicate PlainFields(fs: seq<(string, Value)>)
    decreases fs, 0
  {
    if fs == [] then true
    else
      var f := fs[0];
      assert f in fs;
      assert f.1 < f;
      !IsMetaKey(f.0) && Plain(f.1) && PlainFields(fs[1..])
  }

  /** Decoding leaves a plain value unchanged. */
  lemma {:induction false} FromSoapPlain(v: Value)
    requires Plain(v)
    ensures FromSoap(v) == v
    decreases v, 1
  {
    match v
    case Scalar(_) =>
    case List(items) =>
      forall i | 0 <= i < |items| ensures FromSoap(items[i]) == items[i] {
        FromSoapPlain(items[i]);
      }
    case Map(fs) =>
      DecodeFieldsPlain(fs);
  }

  lemma {:induction false} DecodeFieldsPlain(fs: seq<(string, Value)>)
    requires PlainFields(fs)
    ensures DecodeFields(fs) == fs
    decreases fs, 0
  {
    if fs != [] {
      var f := fs[0];
      assert f in fs;
      assert f.1 < f;
      FromSoapPlain(f.1);
      DecodeFieldsPlain(fs[1..]);
      assert fs == [f] + fs[1..];
    }
  }

  /** The response shape of a one-element string array, as the code decodes it. */
  lemma SingleElementArrayDecode()
    ensures FromSoap(Map([
      ("item", Map([("value", Scalar("a")), ("@xsi:type", Scalar("tns:String"))])),
      ("@xsi:type", Scalar("tns:ArrayOfString")),
      ("@soap_enc:array_type", Scalar("tns:String[1]"))]))
      == Map([("value", Scalar("a"))])
  {
    var inner := [("value", Scalar("a")), ("@xsi:type", Scalar("tns:String"))];
    assert DecodeFields(inner[1..]) == [];
    assert DecodeFields(inner) == [("value", Scalar("a"))];
  }

  /** The response shape of a two-element string array decodes to a two-element list. */
  lemma MultiElementArrayDecode()
    ensures FromSoap(Map([
      ("item", List([
        Map([("value", Scalar("a")), ("@xsi:type", Scalar("tns:String"))]),
        Map([("value", Scalar("b")), ("@xsi:type", Scalar("tns:String"))])])),
      ("@xsi:type", Scalar("tns:ArrayOfString")),
      ("@soap_enc:array_type", Scalar("tns:String[2]"))]))
      == List([Map([("value", Scalar("a"))]), Map([("value", Scalar("b"))])])
  {
    var a := [("value", Scalar("a")), ("@xsi:type", Scalar("tns:String"))];
    var b := [("value", Scalar("b")), ("@xsi:type", Scalar("tns:String"))];
    assert DecodeFields(a[1..]) == [] && DecodeFields(b[1..]) == [];
    assert DecodeFields(a) == [("value", Scalar("a"))];
    assert DecodeFields(b) == [("value", Scalar("b"))];
  }

  // ------------------------------------------------------------------
  // Encoding: to_soap / array_to_soap / hash_to_soap
  // ------------------------------------------------------------------

  /** `name.split(':').last`: the class name of an element without its module path. */
  function TypeName(className: string): string
  {
    var parts := Text.Split(className, ':');
    if parts == [] then "" else parts[|parts| - 1]
  }

  /**
   * to_soap. The Ruby class name of an array's first element names the element
   * type; `className` supplies it (for scalars, Arrays and Hashes "String",
   * "Array" and "Hash"; for objects such as Transip::DnsEntry their own class).
   */
  function ToSoap(v: Value, className: Value -> string): Value
    decreases v, 1
  {
    match v
    case Scalar(_) => v
    case List(items) => ArrayToSoap(items, className)
    case Map(fs) => Map(HashToSoap(fs, className))
  }

  /** The SOAP-encoded array: element values under `item`/`content!`, typed, with an `n`-element marker. */
  function ArrayShape(t: string, soaped: seq<Value>): Value
  {
    Map([
      ("item", Map([("content!", List(soaped)), ("@xsi:type", Scalar("tns:" + t))])),
      ("@xsi:type", Scalar("tns:ArrayOf" + t)),
      ("@enc:arrayType", Scalar("tns:" + t + "[" + Text.NatToString(|soaped|) + "]"))])
  }

  /** array_to_soap: `{}` for an empty array, otherwise the typed array shape over the converted items. */
  function ArrayToSoap(items: seq<Value>, className: Value -> string): Value
    decreases items, 0
  {
    if items == [] then Map([])
    else
      var t := TypeName(className(items[0]));
      ArrayShape(t, seq(|items|, i requires 0 <= i < |items| => ToSoap(items[i], className)))
  }

  /** hash_to_soap: same keys in the same order, each value converted. */
  function HashToSoap(fs: seq<(string, Value)>, className: Value -> string): (r: seq<(string, Value)>)
    decreases fs, 0
    ensures Keys(r) == Keys(fs)
  {
    if fs == [] then []
    else
      var f := fs[0];
      assert f in fs;
      assert f.1 < f;
      [(f.0, ToSoap(f.1, className))] + HashToSoap(fs[1..], className)
  }

  /** An empty Array and an empty Hash go on the wire identically. */
  lemma EmptyArrayLooksLikeEmptyHash(className: Value -> string)
    ensures ToSoap(List([]), className) == ToSoap(Map([]), className)
  {
  }

  /** True when no Array anywhere in v is empty. */
  predicate NoEmptyList(v: Value)
    decreases v, 1
  {
    match v
    case Scalar(_) => true
    case List(items) => items != [] && forall i :: 0 <= i < |items| ==> NoEmptyList(items[i])
    case Map(fs) => NoEmptyListFields(fs)
  }

  predicate NoEmptyListFields(fs: seq<(string, Value)>)
    decreases fs, 0
  {
    if fs == [] then true
    else
      var f := fs[0];
      assert f in fs;
      assert f.1 < f;
      NoEmptyList(f.1) && NoEmptyListFields(fs[1..])
  }

  /** Recognises the array shape ArrayShape builds. */
  predicate IsArrayShape(fs: seq<(string, Value)>)
  {
    && |fs| == 3
    && fs[0].0 == "item" && fs[1].0 == "@xsi:type" && fs[2].0 == "@enc:arrayType"
    && fs[0].1.Map? && |fs[0].1.fields| == 2
    && fs[0].1.fields[0].0 == "content!" && fs[0].1.fields[0].1.List?
    && fs[0].1.fields[1].0 == "@xsi:type"
  }

  /**
   * Reads back the request shape to_soap builds: the array shape becomes a list
   * again, every other Hash keeps its keys.
   */
  function Unsoap(w: Value): Value
    decreases w, 1
  {
    match w
    case Scalar(_) => w
    case List(items) => List(seq(|items|, i requires 0 <= i < |items| => Unsoap(items[i])))
    case Map(fs) =>
      if IsArrayShape(fs) then
        var f := fs[0];
        assert f in fs;
        assert f.1 < f;
        var g := f.1.fields[0];
        assert g in f.1.fields;
        assert g.1 < g;
        var items := g.1.items;
        List(seq(|items|, i requires 0 <= i < |items| => Unsoap(items[i])))
      else
        Map(UnsoapFields(fs))
  }

  function UnsoapFields(fs: seq<(string, Value)>): seq<(string, Value)>
    decreases fs, 0
  {
    if fs == [] then []
    else
      var f := fs[0];
      assert f in fs;
      assert f.1 < f;
      [(f.0, Unsoap(f.1))] + UnsoapFields(fs[1..])
  }

  lemma {:induction false} MetaFreeFieldsKeys(fs: seq<(string, Value)>, i: nat)
    requires MetaFreeFields(fs) && i < |fs|
    ensures !IsMetaKey(fs[i].0)
  {
    if i > 0 {
      MetaFreeFieldsKeys(fs[1..], i - 1);
    }
  }

  /**
   * The request encoding loses nothing: for values without empty Arrays and
   * without attribute keys, the array shape and its `T[n]` marker identify every
   * Array, so the value can be read back exactly. (An empty Array and an empty
   * Hash cannot be told apart: EmptyArrayLooksLikeEmptyHash.)
   */
  lemma {:induction false} UnsoapToSoap(v: Value, className: Value -> string)
    requires NoEmptyList(v) && MetaFree(v)
    ensures Unsoap(ToSoap(v, className)) == v
    decreases v, 1
  {
    match v
    case Scalar(_) =>
    case List(items) =>
      forall i | 0 <= i < |items| ensures Unsoap(ToSoap(items[i], className)) == items[i] {
        UnsoapToSoap(items[i], className);
      }
      var soaped := seq(|items|, i requires 0 <= i < |items| => ToSoap(items[i], className));
      var t := TypeName(className(items[0]));
      assert ToSoap(v, className) == ArrayShape(t, soaped);
      assert IsArrayShape(ArrayShape(t, soaped).fields);
    case Map(fs) =>
      var hs := HashToSoap(fs, className);
      if |hs| == 3 {
        MetaFreeFieldsKeys(fs, 1);
        assert Keys(hs)[1] == Keys(fs)[1];
      }
      UnsoapFieldsHashToSoap(fs, className);
  }

  lemma {:induction false} UnsoapFieldsHashToSoap(fs: seq<(string, Value)>, className: Value -> string)
    requires NoEmptyListFields(fs) && MetaFreeFields(fs)
    ensures UnsoapFields(HashToSoap(fs, className)) == fs
    decreases fs, 0
  {
    if fs != [] {
      var f := fs[0];
      assert f in fs;
      assert f.1 < f;
      UnsoapToSoap(f.1, className);
      UnsoapFieldsHashToSoap(fs[1..], className);
      assert fs == [f] + fs[1..];
    }
  }

  /** The string-array example: `%w[a b]` becomes a `tns:String[2]` array. */
  lemma StringArrayToSoap(className: Value -> string, a: string, b: string, kind: string)
    requires className(Scalar(a)) == kind && kind != "" && ':' !in kind
    ensures ToSoap(List([Scalar(a), Scalar(b)]), className) == Map([
      ("item", Map([("content!", List([Scalar(a), Scalar(b)])), ("@xsi:type", Scalar("tns:" + kind))])),
      ("@xsi:type", Scalar("tns:ArrayOf" + kind)),
      ("@enc:arrayType", Scalar("tns:" + kind + "[2]"))])
  {
    Text.SplitNoSeparator(kind, ':');
    assert Text.NatToString(2) == "2";
    var items := [Scalar(a), Scalar(b)];
    assert seq(|items|, i requires 0 <= i < |items| => ToSoap(items[i], className)) == items;
    assert ToSoap(List(items), className) == ArrayShape(kind, items);
    Seqs.AppendThree("tns:" + kind, '[', '2', ']');
  }
}
