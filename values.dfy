/**
 * The value trees the SOAP layer works on: a Ruby scalar (by its `to_s` text),
 * an Array, or a Hash. A Hash is an ordered sequence of key/value pairs, as Ruby
 * hashes keep insertion order; its keys are distinct, as Ruby guarantees.
 */
module Values {
  import opened Wrappers

  datatype Value =
    | Scalar(text: string)
    | List(items: seq<Value>)
    | Map(fields: seq<(string, Value)>)

  /** Hash#[]: the value stored under key, or nil. */
  function Lookup<K(==), V>(pairs: seq<(K, V)>, key: K): (r: Option<V>)
    ensures r.None? <==> forall i :: 0 <= i < |pairs| ==> pairs[i].0 != key
    ensures r.Some? ==> exists i :: 0 <= i < |pairs| && pairs[i] == (key, r.value) && forall j :: 0 <= j < i ==> pairs[j].0 != key
  {
    if pairs == [] then None
    else if pairs[0].0 == key then Some(pairs[0].1)
    else Lookup(pairs[1..], key)
  }

  /** Hash#keys, in insertion order. */
  function Keys<K, V>(pairs: seq<(K, V)>): (r: seq<K>)
    ensures |r| == |pairs| && forall i :: 0 <= i < |pairs| ==> r[i] == pairs[i].0
  {
    seq(|pairs|, i requires 0 <= i < |pairs| => pairs[i].0)
  }

  /** A key is found exactly when it is one of the keys. */
  lemma LookupSomeIffKey<K, V>(pairs: seq<(K, V)>, key: K)
    ensures Lookup(pairs, key).Some? <==> key in Keys(pairs)
  {
    var ks := Keys(pairs);
    if Lookup(pairs, key).Some? {
      var i :| 0 <= i < |pairs| && pairs[i] == (key, Lookup(pairs, key).value);
      assert ks[i] == key;
    }
    if key in ks {
      var i :| 0 <= i < |ks| && ks[i] == key;
      assert pairs[i].0 == key;
    }
  }

  /** Hash#values, in insertion order. */
  function ValuesOf<K, V>(pairs: seq<(K, V)>): (r: seq<V>)
    ensures |r| == |pairs| && forall i :: 0 <= i < |pairs| ==> r[i] == pairs[i].1
  {
    seq(|pairs|, i requires 0 <= i < |pairs| => pairs[i].1)
  }

  /**
   * Hash#[]= : overwrites the value of an existing key where it stands,
   * or appends a new key at the end.
   */
  function Put<K(==,!new), V>(pairs: seq<(K, V)>, key: K, value: V): (r: seq<(K, V)>)
    ensures Lookup(r, key) == Some(value)
    ensures forall k :: k != key ==> Lookup(r, k) == Lookup(pairs, k)
    ensures |r| == |pairs| + (if Lookup(pairs, key).None? then 1 else 0)
    ensures forall i :: 0 <= i < |pairs| ==> r[i].0 == pairs[i].0
  {
    if pairs == [] then [(key, value)]
    else if pairs[0].0 == key then [(key, value)] + pairs[1..]
    else [pairs[0]] + Put(pairs[1..], key, value)
  }

  /** Hash#[]= on the key list: an existing key stays where it is, a new one goes last. */
  lemma PutKeys<K(!new), V>(pairs: seq<(K, V)>, key: K, value: V)
    ensures Keys(Put(pairs, key, value)) == if key in Keys(pairs) then Keys(pairs) else Keys(pairs) + [key]
  {
    var r := Put(pairs, key, value);
    if key in Keys(pairs) {
      assert Lookup(pairs, key).Some?;
      assert |r| == |pairs|;
      forall j | 0 <= j < |r| ensures Keys(r)[j] == Keys(pairs)[j] {
        assert r[j].0 == pairs[j].0;
      }
      assert Keys(r) == Keys(pairs);
    } else {
      assert Lookup(pairs, key).None?;
      var i :| 0 <= i < |r| && r[i] == (key, value);
      assert i == |pairs|;
      var ks := Keys(pairs) + [key];
      forall j | 0 <= j < |r| ensures Keys(r)[j] == ks[j] {
        if j < |pairs| {
          assert r[j].0 == pairs[j].0;
        }
      }
      assert Keys(r) == ks;
    }
  }

  /** Keys such as `@xsi:type` carry SOAP attributes, not data. */
  predicate IsMetaKey(k: string) { |k| > 0 && k[0] == '@' }

  /** No Hash anywhere in v has an attribute key. */
  predicate MetaFree(v: Value)
    decreases v
  {
    match v
    case Scalar(_) => true
    case List(items) => forall i :: 0 <= i < |items| ==> MetaFree(items[i])
    case Map(fs) => MetaFreeFields(fs)
  }

  predicate MetaFreeFields(fs: seq<(string, Value)>)
    decreases fs
  {
    if fs == [] then true
    else
      var f := fs[0];
      assert f in fs;
      assert f.1 < f;
      !IsMetaKey(f.0) && MetaFree(f.1) && MetaFreeFields(fs[1..])
  }
}
