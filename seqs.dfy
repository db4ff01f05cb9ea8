/** Sequence helpers: Ruby's insertion-ordered Set (Array#to_set followed by each). */
module Seqs {

  predicate NoDuplicates<T(==)>(s: seq<T>)
  {
    forall i, j :: 0 <= i < j < |s| ==> s[i] != s[j]
  }

  /** The position of the first occurrence of x in s. */
  function FirstIndex<T(==)>(s: seq<T>, x: T): (k: nat)
    requires x in s
    ensures k < |s| && s[k] == x && x !in s[..k]
  {
    if s[0] == x then 0 else 1 + FirstIndex(s[1..], x)
  }

  /**
   * The distinct elements of s in order of first occurrence: what `s.to_set.each`
   * visits, since a Ruby Set keeps its insertion order.
   */
  function Dedup<T(==)>(s: seq<T>): (r: seq<T>)
    ensures forall i :: 0 <= i < |r| ==> r[i] in s
    ensures forall i :: 0 <= i < |s| ==> s[i] in r
    ensures NoDuplicates(r)
    ensures |r| <= |s|
  {
    if s == [] then []
    else
      var p := Dedup(s[..|s| - 1]);
      if s[|s| - 1] in p then p else p + [s[|s| - 1]]
  }

  /** Appending an element not seen before appends it to Dedup; one seen before changes nothing. */
  lemma DedupSnoc<T>(s: seq<T>, x: T)
    ensures Dedup(s + [x]) == if x in s then Dedup(s) else Dedup(s) + [x]
  {
    assert (s + [x])[..|s|] == s;
    DedupSameElements(s, x);
  }

  lemma DedupOne<T>(a: T)
    ensures Dedup([a]) == [a]
  {
    assert [a][..0] == [];
  }

  lemma DedupTwice<T>(a: T)
    ensures Dedup([a, a]) == [a]
  {
    assert [a, a][..1] == [a];
    DedupOne(a);
  }

  lemma AppendAssoc<T>(a: seq<T>, b: seq<T>, c: seq<T>)
    ensures a + (b + c) == (a + b) + c
  {
  }

  /** A sequence one longer than a, agreeing with a on a's positions and ending in z, is a + [z]. */
  lemma UpdatedAt<T>(a: seq<T>, b: seq<T>, j: nat, z: T)
    requires |b| == |a| && j < |a| && b[j] == z
    requires forall i :: 0 <= i < |a| && i != j ==> b[i] == a[i]
    ensures b == a[j := z]
  {
  }

  lemma ExtendedBy<T>(a: seq<T>, b: seq<T>, z: T)
    requires |b| == |a| + 1 && b[|a|] == z
    requires forall i :: 0 <= i < |a| ==> b[i] == a[i]
    ensures b == a + [z]
  {
  }

  /** The groupings of a four-part concatenation that a left-to-right scan needs. */
  lemma Regroup<T>(a: seq<T>, b: seq<T>, c: seq<T>, d: seq<T>)
    ensures a + b + c + d == [] + a + (b + c + d)
    ensures a + b + c + d == a + b + (c + d)
    ensures a + b + c + d == a + b + c + d + []
  {
  }

  lemma PrefixOfPrefix<T>(s: seq<T>, k: nat)
    requires k < |s|
    ensures s[..k + 1][..k] == s[..k] && s[..k + 1][k] == s[k]
  {
  }

  lemma SplitLast<T>(s: seq<T>)
    requires s != []
    ensures s[..|s| - 1] + [s[|s| - 1]] == s
    ensures (s[..|s| - 1] + [s[|s| - 1]])[..|s| - 1] == s[..|s| - 1]
  {
  }

  lemma WholePrefix<T>(s: seq<T>)
    ensures s[..|s|] == s
  {
  }

  /** Dropping repeats keeps every element. */
  lemma DedupSameElements<T>(s: seq<T>, x: T)
    ensures x in Dedup(s) <==> x in s
  {
    var r := Dedup(s);
    if x in r {
      var i :| 0 <= i < |r| && r[i] == x;
    }
    if x in s {
      var i :| 0 <= i < |s| && s[i] == x;
    }
  }

  /** Sequences equal at every position are equal. */
  lemma Pointwise<T>(a: seq<T>, b: seq<T>)
    requires |a| == |b| && forall i :: 0 <= i < |a| ==> a[i] == b[i]
    ensures a == b
  {
  }

  lemma AppendThree<T>(p: seq<T>, x: T, y: T, z: T)
    ensures p + [x] + [y] + [z] == p + [x, y, z]
  {
  }

  lemma DropPrefix<T>(p: seq<T>, s: seq<T>)
    ensures (p + s)[|p|..] == s
  {
  }

  lemma TwoSeparators<T>(a: seq<T>, b: seq<T>, c: seq<T>, x: T)
    ensures a + [x] + b + [x] + c == a + [x] + (b + [x] + c)
  {
  }

  lemma Three<T>(x: T, y: T, z: T)
    ensures [x] + ([y] + [z]) == [x, y, z] && [x, y, z][1..] == [y, z]
  {
  }

  /** The first part of a three-part concatenation is its prefix. */
  lemma PrefixOfConcat<T>(pre: seq<T>, mid: seq<T>, post: seq<T>)
    ensures (pre + mid + post)[..|pre|] == pre
  {
  }

  lemma {:induction false} FirstIndexPrefix<T>(s: seq<T>, n: nat, x: T)
    requires n <= |s| && x in s[..n]
    ensures FirstIndex(s, x) == FirstIndex(s[..n], x)
  {
    if s[0] != x {
      assert s[..n][0] == s[0];
      assert s[1..][..n - 1] == s[..n][1..];
      FirstIndexPrefix(s[1..], n - 1, x);
    }
  }

  /** The elements Dedup keeps appear in the order of their first occurrence in s. */
  lemma {:induction false} DedupFirstOccurrenceOrder<T>(s: seq<T>)
    ensures forall i, j :: 0 <= i < j < |Dedup(s)| ==>
      FirstIndex(s, Dedup(s)[i]) < FirstIndex(s, Dedup(s)[j])
  {
    if s != [] {
      var n := |s| - 1;
      var p := Dedup(s[..n]);
      DedupFirstOccurrenceOrder(s[..n]);
      forall y | y in p ensures FirstIndex(s, y) == FirstIndex(s[..n], y) && FirstIndex(s, y) < n {
        FirstIndexPrefix(s, n, y);
      }
      if s[n] !in p {
        assert s[n] !in s[..n];
        assert FirstIndex(s, s[n]) == n;
        var r := Dedup(s);
        assert r == p + [s[n]];
        forall i, j | 0 <= i < j < |r| ensures FirstIndex(s, r[i]) < FirstIndex(s, r[j]) {
          assert r[i] == p[i];
          if j < |p| { assert r[j] == p[j]; }
        }
      }
    }
  }

  /** A sequence without repeats is its own Dedup. */
  lemma {:induction false} DedupOfDistinct<T>(s: seq<T>)
    requires NoDuplicates(s)
    ensures Dedup(s) == s
  {
    if s != [] {
      var n := |s| - 1;
      DedupOfDistinct(s[..n]);
      assert s[n] !in s[..n];
      assert s == s[..n] + [s[n]];
    }
  }
}
