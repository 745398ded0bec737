/**
 * PHP arrays as ordered association lists: a sequence of key/value entries
 * whose keys are pairwise distinct. Writing to an existing key keeps its
 * position; writing to a new key appends; `$a + $b` keeps every entry of $a
 * and appends the entries of $b whose keys $a lacks.
 */
module Assoc {
  import opened Wrappers

  predicate DistinctKeys<K(==), V>(a: seq<(K, V)>) {
    forall i, j :: 0 <= i < j < |a| ==> a[i].0 != a[j].0
  }

  /** $a[$k] when isset, else None. */
  function Lookup<K(==), V>(a: seq<(K, V)>, k: K): Option<V>
  {
    if a == [] then None
    else if a[0].0 == k then Some(a[0].1)
    else Lookup(a[1..], k)
  }

  /** A lookup fails exactly when no entry carries the key. */
  lemma {:induction false} LookupNone<K, V>(a: seq<(K, V)>, k: K)
    ensures Lookup(a, k).None? <==> forall i :: 0 <= i < |a| ==> a[i].0 != k
  {
    if a != [] {
      LookupNone(a[1..], k);
      assert forall i :: 0 < i < |a| ==> a[i] == a[1..][i - 1];
    }
  }

  /** Lookups in a concatenation look in the left part first. */
  lemma {:induction false} LookupAppend<K, V>(x: seq<(K, V)>, y: seq<(K, V)>, k: K)
    ensures Lookup(x + y, k) == if Lookup(x, k).Some? then Lookup(x, k) else Lookup(y, k)
  {
    if x != [] {
      assert (x + y)[0] == x[0];
      assert (x + y)[1..] == x[1..] + y;
      LookupAppend(x[1..], y, k);
    } else {
      assert x + y == y;
    }
  }

  /** With distinct keys, the entry at position i is what a lookup of its key finds. */
  lemma {:induction false} LookupAt<K, V>(a: seq<(K, V)>, i: nat)
    requires DistinctKeys(a) && i < |a|
    ensures Lookup(a, a[i].0) == Some(a[i].1)
  {
    if i > 0 {
      assert a[1..][i - 1] == a[i];
      DistinctTail(a);
      LookupAt(a[1..], i - 1);
    }
  }

  lemma DistinctTail<K, V>(a: seq<(K, V)>)
    requires DistinctKeys(a) && a != []
    ensures DistinctKeys(a[1..])
  {
    assert forall i :: 0 <= i < |a| - 1 ==> a[1..][i] == a[i + 1];
  }

  /** $a[$k] = $v: afterwards k holds v and every other key holds what it held. */
  function Set<K(==,!new), V>(a: seq<(K, V)>, k: K, v: V): (r: seq<(K, V)>)
    ensures Lookup(r, k) == Some(v)
    ensures forall k' :: k' != k ==> Lookup(r, k') == Lookup(a, k')
  {
    if a == [] then [(k, v)]
    else if a[0].0 == k then [(k, v)] + a[1..]
    else [a[0]] + Set(a[1..], k, v)
  }

  /** A write to a key the array lacks appends the entry at the end. */
  lemma {:induction false} SetNew<K(!new), V>(a: seq<(K, V)>, k: K, v: V)
    requires Lookup(a, k).None?
    ensures Set(a, k, v) == a + [(k, v)]
  {
    if a != [] {
      SetNew(a[1..], k, v);
      assert [a[0]] + (a[1..] + [(k, v)]) == a + [(k, v)];
    }
  }

  /** A write to a one-entry array under another key appends after that entry. */
  lemma SetAfterOther<K(!new), V>(e: (K, V), k: K, v: V)
    requires e.0 != k
    ensures Set([e], k, v) == [e, (k, v)]
  {
    assert [e][1..] == [];
  }

  /** A write to a key the array has keeps every key in its place. */
  lemma {:induction false} SetExisting<K(!new), V>(a: seq<(K, V)>, k: K, v: V)
    requires Lookup(a, k).Some?
    ensures |Set(a, k, v)| == |a|
    ensures forall i :: 0 <= i < |a| ==> Set(a, k, v)[i].0 == a[i].0
  {
    if a[0].0 != k {
      SetExisting(a[1..], k, v);
      var r := Set(a, k, v);
      assert forall i :: 0 < i < |a| ==> r[i] == Set(a[1..], k, v)[i - 1] && a[i] == a[1..][i - 1];
    }
  }

  /** Every entry after a write was there before, or is the one written. */
  lemma {:induction false} SetEntries<K(!new), V>(a: seq<(K, V)>, k: K, v: V)
    ensures forall j :: 0 <= j < |Set(a, k, v)| ==> Set(a, k, v)[j] in a || Set(a, k, v)[j] == (k, v)
  {
    if a != [] && a[0].0 != k {
      SetEntries(a[1..], k, v);
      var r := Set(a, k, v);
      assert forall j :: 0 < j < |r| ==> r[j] == Set(a[1..], k, v)[j - 1];
    }
  }

  /** A write keeps the keys distinct. */
  lemma {:induction false} SetDistinct<K(!new), V>(a: seq<(K, V)>, k: K, v: V)
    requires DistinctKeys(a)
    ensures DistinctKeys(Set(a, k, v))
  {
    if Lookup(a, k).None? {
      SetNew(a, k, v);
      LookupNone(a, k);
    } else {
      SetExisting(a, k, v);
    }
  }

  /** The entries of b whose keys a lacks, in b's order. */
  function Missing<K(==,!new), V>(b: seq<(K, V)>, a: seq<(K, V)>): (r: seq<(K, V)>)
    ensures forall k :: Lookup(r, k) == if Lookup(a, k).Some? then None else Lookup(b, k)
  {
    if b == [] then []
    else if Lookup(a, b[0].0).Some? then Missing(b[1..], a)
    else [b[0]] + Missing(b[1..], a)
  }

  /** The positions i, j <= i < |b|, of the entries of b whose keys a lacks, in increasing order. */
  function KeptFrom<K(==), V>(b: seq<(K, V)>, a: seq<(K, V)>, i: nat): seq<nat>
    decreases |b| - i
  {
    if i >= |b| then []
    else if Lookup(a, b[i].0).Some? then KeptFrom(b, a, i + 1)
    else [i] + KeptFrom(b, a, i + 1)
  }

  /** The positions KeptFrom lists lie in i..|b| and increase. */
  lemma {:induction false} KeptSorted<K(!new), V>(b: seq<(K, V)>, a: seq<(K, V)>, i: nat)
    ensures forall j :: 0 <= j < |KeptFrom(b, a, i)| ==> i <= KeptFrom(b, a, i)[j] < |b|
    ensures forall j, j' :: 0 <= j < j' < |KeptFrom(b, a, i)| ==> KeptFrom(b, a, i)[j] < KeptFrom(b, a, i)[j']
    decreases |b| - i
  {
    if i < |b| {
      KeptSorted(b, a, i + 1);
      var ks, ks' := KeptFrom(b, a, i), KeptFrom(b, a, i + 1);
      if Lookup(a, b[i].0).None? {
        assert ks == [i] + ks';
        assert forall j :: 0 < j < |ks| ==> ks[j] == ks'[j - 1];
      }
    }
  }

  /** KeptFrom lists exactly the positions from i on whose key a lacks. */
  lemma {:induction false} KeptExactly<K(!new), V>(b: seq<(K, V)>, a: seq<(K, V)>, i: nat)
    ensures forall n :: i <= n < |b| ==> (n in KeptFrom(b, a, i) <==> Lookup(a, b[n].0).None?)
    decreases |b| - i
  {
    if i < |b| {
      KeptExactly(b, a, i + 1);
      KeptSorted(b, a, i + 1);
      assert i !in KeptFrom(b, a, i + 1);
    }
  }

  /** Missing(b[i..], a) holds b's entries at the positions KeptFrom lists, in that order. */
  lemma {:induction false} KeptEntries<K(!new), V>(b: seq<(K, V)>, a: seq<(K, V)>, i: nat)
    requires i <= |b|
    ensures var ks, m := KeptFrom(b, a, i), Missing(b[i..], a);
      |ks| == |m| && forall j :: 0 <= j < |ks| ==> 0 <= ks[j] < |b| && m[j] == b[ks[j]]
    decreases |b| - i
  {
    if i < |b| {
      KeptEntries(b, a, i + 1);
      assert b[i..][0] == b[i] && b[i..][1..] == b[i + 1..];
      var ks, m := KeptFrom(b, a, i), Missing(b[i..], a);
      var ks', m' := KeptFrom(b, a, i + 1), Missing(b[i + 1..], a);
      if Lookup(a, b[i].0).None? {
        assert forall j :: 0 < j < |ks| ==> ks[j] == ks'[j - 1] && m[j] == m'[j - 1];
      }
    }
  }

  /**
   * Missing(b, a) is the subsequence of b whose keys a lacks: its entries are
   * b's at increasing positions, and those positions are exactly the ones
   * whose key a lacks.
   */
  lemma MissingIsSubsequence<K(!new), V>(b: seq<(K, V)>, a: seq<(K, V)>)
    ensures var ks, m := KeptFrom(b, a, 0), Missing(b, a);
      && |ks| == |m|
      && (forall j :: 0 <= j < |ks| ==> ks[j] < |b| && m[j] == b[ks[j]])
      && (forall j, j' :: 0 <= j < j' < |ks| ==> ks[j] < ks[j'])
      && (forall n :: 0 <= n < |b| ==> (n in ks <==> Lookup(a, b[n].0).None?))
  {
    assert b[0..] == b;
    KeptSorted(b, a, 0);
    KeptExactly(b, a, 0);
    KeptEntries(b, a, 0);
  }

  /** Every missing entry is an entry of b whose key a lacks. */
  lemma {:induction false} MissingEntries<K(!new), V>(b: seq<(K, V)>, a: seq<(K, V)>)
    ensures forall j :: 0 <= j < |Missing(b, a)| ==> Lookup(a, Missing(b, a)[j].0).None? && Missing(b, a)[j] in b
  {
    if b != [] {
      MissingEntries(b[1..], a);
      var r, s := Missing(b, a), Missing(b[1..], a);
      if Lookup(a, b[0].0).None? {
        assert forall j :: 0 < j < |r| ==> r[j] == s[j - 1];
      }
    }
  }

  lemma {:induction false} MissingDistinct<K(!new), V>(b: seq<(K, V)>, a: seq<(K, V)>)
    requires DistinctKeys(b)
    ensures DistinctKeys(Missing(b, a))
  {
    if b != [] {
      DistinctTail(b);
      MissingDistinct(b[1..], a);
      var r, s := Missing(b, a), Missing(b[1..], a);
      if Lookup(a, b[0].0).None? {
        MissingEntries(b[1..], a);
        forall j | 0 <= j < |s| ensures s[j].0 != b[0].0 {
          var i :| 0 <= i < |b[1..]| && b[1..][i] == s[j];
          assert b[i + 1] == s[j];
        }
        assert forall j :: 0 < j < |r| ==> r[j] == s[j - 1];
      }
    }
  }

  /** PHP's array union `$a + $b`: on a shared key the left operand's value stays. */
  function Union<K(==,!new), V>(a: seq<(K, V)>, b: seq<(K, V)>): (r: seq<(K, V)>)
    ensures forall k :: Lookup(r, k) == if Lookup(a, k).Some? then Lookup(a, k) else Lookup(b, k)
    ensures |r| >= |a| && r[..|a|] == a
    ensures r[|a|..] == Missing(b, a)
  {
    var m := Missing(b, a);
    forall k ensures Lookup(a + m, k) == if Lookup(a, k).Some? then Lookup(a, k) else Lookup(b, k) {
      LookupAppend(a, m, k);
    }
    assert (a + m)[..|a|] == a;
    a + m
  }

  /** Every entry of a union comes from one of its operands. */
  lemma UnionEntries<K(!new), V>(a: seq<(K, V)>, b: seq<(K, V)>)
    ensures forall j :: 0 <= j < |Union(a, b)| ==> Union(a, b)[j] in a || Union(a, b)[j] in b
  {
    var m := Missing(b, a);
    MissingEntries(b, a);
    assert forall j :: |a| <= j < |a + m| ==> (a + m)[j] == m[j - |a|];
  }

  /** A union of arrays with distinct keys has distinct keys. */
  lemma UnionDistinct<K(!new), V>(a: seq<(K, V)>, b: seq<(K, V)>)
    requires DistinctKeys(a) && DistinctKeys(b)
    ensures DistinctKeys(Union(a, b))
  {
    var m := Missing(b, a);
    MissingDistinct(b, a);
    MissingEntries(b, a);
    var u := a + m;
    forall i, j | 0 <= i < j < |u| ensures u[i].0 != u[j].0 {
      if j >= |a| {
        assert u[j] == m[j - |a|];
        if i < |a| {
          LookupNone(a, m[j - |a|].0);
        } else {
          assert u[i] == m[i - |a|];
        }
      }
    }
  }

  /** Nothing is missing from an empty array, so `[] + $b` is $b. */
  lemma {:induction false} UnionEmptyLeft<K(!new), V>(b: seq<(K, V)>)
    ensures Union([], b) == b
  {
    MissingFromEmpty(b);
  }

  lemma {:induction false} MissingFromEmpty<K(!new), V>(b: seq<(K, V)>)
    ensures Missing(b, []) == b
  {
    if b != [] {
      MissingFromEmpty(b[1..]);
    }
  }
}
