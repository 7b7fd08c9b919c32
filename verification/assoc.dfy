/**
  Insertion-ordered dictionaries as association lists, the shape of Python's `dict`
  when its key order matters, plus duplicate-free sequences.
 */
module Assoc {
  import opened Wrappers

  /** No element occurs twice. */
  predicate NoDup<T(==)>(s: seq<T>) {
    forall i, j :: 0 <= i < j < |s| ==> s[i] != s[j]
  }

  /** The keys of an association list, in order. */
  function Keys<K, V>(a: seq<(K, V)>): (r: seq<K>)
    ensures |r| == |a|
    ensures forall i :: 0 <= i < |a| ==> r[i] == a[i].0
  {
    seq(|a|, i requires 0 <= i < |a| => a[i].0)
  }

  lemma KeysAppend<K, V>(a: seq<(K, V)>, b: seq<(K, V)>)
    ensures Keys(a + b) == Keys(a) + Keys(b)
  {
  }

  /** Dictionary lookup: the value stored with the first occurrence of `k`. */
  function Lookup<K(==), V>(a: seq<(K, V)>, k: K): (r: Option<V>)
    ensures r.Some? <==> k in Keys(a)
    ensures r.Some? ==> (k, r.value) in a
  {
    if |a| == 0 then None
    else if a[0].0 == k then Some(a[0].1)
    else
      assert Keys(a) == [a[0].0] + Keys(a[1..]);
      Lookup(a[1..], k)
  }

  /**
    Appends `vs` to the list stored under `k` of a `defaultdict(list)`, creating the
    entry at the end of the key order when `k` is new. One call stands for the
    `d[k].append(v)` calls of a row, one per element of `vs`: they all target `k`,
    and the first of them creates the entry.
   */
  function Extend<K(==), V>(a: seq<(K, seq<V>)>, k: K, vs: seq<V>): seq<(K, seq<V>)>
    decreases |a|
  {
    if |a| == 0 then [(k, vs)]
    else if a[0].0 == k then [(k, a[0].1 + vs)] + a[1..]
    else [a[0]] + Extend(a[1..], k, vs)
  }

  /** Extending keeps the key order, adding `k` at the end when it is new. */
  lemma {:induction false} ExtendKeys<K, V>(a: seq<(K, seq<V>)>, k: K, vs: seq<V>)
    ensures Keys(Extend(a, k, vs)) == if k in Keys(a) then Keys(a) else Keys(a) + [k]
    decreases |a|
  {
    if |a| > 0 {
      KeysAppend([a[0]], a[1..]);
      assert [a[0]] + a[1..] == a;
      if a[0].0 == k {
        KeysAppend([(k, a[0].1 + vs)], a[1..]);
      } else {
        ExtendKeys(a[1..], k, vs);
        KeysAppend([a[0]], Extend(a[1..], k, vs));
        assert k in Keys(a) <==> k in Keys(a[1..]);
      }
    }
  }

  /** Extending never makes a key occur twice. */
  lemma ExtendKeepsDistinct<K, V>(a: seq<(K, seq<V>)>, k: K, vs: seq<V>)
    requires NoDup(Keys(a))
    ensures NoDup(Keys(Extend(a, k, vs)))
  {
    ExtendKeys(a, k, vs);
    var ks := Keys(a);
    if k !in ks {
      var r := ks + [k];
      assert forall i :: 0 <= i < |ks| ==> r[i] == ks[i];
      assert r[|ks|] == k;
    }
  }

  /** Extending `k` appends to its list and leaves every other entry alone. */
  lemma {:induction false} ExtendLookup<K, V>(a: seq<(K, seq<V>)>, k: K, vs: seq<V>, k': K)
    ensures Lookup(Extend(a, k, vs), k') ==
      if k' == k then Some(Lookup(a, k).GetOr([]) + vs) else Lookup(a, k')
    decreases |a|
  {
    if |a| > 0 && a[0].0 != k {
      ExtendLookup(a[1..], k, vs, k');
      var r := Extend(a, k, vs);
      assert r == [a[0]] + Extend(a[1..], k, vs);
      assert r[1..] == Extend(a[1..], k, vs);
    } else if |a| > 0 {
      var r := Extend(a, k, vs);
      assert r == [(k, a[0].1 + vs)] + a[1..];
      assert r[0].0 == k && r[1..] == a[1..];
      if k' != k {
        assert Lookup(r, k') == Lookup(r[1..], k');
        assert Lookup(a, k') == Lookup(a[1..], k');
      } else {
        assert Lookup(a, k) == Some(a[0].1);
        assert Lookup(r, k) == Some(a[0].1 + vs);
      }
    } else {
      assert Extend(a, k, vs) == [(k, vs)];
      assert [(k, vs)][1..] == [];
      assert Lookup(a, k') == None;
      if k' != k {
        assert Lookup([(k, vs)], k') == Lookup([(k, vs)][1..], k');
      } else {
        var none: Option<seq<V>> := None;
        assert none.GetOr([]) + vs == vs;
      }
    }
  }

  /** The elements of `s`, each listed once (built left to right, dropping repeats). */
  function Distinct<T(==, !new)>(s: seq<T>): (r: seq<T>)
    ensures NoDup(r)
    ensures forall x :: x in r <==> x in s
    ensures |r| <= |s|
  {
    if |s| == 0 then []
    else
      var d := Distinct(s[..|s| - 1]);
      assert s == s[..|s| - 1] + [s[|s| - 1]];
      if s[|s| - 1] in d then d else d + [s[|s| - 1]]
  }
}
