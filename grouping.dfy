/**
 * `GROUP BY key` with `COUNT(*)`: a sequence of keys becomes one bin per
 * distinct key carrying the number of occurrences of that key.
 */
module Grouping {

  datatype Bin<K> = Bin(key: K, count: nat)

  /** The number of times `k` occurs in `ks`. */
  function Occurrences<K(==)>(ks: seq<K>, k: K): nat
    decreases |ks|
  {
    if ks == [] then 0
    else Occurrences(ks[..|ks| - 1], k) + (if ks[|ks| - 1] == k then 1 else 0)
  }

  predicate DistinctKeys<K(==)>(g: seq<Bin<K>>) {
    forall i, j :: 0 <= i < j < |g| ==> g[i].key != g[j].key
  }

  /** The sum of the counts of the bins. */
  function Total<K(==)>(g: seq<Bin<K>>): nat
    decreases |g|
  {
    if g == [] then 0 else Total(g[..|g| - 1]) + g[|g| - 1].count
  }

  /** `g` is the grouping of `ks`: one bin per distinct key of `ks`, each
      holding that key's number of occurrences. Bin order is not fixed. */
  ghost predicate GroupOf<K(!new)>(g: seq<Bin<K>>, ks: seq<K>) {
    && DistinctKeys(g)
    && (forall b :: b in g ==> b.key in ks && b.count == Occurrences(ks, b.key))
    && (forall k :: k in ks ==> exists b :: b in g && b.key == k)
  }

  /** The count of the first bin with key `k`, 0 when there is none. */
  function KeyCount<K(==)>(g: seq<Bin<K>>, k: K): nat
    decreases |g|
  {
    if g == [] then 0 else if g[0].key == k then g[0].count else KeyCount(g[1..], k)
  }

  lemma {:induction false} KeyCountOfMember<K>(g: seq<Bin<K>>, b: Bin<K>)
    requires DistinctKeys(g) && b in g
    ensures KeyCount(g, b.key) == b.count
    decreases |g|
  {
    if g[0] != b {
      assert b in g[1..];
      KeyCountOfMember(g[1..], b);
    }
  }

  lemma {:induction false} KeyCountAbsent<K>(g: seq<Bin<K>>, k: K)
    requires forall b :: b in g ==> b.key != k
    ensures KeyCount(g, k) == 0
    decreases |g|
  {
    if g != [] {
      assert g[0] in g;
      KeyCountAbsent(g[1..], k);
    }
  }

  /** Counts one more occurrence of `k`: its bin's count goes up by one, or a
      bin `(k, 1)` is appended; every other bin is kept. */
  function Bump<K(==)>(g: seq<Bin<K>>, k: K): (r: seq<Bin<K>>)
    ensures |r| > 0
    decreases |g|
  {
    if g == [] then [Bin(k, 1)]
    else if g[0].key == k then [Bin(k, g[0].count + 1)] + g[1..]
    else [g[0]] + Bump(g[1..], k)
  }

  /** Bump keeps every bin of another key, adds none, and leaves a bin for `k`. */
  lemma {:induction false} BumpKeepsOthers<K>(g: seq<Bin<K>>, k: K)
    ensures forall b :: b in Bump(g, k) && b.key != k ==> b in g
    ensures forall b :: b in g && b.key != k ==> b in Bump(g, k)
    ensures exists b :: b in Bump(g, k) && b.key == k
    decreases |g|
  {
    var r := Bump(g, k);
    if g == [] {
      assert r[0] in r;
    } else {
      assert forall b :: b in g ==> b == g[0] || b in g[1..];
      assert forall b :: b in g[1..] ==> b in g;
      if g[0].key == k {
        assert r[0] in r && r[0].key == k;
        assert forall b :: b in r ==> b == r[0] || b in g[1..];
      } else {
        var rest := Bump(g[1..], k);
        BumpKeepsOthers(g[1..], k);
        assert r == [g[0]] + rest;
        var b :| b in rest && b.key == k;
        assert b in r;
      }
    }
  }

  /** On distinct keys Bump keeps them distinct, and the bin of `k` counts one
      more than `k` had. */
  lemma {:induction false} BumpCounts<K>(g: seq<Bin<K>>, k: K)
    requires DistinctKeys(g)
    ensures DistinctKeys(Bump(g, k))
    ensures forall b :: b in Bump(g, k) && b.key == k ==> b.count == KeyCount(g, k) + 1
    decreases |g|
  {
    var r := Bump(g, k);
    if g != [] && g[0].key == k {
      assert forall j :: 0 < j < |r| ==> r[j] == g[j] && g[j].key != k;
    } else if g != [] {
      var rest := Bump(g[1..], k);
      assert r == [g[0]] + rest;
      BumpCounts(g[1..], k);
      BumpKeepsOthers(g[1..], k);
      forall j | 0 < j < |r| ensures r[0].key != r[j].key {
        assert r[j] in rest;
        if r[j].key != k {
          var i :| 0 <= i < |g[1..]| && g[1..][i] == r[j];
          assert g[i + 1] == r[j];
        }
      }
      assert forall b :: b in r && b.key == k ==> b in rest;
    }
  }

  /** `GROUP BY key` over `ks`, keys in order of first occurrence. */
  function Group<K(==,!new)>(ks: seq<K>): (g: seq<Bin<K>>)
    ensures GroupOf(g, ks)
    decreases |ks|
  {
    if ks == [] then []
    else
      var prefix, k := ks[..|ks| - 1], ks[|ks| - 1];
      assert ks == prefix + [k];
      GroupStep(Group(prefix), prefix, k);
      Bump(Group(prefix), k)
  }

  /** One more key: bumping its bin turns a grouping of `prefix` into one of `prefix + [k]`. */
  lemma GroupStep<K(!new)>(g0: seq<Bin<K>>, prefix: seq<K>, k: K)
    requires GroupOf(g0, prefix)
    ensures GroupOf(Bump(g0, k), prefix + [k])
  {
    var ks, g := prefix + [k], Bump(g0, k);
    BumpKeepsOthers(g0, k);
    BumpCounts(g0, k);
    assert KeyCount(g0, k) == Occurrences(prefix, k) by {
      if b :| b in g0 && b.key == k {
        KeyCountOfMember(g0, b);
      } else {
        KeyCountAbsent(g0, k);
        OccurrencesAbsent(prefix, k);
      }
    }
    forall b | b in g ensures b.key in ks && b.count == Occurrences(ks, b.key) {
      OccurrencesSnoc(prefix, k, b.key);
    }
    forall j | j in ks ensures exists b :: b in g && b.key == j {
      if j != k {
        assert j in prefix;
        var b :| b in g0 && b.key == j;
        assert b in g;
      }
    }
  }

  lemma OccurrencesSnoc<K>(ks: seq<K>, k: K, j: K)
    ensures Occurrences(ks + [k], j) == Occurrences(ks, j) + (if k == j then 1 else 0)
  {
    assert (ks + [k])[..|ks|] == ks;
  }

  lemma {:induction false} OccurrencesAbsent<K>(ks: seq<K>, k: K)
    requires k !in ks
    ensures Occurrences(ks, k) == 0
    decreases |ks|
  {
    if ks != [] {
      assert ks[..|ks| - 1] + [ks[|ks| - 1]] == ks;
      OccurrencesAbsent(ks[..|ks| - 1], k);
    }
  }

  /** `ks` with every occurrence of `k` removed. */
  function Without<K(==,!new)>(ks: seq<K>, k: K): (r: seq<K>)
    ensures |ks| == |r| + Occurrences(ks, k)
    ensures forall j :: j in r <==> j in ks && j != k
    ensures forall j :: j != k ==> Occurrences(r, j) == Occurrences(ks, j)
    decreases |ks|
  {
    if ks == [] then []
    else
      var prefix, last := ks[..|ks| - 1], ks[|ks| - 1];
      assert ks == prefix + [last];
      var r0 := Without(prefix, k);
      var r := if last == k then r0 else r0 + [last];
      assert last != k ==> r[..|r| - 1] == r0;
      r
  }

  /** The distinct keys of `ks`. */
  ghost function KeySet<K>(ks: seq<K>): set<K> {
    set k | k in ks
  }

  /** A grouping has one bin per distinct key, and its counts add up to the
      number of keys grouped. */
  lemma {:induction false} GroupSums<K(!new)>(g: seq<Bin<K>>, ks: seq<K>)
    requires GroupOf(g, ks)
    ensures Total(g) == |ks|
    ensures |g| == |KeySet(ks)|
    decreases |g|
  {
    if g == [] {
      assert forall i :: 0 <= i < |ks| ==> ks[i] in ks;
      assert KeySet(ks) == {};
    } else {
      var b, g' := g[|g| - 1], g[..|g| - 1];
      var ks' := Without(ks, b.key);
      DropLastBin(g, ks);
      GroupSums(g', ks');
      assert KeySet(ks') == KeySet(ks) - {b.key};
      assert b.key in KeySet(ks);
    }
  }

  /** Without its last bin, a grouping of `ks` groups the other keys. */
  lemma DropLastBin<K(!new)>(g: seq<Bin<K>>, ks: seq<K>)
    requires GroupOf(g, ks) && g != []
    ensures var b := g[|g| - 1];
      && b.key in ks && b.count == Occurrences(ks, b.key)
      && GroupOf(g[..|g| - 1], Without(ks, b.key))
  {
    var b, g' := g[|g| - 1], g[..|g| - 1];
    assert b in g;
    var ks' := Without(ks, b.key);
    assert forall i :: 0 <= i < |g'| ==> g'[i] == g[i];
    assert forall c :: c in g' ==> c in g && c.key != b.key by {
      forall c | c in g' ensures c in g && c.key != b.key {
        var i :| 0 <= i < |g'| && g'[i] == c;
      }
    }
    forall k | k in ks' ensures exists c :: c in g' && c.key == k {
      var c :| c in g && c.key == k;
      var i :| 0 <= i < |g| && g[i] == c;
      assert i < |g'|;
      assert g'[i] == c;
    }
  }

  /** Rearranging a sequence of bins keeps its keys distinct. */
  lemma {:induction false} DistinctKeysPermutation<K>(a: seq<Bin<K>>, b: seq<Bin<K>>)
    requires multiset(a) == multiset(b) && DistinctKeys(a)
    ensures DistinctKeys(b)
    decreases |b|
  {
    if b != [] {
      var y, b' := b[|b| - 1], b[..|b| - 1];
      assert y in multiset(a);
      var p :| 0 <= p < |a| && a[p] == y;
      var a' := a[..p] + a[p + 1..];
      RemoveMatching(a, b, p);
      RemoveKeepsDistinct(a, p);
      DistinctKeysPermutation(a', b');
      forall i | 0 <= i < |b'| ensures b'[i].key != y.key {
        assert b'[i] in multiset(a');
      }
    }
  }

  lemma RemoveMatching<T>(a: seq<T>, b: seq<T>, p: nat)
    requires multiset(a) == multiset(b) && |b| > 0 && p < |a| && a[p] == b[|b| - 1]
    ensures multiset(a[..p] + a[p + 1..]) == multiset(b[..|b| - 1])
  {
    var y := a[p];
    assert b == b[..|b| - 1] + [y];
    assert a == a[..p] + [y] + a[p + 1..];
    assert multiset(a[..p] + a[p + 1..]) == multiset(a) - multiset{y};
    assert multiset(b[..|b| - 1]) == multiset(b) - multiset{y};
  }

  lemma RemoveKeepsDistinct<K>(a: seq<Bin<K>>, p: nat)
    requires DistinctKeys(a) && p < |a|
    ensures DistinctKeys(a[..p] + a[p + 1..])
    ensures forall c :: c in a[..p] + a[p + 1..] ==> c.key != a[p].key
  {
    var a' := a[..p] + a[p + 1..];
    assert forall q :: 0 <= q < |a'| ==> a'[q] == a[if q < p then q else q + 1];
  }

  /** Rearranging a grouping leaves a grouping of the same keys. */
  lemma GroupOfPermutation<K(!new)>(a: seq<Bin<K>>, b: seq<Bin<K>>, ks: seq<K>)
    requires multiset(a) == multiset(b) && GroupOf(a, ks)
    ensures GroupOf(b, ks)
  {
    DistinctKeysPermutation(a, b);
    forall c | c in b ensures c in a {
      assert c in multiset(b);
    }
    forall k | k in ks ensures exists c :: c in b && c.key == k {
      var c :| c in a && c.key == k;
      assert c in multiset(a);
    }
  }
}
