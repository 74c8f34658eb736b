/** Generic sequence operations that the table code is built from: column
    sums, row filters, distinct keys, per-key sums and pandas' head/tail. */
module Seqs {

  /** The sum of `f` over every element of `s`, as a column `.sum()` adds rows. */
  function Sum<T>(s: seq<T>, f: T -> real): real
  {
    if |s| == 0 then 0.0 else f(s[0]) + Sum(s[1..], f)
  }

  lemma {:induction false} SumAppend<T>(a: seq<T>, b: seq<T>, f: T -> real)
    ensures Sum(a + b, f) == Sum(a, f) + Sum(b, f)
  {
    if |a| == 0 {
      assert a + b == b;
    } else {
      assert (a + b)[1..] == a[1..] + b;
      SumAppend(a[1..], b, f);
    }
  }

  /** Removing one summand takes its value off the sum. */
  lemma {:induction false} SumRemove<T>(b: seq<T>, i: int, f: T -> real)
    requires 0 <= i < |b|
    ensures Sum(b, f) == f(b[i]) + Sum(b[..i] + b[i + 1..], f)
  {
    assert b == b[..i] + ([b[i]] + b[i + 1..]);
    SumAppend(b[..i], [b[i]] + b[i + 1..], f);
    assert ([b[i]] + b[i + 1..])[1..] == b[i + 1..];
    SumAppend(b[..i], b[i + 1..], f);
  }

  lemma MultisetWithout<T>(b: seq<T>, i: int)
    requires 0 <= i < |b|
    ensures multiset(b[..i] + b[i + 1..]) == multiset(b) - multiset{b[i]}
  {
    assert b == b[..i] + [b[i]] + b[i + 1..];
  }

  /** A sum does not depend on the order of the summands. */
  lemma {:induction false} SumPermutation<T>(a: seq<T>, b: seq<T>, f: T -> real)
    requires multiset(a) == multiset(b)
    ensures Sum(a, f) == Sum(b, f)
  {
    if |a| == 0 {
      assert |b| == |multiset(b)| == 0;
    } else {
      var x := a[0];
      assert x in multiset(b);
      var i :| 0 <= i < |b| && b[i] == x;
      var rest := b[..i] + b[i + 1..];
      assert a == [x] + a[1..];
      assert multiset(a[1..]) == multiset(a) - multiset{x};
      MultisetWithout(b, i);
      SumPermutation(a[1..], rest, f);
      SumRemove(b, i, f);
    }
  }

  /** Two summands that agree on every element give the same sum. */
  lemma {:induction false} SumCongruent<T>(s: seq<T>, f: T -> real, g: T -> real)
    requires forall x :: x in s ==> f(x) == g(x)
    ensures Sum(s, f) == Sum(s, g)
  {
    if |s| > 0 {
      assert s[0] in s;
      SumCongruent(s[1..], f, g);
    }
  }

  /** The rows of `s` that satisfy `p`, in their original order: a boolean mask. */
  function Filter<T(!new)>(s: seq<T>, p: T -> bool): (r: seq<T>)
    ensures |r| <= |s|
    ensures forall x :: x in r <==> x in s && p(x)
  {
    if |s| == 0 then []
    else
      var init := Filter(s[..|s| - 1], p);
      assert s == s[..|s| - 1] + [s[|s| - 1]];
      if p(s[|s| - 1]) then init + [s[|s| - 1]] else init
  }

  /** The positions of the rows that `Filter(s, p)` keeps: the retained row labels. */
  function Indices<T(!new)>(s: seq<T>, p: T -> bool): (ix: seq<int>)
  {
    if |s| == 0 then []
    else
      var init := Indices(s[..|s| - 1], p);
      if p(s[|s| - 1]) then init + [|s| - 1] else init
  }

  /** The retained positions: one per kept row, in range and strictly increasing. */
  lemma {:induction false} IndicesShape<T(!new)>(s: seq<T>, p: T -> bool)
    ensures |Indices(s, p)| == |Filter(s, p)|
    ensures forall k :: 0 <= k < |Indices(s, p)| ==> 0 <= Indices(s, p)[k] < |s|
    ensures forall k, l :: 0 <= k < l < |Indices(s, p)| ==> Indices(s, p)[k] < Indices(s, p)[l]
  {
    if |s| > 0 {
      IndicesShape(s[..|s| - 1], p);
    }
  }

  /** The retained positions name exactly the rows that satisfy `p`. */
  lemma {:induction false} IndicesExact<T(!new)>(s: seq<T>, p: T -> bool)
    ensures forall i :: 0 <= i < |s| ==> (p(s[i]) <==> i in Indices(s, p))
  {
    if |s| > 0 {
      var n := |s|;
      var init := s[..n - 1];
      IndicesExact(init, p);
      IndicesShape(init, p);
      var ixi, ix := Indices(init, p), Indices(s, p);
      assert n - 1 !in ixi;
      forall i | 0 <= i < n - 1 ensures p(s[i]) <==> i in ix {
        assert s[i] == init[i];
      }
    }
  }

  /** The k-th kept row is the row at the k-th retained position. */
  lemma {:induction false} IndicesSelect<T(!new)>(s: seq<T>, p: T -> bool)
    ensures forall k :: 0 <= k < |Indices(s, p)| ==>
              0 <= Indices(s, p)[k] < |s| && k < |Filter(s, p)| && s[Indices(s, p)[k]] == Filter(s, p)[k]
  {
    IndicesShape(s, p);
    if |s| > 0 {
      var n := |s|;
      var init := s[..n - 1];
      IndicesSelect(init, p);
      var ixi, fi := Indices(init, p), Filter(init, p);
      forall k | 0 <= k < |ixi| ensures s[ixi[k]] == fi[k] {
        assert s[ixi[k]] == init[ixi[k]];
      }
    }
  }

  /** A filter keeps exactly the rows that satisfy the mask, unchanged and in
      their original order: the retained positions are strictly increasing,
      name exactly the rows that satisfy `p`, and the k-th kept row is the row
      at the k-th retained position. */
  lemma FilterKeepsExactly<T(!new)>(s: seq<T>, p: T -> bool)
    ensures |Indices(s, p)| == |Filter(s, p)|
    ensures forall k :: 0 <= k < |Indices(s, p)| ==>
              0 <= Indices(s, p)[k] < |s| && s[Indices(s, p)[k]] == Filter(s, p)[k]
    ensures forall k, l :: 0 <= k < l < |Indices(s, p)| ==> Indices(s, p)[k] < Indices(s, p)[l]
    ensures forall i :: 0 <= i < |s| ==> (p(s[i]) <==> i in Indices(s, p))
  {
    IndicesShape(s, p);
    IndicesExact(s, p);
    IndicesSelect(s, p);
  }

  lemma {:induction false} FilterAppend<T(!new)>(a: seq<T>, b: seq<T>, p: T -> bool)
    ensures Filter(a + b, p) == Filter(a, p) + Filter(b, p)
    decreases |b|
  {
    if |b| == 0 {
      assert a + b == a;
    } else {
      var init := b[..|b| - 1];
      assert (a + b)[..|a + b| - 1] == a + init;
      assert (a + b)[|a + b| - 1] == b[|b| - 1];
      FilterAppend(a, init, p);
    }
  }

  /** A mask that holds on every row keeps the whole table. */
  lemma {:induction false} FilterKeepsAll<T(!new)>(s: seq<T>, p: T -> bool)
    requires forall x :: x in s ==> p(x)
    ensures Filter(s, p) == s
  {
    if |s| > 0 {
      assert s == s[..|s| - 1] + [s[|s| - 1]];
      FilterKeepsAll(s[..|s| - 1], p);
    }
  }

  /** A mask that holds on no row keeps nothing. */
  lemma {:induction false} FilterKeepsNone<T(!new)>(s: seq<T>, p: T -> bool)
    requires forall x :: x in s ==> !p(x)
    ensures Filter(s, p) == []
  {
    if |s| > 0 {
      assert s == s[..|s| - 1] + [s[|s| - 1]];
      FilterKeepsNone(s[..|s| - 1], p);
    }
  }

  /** Two masks that agree on every row select the same rows. */
  lemma {:induction false} FilterCongruent<T(!new)>(s: seq<T>, p: T -> bool, q: T -> bool)
    requires forall x :: x in s ==> p(x) == q(x)
    ensures Filter(s, p) == Filter(s, q)
  {
    if |s| > 0 {
      assert s == s[..|s| - 1] + [s[|s| - 1]];
      FilterCongruent(s[..|s| - 1], p, q);
    }
  }

  ghost predicate NoDups<K>(s: seq<K>)
  {
    forall i, j :: 0 <= i < j < |s| ==> s[i] != s[j]
  }

  /** No two rows of `s` share a key. */
  ghost predicate KeysDistinct<T, K>(s: seq<T>, key: T -> K)
  {
    forall i, j :: 0 <= i < j < |s| ==> key(s[i]) != key(s[j])
  }

  /** The distinct elements of `s`, each at its first appearance. */
  function Distinct<K(==,!new)>(s: seq<K>): (r: seq<K>)
    ensures NoDups(r)
    ensures forall k :: k in r <==> k in s
    ensures |r| <= |s|
  {
    if |s| == 0 then []
    else
      var init := Distinct(s[..|s| - 1]);
      var last := s[|s| - 1];
      assert s == s[..|s| - 1] + [last];
      if last in init then init else init + [last]
  }

  /** The key column of a table. */
  function Project<T, K>(s: seq<T>, key: T -> K): (ks: seq<K>)
    ensures |ks| == |s|
    ensures forall i :: 0 <= i < |s| ==> ks[i] == key(s[i])
  {
    seq(|s|, i requires 0 <= i < |s| => key(s[i]))
  }

  /** The group keys of a group-by: every key that occurs, once each. */
  function GroupKeys<T, K(==,!new)>(s: seq<T>, key: T -> K): (ks: seq<K>)
    ensures NoDups(ks)
    ensures forall k :: k in ks <==> exists i :: 0 <= i < |s| && key(s[i]) == k
    ensures |ks| <= |s|
  {
    var col := Project(s, key);
    assert forall k :: k in col <==> exists i :: 0 <= i < |s| && key(s[i]) == k by {
      forall k ensures k in col <==> exists i :: 0 <= i < |s| && key(s[i]) == k {
        if k in col {
          var i :| 0 <= i < |col| && col[i] == k;
          assert key(s[i]) == k;
        }
      }
    }
    Distinct(col)
  }

  /** The group sum of `f` over the rows whose key is `k`. */
  function SumWhere<T, K(==)>(s: seq<T>, key: T -> K, k: K, f: T -> real): real
  {
    if |s| == 0 then 0.0
    else (if key(s[0]) == k then f(s[0]) else 0.0) + SumWhere(s[1..], key, k, f)
  }

  /** The group size: the number of rows whose key is `k`. A key that occurs
      has a non-empty group. */
  function CountWhere<T, K(==)>(s: seq<T>, key: T -> K, k: K): (n: nat)
    ensures n <= |s|
    ensures n > 0 <==> exists i :: 0 <= i < |s| && key(s[i]) == k
  {
    if |s| == 0 then 0
    else
      var rest := CountWhere(s[1..], key, k);
      assert (exists i :: 0 <= i < |s| && key(s[i]) == k) <==>
             key(s[0]) == k || exists i :: 0 <= i < |s[1..]| && key(s[1..][i]) == k by {
        if exists i :: 0 <= i < |s| && key(s[i]) == k {
          var i :| 0 <= i < |s| && key(s[i]) == k;
          if i > 0 { assert key(s[1..][i - 1]) == k; }
        }
        if exists i :: 0 <= i < |s[1..]| && key(s[1..][i]) == k {
          var i :| 0 <= i < |s[1..]| && key(s[1..][i]) == k;
          assert key(s[i + 1]) == k;
        }
      }
      (if key(s[0]) == k then 1 else 0) + rest
  }

  function One<T>(x: T): real
  {
    1.0
  }

  /** Counting rows is summing a column of ones. */
  lemma {:induction false} CountIsSumOfOnes<T, K>(s: seq<T>, key: T -> K, k: K)
    ensures CountWhere(s, key, k) as real == SumWhere(s, key, k, One)
  {
    if |s| > 0 {
      CountIsSumOfOnes(s[1..], key, k);
    }
  }

  lemma {:induction false} SumOfOnes<T>(s: seq<T>)
    ensures Sum(s, One) == |s| as real
  {
    if |s| > 0 {
      SumOfOnes(s[1..]);
    }
  }

  /** The sum of the group sums over the keys `ks`. */
  function SumOverKeys<T, K(==)>(s: seq<T>, key: T -> K, f: T -> real, ks: seq<K>): real
  {
    if |ks| == 0 then 0.0 else SumWhere(s, key, ks[0], f) + SumOverKeys(s, key, f, ks[1..])
  }

  /** The share of one row (key `k0`, value `v`) taken by the keys `ks`. */
  function Share<K(==)>(ks: seq<K>, k0: K, v: real): real
  {
    if |ks| == 0 then 0.0 else (if ks[0] == k0 then v else 0.0) + Share(ks[1..], k0, v)
  }

  lemma {:induction false} ShareAbsent<K>(ks: seq<K>, k0: K, v: real)
    requires k0 !in ks
    ensures Share(ks, k0, v) == 0.0
  {
    if |ks| > 0 {
      ShareAbsent(ks[1..], k0, v);
    }
  }

  lemma {:induction false} ShareOnce<K>(ks: seq<K>, k0: K, v: real)
    requires NoDups(ks) && k0 in ks
    ensures Share(ks, k0, v) == v
  {
    if ks[0] == k0 {
      assert k0 !in ks[1..];
      ShareAbsent(ks[1..], k0, v);
    } else {
      ShareOnce(ks[1..], k0, v);
    }
  }

  lemma {:induction false} SumOverNoRows<T, K>(s: seq<T>, key: T -> K, f: T -> real, ks: seq<K>)
    requires |s| == 0
    ensures SumOverKeys(s, key, f, ks) == 0.0
  {
    if |ks| > 0 {
      SumOverNoRows(s, key, f, ks[1..]);
    }
  }

  lemma {:induction false} SumOverKeysSplit<T, K>(s: seq<T>, key: T -> K, f: T -> real, ks: seq<K>)
    requires |s| > 0
    ensures SumOverKeys(s, key, f, ks) == Share(ks, key(s[0]), f(s[0])) + SumOverKeys(s[1..], key, f, ks)
  {
    if |ks| > 0 {
      SumOverKeysSplit(s, key, f, ks[1..]);
    }
  }

  /** Group-by partitions the rows: when the keys `ks` are distinct and cover
      every row, the group sums add up to the column total. */
  lemma {:induction false} GroupSumsPartition<T, K>(s: seq<T>, key: T -> K, f: T -> real, ks: seq<K>)
    requires NoDups(ks)
    requires forall i :: 0 <= i < |s| ==> key(s[i]) in ks
    ensures SumOverKeys(s, key, f, ks) == Sum(s, f)
  {
    if |s| == 0 {
      SumOverNoRows(s, key, f, ks);
    } else {
      SumOverKeysSplit(s, key, f, ks);
      ShareOnce(ks, key(s[0]), f(s[0]));
      assert forall i :: 0 <= i < |s[1..]| ==> key(s[1..][i]) in ks by {
        forall i | 0 <= i < |s[1..]| ensures key(s[1..][i]) in ks {
          assert s[1..][i] == s[i + 1];
        }
      }
      GroupSumsPartition(s[1..], key, f, ks);
    }
  }

  /** A group sum of a summand that is `f` on rows of class `m` and zero
      elsewhere, for a key `k` that determines the class. */
  lemma {:induction false} SumWhereRestricted<T, K, M>(
    s: seq<T>, key: T -> K, k: K, cls: T -> M, m: M, classOfKey: M, f: T -> real, g: T -> real)
    requires forall x :: g(x) == if cls(x) == m then f(x) else 0.0
    requires forall i :: 0 <= i < |s| && key(s[i]) == k ==> cls(s[i]) == classOfKey
    ensures SumWhere(s, key, k, g) == if classOfKey == m then SumWhere(s, key, k, f) else 0.0
  {
    if |s| > 0 {
      assert forall i :: 0 <= i < |s[1..]| && key(s[1..][i]) == k ==> cls(s[1..][i]) == classOfKey by {
        forall i | 0 <= i < |s[1..]| && key(s[1..][i]) == k ensures cls(s[1..][i]) == classOfKey {
          assert s[1..][i] == s[i + 1];
        }
      }
      SumWhereRestricted(s[1..], key, k, cls, m, classOfKey, f, g);
    }
  }

  /** Summing `f` on the rows of class `m` is a group sum with the class as key. */
  lemma {:induction false} SumOfRestricted<T, M>(s: seq<T>, cls: T -> M, m: M, f: T -> real, g: T -> real)
    requires forall x :: g(x) == if cls(x) == m then f(x) else 0.0
    ensures Sum(s, g) == SumWhere(s, cls, m, f)
  {
    if |s| > 0 {
      SumOfRestricted(s[1..], cls, m, f, g);
    }
  }

  function Min(a: int, b: int): int
  {
    if a <= b then a else b
  }

  /** pandas `head(n)`, which is Python's slice `[:n]`: the first `n` rows, or
      for a negative `n` all but the last `-n` rows. */
  function Head<T>(s: seq<T>, n: int): (r: seq<T>)
    ensures |r| <= |s| && r == s[..|r|]
    ensures 0 <= n ==> |r| == Min(n, |s|)
    ensures n < 0 ==> |r| == |s| - Min(-n, |s|)
    ensures 0 <= n ==> r == s[..Min(n, |s|)]
    ensures n < 0 ==> r == s[..|s| - Min(-n, |s|)]
  {
    if 0 <= n then s[..Min(n, |s|)] else s[..|s| - Min(-n, |s|)]
  }

  /** pandas `tail(n)`: no rows for `n == 0`, else Python's slice `[-n:]`, the
      last `n` rows, or for a negative `n` all but the first `-n` rows. */
  function Tail<T>(s: seq<T>, n: int): (r: seq<T>)
    ensures |r| <= |s| && r == s[|s| - |r|..]
    ensures 0 <= n ==> |r| == Min(n, |s|)
    ensures n < 0 ==> |r| == |s| - Min(-n, |s|)
    ensures 0 <= n ==> r == s[|s| - Min(n, |s|)..]
    ensures n < 0 ==> r == s[Min(-n, |s|)..]
  {
    if n == 0 then []
    else if 0 < n then s[|s| - Min(n, |s|)..]
    else s[Min(-n, |s|)..]
  }
}
