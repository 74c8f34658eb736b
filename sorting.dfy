/** Sorting rows by a real-valued score, as `sort_values(..., ascending=False)`
    does. pandas' default sort is not stable, so only the order of the scores
    and the multiset of rows are specified; the insertion sort here is one
    admissible order of tied rows. */
module Sorting {
  import opened Seqs

  ghost predicate NonIncreasing<T>(s: seq<T>, score: T -> real)
  {
    forall i, j :: 0 <= i < j < |s| ==> score(s[i]) >= score(s[j])
  }

  lemma HeadScoresHighest<T>(s: seq<T>, score: T -> real)
    requires NonIncreasing(s, score) && |s| > 0
    ensures forall y :: y in s ==> score(s[0]) >= score(y)
  {
    forall y | y in s ensures score(s[0]) >= score(y) {
      var j :| 0 <= j < |s| && s[j] == y;
    }
  }

  /** A row that scores at least as high as every row of a non-increasing
      sequence can go in front of it. */
  lemma ConsNonIncreasing<T>(h: T, t: seq<T>, score: T -> real)
    requires NonIncreasing(t, score)
    requires forall y :: y in t ==> score(h) >= score(y)
    ensures NonIncreasing([h] + t, score)
  {
    var r := [h] + t;
    forall i, j | 0 <= i < j < |r| ensures score(r[i]) >= score(r[j]) {
      if i == 0 {
        assert r[j] in t;
      } else {
        assert r[i] == t[i - 1] && r[j] == t[j - 1];
      }
    }
  }

  /** Inserts `x` before the first row that scores lower than it. */
  function Insert<T>(x: T, s: seq<T>, score: T -> real): (r: seq<T>)
    ensures multiset(r) == multiset(s) + multiset{x}
  {
    if |s| == 0 || score(x) >= score(s[0]) then
      [x] + s
    else
      assert s == [s[0]] + s[1..];
      [s[0]] + Insert(x, s[1..], score)
  }

  /** Inserting into a non-increasing sequence keeps it non-increasing. */
  lemma {:induction false} InsertKeepsOrder<T>(x: T, s: seq<T>, score: T -> real)
    requires NonIncreasing(s, score)
    ensures NonIncreasing(Insert(x, s, score), score)
  {
    if |s| == 0 || score(x) >= score(s[0]) {
      if |s| > 0 {
        HeadScoresHighest(s, score);
      }
      ConsNonIncreasing(x, s, score);
    } else {
      var tail := Insert(x, s[1..], score);
      assert NonIncreasing(s[1..], score) by {
        forall i, j | 0 <= i < j < |s[1..]| ensures score(s[1..][i]) >= score(s[1..][j]) {
          assert s[1..][i] == s[i + 1] && s[1..][j] == s[j + 1];
        }
      }
      InsertKeepsOrder(x, s[1..], score);
      HeadScoresHighest(s, score);
      forall y | y in tail ensures score(s[0]) >= score(y) {
        if y != x {
          assert y in multiset(tail);
          assert y in multiset(s[1..]);
          assert y in s;
        }
      }
      ConsNonIncreasing(s[0], tail, score);
    }
  }

  /** The rows of `s` in non-increasing order of `score`. */
  function SortDesc<T>(s: seq<T>, score: T -> real): (r: seq<T>)
    ensures multiset(r) == multiset(s)
    ensures NonIncreasing(r, score)
  {
    if |s| == 0 then []
    else
      assert s == [s[0]] + s[1..];
      var sorted := SortDesc(s[1..], score);
      InsertKeepsOrder(s[0], sorted, score);
      Insert(s[0], sorted, score)
  }

  lemma ConsKeysDistinct<T, K>(h: T, t: seq<T>, key: T -> K)
    requires KeysDistinct(t, key)
    requires forall y :: y in t ==> key(y) != key(h)
    ensures KeysDistinct([h] + t, key)
  {
    var r := [h] + t;
    forall i, j | 0 <= i < j < |r| ensures key(r[i]) != key(r[j]) {
      if i == 0 {
        assert r[j] in t;
      } else {
        assert r[i] == t[i - 1] && r[j] == t[j - 1];
      }
    }
  }

  lemma {:induction false} InsertKeepsKeysDistinct<T, K>(x: T, s: seq<T>, score: T -> real, key: T -> K)
    requires KeysDistinct(s, key)
    requires forall y :: y in s ==> key(y) != key(x)
    ensures KeysDistinct(Insert(x, s, score), key)
  {
    if |s| == 0 || score(x) >= score(s[0]) {
      ConsKeysDistinct(x, s, key);
    } else {
      var tail := Insert(x, s[1..], score);
      assert KeysDistinct(s[1..], key) by {
        forall i, j | 0 <= i < j < |s[1..]| ensures key(s[1..][i]) != key(s[1..][j]) {
          assert s[1..][i] == s[i + 1] && s[1..][j] == s[j + 1];
        }
      }
      assert forall y :: y in s[1..] ==> y in s;
      InsertKeepsKeysDistinct(x, s[1..], score, key);
      forall y | y in tail ensures key(y) != key(s[0]) {
        assert y in multiset(tail);
        if y != x {
          assert y in multiset(s[1..]);
          var l :| 0 <= l < |s[1..]| && s[1..][l] == y;
          assert s[l + 1] == y;
        } else {
          assert s[0] in s;
        }
      }
      ConsKeysDistinct(s[0], tail, key);
    }
  }

  /** Sorting rows whose keys are distinct leaves them distinct. */
  lemma {:induction false} SortDescKeepsKeysDistinct<T, K>(s: seq<T>, score: T -> real, key: T -> K)
    requires KeysDistinct(s, key)
    ensures KeysDistinct(SortDesc(s, score), key)
  {
    if |s| > 0 {
      assert s == [s[0]] + s[1..];
      var sorted := SortDesc(s[1..], score);
      SortDescKeepsKeysDistinct(s[1..], score, key);
      forall y | y in sorted ensures key(y) != key(s[0]) {
        assert y in multiset(s[1..]);
        var l :| 0 <= l < |s[1..]| && s[1..][l] == y;
        assert s[l + 1] == y;
      }
      InsertKeepsKeysDistinct(s[0], sorted, score, key);
    }
  }

  /** Sorting keeps every row and adds none. */
  lemma {:induction false} SortDescSameRows<T>(s: seq<T>, score: T -> real)
    ensures forall x :: x in SortDesc(s, score) <==> x in s
    ensures |SortDesc(s, score)| == |s|
  {
    var r := SortDesc(s, score);
    assert |r| == |multiset(r)| == |multiset(s)| == |s|;
    forall x ensures x in r <==> x in s {
      assert x in r <==> x in multiset(r);
      assert x in s <==> x in multiset(s);
    }
  }

  /** Two sorted permutations of the same rows start with rows of equal score. */
  lemma SortedHeadsScore<T>(a: seq<T>, b: seq<T>, score: T -> real)
    requires multiset(a) == multiset(b) && |a| > 0
    requires NonIncreasing(a, score) && NonIncreasing(b, score)
    ensures |b| > 0 && b[0] in a && score(a[0]) == score(b[0])
  {
    assert a[0] in multiset(b) && b[0] in multiset(a);
    var i :| 0 <= i < |b| && b[i] == a[0];
    var j :| 0 <= j < |a| && a[j] == b[0];
    assert score(b[0]) >= score(b[i]);
    assert score(a[0]) >= score(a[j]);
  }

  lemma TailNonIncreasing<T>(s: seq<T>, score: T -> real)
    requires NonIncreasing(s, score) && |s| > 0
    ensures NonIncreasing(s[1..], score)
  {
    forall i, j | 0 <= i < j < |s| - 1 ensures score(s[1..][i]) >= score(s[1..][j]) {
      assert s[1..][i] == s[i + 1] && s[1..][j] == s[j + 1];
    }
  }

  lemma TailsPermutation<T>(a: seq<T>, b: seq<T>)
    requires multiset(a) == multiset(b) && |a| > 0 && |b| > 0 && a[0] == b[0]
    ensures multiset(a[1..]) == multiset(b[1..])
  {
    assert a == [a[0]] + a[1..];
    assert b == [b[0]] + b[1..];
    assert multiset(a[1..]) == multiset(a) - multiset{a[0]};
    assert multiset(b[1..]) == multiset(b) - multiset{b[0]};
  }

  /** When no two rows share a score, the sorted order is unique: two sorted
      permutations of the same rows are equal. */
  lemma {:induction false} SortedPermutationUnique<T>(a: seq<T>, b: seq<T>, score: T -> real)
    requires multiset(a) == multiset(b)
    requires NonIncreasing(a, score) && NonIncreasing(b, score)
    requires forall x, y {:trigger x in a, y in a} :: x in a && y in a && score(x) == score(y) ==> x == y
    ensures a == b
  {
    if |a| == 0 {
      assert |b| == |multiset(b)| == 0;
    } else {
      SortedHeadsScore(a, b, score);
      assert a[0] in a;
      assert a[0] == b[0];
      var a', b' := a[1..], b[1..];
      TailsPermutation(a, b);
      TailNonIncreasing(a, score);
      TailNonIncreasing(b, score);
      assert forall x :: x in a' ==> x in a;
      SortedPermutationUnique(a', b', score);
      assert a == [a[0]] + a' && b == [b[0]] + b';
    }
  }

  /** The sorted rows depend only on the multiset of input rows, when no two
      rows share a score. */
  lemma {:induction false} SortDescPermutationInvariant<T>(a: seq<T>, b: seq<T>, score: T -> real)
    requires multiset(a) == multiset(b)
    requires forall x, y {:trigger x in a, y in a} :: x in a && y in a && score(x) == score(y) ==> x == y
    ensures SortDesc(a, score) == SortDesc(b, score)
  {
    var ra, rb := SortDesc(a, score), SortDesc(b, score);
    assert multiset(ra) == multiset(rb);
    forall x | x in ra ensures x in a {
      assert x in multiset(ra);
    }
    SortedPermutationUnique(ra, rb, score);
  }
}
