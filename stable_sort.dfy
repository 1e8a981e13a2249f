/**
  The sort step of the view model: `result.sort(comparator)` where the
  comparator compares the string keys of two elements with `Compare` and
  negates the result for a descending sort. `Array.prototype.sort` is
  stable, so its outcome is fixed by the comparator alone: SortBy is that
  outcome, written as an insertion sort, SortedGroupsDetermine shows that
  no other stable outcome exists, and SortInPlace computes it on an array.
 */
module StableSort {
  import opened Strings
  import opened Seqs
  import opened Controls

  /** The comparator: `comparison` for ascending, `-comparison` for descending. */
  function Cmp<T>(key: T -> string, dir: SortDirection, a: T, b: T): int {
    var c := Compare(key(a), key(b));
    if dir == Asc then c else -c
  }

  lemma CmpAntisymmetric<T>(key: T -> string, dir: SortDirection, a: T, b: T)
    ensures Cmp(key, dir, a, b) == -Cmp(key, dir, b, a)
  {
    CompareAntisymmetric(key(a), key(b));
  }

  /** The comparator reports a tie exactly when the keys are equal. */
  lemma CmpZero<T>(key: T -> string, dir: SortDirection, a: T, b: T)
    ensures Cmp(key, dir, a, b) == 0 <==> key(a) == key(b)
  {
    CompareZero(key(a), key(b));
  }

  lemma CmpTransitive<T>(key: T -> string, dir: SortDirection, a: T, b: T, c: T)
    requires Cmp(key, dir, a, b) <= 0 && Cmp(key, dir, b, c) <= 0
    ensures Cmp(key, dir, a, c) <= 0
  {
    var ka, kb, kc := key(a), key(b), key(c);
    if dir == Asc {
      CompareTransitive(ka, kb, kc);
    } else {
      CompareAntisymmetric(ka, kb);
      CompareAntisymmetric(kb, kc);
      CompareAntisymmetric(ka, kc);
      CompareTransitive(kc, kb, ka);
    }
  }

  /** Every earlier element compares no greater than every later one. */
  predicate Sorted<T>(s: seq<T>, key: T -> string, dir: SortDirection) {
    forall i, j :: 0 <= i < j < |s| ==> Cmp(key, dir, s[i], s[j]) <= 0
  }

  /** The test "has key `k`" as a function value, so that every use names the same one. */
  function KeyIs<T>(key: T -> string, k: string): T -> bool {
    x => key(x) == k
  }

  /** The elements of `s` whose key is `k`, in their order in `s`: one tie group. */
  function WithKey<T>(s: seq<T>, key: T -> string, k: string): seq<T> {
    Filter(s, KeyIs(key, k))
  }

  /**
    Insert `x` behind the sorted `t`, moving it left past every element that
    compares greater than it, and no further (so ties stay in front of it).
   */
  function InsertBack<T>(t: seq<T>, x: T, key: T -> string, dir: SortDirection): (r: seq<T>)
    ensures |r| == |t| + 1
    decreases |t|
  {
    if t == [] then [x]
    else if Cmp(key, dir, t[|t| - 1], x) > 0 then InsertBack(t[..|t| - 1], x, key, dir) + [t[|t| - 1]]
    else t + [x]
  }

  /** The stable sort of `s` under the comparator. */
  function SortBy<T>(s: seq<T>, key: T -> string, dir: SortDirection): (r: seq<T>)
    ensures |r| == |s|
    decreases |s|
  {
    if s == [] then []
    else InsertBack(SortBy(s[..|s| - 1], key, dir), s[|s| - 1], key, dir)
  }

  /** Inserting adds `x` and loses nothing. */
  lemma {:induction false} InsertBackPermutes<T>(t: seq<T>, x: T, key: T -> string, dir: SortDirection)
    ensures multiset(InsertBack(t, x, key, dir)) == multiset(t) + multiset{x}
    decreases |t|
  {
    if t != [] && Cmp(key, dir, t[|t| - 1], x) > 0 {
      assert t == t[..|t| - 1] + [t[|t| - 1]];
      InsertBackPermutes(t[..|t| - 1], x, key, dir);
    }
  }

  /** The sorted output is a permutation of the input. */
  lemma {:induction false} SortByPermutes<T>(s: seq<T>, key: T -> string, dir: SortDirection)
    ensures multiset(SortBy(s, key, dir)) == multiset(s)
    decreases |s|
  {
    if s != [] {
      assert s == s[..|s| - 1] + [s[|s| - 1]];
      SortByPermutes(s[..|s| - 1], key, dir);
      InsertBackPermutes(SortBy(s[..|s| - 1], key, dir), s[|s| - 1], key, dir);
    }
  }

  /** Appending an element no smaller than every element keeps a sequence sorted. */
  lemma SortedAppend<T>(t: seq<T>, y: T, key: T -> string, dir: SortDirection)
    requires Sorted(t, key, dir)
    requires forall i :: 0 <= i < |t| ==> Cmp(key, dir, t[i], y) <= 0
    ensures Sorted(t + [y], key, dir)
  {
    var r := t + [y];
    forall i, j | 0 <= i < j < |r|
      ensures Cmp(key, dir, r[i], r[j]) <= 0
    {
      if j < |t| {
        assert r[i] == t[i] && r[j] == t[j];
      } else {
        assert r[i] == t[i] && r[j] == y;
      }
    }
  }

  /** A bound on `x` and on every element of `t` bounds every element of the insertion. */
  lemma InsertBackBounded<T>(t: seq<T>, x: T, y: T, key: T -> string, dir: SortDirection)
    requires forall i :: 0 <= i < |t| ==> Cmp(key, dir, t[i], y) <= 0
    requires Cmp(key, dir, x, y) <= 0
    ensures forall i :: 0 <= i < |InsertBack(t, x, key, dir)| ==> Cmp(key, dir, InsertBack(t, x, key, dir)[i], y) <= 0
  {
    var r := InsertBack(t, x, key, dir);
    InsertBackPermutes(t, x, key, dir);
    forall i | 0 <= i < |r|
      ensures Cmp(key, dir, r[i], y) <= 0
    {
      assert r[i] in multiset(r);
      if r[i] != x {
        assert r[i] in multiset(t);
      }
    }
  }

  lemma {:induction false} InsertBackSorted<T>(t: seq<T>, x: T, key: T -> string, dir: SortDirection)
    requires Sorted(t, key, dir)
    ensures Sorted(InsertBack(t, x, key, dir), key, dir)
    decreases |t|
  {
    if t != [] {
      var n := |t| - 1;
      var front, last := t[..n], t[n];
      if Cmp(key, dir, last, x) > 0 {
        assert Sorted(front, key, dir) by {
          forall i, j | 0 <= i < j < |front|
            ensures Cmp(key, dir, front[i], front[j]) <= 0
          {
            assert front[i] == t[i] && front[j] == t[j];
          }
        }
        InsertBackSorted(front, x, key, dir);
        assert forall i :: 0 <= i < |front| ==> Cmp(key, dir, front[i], last) <= 0 by {
          forall i | 0 <= i < |front|
            ensures Cmp(key, dir, front[i], last) <= 0
          {
            assert front[i] == t[i];
          }
        }
        CmpAntisymmetric(key, dir, last, x);
        InsertBackBounded(front, x, last, key, dir);
        SortedAppend(InsertBack(front, x, key, dir), last, key, dir);
      } else {
        forall i | 0 <= i < |t|
          ensures Cmp(key, dir, t[i], x) <= 0
        {
          if i < n {
            CmpTransitive(key, dir, t[i], last, x);
          }
        }
        SortedAppend(t, x, key, dir);
      }
    }
  }

  /**
    Inserting `x` appends it to its own tie group and leaves every other
    group as it was: it only moves past elements with a different key.
   */
  lemma {:induction false} InsertBackGroups<T>(t: seq<T>, x: T, key: T -> string, dir: SortDirection, k: string)
    ensures WithKey(InsertBack(t, x, key, dir), key, k) == WithKey(t, key, k) + WithKey([x], key, k)
    decreases |t|
  {
    var p := KeyIs(key, k);
    if t == [] {
      assert InsertBack(t, x, key, dir) == [] + [x];
    } else {
      var n := |t| - 1;
      var front, last := t[..n], t[n];
      assert t == front + [last];
      FilterAppend(front, [last], p);
      if Cmp(key, dir, last, x) > 0 {
        var r := InsertBack(front, x, key, dir);
        assert InsertBack(t, x, key, dir) == r + [last];
        FilterAppend(r, [last], p);
        InsertBackGroups(front, x, key, dir, k);
        CmpZero(key, dir, last, x);
        assert WithKey([last], key, k) == [] || WithKey([x], key, k) == [];
      } else {
        assert InsertBack(t, x, key, dir) == t + [x];
        FilterAppend(t, [x], p);
      }
    }
  }

  /** The output of SortBy is sorted. */
  lemma {:induction false} SortBySorted<T>(s: seq<T>, key: T -> string, dir: SortDirection)
    ensures Sorted(SortBy(s, key, dir), key, dir)
    decreases |s|
  {
    if s != [] {
      SortBySorted(s[..|s| - 1], key, dir);
      InsertBackSorted(SortBy(s[..|s| - 1], key, dir), s[|s| - 1], key, dir);
    }
  }

  /** Stability: every tie group of the output is the tie group of the input, in input order. */
  lemma {:induction false} SortByStable<T>(s: seq<T>, key: T -> string, dir: SortDirection, k: string)
    ensures WithKey(SortBy(s, key, dir), key, k) == WithKey(s, key, k)
    decreases |s|
  {
    if s != [] {
      var front, last := s[..|s| - 1], s[|s| - 1];
      SortByStable(front, key, dir, k);
      InsertBackGroups(SortBy(front, key, dir), last, key, dir, k);
      assert s == front + [last];
      FilterAppend(front, [last], KeyIs(key, k));
    }
  }

  /** The first element of a non-empty sequence heads its own tie group. */
  lemma WithKeyHead<T>(s: seq<T>, key: T -> string, k: string)
    requires s != []
    ensures WithKey(s, key, k) == (if key(s[0]) == k then [s[0]] else []) + WithKey(s[1..], key, k)
  {
  }

  /**
    A sorted sequence is determined by its tie groups: any two sorted
    sequences with the same groups are equal. So every stable sort with
    this comparator, whatever its algorithm, produces SortBy's output.
   */
  lemma {:induction false} SortedGroupsDetermine<T>(t1: seq<T>, t2: seq<T>, key: T -> string, dir: SortDirection)
    requires Sorted(t1, key, dir) && Sorted(t2, key, dir)
    requires forall k :: WithKey(t1, key, k) == WithKey(t2, key, k)
    ensures t1 == t2
    decreases |t1|
  {
    if t1 == [] || t2 == [] {
      if t1 != [] {
        WithKeyHead(t1, key, key(t1[0]));
      } else if t2 != [] {
        WithKeyHead(t2, key, key(t2[0]));
      }
    } else {
      var a, b := t1[0], t2[0];
      var ka, kb := key(a), key(b);
      assert Cmp(key, dir, b, a) <= 0 by {
        WithKeyHead(t1, key, ka);
        FilterMember(t2, KeyIs(key, ka), a);
        var j :| 0 <= j < |t2| && t2[j] == a;
        CmpZero(key, dir, b, a);
      }
      assert Cmp(key, dir, a, b) <= 0 by {
        WithKeyHead(t2, key, kb);
        FilterMember(t1, KeyIs(key, kb), b);
        var j :| 0 <= j < |t1| && t1[j] == b;
        CmpZero(key, dir, a, b);
      }
      CmpAntisymmetric(key, dir, a, b);
      CmpZero(key, dir, a, b);
      WithKeyHead(t1, key, ka);
      WithKeyHead(t2, key, ka);
      assert WithKey(t1, key, ka) == WithKey(t2, key, ka);
      assert a == WithKey(t1, key, ka)[0] == WithKey(t2, key, ka)[0] == b;
      forall k
        ensures WithKey(t1[1..], key, k) == WithKey(t2[1..], key, k)
      {
        WithKeyHead(t1, key, k);
        WithKeyHead(t2, key, k);
        var w1, w2 := WithKey(t1, key, k), WithKey(t2, key, k);
        assert w1 == w2;
        if key(a) == k {
          assert WithKey(t1[1..], key, k) == w1[1..];
          assert WithKey(t2[1..], key, k) == w2[1..];
        }
      }
      assert Sorted(t1[1..], key, dir) && Sorted(t2[1..], key, dir) by {
        forall i, j | 0 <= i < j < |t1| - 1
          ensures Cmp(key, dir, t1[1..][i], t1[1..][j]) <= 0
        {
          assert t1[1..][i] == t1[i + 1] && t1[1..][j] == t1[j + 1];
        }
        forall i, j | 0 <= i < j < |t2| - 1
          ensures Cmp(key, dir, t2[1..][i], t2[1..][j]) <= 0
        {
          assert t2[1..][i] == t2[i + 1] && t2[1..][j] == t2[j + 1];
        }
      }
      SortedGroupsDetermine(t1[1..], t2[1..], key, dir);
      assert t1 == [a] + t1[1..] && t2 == [b] + t2[1..];
    }
  }

  /** One step of the insertion: `x` moves left past a last element that compares greater. */
  lemma InsertBackPast<T>(t: seq<T>, x: T, key: T -> string, dir: SortDirection)
    requires t != [] && Cmp(key, dir, t[|t| - 1], x) > 0
    ensures InsertBack(t, x, key, dir) == InsertBack(t[..|t| - 1], x, key, dir) + [t[|t| - 1]]
  {
  }

  /** The insertion stops in front of a last element that does not compare greater. */
  lemma InsertBackStop<T>(t: seq<T>, x: T, key: T -> string, dir: SortDirection)
    requires t == [] || Cmp(key, dir, t[|t| - 1], x) <= 0
    ensures InsertBack(t, x, key, dir) == t + [x]
  {
  }

  /** Sorting one more element is inserting it into the sorted prefix. */
  lemma SortByPrefix<T>(s: seq<T>, i: nat, key: T -> string, dir: SortDirection)
    requires i < |s|
    ensures SortBy(s[..i + 1], key, dir) == InsertBack(SortBy(s[..i], key, dir), s[i], key, dir)
  {
    assert s[..i + 1][..i] == s[..i];
  }

  /**
    Where the insertion puts `x`: directly behind the last element that does
    not compare greater than it, in front of the run of elements that do.
   */
  lemma {:induction false} InsertBackAt<T>(t: seq<T>, j: nat, x: T, key: T -> string, dir: SortDirection)
    requires j <= |t|
    requires forall k :: j <= k < |t| ==> Cmp(key, dir, t[k], x) > 0
    requires j == 0 || Cmp(key, dir, t[j - 1], x) <= 0
    ensures InsertBack(t, x, key, dir) == t[..j] + [x] + t[j..]
    decreases |t|
  {
    if j == |t| {
      InsertBackStop(t, x, key, dir);
      assert t[..j] == t;
    } else {
      var n := |t| - 1;
      InsertBackPast(t, x, key, dir);
      InsertBackAt(t[..n], j, x, key, dir);
      assert t[..n][..j] == t[..j];
      assert t[..n][j..] + [t[n]] == t[j..];
    }
  }

  /** The array after the loop, read as a sequence. */
  lemma ShiftedPrefix<T>(b: seq<T>, sorted: seq<T>, j: nat, x: T)
    requires j <= |sorted| < |b|
    requires forall k :: 0 <= k < j ==> b[k] == sorted[k]
    requires b[j] == x
    requires forall k :: j < k <= |sorted| ==> b[k] == sorted[k - 1]
    ensures b[..|sorted| + 1] == sorted[..j] + [x] + sorted[j..]
  {
    var inserted := sorted[..j] + [x] + sorted[j..];
    forall k | 0 <= k <= |sorted|
      ensures b[k] == inserted[k]
    {
      if k < j {
        assert inserted[k] == sorted[k];
      } else if k == j {
        assert inserted[k] == x;
      } else {
        assert inserted[k] == sorted[k - 1];
      }
    }
  }

  /**
    Move `a[i]` left into the prefix `a[..i]`, shifting every element that
    compares greater one place right: the prefix becomes the insertion.
   */
  method InsertInPlace<T>(a: array<T>, i: nat, key: T -> string, dir: SortDirection)
    requires i < a.Length
    modifies a
    ensures a[..i + 1] == InsertBack(old(a[..i]), old(a[i]), key, dir)
    ensures forall k :: i < k < a.Length ==> a[k] == old(a[k])
  {
    var x := a[i];
    ghost var sorted := a[..i];
    var j := i;
    while j > 0 && Cmp(key, dir, a[j - 1], x) > 0
      invariant 0 <= j <= i
      invariant forall k :: 0 <= k < j ==> a[k] == sorted[k]
      invariant forall k :: j < k <= i ==> a[k] == sorted[k - 1]
      invariant forall k :: i < k < a.Length ==> a[k] == old(a[k])
      invariant forall k :: j <= k < i ==> Cmp(key, dir, sorted[k], x) > 0
    {
      a[j] := a[j - 1];
      j := j - 1;
    }
    InsertBackAt(sorted, j, x, key, dir);
    a[j] := x;
    ShiftedPrefix(a[..], sorted, j, x);
    assert a[..i + 1] == a[..][..i + 1];
  }

  /** `result.sort(comparator)` in place, as an insertion sort. */
  method SortInPlace<T>(a: array<T>, key: T -> string, dir: SortDirection)
    modifies a
    ensures a[..] == SortBy(old(a[..]), key, dir)
  {
    ghost var input := a[..];
    var i := 0;
    while i < a.Length
      invariant 0 <= i <= a.Length
      invariant a[..i] == SortBy(input[..i], key, dir)
      invariant forall k :: i <= k < a.Length ==> a[k] == input[k]
    {
      InsertInPlace(a, i, key, dir);
      SortByPrefix(input, i, key, dir);
      i := i + 1;
    }
    assert input[..a.Length] == input;
  }

  /** `x` occurs somewhere before `y` in `t`. */
  ghost predicate Precedes<T>(t: seq<T>, x: T, y: T) {
    exists i, j :: 0 <= i < j < |t| && t[i] == x && t[j] == y
  }

  /** In a sorted sequence an element that compares strictly lower comes first, and never after. */
  lemma SortedOrder<T>(t: seq<T>, key: T -> string, dir: SortDirection, x: T, y: T)
    requires Sorted(t, key, dir) && x in t && y in t
    requires Cmp(key, dir, x, y) < 0
    ensures Precedes(t, x, y) && !Precedes(t, y, x)
  {
    CmpAntisymmetric(key, dir, x, y);
    CmpZero(key, dir, x, y);
    var i :| 0 <= i < |t| && t[i] == x;
    var j :| 0 <= j < |t| && t[j] == y;
    assert i < j;
  }

  /**
    Toggling the direction reverses elements with different keys: `x` comes
    before `y` ascending exactly when `y` comes before `x` descending.
   */
  lemma ToggleReverses<T>(s: seq<T>, key: T -> string, x: T, y: T)
    requires key(x) != key(y) && x in s && y in s
    ensures Precedes(SortBy(s, key, Asc), x, y) <==> Precedes(SortBy(s, key, Desc), y, x)
  {
    var up, down := SortBy(s, key, Asc), SortBy(s, key, Desc);
    SortByPermutes(s, key, Asc);
    SortByPermutes(s, key, Desc);
    SortBySorted(s, key, Asc);
    SortBySorted(s, key, Desc);
    assert x in multiset(s) && y in multiset(s);
    assert x in up && y in up && x in down && y in down;
    CompareZero(key(x), key(y));
    CompareAntisymmetric(key(x), key(y));
    if Compare(key(x), key(y)) < 0 {
      SortedOrder(up, key, Asc, x, y);
      SortedOrder(down, key, Desc, y, x);
    } else {
      SortedOrder(up, key, Asc, y, x);
      SortedOrder(down, key, Desc, x, y);
    }
  }

  /** Toggling the direction keeps every tie group in the same order. */
  lemma ToggleKeepsTies<T>(s: seq<T>, key: T -> string, k: string)
    ensures WithKey(SortBy(s, key, Asc), key, k) == WithKey(SortBy(s, key, Desc), key, k)
  {
    SortByStable(s, key, Asc, k);
    SortByStable(s, key, Desc, k);
  }
}
