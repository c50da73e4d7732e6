/**
 * A stable sort by a three-way comparator, as `Array.prototype.sort(compareFn)` performs it:
 * the comparator's sign decides the order, and elements it calls equal keep their input order.
 */
module StableSort {

  /** A comparator's result is negative, zero or positive as `a` goes before, with, or after `b`. */
  type Comparator<!T> = (T, T) -> int

  /** Swapping the arguments negates the result. */
  ghost predicate Antisymmetric<T(!new)>(cmp: Comparator<T>)
  {
    forall a, b :: cmp(a, b) == -cmp(b, a)
  }

  /** "Not after" is transitive among the elements of `items`. */
  ghost predicate TransitiveOn<T>(items: seq<T>, cmp: Comparator<T>)
  {
    forall i, j, k :: 0 <= i < |items| && 0 <= j < |items| && 0 <= k < |items| ==>
      cmp(items[i], items[j]) <= 0 && cmp(items[j], items[k]) <= 0 ==> cmp(items[i], items[k]) <= 0
  }

  /** Neighbours are in comparator order. */
  ghost predicate AdjacentSorted<T>(items: seq<T>, cmp: Comparator<T>)
  {
    forall i :: 0 < i < |items| ==> cmp(items[i - 1], items[i]) <= 0
  }

  /** Every earlier element is in comparator order with every later one. */
  ghost predicate Sorted<T>(items: seq<T>, cmp: Comparator<T>)
  {
    forall i, j :: 0 <= i < j < |items| ==> cmp(items[i], items[j]) <= 0
  }

  /** Inserts `x` behind the last element that does not compare after it. */
  function Insert<T>(sorted: seq<T>, x: T, cmp: Comparator<T>): seq<T>
    decreases |sorted|
  {
    if |sorted| == 0 then [x]
    else if cmp(sorted[|sorted| - 1], x) > 0 then Insert(sorted[..|sorted| - 1], x, cmp) + [sorted[|sorted| - 1]]
    else sorted + [x]
  }

  /** The stable sort of `items`, built by inserting the elements in input order. */
  function Sort<T>(items: seq<T>, cmp: Comparator<T>): seq<T>
    decreases |items|
  {
    if |items| == 0 then [] else Insert(Sort(items[..|items| - 1], cmp), items[|items| - 1], cmp)
  }

  /** The elements satisfying `p`, in order. */
  function Filter<T>(items: seq<T>, p: T -> bool): seq<T>
    decreases |items|
  {
    if |items| == 0 then []
    else Filter(items[..|items| - 1], p) + (if p(items[|items| - 1]) then [items[|items| - 1]] else [])
  }

  // ---------------------------------------------------------------------------
  // Insertion

  lemma {:induction false} InsertPermutation<T>(sorted: seq<T>, x: T, cmp: Comparator<T>)
    ensures multiset(Insert(sorted, x, cmp)) == multiset(sorted) + multiset{x}
    decreases |sorted|
  {
    var n := |sorted|;
    if n > 0 && cmp(sorted[n - 1], x) > 0 {
      var init, last := sorted[..n - 1], sorted[n - 1];
      InsertPermutation(init, x, cmp);
      assert multiset(sorted) == multiset(init) + multiset{last} by {
        assert sorted == init + [last];
      }
    }
  }

  /** The last element after an insertion is the inserted one or the old last one. */
  lemma {:induction false} InsertLast<T>(sorted: seq<T>, x: T, cmp: Comparator<T>)
    ensures |Insert(sorted, x, cmp)| == |sorted| + 1
    ensures var r := Insert(sorted, x, cmp);
            r[|r| - 1] == x || (|sorted| > 0 && r[|r| - 1] == sorted[|sorted| - 1])
    decreases |sorted|
  {
    var n := |sorted|;
    if n > 0 && cmp(sorted[n - 1], x) > 0 {
      InsertLast(sorted[..n - 1], x, cmp);
    }
  }

  /** Inserting into a sorted sequence keeps it sorted. */
  lemma {:induction false} InsertSorted<T(!new)>(sorted: seq<T>, x: T, cmp: Comparator<T>)
    requires Antisymmetric(cmp)
    requires AdjacentSorted(sorted, cmp)
    ensures AdjacentSorted(Insert(sorted, x, cmp), cmp)
    decreases |sorted|
  {
    var n := |sorted|;
    if n > 0 && cmp(sorted[n - 1], x) > 0 {
      var init := sorted[..n - 1];
      var last := sorted[n - 1];
      assert AdjacentSorted(init, cmp) by {
        forall i | 0 < i < |init| ensures cmp(init[i - 1], init[i]) <= 0 {
          assert init[i - 1] == sorted[i - 1] && init[i] == sorted[i];
        }
      }
      InsertSorted(init, x, cmp);
      InsertLast(init, x, cmp);
      var r := Insert(init, x, cmp);
      assert cmp(r[|r| - 1], last) <= 0 by {
        if r[|r| - 1] == x {
          assert cmp(x, last) == -cmp(last, x);
        } else {
          assert r[|r| - 1] == sorted[n - 2];
        }
      }
      var all := r + [last];
      forall i | 0 < i < |all| ensures cmp(all[i - 1], all[i]) <= 0 {
        if i < |r| {
          assert all[i - 1] == r[i - 1] && all[i] == r[i];
        }
      }
    }
  }

  // ---------------------------------------------------------------------------
  // The sort

  /** The sorted result holds exactly the input's elements. */
  lemma {:induction false} SortPermutation<T>(items: seq<T>, cmp: Comparator<T>)
    ensures multiset(Sort(items, cmp)) == multiset(items)
    decreases |items|
  {
    var n := |items|;
    if n > 0 {
      var init, last := items[..n - 1], items[n - 1];
      SortPermutation(init, cmp);
      InsertPermutation(Sort(init, cmp), last, cmp);
      assert multiset(items) == multiset(init) + multiset{last} by {
        assert items == init + [last];
      }
    }
  }

  lemma {:induction false} SortAdjacentSorted<T(!new)>(items: seq<T>, cmp: Comparator<T>)
    requires Antisymmetric(cmp)
    ensures AdjacentSorted(Sort(items, cmp), cmp)
    decreases |items|
  {
    var n := |items|;
    if n > 0 {
      SortAdjacentSorted(items[..n - 1], cmp);
      InsertSorted(Sort(items[..n - 1], cmp), items[n - 1], cmp);
    }
  }

  /** Transitivity carries over to any sequence drawn from the same elements. */
  lemma TransitiveOnSub<T>(items: seq<T>, sub: seq<T>, cmp: Comparator<T>)
    requires TransitiveOn(items, cmp)
    requires multiset(sub) <= multiset(items)
    ensures TransitiveOn(sub, cmp)
  {
    forall i, j, k | 0 <= i < |sub| && 0 <= j < |sub| && 0 <= k < |sub|
      ensures cmp(sub[i], sub[j]) <= 0 && cmp(sub[j], sub[k]) <= 0 ==> cmp(sub[i], sub[k]) <= 0
    {
      assert sub[i] in multiset(items) && sub[j] in multiset(items) && sub[k] in multiset(items);
      var i', j', k' := IndexOf(items, sub[i]), IndexOf(items, sub[j]), IndexOf(items, sub[k]);
      TransitiveOnAt(items, i', j', k', cmp);
    }
  }

  lemma TransitiveOnAt<T>(items: seq<T>, i: int, j: int, k: int, cmp: Comparator<T>)
    requires TransitiveOn(items, cmp)
    requires 0 <= i < |items| && 0 <= j < |items| && 0 <= k < |items|
    ensures cmp(items[i], items[j]) <= 0 && cmp(items[j], items[k]) <= 0 ==> cmp(items[i], items[k]) <= 0
  {
  }

  /** A position of `x` in `items`. */
  ghost function IndexOf<T>(items: seq<T>, x: T): (r: int)
    requires x in items
    ensures 0 <= r < |items| && items[r] == x
    decreases |items|
  {
    if items[0] == x then 0 else 1 + IndexOf(items[1..], x)
  }

  /** Transitivity carries over to a prefix. */
  lemma TransitiveOnPrefix<T>(items: seq<T>, m: int, cmp: Comparator<T>)
    requires 0 <= m <= |items|
    requires TransitiveOn(items, cmp)
    ensures TransitiveOn(items[..m], cmp)
  {
    var init := items[..m];
    forall i, j, k | 0 <= i < m && 0 <= j < m && 0 <= k < m
      ensures cmp(init[i], init[j]) <= 0 && cmp(init[j], init[k]) <= 0 ==> cmp(init[i], init[k]) <= 0
    {
      assert init[i] == items[i] && init[j] == items[j] && init[k] == items[k];
    }
  }

  /** Neighbour order extends to every pair when the comparator is transitive. */
  lemma {:induction false} AdjacentToSorted<T>(items: seq<T>, cmp: Comparator<T>)
    requires TransitiveOn(items, cmp)
    requires AdjacentSorted(items, cmp)
    ensures Sorted(items, cmp)
    decreases |items|
  {
    var n := |items|;
    if n > 1 {
      var init := items[..n - 1];
      TransitiveOnPrefix(items, n - 1, cmp);
      assert AdjacentSorted(init, cmp) by {
        forall i | 0 < i < |init| ensures cmp(init[i - 1], init[i]) <= 0 {
          assert init[i - 1] == items[i - 1] && init[i] == items[i];
        }
      }
      AdjacentToSorted(init, cmp);
      forall i, j | 0 <= i < j < n ensures cmp(items[i], items[j]) <= 0 {
        assert items[i] == init[i];
        if j < n - 1 {
          assert items[j] == init[j];
        } else if i < n - 2 {
          assert items[n - 2] == init[n - 2];
          assert cmp(items[i], items[n - 2]) <= 0;
        }
      }
    }
  }

  /** On elements where the comparator is transitive, the result is in comparator order, pair by pair. */
  lemma SortSorted<T(!new)>(items: seq<T>, cmp: Comparator<T>)
    requires Antisymmetric(cmp)
    requires TransitiveOn(items, cmp)
    ensures Sorted(Sort(items, cmp), cmp)
  {
    SortAdjacentSorted(items, cmp);
    SortPermutation(items, cmp);
    TransitiveOnSub(items, Sort(items, cmp), cmp);
    AdjacentToSorted(Sort(items, cmp), cmp);
  }

  // ---------------------------------------------------------------------------
  // Stability

  lemma {:induction false} FilterAppend<T>(a: seq<T>, b: seq<T>, p: T -> bool)
    ensures Filter(a + b, p) == Filter(a, p) + Filter(b, p)
    decreases |b|
  {
    var n := |b|;
    if n > 0 {
      FilterAppend(a, b[..n - 1], p);
      assert (a + b)[..|a + b| - 1] == a + b[..n - 1];
    } else {
      assert a + b == a;
    }
  }

  /** `p` picks out elements the comparator calls equal. */
  ghost predicate EqualClass<T(!new)>(p: T -> bool, cmp: Comparator<T>)
  {
    forall a, b :: p(a) && p(b) ==> cmp(a, b) == 0
  }

  lemma FilterSingle<T>(y: T, p: T -> bool)
    ensures Filter([y], p) == if p(y) then [y] else []
  {
    assert [y][..0] == [];
  }

  lemma {:induction false} InsertStable<T(!new)>(sorted: seq<T>, x: T, cmp: Comparator<T>, p: T -> bool)
    requires EqualClass(p, cmp)
    ensures Filter(Insert(sorted, x, cmp), p) == Filter(sorted + [x], p)
    decreases |sorted|
  {
    var n := |sorted|;
    if n > 0 && cmp(sorted[n - 1], x) > 0 {
      var init := sorted[..n - 1];
      var last := sorted[n - 1];
      var inserted := Insert(init, x, cmp);
      assert Insert(sorted, x, cmp) == inserted + [last];
      assert sorted == init + [last];
      InsertStable(init, x, cmp, p);
      FilterAppend(inserted, [last], p);
      FilterAppend(init, [x], p);
      FilterAppend(init, [last], p);
      FilterAppend(sorted, [x], p);
      FilterSingle(x, p);
      FilterSingle(last, p);
      var fInit, fx, fLast := Filter(init, p), Filter([x], p), Filter([last], p);
      // Filter(Insert(sorted, x)) == fInit + fx + fLast, and Filter(sorted + [x]) == fInit + fLast + fx
      assert !(p(x) && p(last));
      if p(x) {
        assert fLast == [];
        assert fInit + fx + fLast == fInit + fx;
        assert fInit + fLast + fx == fInit + fx;
      } else {
        assert fx == [];
        assert fInit + fx + fLast == fInit + fLast;
        assert fInit + fLast + fx == fInit + fLast;
      }
    }
  }

  /** Elements the comparator calls equal keep their input order: the sort is stable. */
  lemma {:induction false} SortStable<T(!new)>(items: seq<T>, cmp: Comparator<T>, p: T -> bool)
    requires EqualClass(p, cmp)
    ensures Filter(Sort(items, cmp), p) == Filter(items, p)
    decreases |items|
  {
    var n := |items|;
    if n > 0 {
      var init := items[..n - 1];
      SortStable(init, cmp, p);
      var last := items[n - 1];
      var s := Sort(init, cmp);
      assert Sort(items, cmp) == Insert(s, last, cmp);
      InsertStable(s, last, cmp, p);
      FilterAppend(s, [last], p);
      FilterAppend(init, [last], p);
      assert items == init + [last];
    }
  }

  /** Sorting an already sorted sequence changes nothing. */
  lemma {:induction false} SortOfSorted<T>(items: seq<T>, cmp: Comparator<T>)
    requires AdjacentSorted(items, cmp)
    ensures Sort(items, cmp) == items
    decreases |items|
  {
    var n := |items|;
    if n > 0 {
      var init := items[..n - 1];
      assert AdjacentSorted(init, cmp) by {
        forall i | 0 < i < |init| ensures cmp(init[i - 1], init[i]) <= 0 {
          assert init[i - 1] == items[i - 1] && init[i] == items[i];
        }
      }
      SortOfSorted(init, cmp);
      assert items == init + [items[n - 1]];
    }
  }

  /** Sorting twice is sorting once. */
  lemma SortIdempotent<T(!new)>(items: seq<T>, cmp: Comparator<T>)
    requires Antisymmetric(cmp)
    ensures Sort(Sort(items, cmp), cmp) == Sort(items, cmp)
  {
    SortAdjacentSorted(items, cmp);
    SortOfSorted(Sort(items, cmp), cmp);
  }

  // ---------------------------------------------------------------------------
  // Reversal, and the uniqueness of an arrangement ordered without ties

  /** `s` read back to front. */
  function Reverse<T>(s: seq<T>): (r: seq<T>)
    ensures |r| == |s|
    ensures forall i :: 0 <= i < |s| ==> r[i] == s[|s| - 1 - i]
    decreases |s|
  {
    if |s| == 0 then [] else [s[|s| - 1]] + Reverse(s[..|s| - 1])
  }

  /** Reversing keeps every element, as often. */
  lemma {:induction false} ReverseMultiset<T>(s: seq<T>)
    ensures multiset(Reverse(s)) == multiset(s)
    decreases |s|
  {
    if |s| > 0 {
      ReverseMultiset(s[..|s| - 1]);
      assert s == s[..|s| - 1] + [s[|s| - 1]];
    }
  }

  /** Elements of `s` with equal measures are equal: the measure has no ties on `s`. */
  ghost predicate InjectiveOn<T>(s: seq<T>, f: T -> int)
  {
    forall x, y :: x in s && y in s && f(x) == f(y) ==> x == y
  }

  /** The measure never rises along `s`. */
  ghost predicate DecreasingBy<T>(s: seq<T>, f: T -> int)
  {
    forall i, j :: 0 <= i < j < |s| ==> f(s[i]) >= f(s[j])
  }

  /** Dropping the first element removes one occurrence of it. */
  lemma FirstMultiset<T>(t: seq<T>)
    requires |t| > 0
    ensures multiset(t[1..]) == multiset(t) - multiset{t[0]}
  {
    assert t == [t[0]] + t[1..];
  }

  /** The tail of an ordered sequence is ordered. */
  lemma DecreasingTail<T>(s: seq<T>, f: T -> int)
    requires |s| > 0 && DecreasingBy(s, f)
    ensures DecreasingBy(s[1..], f)
  {
    var tail := s[1..];
    forall i, j | 0 <= i < j < |tail| ensures f(tail[i]) >= f(tail[j]) {
      assert tail[i] == s[i + 1] && tail[j] == s[j + 1];
    }
  }

  /** The tail of a sequence without ties has no ties. */
  lemma InjectiveTail<T>(s: seq<T>, f: T -> int)
    requires |s| > 0 && InjectiveOn(s, f)
    ensures InjectiveOn(s[1..], f)
  {
    assert forall x :: x in s[1..] ==> x in s;
  }

  /** Sequences with equal heads and equal tails are equal. */
  lemma ConsEqual<T>(s: seq<T>, t: seq<T>)
    requires |s| > 0 && |t| > 0 && s[0] == t[0] && s[1..] == t[1..]
    ensures s == t
  {
    assert s == [s[0]] + s[1..] && t == [t[0]] + t[1..];
  }

  /** Two arrangements of the same elements, both ordered by a measure without ties, are the same sequence. */
  lemma {:induction false} DecreasingUnique<T>(s: seq<T>, t: seq<T>, f: T -> int)
    requires multiset(s) == multiset(t)
    requires DecreasingBy(s, f) && DecreasingBy(t, f)
    requires InjectiveOn(s, f)
    ensures s == t
    decreases |s|
  {
    assert |s| == |multiset(s)| == |multiset(t)| == |t|;
    if |s| > 0 {
      assert s[0] in multiset(t) && t[0] in multiset(s);
      var k :| 0 <= k < |t| && t[k] == s[0];
      var m :| 0 <= m < |s| && s[m] == t[0];
      assert f(t[0]) >= f(t[k]) && f(s[0]) >= f(s[m]);
      assert s[0] == t[0];
      FirstMultiset(s);
      FirstMultiset(t);
      DecreasingTail(s, f);
      DecreasingTail(t, f);
      InjectiveTail(s, f);
      DecreasingUnique(s[1..], t[1..], f);
      ConsEqual(s, t);
    }
  }

  // ---------------------------------------------------------------------------
  // In place

  /** An insertion sort of the array in place; the result is the stable sort of the old contents. */
  method SortInPlace<T>(a: array<T>, cmp: Comparator<T>)
    modifies a
    ensures a[..] == Sort(old(a[..]), cmp)
  {
    ghost var input := a[..];
    for i := 0 to a.Length
      invariant a[..i] == Sort(input[..i], cmp)
      invariant a[i..] == input[i..]
    {
      assert a[i] == input[i];
      InsertAt(a, i, cmp);
      assert input[..i + 1] == input[..i] + [input[i]];
      assert input[i + 1..] == input[i..][1..];
    }
    assert a[..] == a[..a.Length] && input == input[..a.Length];
  }

  /** Moves `a[i]` leftwards into the sorted prefix `a[..i]`; nothing behind index `i` changes. */
  method InsertAt<T>(a: array<T>, i: int, cmp: Comparator<T>)
    requires 0 <= i < a.Length
    modifies a
    ensures a[..i + 1] == Insert(old(a[..i]), old(a[i]), cmp)
    ensures a[i + 1..] == old(a[i + 1..])
  {
    ghost var done := a[..i];
    var x := a[i];
    var j := i;
    while j > 0 && cmp(a[j - 1], x) > 0
      invariant 0 <= j <= i
      invariant forall k :: 0 <= k < j ==> a[k] == done[k]
      invariant forall k :: j < k <= i ==> a[k] == done[k - 1]
      invariant forall k :: i < k < a.Length ==> a[k] == old(a[k])
      invariant forall k :: j <= k < i ==> cmp(done[k], x) > 0
    {
      a[j] := a[j - 1];
      j := j - 1;
    }
    a[j] := x;
    assert a[..i + 1] == done[..j] + [x] + done[j..] by {
      Placed(a[..i + 1], done, j, x);
    }
    InsertAtPoint(done, x, j, cmp);
    ghost var after, before := a[i + 1..], old(a[i + 1..]);
    assert after == before by {
      forall k | 0 <= k < |after| ensures after[k] == before[k] {
        assert a[i + 1 + k] == old(a[i + 1 + k]);
      }
    }
  }

  /**
   * Insertion puts `x` at the point `j` where everything behind it compares after `x`
   * and the element in front of it, if any, does not.
   */
  lemma {:induction false} InsertAtPoint<T>(done: seq<T>, x: T, j: int, cmp: Comparator<T>)
    requires 0 <= j <= |done|
    requires j == 0 || cmp(done[j - 1], x) <= 0
    requires forall k :: j <= k < |done| ==> cmp(done[k], x) > 0
    ensures Insert(done, x, cmp) == done[..j] + [x] + done[j..]
    decreases |done|
  {
    var n := |done|;
    if j < n {
      var init, last := done[..n - 1], done[n - 1];
      InsertAtPoint(init, x, j, cmp);
      assert Insert(done, x, cmp) == Insert(init, x, cmp) + [last];
      assert init[..j] + [x] + init[j..] + [last] == done[..j] + [x] + done[j..] by {
        assert init[..j] == done[..j];
        assert init[j..] + [last] == done[j..];
      }
    }
  }

  /** A sequence that holds `done[..j]`, then `x`, then the rest of `done` shifted by one, is that concatenation. */
  lemma Placed<T>(s: seq<T>, done: seq<T>, j: int, x: T)
    requires |s| == |done| + 1 && 0 <= j <= |done|
    requires forall k :: 0 <= k < j ==> s[k] == done[k]
    requires s[j] == x
    requires forall k :: j < k < |s| ==> s[k] == done[k - 1]
    ensures s == done[..j] + [x] + done[j..]
  {
    var placed := done[..j] + [x] + done[j..];
    forall k | 0 <= k < |s| ensures s[k] == placed[k] {
      if k > j {
        assert placed[k] == done[j..][k - j - 1];
      }
    }
  }
}
