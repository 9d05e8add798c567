/** The merge sort of cstl/list.h as functions on sequences.

    `MergeBy` takes the head of the first half only when the comparator holds
    of the two heads; on a tie it takes the head of the second half. The
    in-place methods of `CstlSort` are proved to write exactly
    `MergeSortBy(old contents, comparator)` into the list's unchanged chain,
    and the lemmas below say what that sequence is: a permutation of the
    input, sorted whenever the comparator is asymmetric, and for `int` with
    `<` the unique ascending arrangement of the input. */
module MergeSortSpec {

  /** The merge loop of `cstl_list_customsort` (and of `cstl_list_sort` with `<`). */
  function MergeBy<T>(a: seq<T>, b: seq<T>, lt: (T, T) -> bool): (r: seq<T>)
    ensures |r| == |a| + |b|
    decreases |a| + |b|
  {
    if a == [] then b
    else if b == [] then a
    else if lt(a[0], b[0]) then [a[0]] + MergeBy(a[1..], b, lt)
    else [b[0]] + MergeBy(a, b[1..], lt)
  }

  /** One step of the merge loop that takes `a[k1]`: when the second input
      is used up or `lt(a[k1], b[k2])`, the next merged element is `a[k1]`. */
  lemma MergeTakesFirst<T>(a: seq<T>, b: seq<T>, lt: (T, T) -> bool, k1: nat, k2: nat, out: seq<T>, i: nat)
    requires k1 < |a| && k2 <= |b| && i <= |out|
    requires k2 == |b| || lt(a[k1], b[k2])
    requires MergeBy(a[k1..], b[k2..], lt) == out[i..]
    ensures i < |out| && out[i] == a[k1] && MergeBy(a[k1 + 1..], b[k2..], lt) == out[i + 1..]
  {
    assert a[k1..] == [a[k1]] + a[k1 + 1..];
    assert out[i..] == [out[i]] + out[i + 1..];
  }

  /** One step of the merge loop that takes `b[k2]`: when the first input is
      used up or `!lt(a[k1], b[k2])` (ties included), the next merged element
      is `b[k2]`. */
  lemma MergeTakesSecond<T>(a: seq<T>, b: seq<T>, lt: (T, T) -> bool, k1: nat, k2: nat, out: seq<T>, i: nat)
    requires k1 <= |a| && k2 < |b| && i <= |out|
    requires k1 == |a| || !lt(a[k1], b[k2])
    requires MergeBy(a[k1..], b[k2..], lt) == out[i..]
    ensures i < |out| && out[i] == b[k2] && MergeBy(a[k1..], b[k2 + 1..], lt) == out[i + 1..]
  {
    assert b[k2..] == [b[k2]] + b[k2 + 1..];
    assert out[i..] == [out[i]] + out[i + 1..];
  }

  /** The whole sort: lists of fewer than two elements are left alone;
      otherwise the first half (`|s| / 2` elements) and the rest are sorted
      separately and merged. */
  function MergeSortBy<T>(s: seq<T>, lt: (T, T) -> bool): (r: seq<T>)
    ensures |r| == |s|
    decreases |s|
  {
    if |s| < 2 then s
    else MergeBy(MergeSortBy(s[..|s| / 2], lt), MergeSortBy(s[|s| / 2..], lt), lt)
  }

  /** No adjacent pair `x, y` has `lt(y, x)`. */
  ghost predicate SortedBy<T>(s: seq<T>, lt: (T, T) -> bool) {
    forall i :: 0 < i < |s| ==> !lt(s[i], s[i - 1])
  }

  ghost predicate Asymmetric<T(!new)>(lt: (T, T) -> bool) {
    forall x, y :: lt(x, y) ==> !lt(y, x)
  }

  /** Irreflexive, transitive, and incomparability is transitive. */
  ghost predicate StrictWeakOrder<T(!new)>(lt: (T, T) -> bool) {
    && (forall x :: !lt(x, x))
    && (forall x, y, z :: lt(x, y) && lt(y, z) ==> lt(x, z))
    && (forall x, y, z :: !lt(x, y) && !lt(y, x) && !lt(y, z) && !lt(z, y) ==> !lt(x, z) && !lt(z, x))
  }

  /** The comparison `cstl_list_sort` uses, on `int` payloads. */
  function Less(a: int, b: int): bool {
    a < b
  }

  /** The merge loses and duplicates nothing. */
  lemma {:induction false} MergePermutes<T>(a: seq<T>, b: seq<T>, lt: (T, T) -> bool)
    ensures multiset(MergeBy(a, b, lt)) == multiset(a) + multiset(b)
    decreases |a| + |b|
  {
    if a != [] && b != [] {
      if lt(a[0], b[0]) {
        calc {
          multiset(MergeBy(a, b, lt));
          multiset([a[0]] + MergeBy(a[1..], b, lt));
          multiset{a[0]} + multiset(MergeBy(a[1..], b, lt));
          { MergePermutes(a[1..], b, lt); }
          multiset{a[0]} + multiset(a[1..]) + multiset(b);
          { assert a == [a[0]] + a[1..]; }
          multiset(a) + multiset(b);
        }
      } else {
        calc {
          multiset(MergeBy(a, b, lt));
          multiset([b[0]] + MergeBy(a, b[1..], lt));
          multiset{b[0]} + multiset(MergeBy(a, b[1..], lt));
          { MergePermutes(a, b[1..], lt); }
          multiset{b[0]} + multiset(a) + multiset(b[1..]);
          { assert b == [b[0]] + b[1..]; }
          multiset(a) + multiset(b);
        }
      }
    }
  }

  /** The sort loses and duplicates nothing, whatever the comparator. */
  lemma {:induction false} MergeSortPermutes<T>(s: seq<T>, lt: (T, T) -> bool)
    ensures multiset(MergeSortBy(s, lt)) == multiset(s)
    decreases |s|
  {
    if |s| >= 2 {
      var h := |s| / 2;
      var left, right := MergeSortBy(s[..h], lt), MergeSortBy(s[h..], lt);
      calc {
        multiset(MergeSortBy(s, lt));
        multiset(MergeBy(left, right, lt));
        { MergePermutes(left, right, lt); }
        multiset(left) + multiset(right);
        { MergeSortPermutes(s[..h], lt); MergeSortPermutes(s[h..], lt); }
        multiset(s[..h]) + multiset(s[h..]);
        { assert s == s[..h] + s[h..]; }
        multiset(s);
      }
    }
  }

  /** The merge starts with the head of one of its inputs. */
  lemma MergeHead<T>(a: seq<T>, b: seq<T>, lt: (T, T) -> bool)
    requires a != [] || b != []
    ensures MergeBy(a, b, lt)[0] == (if a == [] then b[0]
                                     else if b == [] then a[0]
                                     else if lt(a[0], b[0]) then a[0] else b[0])
  {
  }

  /** Merging two sorted sequences gives a sorted one, as long as the
      comparator is asymmetric. */
  lemma {:induction false} MergeSorted<T(!new)>(a: seq<T>, b: seq<T>, lt: (T, T) -> bool)
    requires Asymmetric(lt) && SortedBy(a, lt) && SortedBy(b, lt)
    ensures SortedBy(MergeBy(a, b, lt), lt)
    decreases |a| + |b|
  {
    if a != [] && b != [] {
      var r := MergeBy(a, b, lt);
      if lt(a[0], b[0]) {
        var rest := MergeBy(a[1..], b, lt);
        MergeSorted(a[1..], b, lt);
        assert r == [a[0]] + rest;
        MergeHead(a[1..], b, lt);
        forall i | 0 < i < |r| ensures !lt(r[i], r[i - 1]) {
          if i == 1 {
            assert r[1] == rest[0];
          } else {
            assert r[i] == rest[i - 1] && r[i - 1] == rest[i - 2];
          }
        }
      } else {
        var rest := MergeBy(a, b[1..], lt);
        MergeSorted(a, b[1..], lt);
        assert r == [b[0]] + rest;
        MergeHead(a, b[1..], lt);
        forall i | 0 < i < |r| ensures !lt(r[i], r[i - 1]) {
          if i == 1 {
            assert r[1] == rest[0];
          } else {
            assert r[i] == rest[i - 1] && r[i - 1] == rest[i - 2];
          }
        }
      }
    }
  }

  /** With an asymmetric comparator the result of the sort is sorted. */
  lemma {:induction false} MergeSortSorted<T(!new)>(s: seq<T>, lt: (T, T) -> bool)
    requires Asymmetric(lt)
    ensures SortedBy(MergeSortBy(s, lt), lt)
    decreases |s|
  {
    if |s| >= 2 {
      var h := |s| / 2;
      MergeSortSorted(s[..h], lt);
      MergeSortSorted(s[h..], lt);
      MergeSorted(MergeSortBy(s[..h], lt), MergeSortBy(s[h..], lt), lt);
    }
  }

  lemma StrictWeakOrderIsAsymmetric<T(!new)>(lt: (T, T) -> bool)
    requires StrictWeakOrder(lt)
    ensures Asymmetric(lt)
  {
  }

  /** A strict weak order is negatively transitive: `!lt(x, y)` and
      `!lt(y, z)` give `!lt(x, z)`. */
  lemma NegativelyTransitive<T(!new)>(lt: (T, T) -> bool, x: T, y: T, z: T)
    requires StrictWeakOrder(lt) && !lt(x, y) && !lt(y, z)
    ensures !lt(x, z)
  {
  }

  /** Under a strict weak order, "no adjacent pair out of order" means no
      pair at all is out of order. */
  lemma {:induction false} SortedAllPairs<T(!new)>(s: seq<T>, lt: (T, T) -> bool, i: nat, j: nat)
    requires StrictWeakOrder(lt) && SortedBy(s, lt) && i < j < |s|
    ensures !lt(s[j], s[i])
    decreases j - i
  {
    if j > i + 1 {
      SortedAllPairs(s, lt, i, j - 1);
      NegativelyTransitive(lt, s[j], s[j - 1], s[i]);
    }
  }

  /** `cstl_list_customsort` with a strict weak order leaves every pair in order. */
  lemma MergeSortOrdered<T(!new)>(s: seq<T>, lt: (T, T) -> bool)
    requires StrictWeakOrder(lt)
    ensures forall i, j :: 0 <= i < j < |MergeSortBy(s, lt)| ==>
              !lt(MergeSortBy(s, lt)[j], MergeSortBy(s, lt)[i])
  {
    StrictWeakOrderIsAsymmetric(lt);
    MergeSortSorted(s, lt);
    forall i, j | 0 <= i < j < |MergeSortBy(s, lt)|
      ensures !lt(MergeSortBy(s, lt)[j], MergeSortBy(s, lt)[i])
    {
      SortedAllPairs(MergeSortBy(s, lt), lt, i, j);
    }
  }

  /** Ties go to the second half, so the sort is not stable: two elements
      neither of which is below the other come out swapped. */
  lemma MergeSortSwapsTies<T>(x: T, y: T, lt: (T, T) -> bool)
    requires !lt(x, y)
    ensures MergeSortBy([x, y], lt) == [y, x]
  {
    var s := [x, y];
    assert s[..1] == [x] && s[1..] == [y];
    assert MergeBy([x], [y], lt) == [y] + MergeBy([x], [], lt);
  }

  /** So the sort is not idempotent: sorting twice puts two such elements
      back where they were. */
  lemma SortTwiceRestoresTies<T>(x: T, y: T, lt: (T, T) -> bool)
    requires !lt(x, y) && !lt(y, x)
    ensures MergeSortBy([x, y], lt) == [y, x]
    ensures MergeSortBy(MergeSortBy([x, y], lt), lt) == [x, y]
  {
    MergeSortSwapsTies(x, y, lt);
    MergeSortSwapsTies(y, x, lt);
  }

  lemma LessIsStrictWeakOrder()
    ensures StrictWeakOrder(Less)
  {
  }

  /** The head of an ascending `int` sequence is its least element. */
  lemma {:induction false} AscendingHeadIsLeast(s: seq<int>, i: nat)
    requires SortedBy(s, Less) && i < |s|
    ensures s[0] <= s[i]
  {
    if i > 0 {
      AscendingHeadIsLeast(s, i - 1);
      assert !Less(s[i], s[i - 1]);
    }
  }

  /** Two ascending `int` sequences with the same elements start alike. */
  lemma AscendingSameHead(s: seq<int>, t: seq<int>)
    requires SortedBy(s, Less) && SortedBy(t, Less) && s != []
    requires multiset(s) == multiset(t)
    ensures t != [] && s[0] == t[0]
  {
    assert s[0] in multiset(s);
    assert s[0] in multiset(t);
    var j :| 0 <= j < |t| && t[j] == s[0];
    assert t[0] in multiset(s);
    var i :| 0 <= i < |s| && s[i] == t[0];
    AscendingHeadIsLeast(t, j);
    AscendingHeadIsLeast(s, i);
  }

  /** Dropping the head of a non-empty sequence removes one copy of it. */
  lemma TailMultiset<T>(s: seq<T>)
    requires s != []
    ensures multiset(s[1..]) == multiset(s) - multiset{s[0]}
  {
    assert s == [s[0]] + s[1..];
    assert multiset(s) == multiset{s[0]} + multiset(s[1..]);
  }

  /** Two ascending `int` sequences with the same elements are equal. */
  lemma {:induction false} AscendingUnique(s: seq<int>, t: seq<int>)
    requires SortedBy(s, Less) && SortedBy(t, Less)
    requires multiset(s) == multiset(t)
    ensures s == t
    decreases |s|
  {
    if s == [] {
      assert |t| == |multiset(t)| == 0;
    } else {
      AscendingSameHead(s, t);
      TailMultiset(s);
      TailMultiset(t);
      AscendingUnique(s[1..], t[1..]);
      assert s == [s[0]] + s[1..] && t == [t[0]] + t[1..];
    }
  }

  /** `cstl_list_sort` on `int`s gives the ascending arrangement of its
      input: any ascending permutation of `s` is the result. */
  lemma SortIsAscendingPermutation(s: seq<int>, t: seq<int>)
    requires SortedBy(t, Less) && multiset(t) == multiset(s)
    ensures MergeSortBy(s, Less) == t
  {
    LessIsStrictWeakOrder();
    StrictWeakOrderIsAsymmetric(Less);
    MergeSortSorted(s, Less);
    MergeSortPermutes(s, Less);
    AscendingUnique(MergeSortBy(s, Less), t);
  }

  /** Sorting `int`s twice changes nothing the second time. */
  lemma SortIdempotent(s: seq<int>)
    ensures MergeSortBy(MergeSortBy(s, Less), Less) == MergeSortBy(s, Less)
  {
    var once := MergeSortBy(s, Less);
    LessIsStrictWeakOrder();
    StrictWeakOrderIsAsymmetric(Less);
    MergeSortSorted(s, Less);
    MergeSortPermutes(once, Less);
    SortIsAscendingPermutation(once, once);
  }
}
