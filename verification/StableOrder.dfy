/** Stable sorting as a specification: what the result of a stable sort is, why it is unique,
    and which rearrangements keep equal keys in their original order. */
module StableOrder {

  /** `cmp` is a total preorder in the style of C comparison callbacks: only the sign matters. */
  ghost predicate TotalPreorder<T(!new)>(cmp: (T, T) -> int) {
    forall a, b, c :: Lawful(cmp, a, b, c)
  }

  ghost predicate Lawful<T>(cmp: (T, T) -> int, a: T, b: T, c: T) {
    && (cmp(a, b) > 0 <==> cmp(b, a) < 0)
    && (cmp(a, b) <= 0 && cmp(b, c) <= 0 ==> cmp(a, c) <= 0)
  }

  lemma Flip<T(!new)>(cmp: (T, T) -> int, a: T, b: T)
    requires TotalPreorder(cmp)
    ensures (cmp(a, b) > 0 <==> cmp(b, a) < 0) && (cmp(a, b) == 0 <==> cmp(b, a) == 0)
    ensures cmp(a, a) == 0
  {
    assert Lawful(cmp, a, b, a) && Lawful(cmp, b, a, b) && Lawful(cmp, a, a, a);
  }

  lemma Trans<T(!new)>(cmp: (T, T) -> int, a: T, b: T, c: T)
    requires TotalPreorder(cmp) && cmp(a, b) <= 0 && cmp(b, c) <= 0
    ensures cmp(a, c) <= 0
    ensures cmp(a, b) < 0 || cmp(b, c) < 0 ==> cmp(a, c) < 0
  {
    assert Lawful(cmp, a, b, c) && Lawful(cmp, b, c, a) && Lawful(cmp, c, a, b);
    assert Lawful(cmp, a, c, b) && Lawful(cmp, c, b, a) && Lawful(cmp, b, a, c);
  }

  ghost predicate Sorted<T>(cmp: (T, T) -> int, s: seq<T>) {
    forall i, j :: 0 <= i < j < |s| ==> cmp(s[i], s[j]) <= 0
  }

  /** The elements of `s` equivalent to `x`, in order. */
  ghost function Class<T>(cmp: (T, T) -> int, x: T, s: seq<T>): seq<T> {
    if s == [] then []
    else (if cmp(x, s[0]) == 0 then [s[0]] else []) + Class(cmp, x, s[1..])
  }

  /** `r` rearranges `s` without reordering equivalent elements. */
  ghost predicate Stable<T(!new)>(cmp: (T, T) -> int, r: seq<T>, s: seq<T>) {
    forall x :: Class(cmp, x, r) == Class(cmp, x, s)
  }

  ghost predicate StableSortOf<T(!new)>(cmp: (T, T) -> int, r: seq<T>, s: seq<T>) {
    Sorted(cmp, r) && Stable(cmp, r, s)
  }

  function Reverse<T>(s: seq<T>): (r: seq<T>)
    ensures |r| == |s|
    ensures forall k :: 0 <= k < |s| ==> r[k] == s[|s| - 1 - k]
  {
    if s == [] then [] else Reverse(s[1..]) + [s[0]]
  }

  /** The textbook stable merge: ties take from the left list. */
  ghost function Merge<T>(cmp: (T, T) -> int, a: seq<T>, b: seq<T>): seq<T> {
    if a == [] then b
    else if b == [] then a
    else if cmp(a[0], b[0]) <= 0 then [a[0]] + Merge(cmp, a[1..], b)
    else [b[0]] + Merge(cmp, a, b[1..])
  }

  // ----- classes and concatenation

  lemma {:induction false} ClassConcat<T>(cmp: (T, T) -> int, x: T, a: seq<T>, b: seq<T>)
    ensures Class(cmp, x, a + b) == Class(cmp, x, a) + Class(cmp, x, b)
  {
    if a == [] {
      assert a + b == b && Class(cmp, x, a) == [];
    } else {
      var first := if cmp(x, a[0]) == 0 then [a[0]] else [];
      assert (a + b)[0] == a[0] && (a + b)[1..] == a[1..] + b;
      ClassConcat(cmp, x, a[1..], b);
      assert first + (Class(cmp, x, a[1..]) + Class(cmp, x, b)) == first + Class(cmp, x, a[1..]) + Class(cmp, x, b);
    }
  }

  lemma StableConcat<T(!new)>(cmp: (T, T) -> int, a: seq<T>, a': seq<T>, b: seq<T>, b': seq<T>)
    requires Stable(cmp, a, a') && Stable(cmp, b, b')
    ensures Stable(cmp, a + b, a' + b')
  {
    forall x ensures Class(cmp, x, a + b) == Class(cmp, x, a' + b') {
      ClassConcat(cmp, x, a, b);
      ClassConcat(cmp, x, a', b');
    }
  }

  /** Equivalence to `x` is inherited along `cmp(a, b) == 0`. */
  lemma Equivalent<T(!new)>(cmp: (T, T) -> int, x: T, a: T, b: T)
    requires TotalPreorder(cmp)
    requires cmp(x, a) == 0 && cmp(x, b) == 0
    ensures cmp(a, b) == 0
  {
    Flip(cmp, x, a);
    Flip(cmp, x, b);
    Trans(cmp, a, x, b);
    Trans(cmp, b, x, a);
    Flip(cmp, a, b);
  }

  // ----- permutation

  lemma {:induction false} ClassCounts<T(!new)>(cmp: (T, T) -> int, v: T, s: seq<T>)
    requires TotalPreorder(cmp)
    ensures multiset(Class(cmp, v, s))[v] == multiset(s)[v]
  {
    if s != [] {
      ClassCounts(cmp, v, s[1..]);
      assert s == [s[0]] + s[1..];
      Flip(cmp, v, s[0]);
    }
  }

  /** A stable rearrangement is a permutation. */
  lemma StablePermutes<T(!new)>(cmp: (T, T) -> int, r: seq<T>, s: seq<T>)
    requires TotalPreorder(cmp) && Stable(cmp, r, s)
    ensures multiset(r) == multiset(s) && |r| == |s|
  {
    forall v ensures multiset(r)[v] == multiset(s)[v] {
      ClassCounts(cmp, v, r);
      ClassCounts(cmp, v, s);
    }
    assert multiset(r) == multiset(s);
    assert |multiset(r)| == |r| && |multiset(s)| == |s|;
  }

  // ----- uniqueness

  lemma {:induction false} ClassMember<T(!new)>(cmp: (T, T) -> int, x: T, s: seq<T>)
    requires Class(cmp, x, s) != []
    ensures exists k :: 0 <= k < |s| && cmp(x, s[k]) == 0
  {
    if cmp(x, s[0]) != 0 {
      ClassMember(cmp, x, s[1..]);
      var k :| 0 <= k < |s[1..]| && cmp(x, s[1..][k]) == 0;
      assert cmp(x, s[k + 1]) == 0;
    } else {
      assert cmp(x, s[0]) == 0;
    }
  }

  /** In a sorted `s`, every element equivalent to `x` is at or above the head. */
  lemma HeadBelow<T(!new)>(cmp: (T, T) -> int, x: T, s: seq<T>)
    requires TotalPreorder(cmp) && Sorted(cmp, s) && Class(cmp, x, s) != []
    ensures s != [] && cmp(s[0], x) <= 0
  {
    ClassMember(cmp, x, s);
    var k :| 0 <= k < |s| && cmp(x, s[k]) == 0;
    Flip(cmp, x, s[k]);
    if k > 0 { Trans(cmp, s[0], s[k], x); }
  }

  lemma TailsStable<T(!new)>(cmp: (T, T) -> int, r: seq<T>, s: seq<T>)
    requires TotalPreorder(cmp) && Stable(cmp, r, s)
    requires r != [] && s != [] && r[0] == s[0]
    ensures Stable(cmp, r[1..], s[1..])
  {
    forall x ensures Class(cmp, x, r[1..]) == Class(cmp, x, s[1..]) {
      var head := if cmp(x, r[0]) == 0 then [r[0]] else [];
      assert head + Class(cmp, x, r[1..]) == head + Class(cmp, x, s[1..]) by {
        assert Class(cmp, x, r) == Class(cmp, x, s);
      }
      assert (head + Class(cmp, x, r[1..]))[|head|..] == Class(cmp, x, r[1..]);
      assert (head + Class(cmp, x, s[1..]))[|head|..] == Class(cmp, x, s[1..]);
    }
  }

  /** A sequence has at most one stable sort. */
  lemma {:induction false} StableSortUnique<T(!new)>(cmp: (T, T) -> int, r: seq<T>, s: seq<T>)
    requires TotalPreorder(cmp)
    requires Sorted(cmp, r) && Sorted(cmp, s) && Stable(cmp, r, s)
    ensures r == s
    decreases |r|
  {
    StablePermutes(cmp, r, s);
    if r != [] {
      Flip(cmp, r[0], s[0]);
      Flip(cmp, s[0], r[0]);
      assert Class(cmp, r[0], s) == Class(cmp, r[0], r) != [];
      HeadBelow(cmp, r[0], s);
      assert Class(cmp, s[0], r) == Class(cmp, s[0], s) != [];
      HeadBelow(cmp, s[0], r);
      assert cmp(r[0], s[0]) == 0;
      assert Class(cmp, r[0], r)[0] == r[0] && Class(cmp, r[0], s)[0] == s[0];
      TailsStable(cmp, r, s);
      StableSortUnique(cmp, r[1..], s[1..]);
      assert r == [r[0]] + r[1..] && s == [s[0]] + s[1..];
    }
  }

  // ----- the rearrangements the algorithm makes

  lemma {:induction false} ClassOfAbove<T(!new)>(cmp: (T, T) -> int, x: T, u: T, s: seq<T>)
    requires TotalPreorder(cmp)
    requires cmp(x, u) == 0
    requires forall k :: 0 <= k < |s| ==> cmp(s[k], u) != 0
    ensures Class(cmp, x, s) == []
  {
    if s != [] {
      Flip(cmp, x, u);
      if cmp(x, s[0]) == 0 { Equivalent(cmp, x, s[0], u); }
      ClassOfAbove(cmp, x, u, s[1..]);
    }
  }

  /** Moving `u` past elements that are not equivalent to it is stable. */
  lemma StableMove<T(!new)>(cmp: (T, T) -> int, s: seq<T>, u: T)
    requires TotalPreorder(cmp)
    requires forall k :: 0 <= k < |s| ==> cmp(s[k], u) != 0
    ensures Stable(cmp, [u] + s, s + [u])
  {
    forall x ensures Class(cmp, x, [u] + s) == Class(cmp, x, s + [u]) {
      ClassConcat(cmp, x, [u], s);
      ClassConcat(cmp, x, s, [u]);
      if cmp(x, u) == 0 { ClassOfAbove(cmp, x, u, s); }
    }
  }

  ghost predicate Descending<T>(cmp: (T, T) -> int, s: seq<T>) {
    forall i :: 0 <= i < |s| - 1 ==> cmp(s[i], s[i + 1]) > 0
  }

  lemma {:induction false} DescendingBelowHead<T(!new)>(cmp: (T, T) -> int, s: seq<T>, k: nat)
    requires TotalPreorder(cmp) && Descending(cmp, s)
    requires 0 < k < |s|
    ensures cmp(s[k], s[0]) < 0
  {
    assert cmp(s[k - 1], s[k - 1 + 1]) > 0;
    Flip(cmp, s[k - 1], s[k]);
    if k > 1 {
      DescendingBelowHead(cmp, s, k - 1);
      Trans(cmp, s[k], s[k - 1], s[0]);
    }
  }

  /** Reversing a strictly descending run sorts it and is stable. */
  lemma {:induction false} ReverseDescending<T(!new)>(cmp: (T, T) -> int, s: seq<T>)
    requires TotalPreorder(cmp) && Descending(cmp, s)
    ensures StableSortOf(cmp, Reverse(s), s)
  {
    if s != [] {
      var t := s[1..];
      assert Descending(cmp, t) by {
        forall i | 0 <= i < |t| - 1 ensures cmp(t[i], t[i + 1]) > 0 {
          assert cmp(s[i + 1], s[i + 1 + 1]) > 0;
        }
      }
      ReverseDescending(cmp, t);
      forall k | 0 <= k < |t| ensures cmp(t[k], s[0]) < 0 {
        DescendingBelowHead(cmp, s, k + 1);
      }
      StableMove(cmp, t, s[0]);
      StableConcat(cmp, Reverse(t), t, [s[0]], [s[0]]);
      assert s == [s[0]] + t;
      assert Sorted(cmp, Reverse(t) + [s[0]]);
    }
  }

  /** A run whose neighbours never descend is sorted. */
  lemma {:induction false} NeighboursSorted<T(!new)>(cmp: (T, T) -> int, s: seq<T>)
    requires TotalPreorder(cmp)
    requires forall i :: 0 <= i < |s| - 1 ==> cmp(s[i], s[i + 1]) <= 0
    ensures Sorted(cmp, s)
  {
    if |s| > 1 {
      var t := s[..|s| - 1];
      forall i | 0 <= i < |t| - 1 ensures cmp(t[i], t[i + 1]) <= 0 {
        assert cmp(s[i], s[i + 1]) <= 0;
      }
      NeighboursSorted(cmp, t);
      var z := |s| - 2;
      assert cmp(s[z], s[z + 1]) <= 0;
      forall i | 0 <= i <= z ensures cmp(s[i], s[z + 1]) <= 0 {
        if i < z { Trans(cmp, t[i], t[z], s[z + 1]); }
      }
      forall i, j | 0 <= i < j < |s| ensures cmp(s[i], s[j]) <= 0 {
        if j <= z { assert cmp(t[i], t[j]) <= 0; }
      }
    }
  }

  /** Two sorted parts join when the seam is in order. */
  lemma SortedJoin<T(!new)>(cmp: (T, T) -> int, a: seq<T>, b: seq<T>)
    requires TotalPreorder(cmp) && Sorted(cmp, a) && Sorted(cmp, b)
    requires a != [] && b != [] ==> cmp(a[|a| - 1], b[0]) <= 0
    ensures Sorted(cmp, a + b)
  {
    var s := a + b;
    forall i | 0 <= i < |s| - 1 ensures cmp(s[i], s[i + 1]) <= 0 {}
    NeighboursSorted(cmp, s);
  }

  // ----- the textbook merge

  lemma {:induction false} MergeMembers<T>(cmp: (T, T) -> int, a: seq<T>, b: seq<T>)
    ensures |Merge(cmp, a, b)| == |a| + |b|
    ensures forall y :: y in Merge(cmp, a, b) ==> y in a || y in b
    decreases |a| + |b|
  {
    if a != [] && b != [] {
      if cmp(a[0], b[0]) <= 0 { MergeMembers(cmp, a[1..], b); } else { MergeMembers(cmp, a, b[1..]); }
    }
  }

  lemma SortedCons<T(!new)>(cmp: (T, T) -> int, x: T, s: seq<T>)
    requires Sorted(cmp, s)
    requires forall y :: y in s ==> cmp(x, y) <= 0
    ensures Sorted(cmp, [x] + s)
  {
  }

  lemma BelowMember<T(!new)>(cmp: (T, T) -> int, x: T, s: seq<T>, y: T)
    requires TotalPreorder(cmp) && Sorted(cmp, s) && y in s && cmp(x, s[0]) <= 0
    ensures cmp(x, y) <= 0
    ensures cmp(x, s[0]) < 0 ==> cmp(x, y) < 0
  {
    var k :| 0 <= k < |s| && s[k] == y;
    if k > 0 { Trans(cmp, x, s[0], s[k]); }
  }

  lemma {:induction false} MergeSorted<T(!new)>(cmp: (T, T) -> int, a: seq<T>, b: seq<T>)
    requires TotalPreorder(cmp) && Sorted(cmp, a) && Sorted(cmp, b)
    ensures Sorted(cmp, Merge(cmp, a, b))
    decreases |a| + |b|
  {
    if a != [] && b != [] {
      if cmp(a[0], b[0]) <= 0 {
        MergeSorted(cmp, a[1..], b);
        MergeMembers(cmp, a[1..], b);
        forall y | y in Merge(cmp, a[1..], b) ensures cmp(a[0], y) <= 0 {
          if y in b { BelowMember(cmp, a[0], b, y); }
        }
        SortedCons(cmp, a[0], Merge(cmp, a[1..], b));
      } else {
        MergeSorted(cmp, a, b[1..]);
        MergeMembers(cmp, a, b[1..]);
        Flip(cmp, a[0], b[0]);
        forall y | y in Merge(cmp, a, b[1..]) ensures cmp(b[0], y) <= 0 {
          if y in a { BelowMember(cmp, b[0], a, y); }
        }
        SortedCons(cmp, b[0], Merge(cmp, a, b[1..]));
      }
    }
  }

  lemma {:induction false} MergeStable<T(!new)>(cmp: (T, T) -> int, a: seq<T>, b: seq<T>)
    requires TotalPreorder(cmp) && Sorted(cmp, a)
    ensures Stable(cmp, Merge(cmp, a, b), a + b)
    decreases |a| + |b|
  {
    if a == [] {
      assert a + b == b;
    } else if b == [] {
      assert a + b == a;
    } else if cmp(a[0], b[0]) <= 0 {
      MergeStable(cmp, a[1..], b);
      StableConcat(cmp, [a[0]], [a[0]], Merge(cmp, a[1..], b), a[1..] + b);
      assert [a[0]] + (a[1..] + b) == a + b;
    } else {
      MergeStable(cmp, a, b[1..]);
      StableConcat(cmp, [b[0]], [b[0]], Merge(cmp, a, b[1..]), a + b[1..]);
      Flip(cmp, a[0], b[0]);
      forall k | 0 <= k < |a| ensures cmp(a[k], b[0]) != 0 {
        BelowMember(cmp, b[0], a, a[k]);
        Flip(cmp, b[0], a[k]);
      }
      StableMove(cmp, a, b[0]);
      StableConcat(cmp, [b[0]] + a, a + [b[0]], b[1..], b[1..]);
      assert [b[0]] + (a + b[1..]) == [b[0]] + a + b[1..];
      assert a + [b[0]] + b[1..] == a + b;
    }
  }

  /** Merging two sorted lists gives the stable sort of their concatenation. */
  lemma MergeIsStableSort<T(!new)>(cmp: (T, T) -> int, a: seq<T>, b: seq<T>)
    requires TotalPreorder(cmp) && Sorted(cmp, a) && Sorted(cmp, b)
    ensures StableSortOf(cmp, Merge(cmp, a, b), a + b)
  {
    MergeSorted(cmp, a, b);
    MergeStable(cmp, a, b);
  }

  // ----- taking a block from one list, then one element from the other

  lemma MergeLeft<T>(cmp: (T, T) -> int, a: seq<T>, b: seq<T>)
    requires a != [] && b != []
    ensures cmp(a[0], b[0]) <= 0 ==> Merge(cmp, a, b) == [a[0]] + Merge(cmp, a[1..], b)
    ensures cmp(a[0], b[0]) > 0 ==> Merge(cmp, a, b) == [b[0]] + Merge(cmp, a, b[1..])
  {
  }

  lemma MergeNothing<T>(cmp: (T, T) -> int, s: seq<T>)
    ensures Merge(cmp, [], s) == s == Merge(cmp, s, [])
  {
  }

  lemma {:induction false} MergeTakeLeft<T>(cmp: (T, T) -> int, a: seq<T>, b: seq<T>, k: nat)
    requires k <= |a| && b != []
    requires forall m :: 0 <= m < k ==> cmp(a[m], b[0]) <= 0
    requires k < |a| ==> cmp(a[k], b[0]) > 0
    ensures Merge(cmp, a, b) == a[..k] + [b[0]] + Merge(cmp, a[k..], b[1..])
  {
    hide Merge;
    if k == 0 {
      assert a[..k] + [b[0]] == [b[0]] && a[k..] == a;
      MergeNothing(cmp, b);
      MergeNothing(cmp, b[1..]);
      if a == [] { assert b == [b[0]] + b[1..]; } else { MergeLeft(cmp, a, b); }
    } else {
      MergeLeft(cmp, a, b);
      MergeTakeLeft(cmp, a[1..], b, k - 1);
      assert a[1..][k - 1..] == a[k..];
      var rest := Merge(cmp, a[k..], b[1..]);
      assert [a[0]] + (a[1..][..k - 1] + [b[0]] + rest) == a[..k] + [b[0]] + rest;
    }
  }

  lemma {:induction false} MergeTakeRight<T>(cmp: (T, T) -> int, a: seq<T>, b: seq<T>, k: nat)
    requires k <= |b| && a != []
    requires forall m :: 0 <= m < k ==> cmp(a[0], b[m]) > 0
    requires k < |b| ==> cmp(a[0], b[k]) <= 0
    ensures Merge(cmp, a, b) == b[..k] + [a[0]] + Merge(cmp, a[1..], b[k..])
  {
    hide Merge;
    if k == 0 {
      assert b[..k] + [a[0]] == [a[0]] && b[k..] == b;
      MergeNothing(cmp, a);
      MergeNothing(cmp, a[1..]);
      if b == [] { assert a == [a[0]] + a[1..]; } else { MergeLeft(cmp, a, b); }
    } else {
      MergeLeft(cmp, a, b);
      MergeTakeRight(cmp, a, b[1..], k - 1);
      assert b[1..][k - 1..] == b[k..];
      var rest := Merge(cmp, a[1..], b[k..]);
      assert [b[0]] + (b[1..][..k - 1] + [a[0]] + rest) == b[..k] + [a[0]] + rest;
    }
  }
}
