/** The hybrid natural merge sort: the first pass that cuts the input into runs, and the sort. */
module MergeSort {
  import opened StableOrder
  import opened MergeSearch
  import opened MergePass

  const THRESHOLD := 16
  const PSIZE := 8  // bytes of a pointer

  /** Rearranging a slice of `s` stably rearranges `s` stably. */
  lemma StableSlice<T(!new)>(cmp: (T, T) -> int, s: seq<T>, lo: nat, hi: nat, r: seq<T>)
    requires lo <= hi <= |s| && Stable(cmp, r, s[lo..hi])
    ensures Stable(cmp, s[..lo] + r + s[hi..], s)
  {
    StableConcat(cmp, s[..lo], s[..lo], r, s[lo..hi]);
    StableConcat(cmp, s[..lo] + r, s[..lo] + s[lo..hi], s[hi..], s[hi..]);
    assert s[..lo] + s[lo..hi] + s[hi..] == s;
  }

  lemma StableTrans<T(!new)>(cmp: (T, T) -> int, r: seq<T>, s: seq<T>, t: seq<T>)
    requires Stable(cmp, r, s) && Stable(cmp, s, t)
    ensures Stable(cmp, r, t)
  {
    forall x ensures Class(cmp, x, r) == Class(cmp, x, t) {
      assert Class(cmp, x, r) == Class(cmp, x, s);
    }
  }

  /** `s` with the elements at `k` and `k + 1` exchanged. */
  function Swapped<T>(s: seq<T>, k: nat): (r: seq<T>)
    requires k + 1 < |s|
    ensures |r| == |s|
  {
    s[k := s[k + 1]][k + 1 := s[k]]
  }

  lemma SwapStable<T(!new)>(cmp: (T, T) -> int, s: seq<T>, k: nat)
    requires TotalPreorder(cmp) && k + 1 < |s| && cmp(s[k], s[k + 1]) > 0
    ensures Stable(cmp, Swapped(s, k), s)
  {
    var u, v := s[k], s[k + 1];
    StableMove(cmp, [u], v);
    assert [v] + [u] == [v, u] && [u] + [v] == [u, v] == s[k..k + 2];
    StableSlice(cmp, s, k, k + 2, [v, u]);
    assert s[..k] + [v, u] + s[k + 2..] == Swapped(s, k);
  }

  /** Exchange the neighbours at `a` and `a + 1`. */
  method Swap<T>(list: array<Cell<T>>, a: nat, ghost lo: nat, ghost s: seq<T>)
    requires lo <= a && a + 1 < lo + |s| && Holds(list[..], lo, s)
    modifies list
    ensures Holds(list[..], lo, Swapped(s, a - lo))
    ensures forall k :: 0 <= k < list.Length && k != a && k != a + 1 ==> list[k] == old(list[k])
  {
    list[a], list[a + 1] := list[a + 1], list[a];
  }

  /** Everything up to `t` is sorted, everything from `t` to `hi` is sorted and above `u = s[t]`,
      and leaving out `u` the first `hi` elements are sorted. */
  ghost predicate Sinking<T>(cmp: (T, T) -> int, s: seq<T>, t: nat, hi: nat) {
    t < hi <= |s| && forall i, j :: 0 <= i < j < hi && j != t ==> cmp(s[i], s[j]) <= 0
  }

  lemma SinkStep<T(!new)>(cmp: (T, T) -> int, s: seq<T>, t: nat, hi: nat)
    requires TotalPreorder(cmp) && Sinking(cmp, s, t, hi) && t > 0 && cmp(s[t - 1], s[t]) > 0
    ensures Sinking(cmp, Swapped(s, t - 1), t - 1, hi)
  {
    Flip(cmp, s[t - 1], s[t]);
  }

  lemma SinkDone<T(!new)>(cmp: (T, T) -> int, s: seq<T>, t: nat, hi: nat)
    requires TotalPreorder(cmp) && Sinking(cmp, s, t, hi) && (t == 0 || cmp(s[t - 1], s[t]) <= 0)
    ensures Sorted(cmp, s[..hi])
  {
    forall i | 0 <= i < t ensures cmp(s[i], s[t]) <= 0 {
      if i < t - 1 { Trans(cmp, s[i], s[t - 1], s[t]); }
    }
  }

  /** Insertion sort of the `n` slots from `a`, as used on the last four or five elements. */
  method InsertionSort<T(!new)>(list: array<Cell<T>>, a: nat, n: nat, cmp: (T, T) -> int, ghost s0: seq<T>)
    returns (ghost s: seq<T>)
    requires TotalPreorder(cmp) && |s0| == n >= 1 && Holds(list[..], a, s0)
    modifies list
    ensures |s| == n && Holds(list[..], a, s) && StableSortOf(cmp, s, s0)
    ensures forall k :: 0 <= k < list.Length && !(a <= k < a + n) ==> list[k] == old(list[k])
  {
    s := s0;
    var ai := a + 1;
    while ai < a + n
      invariant a < ai <= a + n && |s| == n
      invariant Holds(list[..], a, s) && Stable(cmp, s, s0) && Sorted(cmp, s[..ai - a])
      invariant forall k :: 0 <= k < list.Length && !(a <= k < a + n) ==> list[k] == old(list[k])
    {
      s := Sink(list, a, ai, n, cmp, s, s0);
      ai := ai + 1;
    }
    assert s[..n] == s;
  }

  /** Sink the element at `ai` into the sorted part below it. */
  method Sink<T(!new)>(list: array<Cell<T>>, a: nat, ai: nat, n: nat, cmp: (T, T) -> int, ghost s1: seq<T>,
                       ghost s0: seq<T>) returns (ghost s: seq<T>)
    requires TotalPreorder(cmp) && |s1| == n && Holds(list[..], a, s1) && a < ai < a + n
    requires Stable(cmp, s1, s0) && Sorted(cmp, s1[..ai - a])
    modifies list
    ensures |s| == n && Holds(list[..], a, s) && Stable(cmp, s, s0) && Sorted(cmp, s[..ai - a + 1])
    ensures forall k :: 0 <= k < list.Length && !(a <= k < a + n) ==> list[k] == old(list[k])
  {
    hide Stable;
    s := s1;
    var t := ai;
    assert Sinking(cmp, s, t - a, ai - a + 1) by {
      assert forall i, j :: 0 <= i < j < ai - a ==> s1[..ai - a][i] == s1[i] && s1[..ai - a][j] == s1[j];
    }
    while t > a
      invariant a <= t <= ai && |s| == n
      invariant Holds(list[..], a, s) && Stable(cmp, s, s0) && Sinking(cmp, s, t - a, ai - a + 1)
      invariant forall k :: 0 <= k < list.Length && !(a <= k < a + n) ==> list[k] == old(list[k])
    {
      var u := t - 1;
      if cmp(list[u].x, list[t].x) <= 0 {
        break;
      }
      SwapStable(cmp, s, u - a);
      StableTrans(cmp, Swapped(s, u - a), s, s0);
      SinkStep(cmp, s, t - a, ai - a + 1);
      Swap(list, u, a, s);
      s, t := Swapped(s, u - a), u;
    }
    SinkDone(cmp, s, t - a, ai - a + 1);
  }

  /** `s` with the slice `lo..hi` reversed. */
  function Flipped<T>(s: seq<T>, lo: nat, hi: nat): (r: seq<T>)
    requires lo <= hi <= |s|
    ensures |r| == |s|
  {
    s[..lo] + Reverse(s[lo..hi]) + s[hi..]
  }

  lemma FlippedAt<T>(s: seq<T>, lo: nat, hi: nat, k: nat)
    requires lo <= hi <= |s| && k < |s|
    ensures Flipped(s, lo, hi)[k] == if lo <= k < hi then s[hi - 1 - (k - lo)] else s[k]
  {
    if lo <= k < hi { assert Reverse(s[lo..hi])[k - lo] == s[lo..hi][hi - lo - 1 - (k - lo)]; }
  }

  lemma FlippedHolds<T>(s: seq<T>, bot: nat, top: nat, c: seq<Cell<T>>, c': seq<Cell<T>>)
    requires bot <= top < |s| && Holds(c, 0, s) && |c'| == |c|
    requires forall k :: 0 <= k < |c| && !(bot <= k <= top) ==> c'[k] == c[k]
    requires forall k :: bot <= k <= top ==> c'[k] == Elem(s[top - (k - bot)])
    ensures Holds(c', 0, Flipped(s, bot, top + 1))
  {
    hide Flipped;
    forall k | 0 <= k < |s| ensures c'[k] == Elem(Flipped(s, bot, top + 1)[k]) {
      FlippedAt(s, bot, top + 1, k);
    }
  }

  lemma FlippedLength<T>(s: seq<T>, lo: nat, hi: nat)
    requires lo <= hi <= |s|
    ensures |Flipped(s, lo, hi)| == |s|
  {
  }

  /** Reverse the even number of slots from `bot` up to and including `top`. */
  method ReverseRun<T>(list: array<Cell<T>>, bot: nat, top: nat, ghost s: seq<T>)
    requires bot < top < |s| && (top - bot) % 2 == 1 && Holds(list[..], 0, s)
    modifies list
    ensures Holds(list[..], 0, Flipped(s, bot, top + 1))
    ensures forall k :: 0 <= k < list.Length && !(bot <= k <= top) ==> list[k] == old(list[k])
  {
    hide Flipped;
    var b, t := bot, top;
    while true
      invariant bot <= b < t <= top && b - bot == top - t && (t - b) % 2 == 1
      invariant forall k :: 0 <= k < list.Length && !(bot <= k < b || t < k <= top) ==> list[k] == old(list[k])
      invariant forall k :: (bot <= k < b || t < k <= top) ==> list[k] == Elem(s[top - (k - bot)])
      decreases t - b
    {
      list[b], list[t] := list[t], list[b];
      b, t := b + 1, t - 1;
      if b >= t { break; }
    }
    FlippedHolds(s, bot, top, old(list[..]), list[..]);
  }

  /** `a..b` of `s` is made of neighbours that all compare with the same sense. */
  ghost predicate SameSense<T>(cmp: (T, T) -> int, s: seq<T>, a: nat, b: nat, sense: bool) {
    b <= |s| && forall k :: a <= k < b - 1 ==> (cmp(s[k], s[k + 1]) > 0) == sense
  }

  /** Flipping a descending run, and leaving an ascending one, sorts it stably. */
  lemma OrientedRun<T(!new)>(cmp: (T, T) -> int, s: seq<T>, a: nat, b: nat, sense: bool, r: seq<T>)
    requires TotalPreorder(cmp) && a <= b <= |s| && SameSense(cmp, s, a, b, sense)
    requires r == if sense then Flipped(s, a, b) else s
    ensures |r| == |s| && r[..a] == s[..a] && r[b..] == s[b..]
    ensures Sorted(cmp, r[a..b]) && Stable(cmp, r, s)
  {
    var run := s[a..b];
    if sense {
      forall i | 0 <= i < |run| - 1 ensures cmp(run[i], run[i + 1]) > 0 {
        assert (cmp(s[a + i], s[a + i + 1]) > 0) == sense;
      }
      ReverseDescending(cmp, run);
      StableSlice(cmp, s, a, b, Reverse(run));
      assert r[a..b] == Reverse(run);
    } else {
      forall i | 0 <= i < |run| - 1 ensures cmp(run[i], run[i + 1]) <= 0 {
        assert (cmp(s[a + i], s[a + i + 1]) > 0) == sense;
      }
      NeighboursSorted(cmp, run);
    }
  }

  // ----- the first pass

  /** The first pass has cut `0..f` into the runs `bs`; behind `f` the elements are still those of
      `s1`, and the sorted tail at `last` has its pointer. */
  ghost predicate Cut<T(!new)>(cmp: (T, T) -> int, c1: seq<Cell<T>>, c2: seq<Cell<T>>, last: nat, s1: seq<T>, s: seq<T>,
                               bs: seq<nat>, f: nat) {
    && f <= last < |s| == |s1| && last < |c2| && c2[last] == Link(|s|)
    && Holds(c1, 0, s) && Stable(cmp, s, s1) && s[f..] == s1[f..] && Sorted(cmp, s[last..])
    && Runs(cmp, s, c2, bs, f, 2)
  }

  lemma CutFacts<T(!new)>(cmp: (T, T) -> int, c1: seq<Cell<T>>, c2: seq<Cell<T>>, last: nat, s1: seq<T>, s: seq<T>,
                          bs: seq<nat>, f: nat)
    requires Cut(cmp, c1, c2, last, s1, s, bs, f)
    ensures f <= last < |s| == |s1| && last < |c2| && Holds(c1, 0, s) && Stable(cmp, s, s1)
    ensures forall k :: f <= k < |s| ==> s[k] == s1[k]
    ensures Sorted(cmp, s[last..])
  {
    assert forall k :: f <= k < |s| ==> s[k] == s[f..][k - f] == s1[f..][k - f] == s1[k];
  }

  /** One more run `a..b`, oriented and linked. */
  lemma CutExtend<T(!new)>(cmp: (T, T) -> int, c1: seq<Cell<T>>, c2: seq<Cell<T>>, last: nat, s1: seq<T>, s: seq<T>,
                           bs: seq<nat>, a: nat, b: nat, sense: bool,
                           c1': seq<Cell<T>>, c2': seq<Cell<T>>, s': seq<T>)
    requires TotalPreorder(cmp) && Cut(cmp, c1, c2, last, s1, s, bs, a)
    requires a + 2 <= b <= last && SameSense(cmp, s1, a, b, sense)
    requires s' == if sense then Flipped(s, a, b) else s
    requires Holds(c1', 0, s') && c2' == c2[a := Link(b)][a + 1 := Raw]
    ensures Cut(cmp, c1', c2', last, s1, s', bs + [b], b)
  {
    CutFacts(cmp, c1, c2, last, s1, s, bs, a);
    OrientedRun(cmp, s, a, b, sense, s');
    StableTrans(cmp, s', s, s1);
    assert s'[b..] == s1[b..] && s'[last..] == s'[b..][last - b..] == s[b..][last - b..] == s[last..];
    RunsExtend(cmp, s, c2, bs, a, s', c2', b);
  }

  /** The tail run ends the run list. */
  lemma CutFinish<T(!new)>(cmp: (T, T) -> int, c1: seq<Cell<T>>, c2: seq<Cell<T>>, last: nat, s1: seq<T>, s: seq<T>,
                           bs: seq<nat>)
    requires Cut(cmp, c1, c2, last, s1, s, bs, last) && last + 2 <= |s|
    ensures Runs(cmp, s, c2, bs + [|s|], |s|, 2)
  {
    assert s[last..|s|] == s[last..];
    RunsExtend(cmp, s, c2, bs, last, s, c2, |s|);
  }

  /** The last natural run and the tail are one run when the seam is in order. */
  lemma CutJoin<T(!new)>(cmp: (T, T) -> int, c1: seq<Cell<T>>, c2: seq<Cell<T>>, last: nat, s1: seq<T>, s: seq<T>,
                         bs: seq<nat>, a: nat, sense: bool,
                         c1': seq<Cell<T>>, c2': seq<Cell<T>>, s': seq<T>)
    requires TotalPreorder(cmp) && Cut(cmp, c1, c2, last, s1, s, bs, a)
    requires a + 2 <= last && SameSense(cmp, s1, a, last, sense)
    requires s' == if sense then Flipped(s, a, last) else s
    requires Holds(c1', 0, s') && c2' == c2[a := Link(|s|)][a + 1 := Raw]
    requires cmp(s'[last - 1], s'[last]) <= 0
    ensures Runs(cmp, s', c2', bs + [|s|], |s|, 2) && Stable(cmp, s', s1)
  {
    hide Flipped, Stable;
    CutFacts(cmp, c1, c2, last, s1, s, bs, a);
    OrientedRun(cmp, s, a, last, sense, s');
    StableTrans(cmp, s', s, s1);
    assert s'[last..] == s[last..];
    assert s'[a..last][last - a - 1] == s'[last - 1] && s'[last..][0] == s'[last];
    SortedJoin(cmp, s'[a..last], s'[last..]);
    assert s'[a..|s|] == s'[a..last] + s'[last..];
    RunsExtend(cmp, s, c2, bs, a, s', c2', |s|);
  }

  /** All pairs from `a` to `b` compare with the same sense. */
  ghost predicate SamePairs<T>(cmp: (T, T) -> int, s: seq<T>, a: nat, b: nat, sense: bool) {
    b <= |s| && forall k :: a <= k < b - 1 && (k - a) % 2 == 0 ==> (cmp(s[k], s[k + 1]) > 0) == sense
  }

  /** Find the pairs from `f1` on that compare with the same sense. */
  method FindPairs<T>(list1: array<Cell<T>>, f1: nat, last: nat, cmp: (T, T) -> int, sense: bool, ghost s: seq<T>)
    returns (f2: nat, length: nat)
    requires f1 + 2 <= last <= |s| && (last - f1) % 2 == 0 && Holds(list1[..], 0, s)
    requires (cmp(s[f1], s[f1 + 1]) > 0) == sense
    ensures f1 < f2 <= last && (f2 - f1) % 2 == 0 && length == f2 - f1
    ensures SamePairs(cmp, s, f1, f2, sense)
    ensures f2 < last ==> (cmp(s[f2], s[f2 + 1]) > 0) == !sense
  {
    length, f2 := 2, f1 + 2;
    while f2 < last
      invariant f1 < f2 <= last && (f2 - f1) % 2 == 0 && length == f2 - f1
      invariant SamePairs(cmp, s, f1, f2, sense)
    {
      if (cmp(list1[f2].x, list1[f2 + 1].x) > 0) != sense {
        break;
      }
      length := length + 2;
      f2 := f2 + 2;
    }
  }

  /** Pairwise merge: every pair of `f1..f2` becomes a run of two. */
  method PairRuns<T(!new)>(list1: array<Cell<T>>, list2: array<Cell<T>>, f1: nat, f2: nat, last: nat,
                           cmp: (T, T) -> int, sense: bool,
                           ghost s1: seq<T>, ghost s: seq<T>, ghost bs: seq<nat>)
    returns (p2: nat, ghost s': seq<T>, ghost bs': seq<nat>)
    requires list1 != list2 && TotalPreorder(cmp) && f1 < f2 <= last && (f2 - f1) % 2 == 0
    requires Cut(cmp, list1[..], list2[..], last, s1, s, bs, f1) && SamePairs(cmp, s1, f1, f2, sense)
    modifies list1, list2
    ensures p2 == f2 && Cut(cmp, list1[..], list2[..], last, s1, s', bs', f2)
  {
    hide Cut;
    CutFacts(cmp, list1[..], list2[..], last, s1, s, bs, f1);
    s', bs', p2 := s, bs, f1;
    var g := f1;
    while g < f2
      invariant f1 <= g <= f2 && (g - f1) % 2 == 0 && p2 == g
      invariant Cut(cmp, list1[..], list2[..], last, s1, s', bs', g) && |s'| == |s| && last < list2.Length
    {
      ghost var c1, c2, t := list1[..], list2[..], s';
      CutFacts(cmp, c1, c2, last, s1, t, bs', g);
      PutLink(list2, p2, g + 2);
      p2 := g + 2;
      if sense {
        Swap(list1, g, 0, s');
        s' := Swapped(s', g);
        assert s' == Flipped(t, g, g + 2) by {
          assert t[g..g + 2] == [t[g], t[g + 1]] && Reverse([t[g], t[g + 1]]) == [t[g + 1], t[g]];
        }
      }
      assert SameSense(cmp, s1, g, g + 2, sense);
      CutExtend(cmp, c1, c2, last, s1, t, bs', g, g + 2, sense, list1[..], list2[..], s');
      bs' := bs' + [g + 2];
      g := g + 2;
    }
  }

  /** Turn the run `a..b` around when it descends. */
  method OrientRun<T>(list1: array<Cell<T>>, a: nat, b: nat, sense: bool, ghost s: seq<T>) returns (ghost s': seq<T>)
    requires a < b <= |s| && (b - a) % 2 == 0 && Holds(list1[..], 0, s)
    modifies list1
    ensures s' == if sense then Flipped(s, a, b) else s
    ensures Holds(list1[..], 0, s')
  {
    s' := s;
    if sense {
      ReverseRun(list1, a, b - 1, s);
      s' := Flipped(s, a, b);
    }
  }

  /** The run `g..f2` is linked and turned around when it descends. */
  method CutRun<T(!new)>(list1: array<Cell<T>>, list2: array<Cell<T>>, g: nat, f2: nat, last: nat, cmp: (T, T) -> int,
                         sense: bool, ghost s1: seq<T>, ghost s: seq<T>, ghost bs: seq<nat>)
    returns (ghost s': seq<T>, ghost bs': seq<nat>)
    requires list1 != list2 && TotalPreorder(cmp) && g + 2 <= f2 <= last && (f2 - g) % 2 == 0
    requires Cut(cmp, list1[..], list2[..], last, s1, s, bs, g) && SameSense(cmp, s1, g, f2, sense)
    modifies list1, list2
    ensures Cut(cmp, list1[..], list2[..], last, s1, s', bs', f2) && |s'| == |s|
  {
    hide Cut, Flipped, SameSense;
    CutFacts(cmp, list1[..], list2[..], last, s1, s, bs, g);
    ghost var c1, c2 := list1[..], list2[..];
    PutLink(list2, g, f2);
    s' := OrientRun(list1, g, f2, sense, s);
    bs' := bs + [f2];
    CutExtend(cmp, c1, c2, last, s1, s, bs, g, f2, sense, list1[..], list2[..], s');
  }

  lemma CutLast<T(!new)>(cmp: (T, T) -> int, c1: seq<Cell<T>>, c2: seq<Cell<T>>, last: nat, s1: seq<T>, s: seq<T>,
                         bs: seq<nat>, f: nat)
    requires Cut(cmp, c1, c2, last, s1, s, bs, f)
    ensures last < |s|
  {
  }

  /** Elements that are not cut yet are those of the input. */
  lemma UncutAt<T(!new)>(cmp: (T, T) -> int, c1: seq<Cell<T>>, c2: seq<Cell<T>>, last: nat, s1: seq<T>, s: seq<T>,
                         bs: seq<nat>, f: nat, k: nat)
    requires Cut(cmp, c1, c2, last, s1, s, bs, f) && f <= k < |s|
    ensures k < |s1| && k < |c1| && c1[k] == Elem(s1[k])
  {
    CutFacts(cmp, c1, c2, last, s1, s, bs, f);
  }

  /** Whether the sense goes on from one pair to the next. */
  lemma SenseGoesOn<T>(cmp: (T, T) -> int, s: seq<T>, a: nat, b: nat, sense: bool, g: nat, f: nat)
    requires SamePairs(cmp, s, a, b, sense) && a <= g < f < b && (b - f) % 2 == 0 && (b - a) % 2 == 0
    requires SameSense(cmp, s, g, f, sense)
    ensures f + 2 <= b && SameSense(cmp, s, f, f + 2, sense)
    ensures (cmp(s[f - 1], s[f]) > 0) == sense ==> SameSense(cmp, s, g, f + 2, sense)
  {
  }

  lemma FirstPair<T>(cmp: (T, T) -> int, s: seq<T>, a: nat, b: nat, sense: bool)
    requires SamePairs(cmp, s, a, b, sense) && a + 2 <= b
    ensures SameSense(cmp, s, a, a + 2, sense)
  {
  }

  /** The run from `g` goes on with the pair at `f2`, or is cut there. */
  method CutOrGoOn<T(!new)>(list1: array<Cell<T>>, list2: array<Cell<T>>, g: nat, f2: nat, last: nat,
                            cmp: (T, T) -> int, sense: bool, ghost s1: seq<T>, ghost s: seq<T>, ghost bs: seq<nat>)
    returns (g': nat, ghost s': seq<T>, ghost bs': seq<nat>)
    requires list1 != list2 && TotalPreorder(cmp) && g + 2 <= f2 < last < |s| && (f2 - g) % 2 == 0
    requires Cut(cmp, list1[..], list2[..], last, s1, s, bs, g) && f2 < |s1| && SameSense(cmp, s1, g, f2, sense)
    requires SameSense(cmp, s1, f2, f2 + 2, sense)
    requires (cmp(s1[f2 - 1], s1[f2]) > 0) == sense ==> SameSense(cmp, s1, g, f2 + 2, sense)
    modifies list1, list2
    ensures Cut(cmp, list1[..], list2[..], last, s1, s', bs', g') && SameSense(cmp, s1, g', f2 + 2, sense)
    ensures (g' == g || g' == f2) && |s'| == |s|
  {
    hide *;
    UncutAt(cmp, list1[..], list2[..], last, s1, s, bs, g, f2 - 1);
    UncutAt(cmp, list1[..], list2[..], last, s1, s, bs, g, f2);
    if (cmp(list1[f2 - 1].x, list1[f2].x) > 0) != sense {
      s', bs' := CutRun(list1, list2, g, f2, last, cmp, sense, s1, s, bs);
      g' := f2;
    } else {
      g', s', bs' := g, s, bs;
    }
  }

  /** Natural merge: the pairs of `f1..f2` are cut where the sense breaks between two pairs, and
      descending runs are reversed. */
  method NaturalRuns<T(!new)>(list1: array<Cell<T>>, list2: array<Cell<T>>, f1: nat, l2: nat, last: nat, n: nat,
                              cmp: (T, T) -> int, sense: bool,
                              ghost s1: seq<T>, ghost s: seq<T>, ghost bs: seq<nat>)
    returns (p2: nat, ghost s': seq<T>, ghost bs': seq<nat>)
    requires list1 != list2 && TotalPreorder(cmp) && f1 < l2 <= last && (l2 - f1) % 2 == 0 && n == |s|
    requires Cut(cmp, list1[..], list2[..], last, s1, s, bs, f1) && SamePairs(cmp, s1, f1, l2, sense)
    modifies list1, list2
    ensures RunsMade(cmp, list1[..], list2[..], last, s1, s', bs', l2, p2)
  {
    hide *;
    FirstPair(cmp, s1, f1, l2, sense);
    CutLast(cmp, list1[..], list2[..], last, s1, s, bs, f1);
    s', bs', p2 := s, bs, f1;
    var g, f2 := f1, f1 + 2;
    while f2 < l2
      invariant f1 <= g < g + 2 <= f2 <= l2 && (f2 - g) % 2 == 0 && (l2 - f2) % 2 == 0 && p2 == g
      invariant Cut(cmp, list1[..], list2[..], last, s1, s', bs', g) && |s'| == |s| > last
      invariant SameSense(cmp, s1, g, f2, sense)
    {
      SenseGoesOn(cmp, s1, f1, l2, sense, g, f2);
      g, s', bs' := CutOrGoOn(list1, list2, g, f2, last, cmp, sense, s1, s', bs');
      p2, f2 := g, f2 + 2;
    }
    p2, s', bs' := LastNaturalRun(list1, list2, g, f2, last, n, cmp, sense, s1, s', bs');
  }

  /** The runs reach up to `p2`, which is the end of the scanned pairs or, when the tail has been
      joined, the end of the list. */
  ghost predicate RunsMade<T(!new)>(cmp: (T, T) -> int, c1: seq<Cell<T>>, c2: seq<Cell<T>>, last: nat, s1: seq<T>,
                                    s: seq<T>, bs: seq<nat>, f: nat, p2: nat) {
    if p2 == f then Cut(cmp, c1, c2, last, s1, s, bs, f)
    else p2 == |s| == |s1| && f == last && Holds(c1, 0, s) && Stable(cmp, s, s1) && Runs(cmp, s, c2, bs, |s|, 2)
  }

  /** The run `g..f2` that ends a natural stretch; in order with the sorted tail it is joined to it. */
  method LastNaturalRun<T(!new)>(list1: array<Cell<T>>, list2: array<Cell<T>>, g: nat, f2: nat, last: nat, n: nat,
                                 cmp: (T, T) -> int, sense: bool,
                                 ghost s1: seq<T>, ghost s: seq<T>, ghost bs: seq<nat>)
    returns (p2: nat, ghost s': seq<T>, ghost bs': seq<nat>)
    requires list1 != list2 && TotalPreorder(cmp) && g + 2 <= f2 <= last && (f2 - g) % 2 == 0 && n == |s|
    requires Cut(cmp, list1[..], list2[..], last, s1, s, bs, g) && SameSense(cmp, s1, g, f2, sense)
    modifies list1, list2
    ensures RunsMade(cmp, list1[..], list2[..], last, s1, s', bs', f2, p2)
  {
    hide Cut, Flipped, SameSense, Runs, Stable;
    ghost var c1, c2 := list1[..], list2[..];
    CutFacts(cmp, c1, c2, last, s1, s, bs, g);
    s' := OrientRun(list1, g, f2, sense, s);
    FlippedLength(s, g, f2);
    if f2 < last || cmp(list1[f2 - 1].x, list1[f2].x) > 0 {
      PutLink(list2, g, f2);
      p2, bs' := f2, bs + [f2];
      CutExtend(cmp, c1, c2, last, s1, s, bs, g, f2, sense, list1[..], list2[..], s');
    } else {
      PutLink(list2, g, n);
      p2, bs' := n, bs + [n];
      CutJoin(cmp, c1, c2, last, s1, s, bs, g, sense, list1[..], list2[..], s');
    }
  }

  /** The first pass: insertion sort on the last four or five elements, everything before them cut
      into runs of at least two elements that are linked through `list2`. */
  method Setup<T(!new)>(list1: array<Cell<T>>, list2: array<Cell<T>>, n: nat, cmp: (T, T) -> int, ghost s0: seq<T>)
    returns (ghost s: seq<T>, ghost bs: seq<nat>)
    requires list1 != list2 && TotalPreorder(cmp)
    requires n == |s0| >= 1 && Holds(list1[..], 0, s0) && n + 1 < list2.Length
    modifies list1, list2
    ensures |s| == n && Holds(list1[..], 0, s) && Stable(cmp, s, s0)
    ensures Runs(cmp, s, list2[..], bs, n, if n <= 5 then 1 else 2)
    ensures n <= 5 ==> |bs| == 2
  {
    if n <= 5 {
      s := InsertionSort(list1, 0, n, cmp, s0);
      PutLink(list2, 0, n);
      bs := [0, n];
      assert s[0..n] == s;
      return;
    }
    var i := 4 + n % 2;
    var last := n - i;
    ghost var s1 := SortTail(list1, last, n, cmp, s0);
    PutLink(list2, last, n);
    s, bs := s1, [0];
    var f1, p2 := 0, 0;
    assert list1[0] == Elem(s1[0]) && list1[1] == Elem(s1[1]);
    var sense := cmp(list1[f1].x, list1[f1 + 1].x) > 0;
    while f1 < last
      invariant f1 <= last && (last - f1) % 2 == 0
      invariant RunsMade(cmp, list1[..], list2[..], last, s1, s, bs, f1, p2)
      invariant p2 != f1 ==> f1 == last
      invariant f1 < last ==> (cmp(s1[f1], s1[f1 + 1]) > 0) == sense
    {
      f1, p2, s, bs := CutStretch(list1, list2, f1, last, n, cmp, sense, s1, s, bs);
      sense := !sense;
    }
    if p2 == last {
      CutFinish(cmp, list1[..], list2[..], last, s1, s, bs);
      bs := bs + [n];
    }
    StableTrans(cmp, s, s1, s0);
  }

  method SortTail<T(!new)>(list1: array<Cell<T>>, last: nat, n: nat, cmp: (T, T) -> int, ghost s0: seq<T>)
    returns (ghost s: seq<T>)
    requires TotalPreorder(cmp) && n == |s0| && last < n && Holds(list1[..], 0, s0)
    modifies list1
    ensures |s| == n && Holds(list1[..], 0, s) && Stable(cmp, s, s0) && Sorted(cmp, s[last..])
  {
    ghost var tail := InsertionSort(list1, last, n - last, cmp, s0[last..]);
    s := s0[..last] + tail;
    assert s0[last..n] == s0[last..] && s0[n..] == [] && s == s0[..last] + tail + s0[n..];
    StableSlice(cmp, s0, last, n, tail);
    assert s[last..] == tail;
  }

  /** One stretch of pairs with the same sense: pairwise when it is short, natural otherwise. */
  method CutStretch<T(!new)>(list1: array<Cell<T>>, list2: array<Cell<T>>, f1: nat, last: nat, n: nat,
                             cmp: (T, T) -> int, sense: bool,
                             ghost s1: seq<T>, ghost s: seq<T>, ghost bs: seq<nat>)
    returns (f2: nat, p2: nat, ghost s': seq<T>, ghost bs': seq<nat>)
    requires list1 != list2 && TotalPreorder(cmp) && f1 < last && (last - f1) % 2 == 0 && n == |s|
    requires Cut(cmp, list1[..], list2[..], last, s1, s, bs, f1)
    requires (cmp(s1[f1], s1[f1 + 1]) > 0) == sense
    modifies list1, list2
    ensures f1 < f2 <= last && (last - f2) % 2 == 0
    ensures RunsMade(cmp, list1[..], list2[..], last, s1, s', bs', f2, p2) && |s'| == n
    ensures p2 != f2 ==> f2 == last
    ensures f2 < last ==> (cmp(s1[f2], s1[f2 + 1]) > 0) == !sense
  {
    hide Cut;
    CutFacts(cmp, list1[..], list2[..], last, s1, s, bs, f1);
    var length;
    f2, length := FindPairs(list1, f1, last, cmp, sense, s);
    assert SamePairs(cmp, s1, f1, f2, sense);
    if length < THRESHOLD {
      p2, s', bs' := PairRuns(list1, list2, f1, f2, last, cmp, sense, s1, s, bs);
    } else {
      p2, s', bs' := NaturalRuns(list1, list2, f1, f2, last, n, cmp, sense, s1, s, bs);
    }
    if p2 == f2 { CutFacts(cmp, list1[..], list2[..], last, s1, s', bs', f2); }
  }

  // ----- the sort

  ghost predicate AllElems<T>(c: seq<Cell<T>>) {
    forall k :: 0 <= k < |c| ==> c[k].Elem?
  }

  ghost function Elements<T>(c: seq<Cell<T>>): (s: seq<T>)
    requires AllElems(c)
    ensures |s| == |c| && Holds(c, 0, s)
  {
    seq(|c|, k requires 0 <= k < |c| => c[k].x)
  }

  /** `php_mergesort` on `base`, whose elements are `size` bytes each; `memory` says whether the
      scratch list can be allocated. Success leaves the stable sort of the input in `base`. */
  method Sort<T(!new)>(base: array<Cell<T>>, size: nat, cmp: (T, T) -> int, memory: bool) returns (r: int)
    requires TotalPreorder(cmp) && AllElems(base[..])
    modifies base
    ensures r == if size < PSIZE / 2 || (base.Length > 0 && !memory) then -1 else 0
    ensures r == -1 ==> base[..] == old(base[..])
    ensures r == 0 ==> AllElems(base[..]) && StableSortOf(cmp, Elements(base[..]), Elements(old(base[..])))
  {
    var n := base.Length;
    if size < PSIZE / 2 {
      return -1;
    }
    if n == 0 {
      return 0;
    }
    if !memory {
      return -1;
    }
    ghost var s0 := Elements(base[..]);
    var list1, list2 := base, new Cell<T>[n + 2](_ => Raw);
    ghost var s, bs := Setup(list1, list2, n, cmp, s0);
    var big, i := false, 0;
    while list2[0] != Link(n)
      invariant list1 != list2 && list1.Length >= n && list2.Length >= n
      invariant (list1 == base && fresh(list2)) || (list2 == base && fresh(list1))
      invariant |s| == n && Holds(list1[..], 0, s) && Stable(cmp, s, s0)
      invariant Runs(cmp, s, list2[..], bs, n, if n <= 5 then 1 else 2) && (n <= 5 ==> |bs| == 2)
      invariant !big ==> i == 0
      decreases |bs|
    {
      ghost var t := s;
      ManyRuns(cmp, s, list2[..], bs, n, if n <= 5 then 1 else 2);
      big, i, s, bs := MergeRuns(list1, list2, n, cmp, big, i, s, bs);
      StableTrans(cmp, s, t, s0);
      list1, list2 := list2, list1;
    }
    OneRun(cmp, s, list2[..], bs, n, if n <= 5 then 1 else 2);
    if base == list2 {
      forall k | 0 <= k < n { list2[k] := list1[k]; }
    }
    assert Elements(base[..]) == s;
    return 0;
  }

  lemma ManyRuns<T>(cmp: (T, T) -> int, s: seq<T>, links: seq<Cell<T>>, bs: seq<nat>, n: nat, w: nat)
    requires n >= 1 && Runs(cmp, s, links, bs, n, w) && (n <= 5 ==> |bs| == 2)
    requires links != [] && links[0] != Link(n)
    ensures n > 5 && |bs| > 2
  {
    assert RunAt(cmp, s, links, bs[0], bs[0 + 1], w);
  }

  lemma OneRun<T>(cmp: (T, T) -> int, s: seq<T>, links: seq<Cell<T>>, bs: seq<nat>, n: nat, w: nat)
    requires n >= 1 && |s| == n && Runs(cmp, s, links, bs, n, w)
    requires links != [] && links[0] == Link(n)
    ensures Sorted(cmp, s)
  {
    assert RunAt(cmp, s, links, bs[0], bs[0 + 1], w);
    assert s[0..n] == s;
  }
}
