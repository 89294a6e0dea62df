/** One pass of the bottom-up merge: every pair of neighbouring runs of `list1` is merged into
    `list2`, while the run pointers move from `list2` to `list1`. */
module MergePass {
  import opened StableOrder
  import opened MergeSearch

  /** Slots `lo..lo+|s|` of `c` hold exactly the elements `s`. */
  ghost predicate Holds<T>(c: seq<Cell<T>>, lo: nat, s: seq<T>) {
    lo + |s| <= |c| && forall k :: lo <= k < lo + |s| ==> c[k] == Elem(s[k - lo])
  }

  /** `bs` lists run boundaries from 0 to `upto`: runs of at least `w` elements, each sorted in
      `s`, each start slot of `links` pointing to the next boundary. */
  ghost predicate Runs<T>(cmp: (T, T) -> int, s: seq<T>, links: seq<Cell<T>>, bs: seq<nat>, upto: nat, w: nat) {
    && |bs| > 0 && bs[0] == 0 && bs[|bs| - 1] == upto <= |s|
    && (forall i :: 0 <= i < |bs| - 1 ==> RunAt(cmp, s, links, bs[i], bs[i + 1], w))
  }

  ghost predicate RunAt<T>(cmp: (T, T) -> int, s: seq<T>, links: seq<Cell<T>>, a: nat, b: nat, w: nat) {
    a < b <= |s| && a + w <= b && a < |links| && links[a] == Link(b) && Sorted(cmp, s[a..b])
  }

  lemma {:induction false} BoundariesAscend<T>(cmp: (T, T) -> int, s: seq<T>, links: seq<Cell<T>>, bs: seq<nat>,
                                               upto: nat, w: nat, i: nat, j: nat)
    requires Runs(cmp, s, links, bs, upto, w)
    requires i < j < |bs|
    ensures bs[i] < bs[j] <= upto && bs[i] + w <= bs[j]
    decreases j
  {
    assert RunAt(cmp, s, links, bs[j - 1], bs[j - 1 + 1], w);
    if i < j - 1 { BoundariesAscend(cmp, s, links, bs, upto, w, i, j - 1); }
    if j < |bs| - 1 { BoundariesBelow(cmp, s, links, bs, upto, w, j); }
  }

  lemma {:induction false} BoundariesBelow<T>(cmp: (T, T) -> int, s: seq<T>, links: seq<Cell<T>>, bs: seq<nat>,
                                              upto: nat, w: nat, j: nat)
    requires Runs(cmp, s, links, bs, upto, w)
    requires j < |bs|
    ensures bs[j] <= upto
    decreases |bs| - j
  {
    if j < |bs| - 1 {
      assert RunAt(cmp, s, links, bs[j], bs[j + 1], w);
      BoundariesBelow(cmp, s, links, bs, upto, w, j + 1);
    }
  }

  /** Store a run pointer; it covers up to two element slots. */
  method PutLink<T>(list: array<Cell<T>>, at: nat, next: nat)
    requires at + 1 < list.Length
    modifies list
    ensures list[..] == old(list[..])[at := Link(next)][at + 1 := Raw]
  {
    list[at] := Link(next);
    list[at + 1] := Raw;
  }

  /** The do-while list copy: at least one element moves. */
  method CopyList<T>(src: array<Cell<T>>, f: nat, last: nat, dst: array<Cell<T>>, d: nat) returns (d': nat)
    requires src != dst && f < last <= src.Length && d + (last - f) <= dst.Length
    modifies dst
    ensures d' == d + (last - f)
    ensures forall k :: d <= k < d' ==> dst[k] == src[f + (k - d)]
    ensures forall k :: 0 <= k < dst.Length && !(d <= k < d') ==> dst[k] == old(dst[k])
  {
    dst[d] := src[f];
    var f' := f + 1;
    d' := d + 1;
    while f' < last
      invariant f < f' <= last && d' - d == f' - f
      invariant forall k :: d <= k < d' ==> dst[k] == src[f + (k - d)]
      invariant forall k :: 0 <= k < dst.Length && !(d <= k < d') ==> dst[k] == old(dst[k])
    {
      dst[d'] := src[f'];
      f', d' := f' + 1, d' + 1;
    }
  }

  lemma SearchReady<T(!new)>(cmp: (T, T) -> int, q: T, sense: int, c: seq<Cell<T>>, base: nat, s: seq<T>, lo: nat)
    requires TotalPreorder(cmp) && Sorted(cmp, s) && Holds(c, base, s)
    requires base <= lo < base + |s| && -1 <= sense <= 0
    ensures ElemsIn(c, lo, base + |s|) && Prefixed(cmp, q, sense, c, lo, base + |s|)
  {
    forall j, k | lo <= j < k < base + |s| && Past(cmp, q, sense, c[k].x)
      ensures Past(cmp, q, sense, c[j].x)
    {
      assert cmp(s[j - base], s[k - base]) <= 0;
      PastBelow(cmp, q, sense, s[j - base], s[k - base]);
    }
  }

  lemma PastBelow<T(!new)>(cmp: (T, T) -> int, q: T, sense: int, x: T, y: T)
    requires TotalPreorder(cmp) && -1 <= sense <= 0
    requires cmp(x, y) <= 0 && cmp(q, y) > sense
    ensures cmp(q, x) > sense
  {
    Flip(cmp, q, y);
    Flip(cmp, q, x);
    Trans(cmp, x, y, q);
  }

  /** The merge of `a` and `b` starts with `out` and goes on with what is behind `i` and `j`. */
  ghost predicate Emits<T>(cmp: (T, T) -> int, a: seq<T>, b: seq<T>, out: seq<T>, i: int, j: int) {
    0 <= i <= |a| && 0 <= j <= |b| && Merge(cmp, a, b) == out + Merge(cmp, a[i..], b[j..])
  }

  lemma EmitsNothing<T>(cmp: (T, T) -> int, a: seq<T>, b: seq<T>)
    ensures Emits(cmp, a, b, [], 0, 0)
  {
    assert a[0..] == a && b[0..] == b;
  }

  lemma EmitsRest<T>(cmp: (T, T) -> int, a: seq<T>, b: seq<T>, out: seq<T>, i: nat, j: nat)
    requires Emits(cmp, a, b, out, i, j) && (i == |a| || j == |b|)
    ensures Merge(cmp, a, b) == out + (if j < |b| then b[j..] else a[i..])
    ensures i == |a| && j == |b| ==> Merge(cmp, a, b) == out
  {
  }

  lemma EmitsMore<T>(cmp: (T, T) -> int, a: seq<T>, b: seq<T>, out: seq<T>, i: nat, j: nat, more: seq<T>, i': nat,
                     j': nat)
    requires Emits(cmp, a, b, out, i, j) && Emits(cmp, a[i..], b[j..], more, i', j')
    ensures Emits(cmp, a, b, out + more, i + i', j + j')
  {
    assert a[i..][i'..] == a[i + i'..] && b[j..][j'..] == b[j + j'..];
    assert out + (more + Merge(cmp, a[i + i'..], b[j + j'..])) == out + more + Merge(cmp, a[i + i'..], b[j + j'..]);
  }

  /** The scanned block of the left run goes out before the head of the right run. */
  lemma BlockFromLeft<T(!new)>(cmp: (T, T) -> int, c: seq<Cell<T>>, f: nat, k: nat, a: seq<T>, b: seq<T>)
    requires TotalPreorder(cmp) && Holds(c, f, a) && b != []
    requires k == LinearScan(cmp, b[0], -1, c, f, f + |a|)
    ensures Emits(cmp, a, b, a[..k - f] + [b[0]], k - f, 1)
  {
    forall m | 0 <= m < k - f ensures cmp(a[m], b[0]) <= 0 {
      Flip(cmp, a[m], b[0]);
      assert c[f + m] == Elem(a[m]) && Past(cmp, b[0], -1, c[f + m].x);
    }
    if k - f < |a| {
      Flip(cmp, a[k - f], b[0]);
      assert c[k] == Elem(a[k - f]) && !Past(cmp, b[0], -1, c[k].x);
    }
    MergeTakeLeft(cmp, a, b, k - f);
  }

  lemma BlockFromRight<T(!new)>(cmp: (T, T) -> int, c: seq<Cell<T>>, f: nat, k: nat, a: seq<T>, b: seq<T>)
    requires TotalPreorder(cmp) && Holds(c, f, b) && a != []
    requires k == LinearScan(cmp, a[0], 0, c, f, f + |b|)
    ensures Emits(cmp, a, b, b[..k - f] + [a[0]], 1, k - f)
  {
    forall m | 0 <= m < k - f ensures cmp(a[0], b[m]) > 0 {
      assert c[f + m] == Elem(b[m]) && Past(cmp, a[0], 0, c[f + m].x);
    }
    if k - f < |b| {
      assert c[k] == Elem(b[k - f]) && !Past(cmp, a[0], 0, c[k].x);
    }
    MergeTakeRight(cmp, a, b, k - f);
  }

  lemma HoldsAppend<T>(c: seq<Cell<T>>, lo: nat, s: seq<T>, t: seq<T>)
    requires Holds(c, lo, s) && Holds(c, lo + |s|, t)
    ensures Holds(c, lo, s + t)
  {
  }

  /** Copy the rest `s` of a run behind the elements `out` that are already in place. */
  method MoveRest<T>(src: array<Cell<T>>, f: nat, last: nat, dst: array<Cell<T>>, d: nat, ghost lo: nat,
                     ghost out: seq<T>, ghost s: seq<T>)
    returns (d': nat)
    requires src != dst && f < last && last - f == |s| && Holds(src[..], f, s)
    requires Holds(dst[..], lo, out) && d == lo + |out| && d + |s| <= dst.Length
    modifies dst
    ensures d' == d + |s| && Holds(dst[..], lo, out + s)
    ensures forall k :: 0 <= k < dst.Length && !(d <= k < d + |s|) ==> dst[k] == old(dst[k])
  {
    d' := CopyList(src, f, last, dst, d);
    forall k | d <= k < d' ensures dst[k] == Elem(s[k - d]) {
      assert src[f + (k - d)] == Elem(s[k - d]);
    }
    HoldsAppend(dst[..], lo, out, s);
  }

  /** Copy the block `s` at `f..last` and then the single element at `q`. */
  method MoveBlock<T>(src: array<Cell<T>>, f: nat, last: nat, q: nat, dst: array<Cell<T>>, d: nat, ghost lo: nat,
                      ghost out: seq<T>, ghost s: seq<T>, ghost e: T)
    returns (d': nat)
    requires src != dst && f < last && last - f == |s| && Holds(src[..], f, s)
    requires q < src.Length && src[q] == Elem(e) && d + |s| < dst.Length
    requires Holds(dst[..], lo, out) && d == lo + |out|
    modifies dst
    ensures d' == d + |s| + 1 && Holds(dst[..], lo, out + (s + [e]))
    ensures forall k :: 0 <= k < dst.Length && !(d <= k < d') ==> dst[k] == old(dst[k])
  {
    var t := MoveRest(src, f, last, dst, d, lo, out, s);
    dst[t] := src[q];
    d' := t + 1;
    HoldsAppend(dst[..], lo, out + s, [e]);
    assert out + s + [e] == out + (s + [e]);
  }

  lemma HoldsNone<T>(c: seq<Cell<T>>, lo: nat)
    requires lo <= |c|
    ensures Holds(c, lo, [])
  {
  }

  lemma HoldsSlice<T>(c: seq<Cell<T>>, lo: nat, s: seq<T>, i: nat, j: nat)
    requires Holds(c, lo, s) && i <= j <= |s|
    ensures Holds(c, lo + i, s[i..j])
  {
  }

  /** Search the run `s` at `f..last` for the place of the element `e` at `q`, and move what is before it
      and then the element. */
  method TakeBlock<T(!new)>(src: array<Cell<T>>, dst: array<Cell<T>>, cmp: (T, T) -> int, f: nat, last: nat, q: nat,
                            sense: int, d: nat, big0: bool, i0: nat,
                            ghost lo: nat, ghost out: seq<T>, ghost s: seq<T>, ghost e: T)
    returns (k: nat, d': nat, big: bool)
    requires src != dst && TotalPreorder(cmp) && -1 <= sense <= 0
    requires s != [] && Holds(src[..], f, s) && last == f + |s| && Sorted(cmp, s)
    requires q < src.Length && src[q] == Elem(e) && Past(cmp, e, sense, s[0])
    requires Holds(dst[..], lo, out) && d == lo + |out| && d + |s| < dst.Length
    requires !big0 ==> i0 == 0
    modifies dst
    ensures ElemsIn(src[..], f, last) && f < k == LinearScan(cmp, e, sense, src[..], f, last)
    ensures d' == d + (k - f) + 1 && Holds(dst[..], lo, out + (s[..k - f] + [e]))
    ensures forall i :: 0 <= i < dst.Length && !(d <= i < d') ==> dst[i] == old(dst[i])
  {
    assert src[f] == Elem(s[0]);
    SearchReady(cmp, e, sense, src[..], f, s, f);
    k, big := FindSplit(src, cmp, src[q].x, sense, f, last, big0, i0);
    HoldsSlice(src[..], f, s, 0, k - f);
    d' := MoveBlock(src, f, k, q, dst, d, lo, out, s[..k - f], e);
  }

  /** One round of the merge loop: a block of one run and the element of the other run that stops
      it move to `tp2`; `block` is what moved and `a`, `b` are what was left of the two runs. */
  method MergeStep<T(!new)>(list1: array<Cell<T>>, list2: array<Cell<T>>, cmp: (T, T) -> int, f1: nat, l1: nat, f2: nat,
                            l2: nat, tp2: nat, big0: bool, i0: nat,
                            ghost lo: nat, ghost out: seq<T>, ghost a: seq<T>, ghost b: seq<T>)
    returns (g1: nat, g2: nat, tq2: nat, big: bool, i: nat, ghost block: seq<T>)
    requires list1 != list2 && TotalPreorder(cmp) && a != [] && b != []
    requires Holds(list1[..], f1, a) && l1 == f1 + |a| && Sorted(cmp, a)
    requires Holds(list1[..], f2, b) && l2 == f2 + |b| && Sorted(cmp, b)
    requires Holds(list2[..], lo, out) && tp2 == lo + |out| && tp2 + |a| + |b| <= list2.Length
    requires !big0 ==> i0 == 0
    modifies list2
    ensures f1 <= g1 <= l1 && f2 <= g2 <= l2
    ensures tq2 - tp2 == |block| == (g1 - f1) + (g2 - f2) > 0
    ensures Emits(cmp, a, b, block, g1 - f1, g2 - f2)
    ensures Holds(list2[..], lo, out + block)
    ensures forall k :: 0 <= k < list2.Length && !(tp2 <= k < tq2) ==> list2[k] == old(list2[k])
    ensures i == 0
  {
    hide Emits;
    var k: nat;
    assert list1[f1] == Elem(a[0]) && list1[f2] == Elem(b[0]);
    assert l1 <= list1.Length && l2 <= list1.Length;
    Flip(cmp, a[0], b[0]);
    hide Holds, Sorted, Merge, TotalPreorder, LinearScan;
    if cmp(list1[f1].x, list1[f2].x) <= 0 {
      k, tq2, big := TakeBlock(list1, list2, cmp, f1, l1, f2, -1, tp2, big0, i0, lo, out, a, b[0]);
      BlockFromLeft(cmp, list1[..], f1, k, a, b);
      block, g1, g2 := a[..k - f1] + [b[0]], k, f2 + 1;
    } else {
      k, tq2, big := TakeBlock(list1, list2, cmp, f2, l2, f1, 0, tp2, big0, i0, lo, out, b, a[0]);
      BlockFromRight(cmp, list1[..], f2, k, a, b);
      block, g1, g2 := b[..k - f2] + [a[0]], f1 + 1, k;
    }
    i := 0;  // the element copy counts `i` down from the element size
  }

  lemma SortedSlice<T>(cmp: (T, T) -> int, s: seq<T>, lo: nat, hi: nat)
    requires Sorted(cmp, s) && lo <= hi <= |s|
    ensures Sorted(cmp, s[lo..hi])
  {
  }

  /** One round of the merge loop. */
  method MergeRound<T(!new)>(list1: array<Cell<T>>, list2: array<Cell<T>>, cmp: (T, T) -> int, f: nat, f1: nat, l1: nat,
                             f2: nat, l2: nat, tp2: nat,
                             big0: bool, i0: nat, ghost a: seq<T>, ghost b: seq<T>, ghost out: seq<T>)
    returns (g1: nat, g2: nat, tq2: nat, big: bool, i: nat, ghost out': seq<T>)
    requires list1 != list2 && TotalPreorder(cmp)
    requires Holds(list1[..], f, a) && l1 == f + |a| && Sorted(cmp, a)
    requires Holds(list1[..], l1, b) && l2 == l1 + |b| && Sorted(cmp, b)
    requires f <= f1 < l1 <= f2 < l2 <= list2.Length && tp2 - f == |out| == (f1 - f) + (f2 - l1)
    requires Emits(cmp, a, b, out, f1 - f, f2 - l1) && Holds(list2[..], f, out)
    requires !big0 ==> i0 == 0
    modifies list2
    ensures f1 <= g1 <= l1 && f2 <= g2 <= l2 && g1 + g2 > f1 + f2 && tq2 - f == |out'| == (g1 - f) + (g2 - l1)
    ensures Emits(cmp, a, b, out', g1 - f, g2 - l1) && Holds(list2[..], f, out')
    ensures forall k :: 0 <= k < list2.Length && !(f <= k < tq2) ==> list2[k] == old(list2[k])
    ensures i == 0
  {
    hide Emits;
    ghost var ra, rb, block := a[f1 - f..], b[f2 - l1..], [];
    HoldsSlice(list1[..], f, a, f1 - f, |a|);
    HoldsSlice(list1[..], l1, b, f2 - l1, |b|);
    SortedSlice(cmp, a, f1 - f, |a|);
    SortedSlice(cmp, b, f2 - l1, |b|);
    g1, g2, tq2, big, i, block := MergeStep(list1, list2, cmp, f1, l1, f2, l2, tp2, big0, i0, f, out, ra, rb);
    EmitsMore(cmp, a, b, out, f1 - f, f2 - l1, block, g1 - f1, g2 - f2);
    out' := out + block;
  }

  /** Merge the neighbouring runs `a` at `f` and `b` right behind it from `list1` into the same
      slots of `list2`; `b` is empty when the last run has no partner. */
  method MergePair<T(!new)>(list1: array<Cell<T>>, list2: array<Cell<T>>, cmp: (T, T) -> int, f: nat, l1: nat, l2: nat,
                            big0: bool, i0: nat,
                            ghost a: seq<T>, ghost b: seq<T>) returns (big: bool, i: nat)
    requires list1 != list2 && TotalPreorder(cmp)
    requires Holds(list1[..], f, a) && l1 == f + |a| && Sorted(cmp, a)
    requires Holds(list1[..], l1, b) && l2 == l1 + |b| && Sorted(cmp, b)
    requires f < l1 && l2 <= list2.Length
    requires !big0 ==> i0 == 0
    modifies list2
    ensures |Merge(cmp, a, b)| == l2 - f && Holds(list2[..], f, Merge(cmp, a, b))
    ensures forall k :: 0 <= k < list2.Length && !(f <= k < l2) ==> list2[k] == old(list2[k])
    ensures !big ==> i == 0
  {
    hide Emits, Holds, Sorted, Merge, TotalPreorder;
    MergeMembers(cmp, a, b);
    HoldsNone(list2[..], f);
    EmitsNothing(cmp, a, b);
    big, i := big0, i0;
    var f1, f2, tp2 := f, l1, f;
    ghost var out: seq<T> := [];
    while f1 < l1 && f2 < l2
      invariant f <= f1 <= l1 <= f2 <= l2
      invariant tp2 - f == |out| == (f1 - f) + (f2 - l1)
      invariant Emits(cmp, a, b, out, f1 - f, f2 - l1)
      invariant Holds(list2[..], f, out)
      invariant forall k :: 0 <= k < list2.Length && !(f <= k < tp2) ==> list2[k] == old(list2[k])
      invariant !big ==> i == 0
    {
      f1, f2, tp2, big, i, out := MergeRound(list1, list2, cmp, f, f1, l1, f2, l2, tp2, big, i, a, b, out);
    }
    EmitsRest(cmp, a, b, out, f1 - f, f2 - l1);
    if f2 < l2 {
      HoldsSlice(list1[..], l1, b, f2 - l1, |b|);
      tp2 := MoveRest(list1, f2, l2, list2, tp2, f, out, b[f2 - l1..]);
    } else if f1 < l1 {
      HoldsSlice(list1[..], f, a, f1 - f, |a|);
      tp2 := MoveRest(list1, f1, l1, list2, tp2, f, out, a[f1 - f..]);
    }
  }

  // ----- the pass

  /** The merged run joins the output: elements, order and stability. */
  lemma PassStep<T(!new)>(cmp: (T, T) -> int, s: seq<T>, out: seq<T>, a: seq<T>, b: seq<T>, f: nat, l2: nat)
    requires TotalPreorder(cmp) && Sorted(cmp, a) && Sorted(cmp, b)
    requires f == |out| <= l2 <= |s| && Stable(cmp, out, s[..f]) && s[f..l2] == a + b
    ensures Stable(cmp, out + Merge(cmp, a, b), s[..l2]) && Sorted(cmp, Merge(cmp, a, b))
    ensures |Merge(cmp, a, b)| == l2 - f
  {
    MergeIsStableSort(cmp, a, b);
    MergeMembers(cmp, a, b);
    StableConcat(cmp, out, s[..f], Merge(cmp, a, b), a + b);
    assert s[..f] + s[f..l2] == s[..l2];
  }

  /** A finished run at the end of the list extends the run list; `next` may also have lost the
      contents of the slots from `f` on. */
  lemma RunsExtend<T>(cmp: (T, T) -> int, s: seq<T>, links: seq<Cell<T>>, bs: seq<nat>, f: nat, s': seq<T>,
                      links': seq<Cell<T>>, l: nat)
    requires Runs(cmp, s, links, bs, f, 2) && f <= |s'| && s[..f] == s'[..f]
    requires f + 2 <= l <= |s'| && Sorted(cmp, s'[f..l])
    requires f < |links'| && links'[f] == Link(l)
    requires forall k :: 0 <= k < f && k < |links| ==> k < |links'| && links'[k] == links[k]
    ensures Runs(cmp, s', links', bs + [l], l, 2)
  {
    var cs := bs + [l];
    forall i | 0 <= i < |cs| - 1 ensures RunAt(cmp, s', links', cs[i], cs[i + 1], 2) {
      if i < |bs| - 1 {
        assert RunAt(cmp, s, links, bs[i], bs[i + 1], 2);
        BoundariesBelow(cmp, s, links, bs, f, 2, i + 1);
        assert s'[bs[i]..bs[i + 1]] == s'[..f][bs[i]..bs[i + 1]] == s[bs[i]..bs[i + 1]];
      }
    }
  }

  /** The state between two merges: everything before boundary `bs[j]` is merged into `list2`, the
      pointers of the merged runs are in `list1`; behind it nothing has been overwritten yet. */
  ghost predicate Between<T(!new)>(cmp: (T, T) -> int, c1: seq<Cell<T>>, c2: seq<Cell<T>>, s: seq<T>, bs: seq<nat>,
                                   links: seq<Cell<T>>, j: nat, out: seq<T>, cs: seq<nat>) {
    && j < |bs| && |out| == bs[j] <= |s| && |links| == |c2|
    && Holds(c2, 0, out) && Stable(cmp, out, s[..|out|])
    && (forall k :: |out| <= k < |s| && k < |c1| ==> c1[k] == Elem(s[k]))
    && (forall k :: |out| <= k < |c2| ==> c2[k] == links[k])
    && Runs(cmp, out, c1, cs, |out|, 2)
    && |cs| - 1 == (j + 1) / 2 && (j % 2 == 0 || j == |bs| - 1)
  }

  /** One pass over the run list `bs`: the runs are merged two by two, so their number is halved,
      rounding up, and every run pointer is read before its slots are overwritten. */
  method MergeRuns<T(!new)>(list1: array<Cell<T>>, list2: array<Cell<T>>, n: nat, cmp: (T, T) -> int, big0: bool,
                            i0: nat, ghost s: seq<T>, ghost bs: seq<nat>)
    returns (big: bool, i: nat, ghost out: seq<T>, ghost cs: seq<nat>)
    requires list1 != list2 && TotalPreorder(cmp)
    requires |s| == n && Holds(list1[..], 0, s) && n <= list2.Length
    requires Runs(cmp, s, list2[..], bs, n, 2) && |bs| > 2
    requires !big0 ==> i0 == 0
    modifies list1, list2
    ensures |out| == n && Holds(list2[..], 0, out) && Stable(cmp, out, s)
    ensures Runs(cmp, out, list1[..], cs, n, 2)
    ensures |cs| - 1 == |bs| / 2
    ensures !big ==> i == 0
  {
    big, i, out, cs := big0, i0, [], [0];
    var l2, p1, p2 := 0, 0, 0;
    ghost var j, links := 0, list2[..];
    while p2 != n
      invariant p1 == p2 == l2 <= n
      invariant j < |bs| && p2 == bs[j]
      invariant Between(cmp, list1[..], list2[..], s, bs, links, j, out, cs)
      invariant !big ==> i == 0
      decreases |bs| - j
    {
      big, i, l2, out, cs := MergeTwo(list1, list2, n, cmp, p2, big, i, s, bs, links, j, out, cs);
      j := if j + 2 < |bs| then j + 2 else j + 1;
      p1, p2 := l2, l2;
    }
    if j < |bs| - 1 { BoundariesAscend(cmp, s, links, bs, n, 2, j, |bs| - 1); }
    assert s[..n] == s;
  }

  /** Read one run pointer or two, before the slots that hold them are overwritten. */
  method ReadPointers<T(!new)>(list2: array<Cell<T>>, n: nat, cmp: (T, T) -> int, p: nat, ghost s: seq<T>,
                               ghost bs: seq<nat>,
                               ghost links: seq<Cell<T>>, ghost j: nat) returns (l1: nat, l2: nat)
    requires TotalPreorder(cmp) && |s| == n <= list2.Length == |links| && Runs(cmp, s, links, bs, n, 2)
    requires j < |bs| - 1 && p == bs[j]
    requires forall k :: p <= k < |links| ==> list2[k] == links[k]
    ensures p + 2 <= l1 <= l2 <= n && l1 == bs[j + 1] && l2 == bs[if j + 2 < |bs| then j + 2 else j + 1]
    ensures Sorted(cmp, s[p..l1]) && Sorted(cmp, s[l1..l2])
  {
    assert RunAt(cmp, s, links, bs[j], bs[j + 1], 2);
    BoundariesBelow(cmp, s, links, bs, n, 2, j + 1);
    if j + 2 < |bs| { BoundariesAscend(cmp, s, links, bs, n, 2, j + 1, j + 2); }
    var p2 := list2[p].next;
    l1 := p2;
    if p2 != n {
      assert j + 2 < |bs|;
      assert RunAt(cmp, s, links, bs[j + 1], bs[j + 1 + 1], 2);
      BoundariesBelow(cmp, s, links, bs, n, 2, j + 2);
      p2 := list2[p2].next;
    }
    l2 := p2;
  }

  /** One round of the pass: read one or two run pointers at `p2`, merge, and store the pointer of
      the merged run. */
  method MergeTwo<T(!new)>(list1: array<Cell<T>>, list2: array<Cell<T>>, n: nat, cmp: (T, T) -> int, p: nat, big0: bool,
                           i0: nat, ghost s: seq<T>, ghost bs: seq<nat>, ghost links: seq<Cell<T>>, ghost j: nat,
                           ghost out: seq<T>, ghost cs: seq<nat>)
    returns (big: bool, i: nat, l2: nat, ghost out': seq<T>, ghost cs': seq<nat>)
    requires list1 != list2 && TotalPreorder(cmp)
    requires |s| == n <= list1.Length && n <= list2.Length
    requires Runs(cmp, s, links, bs, n, 2)
    requires j < |bs| - 1 && p == bs[j]
    requires Between(cmp, list1[..], list2[..], s, bs, links, j, out, cs)
    requires !big0 ==> i0 == 0
    modifies list1, list2
    ensures Between(cmp, list1[..], list2[..], s, bs, links, if j + 2 < |bs| then j + 2 else j + 1, out', cs')
    ensures l2 == bs[if j + 2 < |bs| then j + 2 else j + 1] <= n
    ensures !big ==> i == 0
  {
    ghost var c1, c2 := list1[..], list2[..];
    var f1, l1 := p, 0;
    l1, l2 := ReadPointers(list2, n, cmp, p, s, bs, links, j);
    ghost var a, b := s[f1..l1], s[l1..l2];
    big, i := MergePair(list1, list2, cmp, f1, l1, l2, big0, i0, a, b);
    out', cs' := out + Merge(cmp, a, b), cs + [l2];
    PutLink(list1, f1, l2);
    BetweenNext(cmp, c1, c2, list1[..], list2[..], s, bs, links, j, out, cs, l1, l2);
  }

  /** The state after the merge of the runs `bs[j]..l1` and `l1..l2`. */
  lemma BetweenNext<T(!new)>(cmp: (T, T) -> int, c1: seq<Cell<T>>, c2: seq<Cell<T>>, c1': seq<Cell<T>>,
                             c2': seq<Cell<T>>, s: seq<T>, bs: seq<nat>, links: seq<Cell<T>>, j: nat, out: seq<T>,
                             cs: seq<nat>, l1: nat, l2: nat)
    requires TotalPreorder(cmp) && Between(cmp, c1, c2, s, bs, links, j, out, cs) && j < |bs| - 1
    requires |out| + 2 <= l1 <= l2 <= |s| <= |c1| && l2 == bs[if j + 2 < |bs| then j + 2 else j + 1]
    requires Sorted(cmp, s[|out|..l1]) && Sorted(cmp, s[l1..l2])
    requires Holds(c2', |out|, Merge(cmp, s[|out|..l1], s[l1..l2])) && |c2'| == |c2|
    requires |Merge(cmp, s[|out|..l1], s[l1..l2])| == l2 - |out|
    requires forall k :: 0 <= k < |c2| && !(|out| <= k < l2) ==> c2'[k] == c2[k]
    requires c1' == c1[|out| := Link(l2)][|out| + 1 := Raw]
    ensures Between(cmp, c1', c2', s, bs, links, if j + 2 < |bs| then j + 2 else j + 1,
                    out + Merge(cmp, s[|out|..l1], s[l1..l2]), cs + [l2])
  {
    hide Stable, Merge, Sorted, TotalPreorder, Runs;
    var f, a, b := |out|, s[|out|..l1], s[l1..l2];
    assert s[f..l2] == a + b;
    PassStep(cmp, s, out, a, b, f, l2);
    var m := Merge(cmp, a, b);
    assert Holds(c2', 0, out + m) by { HoldsAppend(c2', 0, out, m); }
    assert (out + m)[f..l2] == m && (out + m)[..f] == out[..f];
    RunsExtend(cmp, out, c1, cs, f, out + m, c1', l2);
  }
}
