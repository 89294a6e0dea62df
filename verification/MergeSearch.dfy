/** The split search inside one merge step: linear scan, exponential search, binary search and
    the power-of-two shortcut all return the index a plain linear scan returns. */
module MergeSearch {

  /** One element-sized slot of list memory. The first slots of a run hold a run pointer while the
      run's elements live in the other list; a pointer may spill over into the following slot. */
  datatype Cell<+T> = Elem(x: T) | Link(next: nat) | Raw

  /** `x` lies before the place where `q` goes. */
  predicate Past<T>(cmp: (T, T) -> int, q: T, sense: int, x: T) {
    cmp(q, x) > sense
  }

  ghost predicate ElemsIn<T>(c: seq<Cell<T>>, lo: nat, hi: nat) {
    lo <= hi <= |c| && forall k :: lo <= k < hi ==> c[k].Elem?
  }

  /** Once `q`'s place is reached it is never passed again, as in a sorted run. */
  ghost predicate Prefixed<T>(cmp: (T, T) -> int, q: T, sense: int, c: seq<Cell<T>>, lo: nat, hi: nat)
    requires ElemsIn(c, lo, hi)
  {
    forall j, k :: lo <= j < k < hi && Past(cmp, q, sense, c[k].x) ==> Past(cmp, q, sense, c[j].x)
  }

  /** The plain linear scan: the first index in `b..t` that does not lie before `q`'s place. */
  ghost function LinearScan<T>(cmp: (T, T) -> int, q: T, sense: int, c: seq<Cell<T>>, b: nat, t: nat): (k: nat)
    requires ElemsIn(c, b, t)
    ensures b <= k <= t
    ensures forall j :: b <= j < k ==> Past(cmp, q, sense, c[j].x)
    ensures k < t ==> !Past(cmp, q, sense, c[k].x)
    decreases t - b
  {
    if b < t && Past(cmp, q, sense, c[b].x) then LinearScan(cmp, q, sense, c, b + 1, t) else b
  }

  ghost predicate Pow2(i: nat) {
    i == 1 || (i > 1 && i % 2 == 0 && Pow2(i / 2))
  }

  /** Doubling steps from `b0`: the place of `q` is in `b..t`, and `fast` says that it is a power of two
      away from both ends. */
  method Gallop<T>(list: array<Cell<T>>, cmp: (T, T) -> int, q: T, sense: int, b0: nat, t0: nat, big0: bool)
    returns (b: nat, t: nat, i: nat, fast: bool, big: bool)
    requires b0 < t0 && ElemsIn(list[..], b0, t0) && Past(cmp, q, sense, list[b0].x)
    ensures b0 <= b < t <= t0 && Past(cmp, q, sense, list[b].x) && (t < t0 ==> !Past(cmp, q, sense, list[t].x))
    ensures fast ==> t == b + i < t0 && Pow2(i) && (i == 1 <==> b == b0)
    ensures !fast && b == b0 ==> t == t0 == b0 + 1
    ensures big <==> big0 && !(fast && b == b0)
  {
    b, big, t, i, fast := b0, big0, t0, 1, false;
    while true
      invariant b0 <= b < t == t0 && Pow2(i) && !fast
      invariant big == big0 && (i == 1 <==> b == b0)
      invariant Past(cmp, q, sense, list[b].x)
      decreases t0 - b
    {
      if b + i >= t {
        var p := t - 1;
        if p > b && !Past(cmp, q, sense, list[p].x) { t := p; } else { b := p; }
        break;
      } else if !Past(cmp, q, sense, list[b + i].x) {
        t := b + i;
        if i == 1 { big := false; }
        fast := true;
        break;
      } else {
        b := b + i;
      }
      i := 2 * i;
    }
  }

  /** Exponential search from `b0`, closed by halving (FASTCASE) or by binary search. */
  method ExponentialSearch<T>(list: array<Cell<T>>, cmp: (T, T) -> int, q: T, sense: int, b0: nat, t0: nat, big0: bool)
    returns (b: nat, big: bool)
    requires b0 < t0 && ElemsIn(list[..], b0, t0)
    requires Prefixed(cmp, q, sense, list[..], b0, t0)
    requires Past(cmp, q, sense, list[b0].x)
    ensures b == LinearScan(cmp, q, sense, list[..], b0, t0)
    ensures big <==> big0 && !(b == b0 + 1 < t0)
  {
    var t: nat, i: nat, fast: bool;
    b, t, i, fast, big := Gallop(list, cmp, q, sense, b0, t0, big0);
    ghost var b1 := b;
    if fast {
      while i > 1
        invariant b1 <= b && t == b + i < t0 && Pow2(i) && (b1 == b0 ==> i == 1)
        invariant Past(cmp, q, sense, list[b].x) && !Past(cmp, q, sense, list[t].x)
      {
        i := i / 2;
        if !Past(cmp, q, sense, list[b + i].x) { t := b + i; } else { b := b + i; }
      }
    } else {
      while t > b + 1
        invariant b1 <= b < t <= t0 && (b1 == b0 ==> t == t0 == b0 + 1)
        invariant Past(cmp, q, sense, list[b].x)
        invariant t < t0 ==> !Past(cmp, q, sense, list[t].x)
        decreases t - b
      {
        i := (t - b) / 2;
        if !Past(cmp, q, sense, list[b + i].x) { t := b + i; } else { b := b + i; }
      }
    }
    SplitIsLinearScan(cmp, q, sense, list[..], b0, t, t0);
    b := t;
  }

  lemma SplitIsLinearScan<T>(cmp: (T, T) -> int, q: T, sense: int, c: seq<Cell<T>>, b: nat, k: nat, t: nat)
    requires ElemsIn(c, b, t) && Prefixed(cmp, q, sense, c, b, t)
    requires b < k <= t
    requires Past(cmp, q, sense, c[k - 1].x)
    requires k < t ==> !Past(cmp, q, sense, c[k].x)
    ensures k == LinearScan(cmp, q, sense, c, b, t)
  {
    var l := LinearScan(cmp, q, sense, c, b, t);
    assert !(l < k);
  }

  /** The whole search: a linear scan that gives up after six steps, or, once `big` is set,
      exponential search at once. `i` counts the linear steps and must start at zero. */
  method FindSplit<T>(list: array<Cell<T>>, cmp: (T, T) -> int, q: T, sense: int, b0: nat, t0: nat, big0: bool, i0: nat)
    returns (b: nat, big: bool)
    requires b0 < t0 && ElemsIn(list[..], b0, t0)
    requires Prefixed(cmp, q, sense, list[..], b0, t0)
    requires Past(cmp, q, sense, list[b0].x)
    requires !big0 ==> i0 == 0
    ensures b == LinearScan(cmp, q, sense, list[..], b0, t0)
    ensures big <==> if big0 then !(b == b0 + 1 < t0) else b - b0 >= 7 && !(b == b0 + 7 < t0)
  {
    b, big := b0, big0;
    var i := i0;
    if !big {
      b := b + 1;
      while b < t0 && Past(cmp, q, sense, list[b].x)
        invariant b0 < b <= t0 && i == b - 1 - b0 && i < 6
        invariant Past(cmp, q, sense, list[b - 1].x)
        decreases t0 - b
      {
        i := i + 1;
        if i == 6 {
          var k: nat;
          big := true;
          k, big := ExponentialSearch(list, cmp, q, sense, b, t0, big);
          SplitIsLinearScan(cmp, q, sense, list[..], b0, k, t0);
          b := k;
          return;
        }
        b := b + 1;
      }
      SplitIsLinearScan(cmp, q, sense, list[..], b0, b, t0);
    } else {
      b, big := ExponentialSearch(list, cmp, q, sense, b0, t0, big);
    }
  }
}
