/** The doubly linked list of header lines, changed in place. */
module HeaderList {

  function Lower(c: char): char {
    if 'A' <= c <= 'Z' then (c as int + 32) as char else c
  }

  /** `strncasecmp(a, b, n) == 0`: a NUL ends the comparison. */
  predicate SameNoCase(a: string, b: string, n: nat)
    requires n <= |a| && n <= |b|
    decreases n
  {
    n == 0 || (Lower(a[0]) == Lower(b[0]) && (a[0] == '\0' || SameNoCase(a[1..], b[1..], n - 1)))
  }

  /** The test of `sapi_remove_header`. */
  predicate Matches(header: string, name: string) {
    |header| > |name| && header[|name|] == ':' && SameNoCase(header, name, |name|)
  }

  /** The headers that `sapi_remove_header` leaves, in order. */
  function Without(hs: seq<string>, name: string): seq<string> {
    if hs == [] then []
    else Without(hs[..|hs| - 1], name) + if Matches(hs[|hs| - 1], name) then [] else [hs[|hs| - 1]]
  }

  lemma WithoutNext(hs: seq<string>, n: nat, name: string)
    requires n < |hs|
    ensures Without(hs[..n + 1], name) == Without(hs[..n], name) + if Matches(hs[n], name) then [] else [hs[n]]
  {
    assert hs[..n + 1][..n] == hs[..n];
  }

  /** Nothing that is left matches, and what does not match is left. */
  lemma {:induction false} WithoutKeeps(hs: seq<string>, name: string)
    ensures forall h :: h in Without(hs, name) <==> h in hs && !Matches(h, name)
    ensures (forall h :: h in hs ==> !Matches(h, name)) ==> Without(hs, name) == hs
  {
    hide Matches;
    if hs != [] {
      var init, last := hs[..|hs| - 1], hs[|hs| - 1];
      WithoutKeeps(init, name);
      assert hs == init + [last];
    }
  }

  class Node {
    const header: string
    var prev: Node?
    var next: Node?

    constructor (header: string, prev: Node?)
      ensures this.header == header && this.prev == prev && next == null
    {
      this.header, this.prev, next := header, prev, null;
    }
  }

  /** Node `i`, or NULL outside the list. */
  ghost function Nth(nodes: seq<Node>, i: int): Node? {
    if 0 <= i < |nodes| then nodes[i] else null
  }

  lemma NthWithout(nodes: seq<Node>, i: nat, k: int)
    requires i < |nodes|
    ensures Nth(nodes[..i] + nodes[i + 1..], k) == Nth(nodes, if k < i then k else k + 1)
  {
  }

  lemma Distinct(nodes: seq<Node>, i: int, k: nat)
    requires (forall i, j :: 0 <= i < j < |nodes| ==> nodes[i] != nodes[j]) && k < |nodes|
    ensures (k != i ==> Nth(nodes, i) != nodes[k]) && Nth(nodes, k) == nodes[k]
  {
  }

  class List {
    var head: Node?
    var tail: Node?
    var count: nat
    ghost var nodes: seq<Node>
    ghost var repr: set<Node>   // every node that ever was in the list

    /** The links, the ends and the count all describe `nodes`. */
    ghost predicate Valid()
      reads this, repr
    {
      && (forall i :: 0 <= i < |nodes| ==> nodes[i] in repr)
      && (forall i, j :: 0 <= i < j < |nodes| ==> nodes[i] != nodes[j])
      && head == At(0) && tail == At(|nodes| - 1) && count == |nodes|
      && (forall i :: 0 <= i < |nodes| ==> LinkOk(i))
    }

    ghost predicate LinkOk(i: nat)
      reads this, repr
    {
      i < |nodes| && nodes[i] in repr && nodes[i].prev == At(i - 1) && nodes[i].next == At(i + 1)
    }

    ghost function At(i: int): Node?
      reads this
    {
      Nth(nodes, i)
    }

    /** The header lines in order. */
    ghost function Contents(): (hs: seq<string>)
      reads this
      ensures |hs| == |nodes| && forall i :: 0 <= i < |hs| ==> hs[i] == nodes[i].header
    {
      seq(|nodes|, i requires 0 <= i < |nodes| reads this => nodes[i].header)
    }

    constructor ()
      ensures Valid() && Contents() == [] && repr == {}
    {
      head, tail, count, nodes, repr := null, null, 0, [], {};
    }

    /** `zend_llist_add_element`. */
    method Add(header: string)
      requires Valid()
      modifies this, repr
      ensures Valid() && Contents() == old(Contents()) + [header]
      ensures fresh(repr - old(repr))
    {
      ghost var n, hs := |nodes|, Contents();
      assert n > 0 ==> LinkOk(n - 1);
      var tmp := new Node(header, tail);
      if tail != null {
        tail.next := tmp;
      } else {
        head := tmp;
      }
      tail := tmp;
      count := count + 1;
      nodes, repr := nodes + [tmp], repr + {tmp};
      forall i | 0 <= i <= n ensures LinkOk(i) {
        if i < n { assert old(LinkOk(i)); }
      }
      assert Contents() == hs + [header];
    }

    /** `zend_llist_clean`. */
    method Clean()
      requires Valid()
      modifies this
      ensures Valid() && Contents() == [] && repr == old(repr)
    {
      head, tail, count, nodes := null, null, 0, [];
    }

    /** Node `k` is linked as if node `i` were not there. */
    ghost predicate PastOk(i: nat, k: nat)
      reads this, repr
    {
      && k < |nodes| && nodes[k] in repr && nodes[k].next == At(if k == i - 1 then i + 1 else k + 1)
      && nodes[k].prev == At(if k == i + 1 then i - 1 else k - 1)
    }

    /** Make the neighbours of node `i` point past it. */
    method Bypass(current: Node, ghost i: nat)
      requires Valid() && i < |nodes| && nodes[i] == current
      modifies this`head, this`tail, repr
      ensures forall k :: 0 <= k < |nodes| && k != i ==> PastOk(i, k)
      ensures head == At(if i == 0 then 1 else 0) && tail == At(if i == |nodes| - 1 then i - 1 else |nodes| - 1)
    {
      assert LinkOk(i) && (i > 0 ==> LinkOk(i - 1)) && (i + 1 < |nodes| ==> LinkOk(i + 1));
      var next := current.next;
      if current.prev != null {
        current.prev.next := next;
      } else {
        head := next;
      }
      if next != null {
        next.prev := current.prev;
      } else {
        tail := current.prev;
      }
      hide Nth;
      forall k | 0 <= k < |nodes| && k != i ensures PastOk(i, k) {
        assert old(LinkOk(k));
        Distinct(nodes, i - 1, k);
        Distinct(nodes, i + 1, k);
      }
    }

    /** Take node `i` out of the chain. */
    method Unlink(current: Node, ghost i: nat)
      requires Valid() && i < |nodes| && nodes[i] == current
      modifies this, repr
      ensures Valid() && repr == old(repr) && nodes == old(nodes[..i] + nodes[i + 1..])
      ensures Contents() == old(Contents()[..i] + Contents()[i + 1..]) && At(i) == old(At(i + 1))
    {
      ghost var before, hs := nodes, Contents();
      Bypass(current, i);
      Forget(i);
      hide Valid;
      ContentsAre(hs[..i] + hs[i + 1..]);
    }

    /** Node `i`, which nothing points to any more, is gone. */
    method Forget(ghost i: nat)
      requires i < |nodes| == count && (forall k :: 0 <= k < |nodes| ==> nodes[k] in repr)
      requires forall k, j :: 0 <= k < j < |nodes| ==> nodes[k] != nodes[j]
      requires forall k :: 0 <= k < |nodes| && k != i ==> PastOk(i, k)
      requires head == At(if i == 0 then 1 else 0) && tail == At(if i == |nodes| - 1 then i - 1 else |nodes| - 1)
      modifies this`nodes, this`count
      ensures Valid() && nodes == old(nodes[..i] + nodes[i + 1..]) && At(i) == old(At(i + 1))
    {
      ghost var before := nodes;
      count := count - 1;
      nodes := nodes[..i] + nodes[i + 1..];
      hide Nth;
      NthWithout(before, i, 0);
      NthWithout(before, i, i);
      NthWithout(before, i, |nodes| - 1);
      forall k | 0 <= k < |nodes| ensures LinkOk(k) {
        assert old(PastOk(i, if k < i then k else k + 1));
        NthWithout(before, i, k - 1);
        NthWithout(before, i, k + 1);
        assert nodes[k] == if k < i then before[k] else before[k + 1];
      }
    }

    lemma ContentsAre(hs: seq<string>)
      requires |hs| == |nodes| && forall k :: 0 <= k < |hs| ==> nodes[k].header == hs[k]
      ensures Contents() == hs
    {
    }

    /** `sapi_remove_header`: every matching header goes, and the others stay in order. */
    method Remove(name: string)
      requires Valid()
      modifies this, repr
      ensures Valid() && Contents() == Without(old(Contents()), name)
      ensures repr == old(repr)
    {
      hide Without, Matches, Valid, At, Partly;
      ghost var hs, i, m := Contents(), 0, 0;
      Start();
      WithoutStart(hs, name);
      var current := head;
      while current != null
        invariant Valid() && repr == old(repr) && 0 <= i <= |nodes| && 0 <= m <= |hs| && current == At(i)
        invariant |nodes| - i == |hs| - m && Partly(hs, Contents(), name, m, i)
        decreases |nodes| - i
      {
        Cursor(current, i);
        PartlyNext(hs, Contents(), name, m, i);
        ghost var left;
        current, left := Visit(current, name, i);
        if left { i := i + 1; }
        m := m + 1;
      }
      Cursor(current, i);
      PartlyEnd(hs, Contents(), name, m, i);
    }

    lemma Start()
      requires Valid()
      ensures head == At(0)
    {
    }

    lemma Cursor(current: Node?, i: nat)
      requires i <= |nodes| && current == At(i)
      ensures if current == null then i == |nodes| else i < |nodes| && nodes[i] == current
    {
    }

    /** One round of the removing loop. */
    method Visit(current: Node, name: string, ghost i: nat) returns (next: Node?, ghost left: bool)
      requires Valid() && i < |nodes| && nodes[i] == current
      modifies this, repr
      ensures Valid() && repr == old(repr) && (left <==> !Matches(old(Contents())[i], name))
      ensures |nodes| == old(|nodes|) - (if left then 0 else 1) && next == At(if left then i + 1 else i)
      ensures Contents() == if left then old(Contents()) else old(Contents()[..i] + Contents()[i + 1..])
    {
      assert LinkOk(i) && current.header == Contents()[i];
      next := current.next;
      left := true;
      if Matches(current.header, name) {
        Unlink(current, i);
        left := false;
      }
    }
  }

  /** The first `m` headers are done, and `i` of them are left. */
  ghost predicate Partly(hs: seq<string>, now: seq<string>, name: string, m: nat, i: nat) {
    m <= |hs| && i == |Without(hs[..m], name)| && now == Without(hs[..m], name) + hs[m..]
  }

  lemma WithoutStart(hs: seq<string>, name: string)
    ensures Partly(hs, hs, name, 0, 0)
  {
    assert hs[..0] == [] && [] + hs == hs;
  }

  lemma PartlyEnd(hs: seq<string>, now: seq<string>, name: string, m: nat, i: nat)
    requires Partly(hs, now, name, m, i) && m == |hs|
    ensures now == Without(hs, name)
  {
    assert hs[..m] == hs && hs[m..] == [] && Without(hs, name) + [] == Without(hs, name);
  }

  lemma PartlyNext(hs: seq<string>, now: seq<string>, name: string, m: nat, i: nat)
    requires Partly(hs, now, name, m, i) && m < |hs|
    ensures i < |now| && now[i] == hs[m]
    ensures if Matches(now[i], name) then Partly(hs, now[..i] + now[i + 1..], name, m + 1, i)
      else Partly(hs, now, name, m + 1, i + 1)
  {
    WithoutNext(hs, m, name);
    var kept := Without(hs[..m], name);
    assert hs[m..] == [hs[m]] + hs[m + 1..];
    assert now[..i] == kept && now[i + 1..] == hs[m + 1..];
    assert kept + ([hs[m]] + hs[m + 1..]) == kept + [hs[m]] + hs[m + 1..];
  }
}
