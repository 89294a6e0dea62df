/** The environment hash of a request: chained buckets in blocks, strings in the arena. */
module FcgiHash {
  import opened Common
  import opened FcgiRecord
  import opened FcgiArena
  import opened FcgiTable

  /** A bucket; `next` and `listNext` are indices of older buckets, or NULL. */
  datatype Bucket = Bucket(hash: nat, name: Str, value: Option<Str>, next: int, listNext: int)

  // ----- chains as values

  /** Every link leads to an older bucket. */
  ghost predicate Down(bs: seq<Bucket>) {
    forall i :: 0 <= i < |bs| ==> NULL <= bs[i].next < i
  }

  ghost function Chain(bs: seq<Bucket>, i: int): seq<int>
    requires Down(bs) && NULL <= i < |bs|
    decreases i
  {
    if i == NULL then [] else [i] + Chain(bs, bs[i].next)
  }

  lemma {:induction false} ChainBelow(bs: seq<Bucket>, i: int, j: int)
    requires Down(bs) && NULL <= i < |bs| && j in Chain(bs, i)
    ensures 0 <= j <= i
    decreases i
  {
    if j != i { ChainBelow(bs, bs[i].next, j); }
  }

  /** A chain does not notice changes outside its own links. */
  lemma {:induction false} ChainFrame(bs: seq<Bucket>, bs': seq<Bucket>, i: int)
    requires Down(bs) && Down(bs') && |bs| <= |bs'| && NULL <= i < |bs|
    requires forall j :: j in Chain(bs, i) && 0 <= j < |bs| ==> bs'[j].next == bs[j].next
    ensures Chain(bs', i) == Chain(bs, i)
    decreases i
  {
    if i != NULL {
      assert i in Chain(bs, i);
      ChainFrame(bs, bs', bs[i].next);
    }
  }

  /** Unlinking the successor of `prev` takes just that bucket out of the chain. */
  lemma {:induction false} ChainUnlink(bs: seq<Bucket>, bs': seq<Bucket>, h: int, prev: int, i: int)
    requires Down(bs) && |bs'| == |bs| && NULL <= h < |bs| && 0 <= prev < |bs|
    requires prev in Chain(bs, h) && bs[prev].next == i != NULL
    requires forall j :: 0 <= j < |bs| ==> bs'[j].next == if j == prev then bs[i].next else bs[j].next
    ensures Down(bs')
    ensures forall j :: j in Chain(bs', h) <==> j in Chain(bs, h) && j != i
    decreases h
  {
    assert Down(bs');
    if h == prev {
      var n := bs[i].next;
      forall j | j in Chain(bs, n) && 0 <= j < |bs| ensures bs'[j].next == bs[j].next { ChainBelow(bs, n, j); }
      ChainFrame(bs, bs', n);
      assert Chain(bs', h) == [h] + Chain(bs, n);
      assert Chain(bs, h) == [h] + ([i] + Chain(bs, n));
      forall j | j in Chain(bs, n) ensures j != i { ChainBelow(bs, n, j); }
    } else {
      ChainUnlink(bs, bs', bs[h].next, prev, i);
      ChainBelow(bs, bs[h].next, prev);
      assert Chain(bs', h) == [h] + Chain(bs', bs[h].next);
      assert Chain(bs, h) == [h] + Chain(bs, bs[h].next);
    }
  }

  /** The chains hang off the table: slot `s` reaches exactly the live buckets that hash to `s`. */
  ghost predicate Linked(bs: seq<Bucket>, table: seq<int>) {
    && Down(bs) && |table| == TABLE_SIZE
    && (forall s :: 0 <= s < TABLE_SIZE ==> NULL <= table[s] < |bs|)
    && (forall s, i :: 0 <= s < TABLE_SIZE && 0 <= i < |bs| ==> (i in Chain(bs, table[s]) <==> InSlot(bs, s, i)))
  }

  ghost predicate InSlot(bs: seq<Bucket>, s: int, i: nat)
    requires i < |bs|
  {
    bs[i].value.Some? && bs[i].hash % TABLE_SIZE == s
  }

  /** A new bucket in front of its chain. */
  lemma LinkNew(bs: seq<Bucket>, table: seq<int>, b: Bucket, s: nat)
    requires Linked(bs, table) && s < TABLE_SIZE && b.hash % TABLE_SIZE == s && b.value.Some? && b.next == table[s]
    ensures Linked(bs + [b], table[s := |bs|])
  {
    var bs', table' := bs + [b], table[s := |bs|];
    assert Down(bs');
    forall t | 0 <= t < TABLE_SIZE ensures Chain(bs', table[t]) == Chain(bs, table[t]) {
      ChainFrame(bs, bs', table[t]);
    }
    assert Chain(bs', |bs|) == [|bs|] + Chain(bs', b.next);
    forall t, i | 0 <= t < TABLE_SIZE && 0 <= i < |bs'| ensures i in Chain(bs', table'[t]) <==> InSlot(bs', t, i) {
      if i < |bs| {
        assert i in Chain(bs, table[t]) <==> InSlot(bs, t, i);
      } else {
        if i in Chain(bs, table[t]) { ChainBelow(bs, table[t], i); }
      }
    }
  }

  /** Deleting bucket `i`: it loses its value and the link that led to it skips it. */
  lemma UnlinkOld(bs: seq<Bucket>, table: seq<int>, i: nat, prev: int, bs': seq<Bucket>, table': seq<int>)
    requires Linked(bs, table) && i < |bs| && bs[i].value.Some?
    requires var s := bs[i].hash % TABLE_SIZE;
             if prev == NULL then table[s] == i && bs' == bs[i := bs[i].(value := None)]
               && table' == table[s := bs[i].next]
             else 0 <= prev < |bs| && prev in Chain(bs, table[s]) && bs[prev].next == i && table' == table
                  && bs' == bs[i := bs[i].(value := None)][prev := bs[prev].(next := bs[i].next)]
    ensures Linked(bs', table')
  {
    var s := bs[i].hash % TABLE_SIZE;
    assert Down(bs') && NULL <= bs[i].next < i;
    forall t, j | 0 <= t < TABLE_SIZE && 0 <= j < |bs| ensures j in Chain(bs', table'[t]) <==> InSlot(bs', t, j) {
      assert j in Chain(bs, table[t]) <==> InSlot(bs, t, j);
      if t != s {
        OtherChain(bs, table, t, prev, s, bs');
      } else if prev == NULL {
        forall k | k in Chain(bs, bs[i].next) ensures k != i { ChainBelow(bs, bs[i].next, k); }
        ChainFrame(bs, bs', bs[i].next);
        assert Chain(bs, table[s]) == [i] + Chain(bs, bs[i].next);
      } else {
        ChainUnlink(bs, bs', table[s], prev, i);
      }
    }
  }

  lemma OtherChain(bs: seq<Bucket>, table: seq<int>, t: nat, prev: int, s: nat, bs': seq<Bucket>)
    requires Linked(bs, table) && t < TABLE_SIZE && s < TABLE_SIZE && t != s && |bs'| == |bs| && Down(bs')
    requires prev != NULL ==> 0 <= prev < |bs| && prev in Chain(bs, table[s])
    requires forall j :: 0 <= j < |bs| && j != prev ==> bs'[j].next == bs[j].next
    ensures Chain(bs', table[t]) == Chain(bs, table[t])
  {
    if prev != NULL { assert InSlot(bs, s, prev); }
    forall j | j in Chain(bs, table[t]) && 0 <= j < |bs| ensures bs'[j].next == bs[j].next {
      assert InSlot(bs, t, j);
    }
    ChainFrame(bs, bs', table[t]);
  }

  lemma VisitNext(es: seq<Entry>, p: nat, calls: seq<(Key, seq<byte>)>)
    requires p < |es|
    ensures calls + Visits(es[..p + 1])
         == if es[p].value.Some? then calls + [(es[p].key, es[p].value.value)] + Visits(es[..p])
           else calls + Visits(es[..p])
  {
    assert es[..p + 1][..p] == es[..p];
  }

  lemma VisitsNone(es: seq<Entry>, calls: seq<(Key, seq<byte>)>)
    ensures calls + Visits(es[..0]) == calls
  {
  }

  // ----- the hash

  class Env {
    const table: array<int>       // newest bucket of each slot, or NULL
    const arena: Arena
    var buckets: seq<Bucket>      // all blocks in allocation order
    var list: int                 // newest bucket of all, or NULL
    var blocks: nat
    var idx: nat                  // buckets used in the newest block
    ghost var entries: seq<Entry> // what the buckets mean

    ghost function Repr(): set<object>
      reads this, arena
    {
      {this, table, arena} + set s | s in arena.segs
    }

    /** Bucket `b` stores entry `e` in the arena. */
    ghost predicate Stores(b: Bucket, e: Entry)
      reads arena
    {
      && b.hash == e.key.hash && (b.name, e.key.name) in arena.handed
      && (b.value.Some? <==> e.value.Some?)
      && (b.value.Some? ==> (b.value.value, e.value.value) in arena.handed)
    }

    ghost predicate Valid()
      reads Repr()
    {
      && arena.Valid() && Linked(buckets, table[..]) && Distinct(entries)
      && |entries| == |buckets| == list + 1
      && 1 <= blocks && idx <= TABLE_SIZE && |buckets| == (blocks - 1) * TABLE_SIZE + idx
      && (forall i :: 0 <= i < |buckets| ==> buckets[i].listNext == i - 1)
      && (forall i :: 0 <= i < |buckets| ==> Stores(buckets[i], entries[i]))
    }

    constructor ()
      ensures Valid() && entries == [] && fresh(Repr())
    {
      table := new int[TABLE_SIZE](_ => NULL);
      arena := new Arena();
      buckets, list, blocks, idx, entries := [], NULL, 1, 0, [];
    }

    /** `memcmp(p->var, var, var_len) == 0` together with the length test. */
    predicate SameText(s: Str, text: seq<byte>)
      reads arena, arena.segs
      requires s.seg < |arena.segs| && s.off + s.len <= arena.segs[s.seg].Length
    {
      s.len == |text| && arena.segs[s.seg][s.off..s.off + s.len] == text
    }

    lemma TextOf(s: Str, text: seq<byte>)
      requires arena.Valid() && (s, text) in arena.handed
      ensures s.seg < |arena.segs| && s.off + s.len <= arena.segs[s.seg].Length
      ensures arena.segs[s.seg][s.off..s.off + s.len] == text
      ensures forall t :: SameText(s, t) <==> t == text
    {
      var i :| 0 <= i < |arena.handed| && arena.handed[i] == (s, text);
      assert arena.InUse(arena.handed[i]);
    }

    /** Walk the chain of `k`'s slot; `prev` is the bucket before the one found. */
    method Search(k: Key) returns (p: int, prev: int)
      requires Valid()
      ensures p == Find(entries, k) < |buckets|
      ensures p != NULL && prev == NULL ==> table[k.hash % TABLE_SIZE] == p
      ensures p != NULL && prev != NULL ==>
        0 <= prev < |buckets| && prev in Chain(buckets, table[k.hash % TABLE_SIZE]) && buckets[prev].next == p
    {
      var slot := k.hash % TABLE_SIZE;
      ghost var c := Chain(buckets, table[slot]);
      p, prev := table[slot], NULL;
      while p != NULL
        invariant NULL <= p < |buckets|
        invariant prev == NULL ==> p == table[slot]
        invariant prev != NULL ==> 0 <= prev < |buckets| && prev in c && buckets[prev].next == p
        invariant forall i :: i in Chain(buckets, p) ==> i in c
        invariant forall i :: i in c && i !in Chain(buckets, p) ==> !LiveKey(entries, i, k)
        decreases p
      {
        assert p in Chain(buckets, p) && InSlot(buckets, slot, p);
        assert Chain(buckets, p) == [p] + Chain(buckets, buckets[p].next);
        assert Stores(buckets[p], entries[p]);
        TextOf(buckets[p].name, entries[p].key.name);
        if buckets[p].hash == k.hash && SameText(buckets[p].name, k.name) {
          FindUnique(entries, k, p);
          return;
        }
        p, prev := buckets[p].next, p;
      }
      forall i | 0 <= i < |buckets| ensures LiveKey(entries, i, k) ==> i in c {
        assert Stores(buckets[i], entries[i]) && (i in c <==> InSlot(buckets, slot, i));
      }
    }

    /** `fcgi_hash_set`: bind `k` to `val` and hand out the stored copy. */
    method Bind(k: Key, val: seq<byte>) returns (s: Str)
      requires Valid()
      modifies Repr()
      ensures Valid() && fresh(Repr() - old(Repr()))
      ensures entries == Set(old(entries), k, val)
      ensures old(arena.handed) <= arena.handed && (s, val) in arena.handed && old(arena.segs) <= arena.segs
    {
      hide Valid;
      var p, prev := Search(k);
      if p != NULL {
        s := Restore(k, val, p);
        return;
      }
      if idx >= TABLE_SIZE { NewBlock(); }
      s := Insert(k, val);
    }

    /** The newest bucket block is full. */
    method NewBlock()
      requires Valid() && idx >= TABLE_SIZE
      modifies this`blocks, this`idx
      ensures Valid() && idx == 0
    {
      hide Linked, Distinct, Arena.Valid;
      blocks, idx := blocks + 1, 0;
    }

    /** The value of a live bucket is replaced; its old string stays in the arena. */
    method Restore(k: Key, val: seq<byte>, p: nat) returns (s: Str)
      requires Valid() && p == Find(entries, k) < |buckets|
      modifies this, arena, arena.segs
      ensures Valid() && fresh(Repr() - old(Repr())) && entries == Set(old(entries), k, val)
      ensures old(arena.handed) <= arena.handed && (s, val) in arena.handed && old(arena.segs) <= arena.segs
    {
      s := Keep(val);
      Replace(k, s, val, p);
    }

    method Replace(k: Key, s: Str, ghost val: seq<byte>, p: nat)
      requires Valid() && p == Find(entries, k) < |buckets| && (s, val) in arena.handed
      modifies this`buckets, this`entries
      ensures Valid() && Repr() == old(Repr()) && entries == Set(old(entries), k, val)
    {
      hide Linked, Distinct, Arena.Valid;
      assert Stores(buckets[p], entries[p]);
      ghost var bs, es := buckets, entries;
      buckets := buckets[p := buckets[p].(value := Some(s))];
      entries := Set(es, k, val);
      LinkSame(bs, buckets, table[..]);
      SetRefines(es, k, val);
      forall i | 0 <= i < |buckets| ensures Stores(buckets[i], entries[i]) {
        assert old(Stores(buckets[i], entries[i]));
      }
    }

    /** A new bucket in front of its chain and of the list. */
    method Insert(k: Key, val: seq<byte>) returns (s: Str)
      requires Valid() && Find(entries, k) == NULL && idx < TABLE_SIZE
      modifies this, table, arena, arena.segs
      ensures Valid() && fresh(Repr() - old(Repr())) && entries == Set(old(entries), k, val)
      ensures old(arena.handed) <= arena.handed && (s, val) in arena.handed && old(arena.segs) <= arena.segs
    {
      hide Valid;
      var name := Keep(k.name);
      s := Keep(val);
      LinkIn(k, name, s, val);
    }

    /** Copy a string into the arena; the buckets keep what they store. */
    method Keep(str: seq<byte>) returns (s: Str)
      requires Valid()
      modifies arena, arena.segs
      ensures Valid() && fresh(Repr() - old(Repr())) && arena.handed == old(arena.handed) + [(s, str)]
      ensures old(arena.segs) <= arena.segs
    {
      hide Linked, Distinct;
      s := arena.Strndup(str);
      forall i | 0 <= i < |buckets| ensures Stores(buckets[i], entries[i]) {
        assert old(Stores(buckets[i], entries[i]));
      }
    }

    method LinkIn(k: Key, name: Str, s: Str, ghost val: seq<byte>)
      requires Valid() && Find(entries, k) == NULL && idx < TABLE_SIZE
      requires (name, k.name) in arena.handed && (s, val) in arena.handed
      modifies this, table
      ensures Valid() && Repr() == old(Repr()) && entries == Set(old(entries), k, val)
    {
      hide Linked, Distinct, Arena.Valid;
      var slot := k.hash % TABLE_SIZE;
      ghost var t, bs, es := table[..], buckets, entries;
      TableFits(buckets, t);
      var b := Bucket(k.hash, name, Some(s), table[slot], list);
      LinkNew(bs, t, b, slot);
      SetRefines(es, k, val);
      table[slot] := |buckets|;
      assert table[..] == t[slot := |bs|];
      buckets, list, idx := buckets + [b], |buckets|, idx + 1;
      entries := Set(es, k, val);
      assert entries == es + [Entry(k, Some(val))];
      hide Set;
      forall i | 0 <= i < |bs| ensures Stores(bs[i], es[i]) {
        assert old(Stores(buckets[i], entries[i]));
      }
    }

    /** `fcgi_hash_del`: the bucket loses its value and leaves its chain, but stays in the list. */
    method Unbind(k: Key)
      requires Valid()
      modifies this, table
      ensures Valid() && Repr() == old(Repr())
      ensures entries == Del(old(entries), k)
    {
      var p, prev := Search(k);
      if p != NULL {
        Unlink(k, p, prev);
      }
    }

    method Unlink(k: Key, p: nat, prev: int)
      requires Valid() && p == Find(entries, k) < |buckets|
      requires if prev == NULL
               then table[k.hash % TABLE_SIZE] == p
               else && 0 <= prev < |buckets| && buckets[prev].next == p
                    && prev in Chain(buckets, table[k.hash % TABLE_SIZE])
      modifies this, table
      ensures Valid() && Repr() == old(Repr()) && entries == Del(old(entries), k)
    {
      assert Stores(buckets[p], entries[p]);
      ghost var bs, es := buckets, entries;
      Cut(p, prev, k.hash % TABLE_SIZE);
      DelFind(es, k, k);
      entries := Del(es, k);
      assert entries == es[p := Entry(es[p].key, None)] by { assert LiveKey(es, p, k); }
      hide Linked, Del, Distinct, Chain, Arena.Valid;
      forall i | 0 <= i < |bs| ensures Stores(buckets[i], entries[i]) {
        assert old(Stores(buckets[i], entries[i]));
      }
    }

    /** Bucket `p` loses its value and leaves the chain of its slot. */
    method Cut(p: nat, prev: int, slot: nat)
      requires Linked(buckets, table[..]) && table.Length == TABLE_SIZE && p < |buckets| && buckets[p].value.Some?
      requires slot == buckets[p].hash % TABLE_SIZE
      requires if prev == NULL then table[slot] == p
               else 0 <= prev < |buckets| && prev in Chain(buckets, table[slot]) && buckets[prev].next == p
      modifies this`buckets, table
      ensures Linked(buckets, table[..]) && |buckets| == |old(buckets)|
      ensures forall i :: 0 <= i < |buckets| ==>
        buckets[i] == old(buckets)[i].(next := buckets[i].next, value := if i == p then None else old(buckets)[i].value)
    {
      assert prev != p;
      hide Linked;
      ghost var bs, t := buckets, table[..];
      buckets := buckets[p := buckets[p].(value := None)];
      if prev == NULL {
        table[slot] := buckets[p].next;
        assert table[..] == t[slot := bs[p].next];
      } else {
        buckets := buckets[prev := buckets[prev].(next := buckets[p].next)];
      }
      UnlinkOld(bs, t, p, prev, buckets, table[..]);
    }

    /** `fcgi_hash_get`. */
    method Get(k: Key) returns (s: Option<Str>)
      requires Valid()
      ensures s.None? <==> k !in AsMap(entries)
      ensures s.Some? ==> (s.value, AsMap(entries)[k]) in arena.handed
    {
      var p, prev := Search(k);
      InMap(entries, k);
      if p == NULL {
        return None;
      }
      assert Stores(buckets[p], entries[p]);
      return buckets[p].value;
    }

    method Arguments(b: Bucket, ghost e: Entry) returns (call: (Key, seq<byte>))
      requires arena.Valid() && Stores(b, e) && b.value.Some?
      ensures call == (e.key, e.value.value)
    {
      TextOf(b.name, e.key.name);
      TextOf(b.value.value, e.value.value);
      var name, value := b.name, b.value.value;
      call := (Key(b.hash, arena.segs[name.seg][name.off..name.off + name.len]),
        arena.segs[value.seg][value.off..value.off + value.len]);
    }

    /** `fcgi_hash_apply`: the callback sees every live binding once, newest bucket first. */
    method Apply() returns (calls: seq<(Key, seq<byte>)>)
      requires Valid()
      ensures calls == Visits(entries)
    {
      hide Linked, Distinct, Arena.Valid, Visits;
      calls := [];
      var p := list;
      assert entries[..p + 1] == entries && [] + Visits(entries) == Visits(entries);
      while p != NULL
        invariant NULL <= p < |buckets|
        invariant calls + Visits(entries[..p + 1]) == Visits(entries)
        decreases p
      {
        assert Stores(buckets[p], entries[p]);
        VisitNext(entries, p, calls);
        if buckets[p].value.Some? {
          var call := Arguments(buckets[p], entries[p]);
          calls := calls + [call];
        }
        p := buckets[p].listNext;
      }
      VisitsNone(entries, calls);
    }

    /** `fcgi_hash_clean`: an empty hash on the first bucket block and the first segment. */
    method Clean()
      requires Valid()
      modifies this, table, arena
      ensures Valid() && entries == [] && arena.handed == [] && Repr() <= old(Repr())
    {
      for i := 0 to TABLE_SIZE
        modifies table
        invariant forall j :: 0 <= j < i ==> table[j] == NULL
      {
        table[i] := NULL;
      }
      list := NULL;
      while blocks > 1
        invariant blocks >= 1
        modifies this`blocks
      {
        blocks := blocks - 1;
      }
      buckets, idx, entries := [], 0, [];
      arena.Reset();
    }
  }

  /** Changing values of live buckets leaves every chain alone. */
  lemma LinkSame(bs: seq<Bucket>, bs': seq<Bucket>, table: seq<int>)
    requires Linked(bs, table) && |bs'| == |bs|
    requires forall i :: 0 <= i < |bs| ==>
      bs'[i].next == bs[i].next && bs'[i].hash == bs[i].hash && bs'[i].value.Some? == bs[i].value.Some?
    ensures Linked(bs', table)
  {
    assert Down(bs');
    forall s, i | 0 <= s < TABLE_SIZE && 0 <= i < |bs| ensures i in Chain(bs', table[s]) <==> InSlot(bs', s, i) {
      ChainFrame(bs, bs', table[s]);
      assert i in Chain(bs, table[s]) <==> InSlot(bs, s, i);
    }
  }

  lemma TableFits(bs: seq<Bucket>, table: seq<int>)
    requires Linked(bs, table)
    ensures |table| == TABLE_SIZE
  {
  }

  // ----- whole runs

  datatype Op = Put(key: Key, value: seq<byte>) | Delete(key: Key) | Lookup(key: Key) | Clear

  /** A run on a plain finite map: the map it leaves and what its lookups return. */
  function MapRun(ops: seq<Op>): (map<Key, seq<byte>>, seq<Option<seq<byte>>>) {
    if ops == [] then (map[], [])
    else
      var (m, outs) := MapRun(ops[..|ops| - 1]);
      match ops[|ops| - 1]
      case Put(k, v) => (m[k := v], outs)
      case Delete(k) => (m - {k}, outs)
      case Lookup(k) => (m, outs + [if k in m then Some(m[k]) else None])
      case Clear => (map[], outs)
  }

  /** The keys that a run leaves bound, in the order in which they were bound; binding a key again keeps its
      place. */
  function KeysRun(ops: seq<Op>): seq<Key> {
    if ops == [] then []
    else
      var ks := KeysRun(ops[..|ops| - 1]);
      match ops[|ops| - 1]
      case Put(k, _) => if k in ks then ks else ks + [k]
      case Delete(k) => RemoveKey(ks, k)
      case Lookup(_) => ks
      case Clear => []
  }

  method Step(env: Env, op: Op) returns (out: seq<Option<seq<byte>>>)
    requires env.Valid()
    modifies env.Repr()
    ensures env.Valid() && fresh(env.Repr() - old(env.Repr()))
    ensures var m := old(AsMap(env.entries));
            match op
            case Put(k, v) => AsMap(env.entries) == m[k := v] && out == []
            case Delete(k) => AsMap(env.entries) == m - {k} && out == []
            case Lookup(k) => AsMap(env.entries) == m && out == [if k in m then Some(m[k]) else None]
            case Clear => AsMap(env.entries) == map[] && out == []
    ensures var ks := old(LiveKeys(env.entries));
            LiveKeys(env.entries) == match op
                                     case Put(k, _) => if k in ks then ks else ks + [k]
                                     case Delete(k) => RemoveKey(ks, k)
                                     case Lookup(_) => ks
                                     case Clear => []
  {
    hide AsMap, Linked, LiveKeys, RemoveKey;
    ghost var es := env.entries;
    out := [];
    match op {
      case Put(k, v) =>
        SetRefines(es, k, v);
        SetKeys(es, k, v);
        var _ := env.Bind(k, v);
      case Delete(k) =>
        DelRefines(es, k);
        DelKeys(es, k);
        env.Unbind(k);
      case Lookup(k) =>
        var s := env.Get(k);
        if s.None? {
          out := [None];
        } else {
          env.TextOf(s.value, AsMap(es)[k]);
          out := [Some(env.arena.segs[s.value.seg][s.value.off..s.value.off + s.value.len])];
        }
      case Clear =>
        env.Clean();
        EmptyMap();
    }
  }

  lemma EmptyMap()
    ensures AsMap([]) == map[] && LiveKeys([]) == []
  {
    forall k: Key ensures k !in AsMap([]) { InMap([], k); }
  }

  /** Any run on the hash: every lookup answers as the map would, and the final enumeration lists
      the bindings of the map, each key once, from the newest to the oldest. */
  method Run(ops: seq<Op>) returns (outs: seq<Option<seq<byte>>>, calls: seq<(Key, seq<byte>)>)
    ensures outs == MapRun(ops).1
    ensures forall k: Key, v :: k in MapRun(ops).0 && MapRun(ops).0[k] == v <==> (k, v) in calls
    ensures forall i, j :: 0 <= i < j < |calls| ==> calls[i].0 != calls[j].0
    ensures var ks := KeysRun(ops);
            |calls| == |ks| && forall i :: 0 <= i < |calls| ==> calls[i].0 == ks[|ks| - 1 - i]
  {
    hide AsMap, Linked, Distinct, Visits, Arena.Valid, LiveKeys, RemoveKey;
    var env := new Env();
    outs := [];
    EmptyMap();
    var i := 0;
    while i < |ops|
      invariant i <= |ops| && env.Valid() && fresh(env.Repr())
      invariant (AsMap(env.entries), outs) == MapRun(ops[..i]) && LiveKeys(env.entries) == KeysRun(ops[..i])
    {
      assert ops[..i + 1][..i] == ops[..i];
      var out := Step(env, ops[i]);
      assert outs + [] == outs;
      outs := outs + out;
      i := i + 1;
    }
    assert ops[..i] == ops;
    calls := env.Apply();
    VisitsMap(env.entries);
    VisitsOrder(env.entries);
  }
}
