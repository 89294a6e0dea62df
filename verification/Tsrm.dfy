/** The thread-safe resource manager as it is built: global tables changed by loops under one mutex.
    Every call is proved to keep TsrmSpec's invariant, and any run of calls ended by the shutdown
    destructs every filled resource that has a destructor exactly once. */
module Tsrm {
  import opened Common
  import opened TsrmSpec

  /** `TSRM_ALIGNED_SIZE`. */
  function Aligned(size: nat): (r: nat)
    ensures size <= r < size + 16 && r % 16 == 0
  {
    (size + 15) / 16 * 16
  }

  /** The stretch of an entry's own memory that fast id `j` takes. */
  ghost predicate FastInside(kinds: seq<Kind>, entrySize: nat, reservedPos: nat, j: nat)
    requires j < |kinds|
  {
    kinds[j].fastOffset > 0 ==>
      entrySize <= kinds[j].fastOffset && kinds[j].fastOffset + kinds[j].size <= entrySize + reservedPos
  }

  /** Fast ids take disjoint stretches behind the entry, in the order they were allocated. */
  ghost predicate FastOk(kinds: seq<Kind>, entrySize: nat, reservedPos: nat) {
    && (forall j :: 0 <= j < |kinds| ==> FastInside(kinds, entrySize, reservedPos, j))
    && (forall i, j :: 0 <= i < j < |kinds| && kinds[i].fastOffset > 0 && kinds[j].fastOffset > 0 ==>
          kinds[i].fastOffset + kinds[i].size <= kinds[j].fastOffset)
  }

  /** The same entries, each with the same or more slots. */
  ghost predicate Grew(s: State, s': State) {
    && |s'.table| == |s.table|
    && (forall b :: 0 <= b < |s.table| ==> |s'.table[b]| == |s.table[b]|)
    && (forall b, i :: At(s, b, i) ==> EntryGrew(s.table[b][i], s'.table[b][i]))
  }

  ghost predicate EntryGrew(e: Entry, e': Entry) {
    e'.serial == e.serial && e'.thread == e.thread && e.storage <= e'.storage
  }

  lemma GrewReplace(s: State, s1: State, s2: State, b: nat, i: nat, e: Entry)
    requires Grew(s, s1) && At(s1, b, i) && EntryGrew(s1.table[b][i], e) && SameTable(s2, Replace(s1, b, i, e))
    ensures Grew(s, s2)
  {
    ReplaceAt(s1, s2, b, i, e);
    forall c, k | At(s, c, k) ensures EntryGrew(s.table[c][k], s2.table[c][k]) {
      assert At(s1, c, k) && EntryGrew(s.table[c][k], s1.table[c][k]);
    }
  }

  /** Only the entry at `b`, `i` differs. */
  ghost predicate OnlyAt(s: State, s': State, b: nat, i: nat) {
    && |s'.table| == |s.table| && At(s', b, i)
    && (forall c :: 0 <= c < |s.table| ==> |s'.table[c]| == |s.table[c]|)
    && (forall c, k :: At(s, c, k) && (c != b || k != i) ==> s'.table[c][k] == s.table[c][k])
  }

  lemma OnlyReplace(s: State, s1: State, s2: State, b: nat, i: nat, e: Entry)
    requires OnlyAt(s, s1, b, i) && SameTable(s2, Replace(s1, b, i, e))
    ensures OnlyAt(s, s2, b, i)
  {
    ReplaceAt(s1, s2, b, i, e);
    assert forall c, k :: At(s, c, k) ==> At(s1, c, k);
  }

  /** The first entry of `thread` in its chain, or the length of the chain. */
  function FindThread(chain: seq<Entry>, thread: nat): (i: nat)
    ensures i <= |chain| && (i < |chain| ==> chain[i].thread == thread)
    ensures forall k :: 0 <= k < i ==> chain[k].thread != thread
  {
    if chain == [] || chain[0].thread == thread then 0 else 1 + FindThread(chain[1..], thread)
  }

  lemma FoundThread(chain: seq<Entry>, thread: nat, i: nat)
    requires i <= |chain| && (i < |chain| ==> chain[i].thread == thread)
    requires forall k :: 0 <= k < i ==> chain[k].thread != thread
    ensures FindThread(chain, thread) == i
  {
  }

  /** How often the destructors of the first `n` ids are called on a NULL slot of `e`. */
  function NullCalls(kinds: seq<Kind>, e: Entry, n: nat): nat
    requires n <= |e.storage| <= |kinds|
  {
    if n == 0 then 0
    else NullCalls(kinds, e, n - 1) + if e.storage[n - 1].None? && kinds[n - 1].dtor then 1 else 0
  }

  /** The entry of `thread` covers an id that was freed and has a destructor. */
  ghost predicate CoversFreed(s: State, thread: nat) {
    exists i, j ::
      && |s.table| > 0 && At(s, thread % |s.table|, i) && s.table[thread % |s.table|][i].thread == thread
      && CoversAt(s.kinds, s.table[thread % |s.table|][i], j)
  }

  ghost predicate CoversAt(kinds: seq<Kind>, e: Entry, j: int) {
    0 <= j < |e.storage| && j < |kinds| && kinds[j].done && kinds[j].dtor
  }

  /** The freed ids with a destructor that an entry covers, below `n`. */
  ghost function Covered(kinds: seq<Kind>, e: Entry, n: nat): set<nat> {
    set j: nat | j < n && CoversAt(kinds, e, j)
  }

  lemma {:induction false} NullCallsMade(kinds: seq<Kind>, e: Entry, n: nat)
    requires n <= |e.storage| <= |kinds| && StorageOk(kinds, -1, e)
    ensures NullCalls(kinds, e, n) == |Covered(kinds, e, n)|
    ensures NullCalls(kinds, e, n) > 0 <==> exists j :: 0 <= j < n && CoversAt(kinds, e, j)
  {
    if n == 0 {
      assert Covered(kinds, e, 0) == {};
    } else {
      var m := n - 1;
      NullCallsMade(kinds, e, m);
      assert SlotOk(kinds, -1, e, m);
      assert CoversAt(kinds, e, m) <==> e.storage[m].None? && kinds[m].dtor;
      assert Covered(kinds, e, n) == Covered(kinds, e, m) + if CoversAt(kinds, e, m) then {m} else {};
    }
  }

  /** What `ts_resource_ex` returns: the storage itself for id 0, else the slot. */
  datatype Answer = Storage(storage: seq<Option<Resource>>) | Slot(slot: Option<Resource>)

  /** `answer` is read from the entry of `thread`. */
  ghost predicate AnswerOf(s: State, thread: nat, id: nat, answer: Answer) {
    exists i :: |s.table| > 0 && At(s, thread % |s.table|, i)
      && AnswerAt(s.table[thread % |s.table|][i], thread, id, answer)
  }

  ghost predicate AnswerAt(e: Entry, thread: nat, id: nat, answer: Answer) {
    e.thread == thread && id <= |e.storage| && answer == if id == 0 then Storage(e.storage) else Slot(e.storage[id - 1])
  }

  /** `slot` is NULL if the id has been freed, and otherwise the thread's own resource for it. */
  ghost predicate OwnSlot(s: State, thread: nat, id: nat, slot: Option<Resource>) {
    exists i :: |s.table| > 0 && At(s, thread % |s.table|, i)
      && OwnAt(s.kinds, s.table[thread % |s.table|][i], thread, id, slot)
  }

  ghost predicate OwnAt(kinds: seq<Kind>, e: Entry, thread: nat, id: nat, slot: Option<Resource>) {
    e.thread == thread && 0 < id <= |kinds|
    && slot == if kinds[id - 1].done then None else Some(Resource(e.serial, id - 1))
  }

  class Manager {
    const entrySize: nat            // aligned size of an entry without its reservation
    var table: seq<seq<Entry>>
    var kinds: seq<Kind>            // the ids given out; a failed allocation leaves a zero record
    var typesSize: nat              // records the type table has room for
    var reservedPos: nat
    var reservedSize: nat
    var locked: bool
    var next: nat                   // names the next entry to be allocated
    var filled: multiset<Resource>      // how often each resource was put in its slot
    var constructed: multiset<Resource> // calls of constructors
    var destructed: multiset<Resource>  // calls of destructors on resources
    var nulls: nat                      // calls of destructors on NULL
    ghost var good: nat
    ghost var freeing: int

    ghost function View(): State
      reads this
    {
      State(table, kinds, next, good, freeing, filled, constructed, destructed)
    }

    /** What holds whenever the mutex is held or free between the small steps. */
    ghost predicate Steady()
      reads this
    {
      && Inv(View()) && |table| > 0 && entrySize > 0
      && |kinds| <= typesSize && reservedPos <= reservedSize && FastOk(kinds, entrySize, reservedPos)
    }

    /** What holds between calls. */
    ghost predicate Valid()
      reads this
    {
      Steady() && !locked && freeing == -1
    }

    /** `tsrm_startup`, and `tsrm_reserve` with `reserve` bytes. */
    constructor (entrySize: nat, expectedThreads: nat, expectedResources: nat, reserve: nat)
      requires expectedThreads > 0 && entrySize > 0
      ensures Valid() && kinds == [] && good == 0 && filled == constructed == destructed == multiset{} && nulls == 0
        && next == 0
      ensures this.entrySize == entrySize && typesSize == expectedResources && |table| == expectedThreads
      ensures reservedPos == 0 && reservedSize == Aligned(reserve)
      ensures forall b :: 0 <= b < |table| ==> table[b] == []
    {
      this.entrySize := entrySize;
      table := seq(expectedThreads, i => []);
      kinds, typesSize, reservedPos, reservedSize := [], expectedResources, 0, Aligned(reserve);
      locked, next, good, freeing := false, 0, 0, -1;
      filled, constructed, destructed, nulls := multiset{}, multiset{}, multiset{}, 0;
      new;
      forall r ensures LifeOk(View(), r) { }
    }

    method Lock()
      requires !locked
      modifies this`locked
      ensures locked
    {
      locked := true;
    }

    method Unlock()
      requires locked
      modifies this`locked
      ensures !locked
    {
      locked := false;
    }

    // ----- allocating ids

    /** Entry `i` gets the slots it lacks. */
    method GrowEntry(b: nat, i: nat)
      requires locked && Inv(View()) && At(View(), b, i)
      modifies this`table, this`filled, this`constructed
      ensures Inv(View()) && Fills(old(View()), View()) && Grew(old(View()), View())
      ensures OnlyAt(old(View()), View(), b, i) && |table[b][i].storage| == |kinds|
    {
      EntryBounds(View(), b, i);
      assert Fills(View(), View()) by { SelfFills(View()); }
      ghost var s := View();
      var j := |table[b][i].storage|;
      while j < |kinds|
        invariant Inv(View()) && Fills(s, View()) && At(View(), b, i) && Grew(s, View())
        invariant j == |table[b][i].storage| <= |kinds| && j >= good
        invariant OnlyAt(s, View(), b, i)
      {
        hide Inv, Fills, Grew, OnlyAt;
        ghost var s1 := View();
        NotDone(s1, j);
        AddSlotKeeps(s1, b, i);
        var r := Resource(table[b][i].serial, j);
        table := table[b := table[b][i := table[b][i].(storage := table[b][i].storage + [Some(r)])]];
        filled := filled + multiset{r};
        if kinds[j].ctor { constructed := constructed + multiset{r}; }
        assert View() == AddSlot(s1, b, i);
        FillsTrans(s, s1, View());
        GrewReplace(s, s1, View(), b, i, table[b][i]);
        OnlyReplace(s, s1, View(), b, i, table[b][i]);
        j := j + 1;
      }
    }

    /** `tsrm_update_active_threads`. */
    method UpdateActiveThreads()
      requires locked && Inv(View())
      modifies this`table, this`filled, this`constructed
      ensures Inv(View()) && Fills(old(View()), View()) && Grew(old(View()), View()) && Full(View())
    {
      SelfFills(View());
      ghost var s := View();
      var b := 0;
      while b < |table|
        invariant b <= |table| && Inv(View()) && Fills(s, View()) && Grew(s, View()) && FullTo(View(), b)
      {
        hide Inv, Fills, Grew;
        UpdateBucket(b, s);
        b := b + 1;
      }
    }

    method UpdateBucket(b: nat, ghost s: State)
      requires locked && Inv(View()) && Fills(s, View()) && Grew(s, View()) && FullTo(View(), b) && b < |table|
      modifies this`table, this`filled, this`constructed
      ensures Inv(View()) && Fills(s, View()) && Grew(s, View()) && |table| == |old(table)| && FullTo(View(), b + 1)
    {
      hide Inv, Fills, Grew;
      var i := 0;
      while i < |table[b]|
        invariant |table| == |old(table)| && i <= |table[b]| && Inv(View()) && Fills(s, View()) && Grew(s, View())
        invariant FullTo(View(), b) && forall k :: 0 <= k < i ==> |table[b][k].storage| == |kinds|
      {
        if |table[b][i].storage| < |kinds| {
          ghost var s1 := View();
          GrowEntry(b, i);
          FillsTrans(s, s1, View());
          GrewTrans(s, s1, View());
        } else {
          EntryBounds(View(), b, i);
        }
        i := i + 1;
      }
    }

    /** `ts_allocate_id`: every linked entry gets a slot for the new id, and nothing else changes. */
    method AllocateId(size: nat, ctor: bool, dtor: bool) returns (id: nat)
      requires Valid()
      modifies this
      ensures Valid() && kinds == old(kinds) + [Kind(size, ctor, dtor, 0, false)] && id == |kinds| == good
      ensures Full(View()) && Grew(old(View()), View()) && Fills(old(View()), View())
      ensures reservedPos == old(reservedPos) && reservedSize == old(reservedSize) && destructed == old(destructed)
      ensures nulls == old(nulls) && next == old(next)
      ensures typesSize == if old(|kinds| == typesSize) then old(typesSize) + 1 else old(typesSize)
    {
      hide Inv, Fills, Grew, FastOk;
      Lock();
      ghost var s := View();
      var k := Kind(size, ctor, dtor, 0, false);
      FastSlow(kinds, k, entrySize, reservedPos);
      id := Register(k);
      Publish(s);
      Unlock();
    }

    /** Write the record of the next id, enlarging the type table when it is full. */
    method Register(k: Kind) returns (id: nat)
      requires Inv(View()) && |kinds| <= typesSize && !k.done
      modifies this`kinds, this`typesSize
      ensures View() == AddKind(old(View()), k) && id == |kinds| <= typesSize
      ensures Inv(View()) && Fills(old(View()), View()) && Grew(old(View()), View())
      ensures typesSize == if old(|kinds| == typesSize) then old(typesSize) + 1 else old(typesSize)
    {
      ghost var s := View();
      AddKindKeeps(s, k);
      SameTableGrew(s, AddKind(s, k));
      hide Inv, Fills, Grew;
      kinds := kinds + [k];
      id := |kinds|;
      if typesSize < id { typesSize := id; }
    }

    /** The end of both allocations: enlarge the storage of the threads. */
    method Publish(ghost s: State)
      requires locked && Inv(View()) && Fills(s, View()) && Grew(s, View())
      modifies this`table, this`filled, this`constructed, this`good
      ensures Inv(View()) && Fills(s, View()) && Grew(s, View()) && Full(View()) && good == |kinds|
      ensures |table| == old(|table|)
    {
      hide Inv, Fills;
      ghost var s1 := View();
      UpdateActiveThreads();
      FillsTrans(s, s1, View());
      GrewTrans(s, s1, View());
      ghost var s2 := View();
      CommitKeeps(s2);
      good := |kinds|;
      FillsTrans(s, s2, View());
    }

    /** `ts_allocate_fast_id`: the slots lie in the entries themselves. When the reservation is used
        up the call fails, after having used up an id that no thread gets a slot for yet. The record of
        that id is never written: it is zero as long as the type table has room, and otherwise lies
        behind the table, where it is whatever the memory holds (`junk`). */
    method AllocateFastId(size: nat, ctor: bool, dtor: bool, junk: Kind) returns (id: nat, offset: nat)
      requires Valid()
      modifies this
      ensures !locked && reservedSize == old(reservedSize) && destructed == old(destructed) && nulls == old(nulls)
      ensures id != 0 <==> Aligned(size) <= old(reservedSize - reservedPos)
      ensures Valid() <==> id != 0 || old(|kinds| < typesSize)
      ensures id != 0 ==> id == |kinds| == good && Full(View()) && reservedPos == old(reservedPos) + Aligned(size)
      ensures id != 0 ==> kinds == old(kinds) + [Kind(Aligned(size), ctor, dtor, offset, false)]
      ensures id != 0 ==> offset == entrySize + old(reservedPos)
      ensures id != 0 ==> Grew(old(View()), View()) && Fills(old(View()), View()) && next == old(next)
      ensures typesSize == if id != 0 && old(|kinds| == typesSize) then old(typesSize) + 1 else old(typesSize)
      ensures id == 0 ==>
        View() == AddKind(old(View()), if old(|kinds| < typesSize) then Kind(0, false, false, 0, false) else junk)
      ensures id == 0 ==> reservedPos == old(reservedPos) && offset == 0
    {
      hide Inv, Fills, Grew, FastOk;
      Lock();
      ghost var s := View();
      var aligned := Aligned(size);
      if reservedSize - reservedPos < aligned {
        UseUpId(junk);
        return 0, 0;
      }
      id, offset := RegisterFast(aligned, ctor, dtor);
      Publish(s);
      Unlock();
    }

    /** Take the next `size` bytes of the reservation. */
    method RegisterFast(size: nat, ctor: bool, dtor: bool) returns (id: nat, offset: nat)
      requires Steady() && size <= reservedSize - reservedPos
      modifies this`kinds, this`typesSize, this`reservedPos
      ensures Steady() && Fills(old(View()), View()) && Grew(old(View()), View())
      ensures offset == entrySize + old(reservedPos) && reservedPos == old(reservedPos) + size && id == |kinds|
      ensures View() == AddKind(old(View()), Kind(size, ctor, dtor, offset, false))
      ensures typesSize == if old(|kinds| == typesSize) then old(typesSize) + 1 else old(typesSize)
    {
      hide Inv, Fills, Grew, FastOk;
      offset := entrySize + reservedPos;
      var k := Kind(size, ctor, dtor, offset, false);
      FastFast(kinds, k, entrySize, reservedPos);
      reservedPos := reservedPos + size;
      id := Register(k);
    }

    /** The failing allocation: an id has been counted, and its record is left as it is. */
    method UseUpId(junk: Kind)
      requires Steady() && locked && freeing == -1
      modifies this`kinds, this`locked
      ensures !locked && (Valid() <==> old(|kinds| < typesSize))
      ensures View() == AddKind(old(View()), if old(|kinds| < typesSize) then Kind(0, false, false, 0, false) else junk)
    {
      var zero := Kind(0, false, false, 0, false);
      AddKindKeeps(View(), zero);
      hide Inv, FastInside;
      FastSlow(kinds, zero, entrySize, reservedPos);
      kinds := kinds + [if |kinds| < typesSize then zero else junk];
      Unlock();
    }

    // ----- threads

    /** `allocate_new_resource`: link an entry for `thread` at the end of its chain and fill it; the
        mutex is free afterwards. */
    method AllocateNewResource(b: nat, thread: nat)
      requires Steady() && locked && b == thread % |table| && FindThread(table[b], thread) == |table[b]|
      modifies this`table, this`filled, this`constructed, this`next, this`locked
      ensures Steady() && !locked && View() == Link(old(View()), b, thread)
      ensures Fills(old(View()), View())
    {
      hide Inv, Fills, FastOk, Filling, Link, FindThread, Unknown;
      ghost var s := View();
      Linkable(s, b, thread);
      OpenEntry(b, thread);
      FillEntry(b, thread, s);
      Unlock();
    }

    lemma Linkable(s: State, b: nat, thread: nat)
      requires Inv(s) && |s.table| > 0 && b == thread % |s.table| && FindThread(s.table[b], thread) == |s.table[b]|
      ensures Inv(Link(s, b, thread)) && Fills(s, Link(s, b, thread)) && |Link(s, b, thread).table| == |s.table|
      ensures Link(s, b, thread) == Filling(s, b, thread, |s.kinds|)
    {
      LinkKeeps(s, b, thread);
      LinkIs(s, b, thread);
    }

    /** The entry is linked before it has any slot. */
    method OpenEntry(b: nat, thread: nat)
      requires b < |table|
      modifies this`table, this`next
      ensures View() == Filling(old(View()), b, thread, 0)
    {
      FillStart(View(), b, thread);
      hide Filling;
      table := table[b := table[b] + [Entry(next, thread, [])]];
      next := next + 1;
    }

    /** The slots of the new entry, one after the other; freed ids get NULL. */
    method FillEntry(b: nat, thread: nat, ghost s: State)
      requires b < |s.table| && View() == Filling(s, b, thread, 0)
      modifies this`table, this`filled, this`constructed
      ensures View() == Filling(s, b, thread, |s.kinds|)
    {
      hide Filling;
      assert kinds == s.kinds by { FillStart(s, b, thread); }
      var i := 0;
      while i < |kinds|
        invariant i <= |kinds| && View() == Filling(s, b, thread, i)
      {
        FillStep(s, b, thread, i);
        FillSlot(b, i);
        i := i + 1;
      }
    }

    method FillSlot(b: nat, i: nat)
      requires b < |table| && |table[b]| > 0 && i < |kinds|
      modifies this`table, this`filled, this`constructed
      ensures View() == SlotAdded(old(View()), b, i)
    {
      var n := |table[b]| - 1;
      if kinds[i].done {
        table := table[b := table[b][n := table[b][n].(storage := table[b][n].storage + [None])]];
      } else {
        var r := Resource(table[b][n].serial, i);
        table := table[b := table[b][n := table[b][n].(storage := table[b][n].storage + [Some(r)])]];
        filled := filled + multiset{r};
        if kinds[i].ctor { constructed := constructed + multiset{r}; }
      }
    }

    /** `ts_resource_ex` on its locked path: a thread that has no entry gets one, and the call starts
        again. */
    method Fetch(id: nat, thread: nat) returns (answer: Answer)
      requires Valid() && id <= good
      modifies this`table, this`filled, this`constructed, this`next, this`locked
      ensures Valid() && AnswerOf(View(), thread, id, answer) && |table| == |old(table)|
      ensures id > 0 ==> answer.Slot? && OwnSlot(View(), thread, id, answer.slot)
      ensures var b := thread % |table|; var chain := old(table)[b];
              View() == if FindThread(chain, thread) == |chain| then Link(old(View()), b, thread) else old(View())
      decreases FindThread(table[thread % |table|], thread) == |table[thread % |table|]|
    {
      hide Inv, Fills, FastOk;
      Lock();
      var b := thread % |table|;
      var i := FindEntry(b, thread);
      if i == |table[b]| {
        ghost var s := View();
        AllocateNewResource(b, thread);
        LinkAt(s, b, thread);
        assert At(View(), b, |s.table[b]|);
        FoundThread(table[b], thread, |s.table[b]|);
        answer := Fetch(id, thread);
        return;
      }
      assert At(View(), b, i);
      EntryBounds(View(), b, i);
      Unlock();
      answer := if id == 0 then Storage(table[b][i].storage) else Slot(table[b][i].storage[id - 1]);
      assert AnswerAt(table[b][i], thread, id, answer);
      if id > 0 {
        FreedIsNull(this, b, i, id - 1);
        assert OwnAt(kinds, table[b][i], thread, id, answer.slot);
      }
    }

    /** Walk the chain of a thread. */
    method FindEntry(b: nat, thread: nat) returns (i: nat)
      requires b < |table|
      ensures i == FindThread(table[b], thread)
    {
      i := 0;
      while i < |table[b]| && table[b][i].thread != thread
        invariant i <= |table[b]| && forall k :: 0 <= k < i ==> table[b][k].thread != thread
      {
        i := i + 1;
      }
      FoundThread(table[b], thread, i);
    }

    /** `ts_free_thread`: the entry of `thread`, if it has one, is destructed and unlinked. The
        destructors of freed ids are called too, on NULL. */
    method FreeThread(thread: nat)
      requires Valid()
      modifies this`table, this`destructed, this`nulls, this`locked
      ensures Valid() && |table| == |old(table)|
      ensures var b := thread % |table|; var i := FindThread(old(table)[b], thread);
              if i == |old(table)[b]| then View() == old(View()) && nulls == old(nulls)
              else var e := old(table)[b][i];
                   View() == Unlink(old(View()), b, i) && |e.storage| <= |kinds|
                     && nulls == old(nulls) + NullCalls(kinds, e, |e.storage|)
                     && nulls == old(nulls) + |Covered(kinds, e, |e.storage|)|
      ensures nulls > old(nulls) <==> CoversFreed(old(View()), thread)
    {
      hide Inv, FastOk, NullCalls, Covered, Unlink, FindThread, CoversFreed, StorageOk, InSlots;
      Lock();
      var b := thread % |table|;
      var i := FindEntry(b, thread);
      ghost var s := View();
      CoveredBy(s, thread, i);
      if i < |table[b]| {
        assert At(s, b, i);
        FreeEntry(b, i);
      }
      Unlock();
    }

    method FreeEntry(b: nat, i: nat)
      requires Inv(View()) && At(View(), b, i)
      modifies this`table, this`destructed, this`nulls
      ensures Inv(View()) && View() == Unlink(old(View()), b, i) && |table| == |old(table)|
      ensures var e := old(table)[b][i];
        |e.storage| <= |kinds| && nulls == old(nulls) + NullCalls(kinds, e, |e.storage|)
    {
      ghost var s := View();
      UnlinkKeeps(s, b, i);
      EntryBounds(s, b, i);
      hide Inv, StorageOk;
      DestructAll(table[b][i]);
      table := table[b := table[b][..i] + table[b][i + 1..]];
      assert View() == Unlink(s, b, i);
    }

    /** The destructor of every id that has one is called on the entry's slot; for an id that has been
        freed this is a NULL. */
    method DestructAll(e: Entry)
      requires |e.storage| <= |kinds| && StorageOk(kinds, freeing, e)
      modifies this`destructed, this`nulls
      ensures destructed == old(destructed) + Gone(kinds, e, |e.storage|)
      ensures nulls == old(nulls) + NullCalls(kinds, e, |e.storage|)
    {
      hide StorageOk, SlotOk, Gone;
      ghost var before := destructed;
      NoSlots(kinds, e, before);
      var j := 0;
      while j < |e.storage|
        invariant j <= |e.storage| && destructed == before + Gone(kinds, e, j)
          && nulls == old(nulls) + NullCalls(kinds, e, j)
      {
        NextSlot(kinds, freeing, e, j, before);
        if kinds[j].dtor {
          match e.storage[j] {
            case Some(r) => destructed := destructed + multiset{r};
            case None => nulls := nulls + 1;
          }
        }
        j := j + 1;
      }
    }

    // ----- freeing an id

    /** `ts_free_id`: the slots of the id are destructed and NULL in every linked entry, and the id is
        marked so that no later entry gets one. */
    method FreeId(id: nat)
      requires Valid() && 1 <= id <= good
      modifies this`table, this`destructed, this`kinds, this`locked, this`freeing
      ensures Valid() && |kinds| == |old(kinds)| && kinds == old(kinds)[id - 1 := old(kinds)[id - 1].(done := true)]
      ensures Erased(old(View()), View(), id - 1)
    {
      hide Inv, Erased, ErasedUpTo, FastOk, Cleared;
      Lock();
      ghost var s := View();
      var j := id - 1;
      StartFreeKeeps(s, j);
      freeing := j;
      ErasedTo(s, View(), j);
      var b := 0;
      while b < |table|
        modifies this`table, this`destructed
        invariant b <= |table| == |s.table| && Inv(View()) && ErasedUpTo(s, View(), j, b, 0)
      {
        FreeInBucket(b, j, s);
        b := b + 1;
      }
      ghost var s1 := View();
      EraseEnd(s, s1, j);
      MarkFreed(j);
      ErasedSame(s, s1, View(), j);
      Unlock();
    }

    method MarkFreed(j: nat)
      requires Inv(View()) && freeing == j && Cleared(View(), j) && FastOk(kinds, entrySize, reservedPos)
      modifies this`kinds, this`freeing
      ensures j < |old(kinds)| && View() == EndFree(old(View()), j) && Inv(View())
        && FastOk(kinds, entrySize, reservedPos)
    {
      hide Cleared, FastOk;
      EndFreeKeeps(View(), j);
      KindsBound(View());
      FastDone(kinds, j, entrySize, reservedPos);
      hide Inv;
      kinds, freeing := kinds[j := kinds[j].(done := true)], -1;
    }

    method FreeInBucket(b: nat, j: nat, ghost s: State)
      requires locked && Inv(View()) && freeing == j && b < |table| && ErasedUpTo(s, View(), j, b, 0)
      modifies this`table, this`destructed
      ensures |table| == |old(table)| && Inv(View()) && ErasedUpTo(s, View(), j, b + 1, 0)
    {
      hide Inv, ErasedUpTo;
      var i := 0;
      while i < |table[b]|
        invariant |table| == |old(table)| && i <= |table[b]| && Inv(View()) && ErasedUpTo(s, View(), j, b, i)
      {
        ghost var s1 := View();
        EntryBounds(s1, b, i);
        if j < |table[b][i].storage| && table[b][i].storage[j].Some? {
          ClearSlotKeeps(s1, b, i, j);
          SlotValue(s1, b, i, j);
          if kinds[j].dtor {
            destructed := destructed + multiset{table[b][i].storage[j].value};
          }
          table := table[b := table[b][i := table[b][i].(storage := table[b][i].storage[j := None])]];
          assert View() == ClearSlot(s1, b, i, j);
        } else {
          NothingToBlank(s1, b, i, j);
        }
        EraseOne(s, s1, View(), j, b, i);
        i := i + 1;
      }
      ErasedRow(s, View(), j, b);
    }

    // ----- the end

    /** `tsrm_shutdown` in the main thread. */
    method Shutdown()
      requires Valid()
      modifies this`table, this`destructed
      ensures forall r :: LifeOver(kinds, filled, constructed, destructed, r)
    {
      hide Inv;
      var b := 0;
      while b < |table|
        invariant b <= |table| && Inv(View()) && forall c :: 0 <= c < b ==> table[c] == []
      {
        ShutBucket(b);
        b := b + 1;
      }
      NothingLeft(View());
      table := [];
    }

    method ShutBucket(b: nat)
      requires Inv(View()) && b < |table|
      modifies this`table, this`destructed
      ensures |table| == |old(table)| && Inv(View()) && table[b] == [] && forall c :: 0 <= c < |table| && c != b ==>
        table[c] == old(table)[c]
    {
      hide Inv;
      while |table[b]| > 0
        invariant |table| == |old(table)| && Inv(View()) && forall c :: 0 <= c < |table| && c != b ==>
          table[c] == old(table)[c]
        decreases |table[b]|
      {
        ghost var s := View();
        assert At(s, b, 0);
        UnlinkKeeps(s, b, 0);
        EntryBounds(s, b, 0);
        DestructLive(table[b][0]);
        assert table[b][..0] + table[b][1..] == table[b][1..];
        table := table[b := table[b][1..]];
        assert View() == Unlink(s, b, 0);
      }
    }

    /** The shutdown destructs what is not NULL and not freed. */
    method DestructLive(e: Entry)
      requires |e.storage| <= |kinds| && StorageOk(kinds, freeing, e)
      modifies this`destructed
      ensures destructed == old(destructed) + Gone(kinds, e, |e.storage|)
    {
      hide StorageOk, SlotOk, Gone;
      ghost var before := destructed;
      NoSlots(kinds, e, before);
      var j := 0;
      while j < |e.storage|
        invariant j <= |e.storage| && destructed == before + Gone(kinds, e, j)
      {
        NextSlot(kinds, freeing, e, j, before);
        if e.storage[j].Some? && !kinds[j].done && kinds[j].dtor {
          destructed := destructed + multiset{e.storage[j].value};
        }
        j := j + 1;
      }
    }
  }

  // ----- facts the methods use

  lemma EntryBounds(s: State, b: nat, i: nat)
    requires Inv(s) && At(s, b, i)
    ensures s.good <= |s.table[b][i].storage| <= |s.kinds| && StorageOk(s.kinds, s.freeing, s.table[b][i])
    ensures s.table[b][i].thread % |s.table| == b
  {
    assert EntryOk(s, b, s.table[b][i]);
  }

  lemma SlotValue(s: State, b: nat, i: nat, j: nat)
    requires Inv(s) && At(s, b, i) && j < |s.table[b][i].storage| && s.table[b][i].storage[j].Some?
    ensures s.table[b][i].storage[j].value == Resource(s.table[b][i].serial, j)
  {
    EntryBounds(s, b, i);
    assert SlotOk(s.kinds, s.freeing, s.table[b][i], j);
  }

  /** Ending the thread of entry `e` calls destructors on NULL exactly when it covers a freed id. */
  ghost predicate CoveredExactly(s: State, thread: nat, e: Entry) {
    && |e.storage| <= |s.kinds|
    && (CoversFreed(s, thread) <==> NullCalls(s.kinds, e, |e.storage|) > 0)
    && NullCalls(s.kinds, e, |e.storage|) == |Covered(s.kinds, e, |e.storage|)|
  }

  /** The null calls of ending a thread, from the entry that is found. */
  lemma CoveredBy(s: State, thread: nat, i: nat)
    requires Inv(s) && s.freeing == -1 && |s.table| > 0 && i == FindThread(s.table[thread % |s.table|], thread)
    ensures var chain := s.table[thread % |s.table|];
            if i == |chain| then !CoversFreed(s, thread) else CoveredExactly(s, thread, chain[i])
  {
    var b := thread % |s.table|;
    var chain := s.table[b];
    if i < |chain| {
      assert At(s, b, i);
      EntryBounds(s, b, i);
      var e := chain[i];
      NullCallsMade(s.kinds, e, |e.storage|);
      if NullCalls(s.kinds, e, |e.storage|) > 0 {
        var j :| 0 <= j < |e.storage| && CoversAt(s.kinds, e, j);
        assert At(s, b, i) && CoversAt(s.kinds, e, j);
      }
      if CoversFreed(s, thread) {
        var k, j :| At(s, b, k) && s.table[b][k].thread == thread && CoversAt(s.kinds, s.table[b][k], j);
        assert k == i;
      }
    }
  }

  /** One more slot is destructed. */
  lemma NextSlot(kinds: seq<Kind>, freeing: int, e: Entry, j: nat, before: multiset<Resource>)
    requires j < |e.storage| <= |kinds| && StorageOk(kinds, freeing, e)
    ensures e.storage[j].Some? ==> !kinds[j].done
    ensures before + Gone(kinds, e, j + 1)
         == before + Gone(kinds, e, j) + if e.storage[j].Some? && kinds[j].dtor then multiset{e.storage[j].value}
           else multiset{}
  {
    assert SlotOk(kinds, freeing, e, j);
  }

  lemma NoSlots(kinds: seq<Kind>, e: Entry, before: multiset<Resource>)
    ensures before + Gone(kinds, e, 0) == before
  {
  }

  /** What destructing the first `n` slots of `e` destructs. */
  ghost function Gone(kinds: seq<Kind>, e: Entry, n: nat): multiset<Resource>
    requires n <= |e.storage|
  {
    InSlots(e, n, Dtor(kinds))
  }

  lemma NotDone(s: State, j: nat)
    requires Inv(s) && s.good <= j < |s.kinds|
    ensures !s.kinds[j].done
  {
  }

  lemma KindsBound(s: State)
    requires Inv(s)
    ensures s.freeing < s.good <= |s.kinds|
  {
  }

  lemma SelfFills(s: State)
    requires Inv(s)
    ensures Fills(s, s) && Grew(s, s)
  {
    hide Live;
    forall r ensures FilledAs(s, s, r) {
      assert LifeOk(s, r);
    }
  }

  ghost predicate FullTo(s: State, b: nat) {
    forall c, i :: c < b && At(s, c, i) ==> |s.table[c][i].storage| == |s.kinds|
  }

  lemma GrewTrans(s: State, s1: State, s2: State)
    requires Grew(s, s1) && Grew(s1, s2)
    ensures Grew(s, s2)
  {
    forall c, k | At(s, c, k) ensures EntryGrew(s.table[c][k], s2.table[c][k]) {
      assert At(s1, c, k) && EntryGrew(s.table[c][k], s1.table[c][k]);
    }
  }

  lemma SameTableGrew(s: State, s': State)
    requires SameTable(s, s')
    ensures Grew(s, s')
  {
  }

  lemma FastSlow(kinds: seq<Kind>, k: Kind, entrySize: nat, reservedPos: nat)
    requires FastOk(kinds, entrySize, reservedPos) && k.fastOffset == 0
    ensures FastOk(kinds + [k], entrySize, reservedPos)
  {
    var kinds' := kinds + [k];
    forall j | 0 <= j < |kinds'| ensures FastInside(kinds', entrySize, reservedPos, j) {
      if j < |kinds| { assert FastInside(kinds, entrySize, reservedPos, j); }
    }
  }

  lemma FastFast(kinds: seq<Kind>, k: Kind, entrySize: nat, reservedPos: nat)
    requires FastOk(kinds, entrySize, reservedPos) && k.fastOffset == entrySize + reservedPos
    ensures FastOk(kinds + [k], entrySize, reservedPos + k.size)
  {
    var kinds', pos := kinds + [k], reservedPos + k.size;
    forall j | 0 <= j < |kinds'| ensures FastInside(kinds', entrySize, pos, j) {
      if j < |kinds| { assert FastInside(kinds, entrySize, reservedPos, j); }
    }
    forall j | 0 <= j < |kinds| && kinds[j].fastOffset > 0 ensures kinds[j].fastOffset + kinds[j].size <= k.fastOffset {
      assert FastInside(kinds, entrySize, reservedPos, j);
    }
  }

  lemma FastDone(kinds: seq<Kind>, j: nat, entrySize: nat, reservedPos: nat)
    requires FastOk(kinds, entrySize, reservedPos) && j < |kinds|
    ensures FastOk(kinds[j := kinds[j].(done := true)], entrySize, reservedPos)
  {
    var kinds' := kinds[j := kinds[j].(done := true)];
    forall i | 0 <= i < |kinds'| ensures FastInside(kinds', entrySize, reservedPos, i) {
      assert FastInside(kinds, entrySize, reservedPos, i);
    }
  }

  /** The state while the new entry has `i` of its slots. */
  ghost function Filling(s: State, b: nat, thread: nat, i: nat): State
    requires b < |s.table| && i <= |s.kinds|
  {
    var e := Entry(s.next, thread, NewStorage(s.kinds, s.next, i));
    s.(table := s.table[b := s.table[b] + [e]], next := s.next + 1, filled := s.filled + InSlots(e, i, All()),
       constructed := s.constructed + InSlots(e, i, Ctor(s.kinds)))
  }

  /** One more slot for the last entry of bucket `b`. */
  function SlotAdded(f: State, b: nat, i: nat): State
    requires b < |f.table| && |f.table[b]| > 0 && i < |f.kinds|
  {
    var n := |f.table[b]| - 1;
    var e := f.table[b][n];
    if f.kinds[i].done then f.(table := f.table[b := f.table[b][n := e.(storage := e.storage + [None])]])
    else
      var r := Resource(e.serial, i);
      f.(table := f.table[b := f.table[b][n := e.(storage := e.storage + [Some(r)])]], filled := f.filled + multiset{r},
         constructed := if f.kinds[i].ctor then f.constructed + multiset{r} else f.constructed)
  }

  lemma FillStart(s: State, b: nat, thread: nat)
    requires b < |s.table|
    ensures Filling(s, b, thread, 0)
      == s.(table := s.table[b := s.table[b] + [Entry(s.next, thread, [])]], next := s.next + 1)
  {
    assert NewStorage(s.kinds, s.next, 0) == [];
    assert s.filled + multiset{} == s.filled && s.constructed + multiset{} == s.constructed;
  }

  lemma FillStep(s: State, b: nat, thread: nat, i: nat)
    requires b < |s.table| && i < |s.kinds|
    ensures var f := Filling(s, b, thread, i);
            b < |f.table| && |f.table[b]| > 0 && f.kinds == s.kinds
              && Filling(s, b, thread, i + 1) == SlotAdded(f, b, i)
  {
    var f := Filling(s, b, thread, i);
    var n, x := |f.table[b]| - 1, if s.kinds[i].done then None else Some(Resource(s.next, i));
    NextStorage(s.kinds, s.next, i);
    assert All()(i) && (Ctor(s.kinds)(i) <==> s.kinds[i].ctor);
    hide NewStorage, InSlots, All, Ctor;
    var e, e' := f.table[b][n], Entry(s.next, thread, NewStorage(s.kinds, s.next, i + 1));
    assert (s.table[b] + [e])[n := e'] == s.table[b] + [e'];
    assert f.table[b := s.table[b] + [e']] == s.table[b := s.table[b] + [e']];
    var one := multiset{Resource(s.next, i)};
    FillBuilt(e, e', i, All());
    FillBuilt(e, e', i, Ctor(s.kinds));
    AddTwice(s.filled, InSlots(e, i, All()), if x.Some? then one else multiset{});
    AddTwice(s.constructed, InSlots(e, i, Ctor(s.kinds)), if x.Some? && s.kinds[i].ctor then one else multiset{});
  }

  lemma AddTwice(a: multiset<Resource>, b: multiset<Resource>, c: multiset<Resource>)
    ensures a + (b + c) == a + b + c && a + b + multiset{} == a + b
  {
  }

  lemma NextStorage(kinds: seq<Kind>, serial: nat, i: nat)
    requires i < |kinds|
    ensures NewStorage(kinds, serial, i + 1)
      == NewStorage(kinds, serial, i) + [if kinds[i].done then None else Some(Resource(serial, i))]
  {
  }

  lemma FillBuilt(e: Entry, e': Entry, i: nat, of: nat -> bool)
    requires |e.storage| == i && e'.serial == e.serial && |e'.storage| == i + 1 && e'.storage[..i] == e.storage
    ensures InSlots(e', i + 1, of)
         == InSlots(e, i, of) + if e'.storage[i].Some? && of(i) then multiset{Resource(e.serial, i)} else multiset{}
  {
    assert forall j :: 0 <= j < i ==> e'.storage[j] == e.storage[j];
  }

  lemma LinkIs(s: State, b: nat, thread: nat)
    requires b < |s.table|
    ensures Link(s, b, thread) == Filling(s, b, thread, |s.kinds|)
  {
  }

  /** Entries up to (`b`, `i`) have nothing at id `j` any more; otherwise nothing changed. */
  ghost predicate ErasedUpTo(s: State, s': State, j: nat, b: nat, i: nat) {
    && |s'.table| == |s.table|
    && (forall c :: 0 <= c < |s.table| ==> |s'.table[c]| == |s.table[c]|)
    && (forall c, k :: At(s, c, k) ==>
          s'.table[c][k] == if c < b || (c == b && k < i) then Blank(s.table[c][k], j) else s.table[c][k])
  }

  function Blank(e: Entry, j: nat): Entry {
    if j < |e.storage| then e.(storage := e.storage[j := None]) else e
  }

  /** The same entries with nothing at id `j`. */
  ghost predicate Erased(s: State, s': State, j: nat) {
    ErasedUpTo(s, s', j, |s.table|, 0)
  }

  lemma ErasedTo(s: State, s': State, j: nat)
    requires SameTable(s, s')
    ensures ErasedUpTo(s, s', j, 0, 0)
  {
  }

  lemma ErasedRow(s: State, s': State, j: nat, b: nat)
    requires b < |s'.table| && ErasedUpTo(s, s', j, b, |s'.table[b]|)
    ensures ErasedUpTo(s, s', j, b + 1, 0)
  {
  }

  lemma ErasedSame(s: State, s1: State, s': State, j: nat)
    requires Erased(s, s1, j) && SameTable(s1, s')
    ensures Erased(s, s', j)
  {
  }

  lemma EraseEnd(s: State, s': State, j: nat)
    requires ErasedUpTo(s, s', j, |s.table|, 0)
    ensures Erased(s, s', j) && Cleared(s', j)
  {
    forall b, i | At(s', b, i) && j < |s'.table[b][i].storage| ensures s'.table[b][i].storage[j].None? {
      assert At(s, b, i);
    }
  }

  lemma EraseOne(s: State, s1: State, s': State, j: nat, b: nat, i: nat)
    requires ErasedUpTo(s, s1, j, b, i) && At(s1, b, i)
    requires SameTable(s', Replace(s1, b, i, Blank(s1.table[b][i], j)))
    ensures ErasedUpTo(s, s', j, b, i + 1)
  {
    ReplaceAt(s1, s', b, i, Blank(s1.table[b][i], j));
    assert At(s, b, i);
    assert forall c, k :: At(s, c, k) ==> At(s1, c, k);
  }

  lemma NothingToBlank(s: State, b: nat, i: nat, j: nat)
    requires At(s, b, i) && (j < |s.table[b][i].storage| ==> s.table[b][i].storage[j].None?)
    ensures SameTable(s, Replace(s, b, i, Blank(s.table[b][i], j)))
  {
    if j < |s.table[b][i].storage| {
      assert s.table[b][i].storage[j := None] == s.table[b][i].storage;
    }
    assert s.table[b][i := s.table[b][i]] == s.table[b] && s.table[b := s.table[b]] == s.table;
  }

  predicate HasCtor(kinds: seq<Kind>, r: Resource) {
    r.id < |kinds| && kinds[r.id].ctor
  }

  predicate HasDtor(kinds: seq<Kind>, r: Resource) {
    r.id < |kinds| && kinds[r.id].dtor
  }

  /** `r` was in a slot at most once, and then constructed and destructed as its id asks for. */
  ghost predicate LifeOver(kinds: seq<Kind>, filled: multiset<Resource>, constructed: multiset<Resource>,
                           destructed: multiset<Resource>, r: Resource) {
    && filled[r] <= 1
    && constructed[r] == (if filled[r] == 1 && HasCtor(kinds, r) then 1 else 0)
    && destructed[r] == (if filled[r] == 1 && HasDtor(kinds, r) then 1 else 0)
  }

  lemma NothingLeft(s: State)
    requires Inv(s) && forall c :: 0 <= c < |s.table| ==> s.table[c] == []
    ensures forall r :: LifeOver(s.kinds, s.filled, s.constructed, s.destructed, r)
  {
    forall r ensures LifeOver(s.kinds, s.filled, s.constructed, s.destructed, r) {
      assert LifeOk(s, r);
    }
  }

  // ----- what the invariant says to a caller

  /** A thread has one entry at most. */
  lemma OneEntryPerThread(s: State, b: nat, i: nat, c: nat, k: nat)
    requires Inv(s) && At(s, b, i) && At(s, c, k) && s.table[b][i].thread == s.table[c][k].thread
    ensures b == c == s.table[b][i].thread % |s.table| && i == k
  {
    EntryBounds(s, b, i);
    EntryBounds(s, c, k);
  }

  /** Between calls a slot is NULL exactly when its id has been freed, in every entry there is. */
  lemma FreedIsNull(m: Manager, b: nat, i: nat, j: nat)
    requires m.Valid() && At(m.View(), b, i) && j < m.good
    ensures j < |m.kinds| && j < |m.table[b][i].storage|
    ensures m.table[b][i].storage[j] == if m.kinds[j].done then None else Some(Resource(m.table[b][i].serial, j))
  {
    EntryBounds(m.View(), b, i);
    assert SlotOk(m.kinds, m.freeing, m.table[b][i], j);
  }

  /** Two fast ids never share memory of an entry, and both stay inside what was allocated for it. */
  lemma FastSlotsDisjoint(m: Manager, i: nat, j: nat, byte: nat)
    requires m.Valid() && i < |m.kinds| && j < |m.kinds| && m.kinds[i].fastOffset > 0 && m.kinds[j].fastOffset > 0
    requires m.kinds[i].fastOffset <= byte < m.kinds[i].fastOffset + m.kinds[i].size
    requires m.kinds[j].fastOffset <= byte < m.kinds[j].fastOffset + m.kinds[j].size
    ensures i == j && m.entrySize <= byte < m.entrySize + m.reservedSize
  {
    assert FastInside(m.kinds, m.entrySize, m.reservedPos, i);
  }
}
