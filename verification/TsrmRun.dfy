/** Whole runs of the resource manager: what any sequence of calls of any threads makes of the tables
    and of the life of every resource, and that the manager as it is built does just that. */
module TsrmRun {
  import opened Common
  import opened TsrmSpec
  import opened Tsrm

  datatype Call =
    | NewId(size: nat, ctor: bool, dtor: bool)
    | NewFastId(size: nat, ctor: bool, dtor: bool)
    | Get(id: nat, thread: nat)
    | EndThread(thread: nat)
    | DropId(id: nat)

  /** The tables; `built` are all resources that ever were in a slot, and `nulls` counts the destructor
      calls on NULL. */
  datatype World = World(table: seq<seq<Entry>>, kinds: seq<Kind>, good: nat, next: nat, built: set<Resource>,
                         nulls: nat,
                         typesSize: nat, reservedPos: nat, reservedSize: nat, entrySize: nat)

  /** The resources in the slots of a table. */
  ghost function LiveSet(table: seq<seq<Entry>>): set<Resource> {
    set b, i, j | 0 <= b < |table| && 0 <= i < |table[b]| && 0 <= j < |table[b][i].storage|
      && table[b][i].storage[j].Some?
      :: table[b][i].storage[j].value
  }

  /** `e` with a slot for each of `n` ids. */
  function FullEntry(e: Entry, n: nat): Entry {
    if n <= |e.storage| then e
    else
      var m := |e.storage|;
      e.(storage := e.storage + seq(n - m, k requires 0 <= k => Some(Resource(e.serial, m + k))))
  }

  function FullTable(table: seq<seq<Entry>>, n: nat): seq<seq<Entry>> {
    seq(|table|, b requires 0 <= b < |table| =>
      seq(|table[b]|, i requires 0 <= i < |table[b]| => FullEntry(table[b][i], n)))
  }

  function BlankTable(table: seq<seq<Entry>>, j: nat): seq<seq<Entry>> {
    seq(|table|, b requires 0 <= b < |table| =>
      seq(|table[b]|, i requires 0 <= i < |table[b]| => Blank(table[b][i], j)))
  }

  /** A new id with a record `k`: every entry gets a slot for it. */
  function WithKind(w: World, k: Kind): World {
    var n := |w.kinds| + 1;
    w.(kinds := w.kinds + [k], good := n, table := FullTable(w.table, n),
       typesSize := if w.typesSize < n then n else w.typesSize)
  }

  /** One call on the tables. Ids that were never handed out are not used, and a fast allocation that
      would fail with the type table full is not made. */
  function Change(w: World, c: Call): (w': World)
    requires w.table != []
    ensures |w'.table| == |w.table|
  {
    match c
    case NewId(size, ctor, dtor) => WithKind(w, Kind(size, ctor, dtor, 0, false))
    case NewFastId(size, ctor, dtor) =>
      if w.reservedPos + Aligned(size) <= w.reservedSize then
        var offset := w.entrySize + w.reservedPos;
        WithKind(w, Kind(Aligned(size), ctor, dtor, offset, false)).(reservedPos := w.reservedPos + Aligned(size))
      else if |w.kinds| < w.typesSize then w.(kinds := w.kinds + [Kind(0, false, false, 0, false)])
      else w
    case Get(id, thread) =>
      var b := thread % |w.table|;
      if id > w.good || FindThread(w.table[b], thread) < |w.table[b]| then w
      else w.(table := w.table[b := w.table[b] + [Entry(w.next, thread, NewStorage(w.kinds, w.next, |w.kinds|))]],
        next := w.next + 1)
    case EndThread(thread) =>
      var b := thread % |w.table|;
      var i := FindThread(w.table[b], thread);
      if i == |w.table[b]| then w
      else
        var e := w.table[b][i];
        w.(table := w.table[b := w.table[b][..i] + w.table[b][i + 1..]],
           nulls := w.nulls + if |e.storage| <= |w.kinds| then NullCalls(w.kinds, e, |e.storage|) else 0)
    case DropId(id) =>
      if !(1 <= id <= w.good && id <= |w.kinds|) then w
      else w.(table := BlankTable(w.table, id - 1), kinds := w.kinds[id - 1 := w.kinds[id - 1].(done := true)])
  }

  ghost function Step(w: World, c: Call): World
    requires w.table != []
  {
    var w' := Change(w, c);
    w'.(built := w.built + LiveSet(w'.table))
  }

  function Start(entrySize: nat, threads: nat, resources: nat, reserve: nat): World {
    World(seq(threads, i => []), [], 0, 0, {}, 0, resources, 0, Aligned(reserve), entrySize)
  }

  ghost function Run(w: World, calls: seq<Call>): (w': World)
    requires w.table != []
    ensures w'.table != []
  {
    if calls == [] then w else Step(Run(w, calls[..|calls| - 1]), calls[|calls| - 1])
  }

  // ----- the manager follows

  ghost predicate CountedOnce(filled: multiset<Resource>, built: set<Resource>) {
    forall r :: filled[r] == if r in built then 1 else 0
  }

  ghost predicate Follows(m: Manager, w: World)
    reads m
  {
    && m.table == w.table && m.kinds == w.kinds && m.good == w.good && m.next == w.next && m.nulls == w.nulls
    && m.typesSize == w.typesSize && m.reservedPos == w.reservedPos && m.reservedSize == w.reservedSize
      && m.entrySize == w.entrySize
    && CountedOnce(m.filled, w.built)
  }

  lemma LiveSetIsLive(s: State, r: Resource)
    requires Inv(s)
    ensures r in LiveSet(s.table) <==> Live(s, r)
  {
    if r in LiveSet(s.table) {
      var b, i, j :| 0 <= b < |s.table| && 0 <= i < |s.table[b]| && 0 <= j < |s.table[b][i].storage|
                  && s.table[b][i].storage[j].Some? && r == s.table[b][i].storage[j].value;
      assert At(s, b, i);
      SlotValue(s, b, i, j);
      assert Holds(s.table[b][i], r);
    }
    if Live(s, r) {
      var b, i :| At(s, b, i) && Holds(s.table[b][i], r);
      SlotValue(s, b, i, r.id);
      assert s.table[b][i].storage[r.id].Some?;
    }
  }

  /** What is live counts as built; nothing else changes the count. */
  lemma BuiltGrows(s: State, s': State, built: set<Resource>)
    requires Inv(s') && CountedOnce(s.filled, built) && (Fills(s, s') || s'.filled == s.filled)
    ensures CountedOnce(s'.filled, built + LiveSet(s'.table))
  {
    hide Live, LiveSet;
    forall r ensures s'.filled[r] == if r in built + LiveSet(s'.table) then 1 else 0 {
      LiveSetIsLive(s', r);
      assert LifeOk(s', r);
      assert Fills(s, s') ==> FilledAs(s, s', r);
    }
  }

  /** Entries that grew to the full number of ids are those of the full table. */
  lemma GrewToFull(s: State, s': State)
    requires Grew(s, s') && Full(s') && Inv(s') && s'.freeing == -1
    requires forall b, i :: At(s, b, i) ==> s.good <= |s.table[b][i].storage| <= |s'.kinds|
    requires s.good <= |s'.kinds| && forall j :: s.good <= j < |s'.kinds| ==> !s'.kinds[j].done
    ensures s'.table == FullTable(s.table, |s'.kinds|)
  {
    forall b, i | At(s, b, i) ensures s'.table[b][i] == FullEntry(s.table[b][i], |s'.kinds|) {
      assert At(s', b, i) && EntryGrew(s.table[b][i], s'.table[b][i]);
      EntryIsFull(s', b, i, s.table[b][i], s.good);
    }
    forall b | 0 <= b < |s.table| ensures s'.table[b] == FullTable(s.table, |s'.kinds|)[b] {
      assert forall i :: 0 <= i < |s.table[b]| ==> At(s, b, i);
    }
  }

  lemma EntryIsFull(s: State, b: nat, i: nat, e: Entry, good: nat)
    requires Inv(s) && s.freeing == -1 && At(s, b, i) && EntryGrew(e, s.table[b][i])
      && |s.table[b][i].storage| == |s.kinds|
    requires good <= |e.storage| && forall j :: good <= j < |s.kinds| ==> !s.kinds[j].done
    ensures s.table[b][i] == FullEntry(e, |s.kinds|)
  {
    var e' := s.table[b][i];
    EntryBounds(s, b, i);
    forall j | |e.storage| <= j < |s.kinds| ensures e'.storage[j] == Some(Resource(e.serial, j)) {
      assert SlotOk(s.kinds, s.freeing, e', j);
    }
    assert e'.storage[..|e.storage|] == e.storage;
    assert e'.storage == FullEntry(e, |s.kinds|).storage;
  }

  lemma ErasedIsBlank(s: State, s': State, j: nat)
    requires Erased(s, s', j)
    ensures s'.table == BlankTable(s.table, j)
  {
    forall b | 0 <= b < |s.table| ensures s'.table[b] == BlankTable(s.table, j)[b] {
      assert forall i :: 0 <= i < |s.table[b]| ==> At(s, b, i);
    }
  }

  lemma GoodSlots(s: State)
    requires Inv(s)
    ensures s.good <= |s.kinds| && forall b, i :: At(s, b, i) ==> s.good <= |s.table[b][i].storage| <= |s.kinds|
    ensures forall j :: s.good <= j < |s.kinds| ==> !s.kinds[j].done
  {
    forall b, i | At(s, b, i) ensures s.good <= |s.table[b][i].storage| <= |s.kinds| {
      assert EntryOk(s, b, s.table[b][i]);
    }
  }

  lemma SameLiveSet(s: State, built: set<Resource>)
    requires Inv(s) && CountedOnce(s.filled, built)
    ensures built + LiveSet(s.table) == built
  {
    hide Live, LiveSet;
    forall r | r in LiveSet(s.table) ensures r in built {
      LiveSetIsLive(s, r);
      assert LifeOk(s, r);
    }
  }

  /** One call; `given` is the last id handed out. */
  method Perform(m: Manager, c: Call, given: nat, ghost w: World) returns (last: nat)
    requires m.Valid() && Follows(m, w) && given == m.good
    modifies m
    ensures m.Valid() && last == m.good && w.table != [] && Follows(m, Step(w, c))
  {
    hide Inv, LiveSet, FastOk;
    match c {
      case NewId(_, _, _) => last := PerformNew(m, c, given, w);
      case NewFastId(_, _, _) => last := PerformFast(m, c, given, w);
      case Get(id, thread) => last := PerformGet(m, c, given, w);
      case EndThread(thread) => last := PerformEnd(m, c, given, w);
      case DropId(id) => last := PerformDrop(m, c, given, w);
    }
  }

  method PerformNew(m: Manager, c: Call, given: nat, ghost w: World) returns (last: nat)
    requires m.Valid() && Follows(m, w) && given == m.good && c.NewId?
    modifies m
    ensures m.Valid() && last == m.good && w.table != [] && Follows(m, Step(w, c))
  {
    hide Inv, LiveSet, FastOk, FullTable, CountedOnce, Fills, Grew;
    ghost var s := m.View();
    GoodSlots(s);
    last := m.AllocateId(c.size, c.ctor, c.dtor);
    GrewToFull(s, m.View());
    BuiltGrows(s, m.View(), w.built);
  }

  method PerformFast(m: Manager, c: Call, given: nat, ghost w: World) returns (last: nat)
    requires m.Valid() && Follows(m, w) && given == m.good && c.NewFastId?
    modifies m
    ensures m.Valid() && last == m.good && w.table != [] && Follows(m, Step(w, c))
  {
    hide Inv, LiveSet, FastOk, FullTable, CountedOnce, Fills, Grew;
    last := given;
    ghost var s := m.View();
    GoodSlots(s);
    SameLiveSet(s, w.built);
    if Aligned(c.size) <= m.reservedSize - m.reservedPos || |m.kinds| < m.typesSize {
      var id, offset := m.AllocateFastId(c.size, c.ctor, c.dtor, Kind(0, false, false, 0, false));
      if id != 0 {
        last := id;
        GrewToFull(s, m.View());
        BuiltGrows(s, m.View(), w.built);
      }
    }
  }

  method PerformGet(m: Manager, c: Call, given: nat, ghost w: World) returns (last: nat)
    requires m.Valid() && Follows(m, w) && given == m.good && c.Get?
    modifies m
    ensures m.Valid() && last == m.good && w.table != [] && Follows(m, Step(w, c))
  {
    hide Inv, LiveSet, FastOk, CountedOnce, Fills;
    last := given;
    ghost var s := m.View();
    SameLiveSet(s, w.built);
    if c.id <= given {
      var b := c.thread % |m.table|;
      if FindThread(m.table[b], c.thread) == |m.table[b]| { LinkKeeps(s, b, c.thread); }
      var _ := m.Fetch(c.id, c.thread);
      BuiltGrows(s, m.View(), w.built);
    }
  }

  method PerformEnd(m: Manager, c: Call, given: nat, ghost w: World) returns (last: nat)
    requires m.Valid() && Follows(m, w) && given == m.good && c.EndThread?
    modifies m
    ensures m.Valid() && last == m.good && w.table != [] && Follows(m, Step(w, c))
  {
    hide Inv, LiveSet, FastOk, CountedOnce, NullCalls;
    last := given;
    ghost var s := m.View();
    m.FreeThread(c.thread);
    BuiltGrows(s, m.View(), w.built);
  }

  method PerformDrop(m: Manager, c: Call, given: nat, ghost w: World) returns (last: nat)
    requires m.Valid() && Follows(m, w) && given == m.good && c.DropId?
    modifies m
    ensures m.Valid() && last == m.good && w.table != [] && Follows(m, Step(w, c))
  {
    hide Inv, LiveSet, FastOk, CountedOnce, Erased;
    last := given;
    ghost var s := m.View();
    GoodSlots(s);
    SameLiveSet(s, w.built);
    if 1 <= c.id <= given {
      m.FreeId(c.id);
      ErasedIsBlank(s, m.View(), c.id - 1);
      BuiltGrows(s, m.View(), w.built);
    }
  }

  /** The calls on `r` in a whole run whose resources are `built`. */
  ghost predicate LivedOnce(kinds: seq<Kind>, built: set<Resource>, constructed: multiset<Resource>,
                            destructed: multiset<Resource>, r: Resource) {
    && constructed[r] == (if r in built && HasCtor(kinds, r) then 1 else 0)
    && destructed[r] == (if r in built && HasDtor(kinds, r) then 1 else 0)
  }

  /** Any run of calls of any threads, ended by the shutdown. The ids are those of the run; every
      resource that was ever put in a slot was constructed once if its id has a constructor and
      destructed once if it has a destructor, and nothing else ever was; the destructor calls on NULL
      are those of the run. */
  method Session(entrySize: nat, expectedThreads: nat, expectedResources: nat, reserve: nat, calls: seq<Call>)
    returns (kinds: seq<Kind>, constructed: multiset<Resource>, destructed: multiset<Resource>, nulls: nat)
    requires expectedThreads > 0 && entrySize > 0
    ensures var w := Run(Start(entrySize, expectedThreads, expectedResources, reserve), calls);
            && kinds == w.kinds && nulls == w.nulls
            && forall r :: LivedOnce(kinds, w.built, constructed, destructed, r)
  {
    hide Step;
    var m := new Manager(entrySize, expectedThreads, expectedResources, reserve);
    ghost var start := Start(entrySize, expectedThreads, expectedResources, reserve);
    assert m.table == start.table;
    var given, i := 0, 0;
    while i < |calls|
      invariant i <= |calls| && m.Valid() && fresh(m) && given == m.good && given >= 0
      invariant Follows(m, Run(start, calls[..i]))
    {
      assert calls[..i + 1][..i] == calls[..i];
      given := Perform(m, calls[i], given, Run(start, calls[..i]));
      i := i + 1;
    }
    assert calls[..i] == calls;
    ghost var w, filled := Run(start, calls), m.filled;
    hide Run;
    m.Shutdown();
    forall r ensures LivedOnce(m.kinds, w.built, m.constructed, m.destructed, r) {
      assert LifeOver(m.kinds, m.filled, m.constructed, m.destructed, r);
      assert filled[r] == if r in w.built then 1 else 0;
    }
    return m.kinds, m.constructed, m.destructed, m.nulls;
  }

  /** A manager without a reservation and without room in the type table: a fast allocation fails and
      leaves the tables inconsistent, whatever the record behind the table holds. */
  method FullTableExample(size: nat, junk: Kind) returns (m: Manager, id: nat)
    requires size > 0
    ensures fresh(m) && id == 0 && !m.Valid() && !m.locked && m.kinds == [junk] && m.typesSize == 0
  {
    var offset;
    m := new Manager(16, 1, 0, 0);
    id, offset := m.AllocateFastId(size, false, false, junk);
  }

  lemma RunOfFour(w: World, calls: seq<Call>)
    requires w.table != [] && |calls| == 4
    ensures Run(w, calls) == Step(Step(Step(Step(w, calls[0]), calls[1]), calls[2]), calls[3])
  {
    hide Step;
    var c1, c2, c3 := calls[..1], calls[..2], calls[..3];
    assert c1[..0] == [] && c2[..1] == c1 && c3[..2] == c2 && calls[..3] == c3;
    assert Run(w, c1) == Step(Run(w, c1[..0]), calls[0]);
    assert Run(w, c2) == Step(Run(w, c1), calls[1]);
    assert Run(w, c3) == Step(Run(w, c2), calls[2]);
  }

  /** Freeing an id with a destructor and ending a thread that had it calls the destructor on NULL. */
  lemma NullExample(entrySize: nat, thread: nat)
    ensures Run(Start(entrySize, 1, 1, 0), [NewId(8, false, true), Get(0, thread), DropId(1), EndThread(thread)]).nulls
      == 1
  {
    var k, e := Kind(8, false, true, 0, false), Entry(0, thread, [Some(Resource(0, 0))]);
    var w, calls := Start(entrySize, 1, 1, 0), [NewId(8, false, true), Get(0, thread), DropId(1), EndThread(thread)];
    RunOfFour(w, calls);
    hide Run;
    var w1 := Step(w, NewId(8, false, true));
    assert w1.kinds == [k] && w1.table == [[]] && w1.good == 1 && w1.next == 0 && w1.nulls == 0;
    FirstEntry(w1, thread, k, e);
    var w2 := Step(w1, Get(0, thread));
    ClearedEntry(w2, thread, k, e);
    var w3 := Step(w2, DropId(1));
    NullCall(w3, thread, k.(done := true), e.(storage := [None]));
    assert Run(w, calls) == Step(w3, EndThread(thread));
    assert w2.nulls == 0 && w3.nulls == 0 && Step(w3, EndThread(thread)).nulls == 1;
  }

  lemma FirstEntry(w: World, thread: nat, k: Kind, e: Entry)
    requires w.kinds == [k] && !k.done && w.table == [[]] && w.good == 1 && w.next == 0
      && e == Entry(0, thread, [Some(Resource(0, 0))])
    ensures var w' := Step(w, Get(0, thread));
            w'.table == [[e]] && w'.kinds == [k] && w'.good == 1 && w'.nulls == w.nulls
  {
    assert thread % 1 == 0 && FindThread([], thread) == 0;
    assert NewStorage([k], 0, 1) == e.storage;
    var chain: seq<Entry> := w.table[0];
    assert chain + [e] == [e] && w.table[0 := [e]] == [[e]];
  }

  lemma ClearedEntry(w: World, thread: nat, k: Kind, e: Entry)
    requires w.kinds == [k] && w.table == [[e]] && w.good == 1 && |e.storage| == 1
    ensures var w' := Step(w, DropId(1));
            w'.table == [[e.(storage := [None])]] && w'.kinds == [k.(done := true)] && w'.nulls == w.nulls
  {
    var e' := e.(storage := [None]);
    assert Blank(e, 0) == e' by { assert e.storage[0 := None] == [None]; }
    assert BlankTable([[e]], 0)[0] == [e'];
    assert BlankTable([[e]], 0) == [[e']];
  }

  lemma NullCall(w: World, thread: nat, k: Kind, e: Entry)
    requires w.kinds == [k] && k.dtor && w.table == [[e]] && e.thread == thread && e.storage == [None]
    ensures Step(w, EndThread(thread)).nulls == w.nulls + 1
  {
    assert thread % 1 == 0 && FindThread([e], thread) == 0;
    assert NullCalls([k], e, 0) == 0 && NullCalls([k], e, 1) == 1;
  }
}
