/** The thread-safe resource manager as a transition system: the tables, the life of every resource,
    and the invariant that each small step taken under the mutex keeps. */
module TsrmSpec {
  import opened Common

  /** A resource, named by the allocation of its thread entry and by its id. */
  datatype Resource = Resource(serial: nat, id: nat)

  /** A thread's storage; its length is the entry's `count`, and None is a NULL slot. */
  datatype Entry = Entry(serial: nat, thread: nat, storage: seq<Option<Resource>>)

  datatype Kind = Kind(size: nat, ctor: bool, dtor: bool, fastOffset: nat, done: bool)

  /** `next` numbers entry allocations; `good` is one more than the last id that was successfully
      allocated; `freeing` is the id whose slots are being freed, or -1. The multisets count how often
      each resource was put in its slot, and how often a constructor and a destructor ran on it. */
  datatype State = State(table: seq<seq<Entry>>, kinds: seq<Kind>, next: nat, good: nat, freeing: int,
                         filled: multiset<Resource>, constructed: multiset<Resource>, destructed: multiset<Resource>)

  ghost predicate At(s: State, b: int, i: int) {
    0 <= b < |s.table| && 0 <= i < |s.table[b]|
  }

  ghost predicate Holds(e: Entry, r: Resource) {
    e.serial == r.serial && r.id < |e.storage| && e.storage[r.id].Some?
  }

  /** `r` sits in the storage of a linked entry. */
  ghost predicate Live(s: State, r: Resource) {
    exists b, i :: At(s, b, i) && Holds(s.table[b][i], r)
  }

  /** A slot holds the resource of its own entry and id, and is NULL exactly when the id has been
      freed (or is being freed just now). */
  ghost predicate SlotOk(kinds: seq<Kind>, freeing: int, e: Entry, j: nat)
    requires j < |e.storage| <= |kinds|
  {
    && (e.storage[j].Some? ==> e.storage[j].value == Resource(e.serial, j) && !kinds[j].done)
    && (e.storage[j].None? ==> kinds[j].done || j == freeing)
  }

  ghost predicate StorageOk(kinds: seq<Kind>, freeing: int, e: Entry)
    requires |e.storage| <= |kinds|
  {
    forall j :: 0 <= j < |e.storage| ==> SlotOk(kinds, freeing, e, j)
  }

  /** Entry `e` of bucket `b` is where its thread hashes to, covers all good ids, and nothing was
      put in a slot for it beyond its storage. */
  ghost predicate EntryOk(s: State, b: nat, e: Entry) {
    && |s.table| > 0 && e.thread % |s.table| == b && e.serial < s.next
    && s.good <= |e.storage| <= |s.kinds| && StorageOk(s.kinds, s.freeing, e)
    && (forall r: Resource :: r.serial == e.serial && r.id >= |e.storage| ==> s.filled[r] == 0)
  }

  ghost predicate KindsOk(s: State) {
    && s.good <= |s.kinds| && s.freeing < s.good
    && (forall j :: s.good <= j < |s.kinds| ==> !s.kinds[j].done)
  }

  ghost predicate Tables(s: State) {
    forall b, i :: At(s, b, i) ==> EntryOk(s, b, s.table[b][i])
  }

  /** No thread has two entries, and no two entries are the same allocation. */
  ghost predicate Separate(s: State) {
    && (forall b, i, j :: At(s, b, i) && At(s, b, j) && i != j ==> s.table[b][i].thread != s.table[b][j].thread)
    && (forall b, i, c, j :: At(s, b, i) && At(s, c, j) && (b != c || i != j) ==>
      s.table[b][i].serial != s.table[c][j].serial)
  }

  /** A live resource was put in its slot once; it was constructed, once, if its id has a constructor,
      and destructed, once, if its id has a destructor and it is not live any more. */
  ghost predicate LifeOk(s: State, r: Resource) {
    && s.filled[r] <= 1 && (Live(s, r) ==> s.filled[r] == 1)
    && (s.filled[r] == 1 ==> r.serial < s.next && r.id < |s.kinds|)
    && s.constructed[r] == (if s.filled[r] == 1 && s.kinds[r.id].ctor then 1 else 0)
    && s.destructed[r] == if s.filled[r] == 1 && s.kinds[r.id].dtor && !Live(s, r) then 1 else 0
  }

  ghost predicate Lifecycle(s: State) {
    forall r :: LifeOk(s, r)
  }

  ghost predicate Inv(s: State) {
    KindsOk(s) && Tables(s) && Separate(s) && Lifecycle(s)
  }

  /** Between two states nothing was lost, and exactly what became live was put in its slot, once. */
  ghost predicate Fills(s: State, s': State) {
    forall r :: FilledAs(s, s', r)
  }

  ghost predicate FilledAs(s: State, s': State, r: Resource) {
    (Live(s, r) ==> Live(s', r)) && s'.filled[r] == if Live(s', r) then 1 else s.filled[r]
  }

  // ----- one entry rewritten

  function Replace(s: State, b: nat, i: nat, e: Entry): State
    requires b < |s.table| && i < |s.table[b]|
  {
    s.(table := s.table[b := s.table[b][i := e]])
  }

  ghost predicate SameTable(s: State, s': State) {
    s.table == s'.table
  }

  lemma ReplaceAt(s: State, s': State, b: nat, i: nat, e: Entry)
    requires At(s, b, i) && SameTable(s', Replace(s, b, i, e))
    ensures |s'.table| == |s.table| && forall c, k :: At(s', c, k) <==> At(s, c, k)
    ensures forall c, k :: At(s', c, k) ==> s'.table[c][k] == if c == b && k == i then e else s.table[c][k]
  {
  }

  lemma ReplaceSeparate(s: State, s': State, b: nat, i: nat, e: Entry)
    requires Separate(s) && At(s, b, i) && SameTable(s', Replace(s, b, i, e))
    requires e.serial == s.table[b][i].serial && e.thread == s.table[b][i].thread
    ensures Separate(s')
  {
    ReplaceAt(s, s', b, i, e);
  }

  lemma ReplaceLive(s: State, s': State, b: nat, i: nat, e: Entry, r: Resource)
    requires Separate(s) && At(s, b, i) && SameTable(s', Replace(s, b, i, e)) && e.serial == s.table[b][i].serial
    ensures Live(s', r) <==> if r.serial == e.serial then Holds(e, r) else Live(s, r)
  {
    ReplaceAt(s, s', b, i, e);
    if r.serial == e.serial {
      if Holds(e, r) { assert At(s', b, i) && Holds(s'.table[b][i], r); }
      if Live(s', r) {
        var c, k :| At(s', c, k) && Holds(s'.table[c][k], r);
        assert c == b && k == i;
      }
    } else {
      if Live(s, r) {
        var c, k :| At(s, c, k) && Holds(s.table[c][k], r);
        assert At(s', c, k) && Holds(s'.table[c][k], r);
      }
      if Live(s', r) {
        var c, k :| At(s', c, k) && Holds(s'.table[c][k], r);
        assert At(s, c, k) && Holds(s.table[c][k], r);
      }
    }
  }

  lemma HeldIsLive(s: State, b: nat, i: nat, r: Resource)
    requires Separate(s) && At(s, b, i) && r.serial == s.table[b][i].serial
    ensures Live(s, r) <==> Holds(s.table[b][i], r)
  {
    if Live(s, r) {
      var c, k :| At(s, c, k) && Holds(s.table[c][k], r);
      assert c == b && k == i;
    }
  }

  // ----- the small steps

  /** One more slot of entry `i`: allocated, and constructed if its id has a constructor. */
  function AddSlot(s: State, b: nat, i: nat): State
    requires b < |s.table| && i < |s.table[b]|
  {
    var e := s.table[b][i];
    var r := Resource(e.serial, |e.storage|);
    var built := if |e.storage| < |s.kinds| && s.kinds[|e.storage|].ctor then multiset{r} else multiset{};
    var s' := Replace(s, b, i, e.(storage := e.storage + [Some(r)]));
    s'.(filled := s.filled + multiset{r}, constructed := s.constructed + built)
  }

  lemma AddSlotEntry(s: State, b: nat, i: nat)
    requires At(s, b, i) && EntryOk(s, b, s.table[b][i])
    requires |s.table[b][i].storage| < |s.kinds| && !s.kinds[|s.table[b][i].storage|].done
    ensures EntryOk(AddSlot(s, b, i), b, AddSlot(s, b, i).table[b][i])
  {
    var e, e' := s.table[b][i], AddSlot(s, b, i).table[b][i];
    forall j | 0 <= j < |e'.storage| ensures SlotOk(s.kinds, s.freeing, e', j) {
      if j < |e.storage| { assert SlotOk(s.kinds, s.freeing, e, j); }
    }
  }

  lemma AddSlotKeeps(s: State, b: nat, i: nat)
    requires Inv(s) && At(s, b, i) && |s.table[b][i].storage| < |s.kinds| && !s.kinds[|s.table[b][i].storage|].done
    ensures Inv(AddSlot(s, b, i)) && Fills(s, AddSlot(s, b, i))
  {
    hide StorageOk, Live, Separate;
    var e, s' := s.table[b][i], AddSlot(s, b, i);
    var e' := s'.table[b][i];
    assert EntryOk(s, b, e);
    ReplaceAt(s, s', b, i, e');
    ReplaceSeparate(s, s', b, i, e');
    AddSlotEntry(s, b, i);
    forall c, k | At(s', c, k) ensures EntryOk(s', c, s'.table[c][k]) {
      assert At(s, c, k) && EntryOk(s, c, s.table[c][k]);
      if c != b || k != i { SerialsDiffer(s, b, i, c, k); }
    }
    forall r ensures LifeOk(s', r) && FilledAs(s, s', r) {
      assert LifeOk(s, r);
      ReplaceLive(s, s', b, i, e', r);
      if r.serial == e.serial { HeldIsLive(s, b, i, r); }
    }
  }

  lemma SerialsDiffer(s: State, b: nat, i: nat, c: nat, k: nat)
    requires Separate(s) && At(s, b, i) && At(s, c, k) && (b != c || i != k)
    ensures s.table[b][i].serial != s.table[c][k].serial
  {
  }

  /** The slot of the id being freed is destructed and set to NULL. */
  function ClearSlot(s: State, b: nat, i: nat, j: nat): State
    requires b < |s.table| && i < |s.table[b]| && j < |s.table[b][i].storage| && j < |s.kinds|
  {
    var e := s.table[b][i];
    var gone := if s.kinds[j].dtor then multiset{Resource(e.serial, j)} else multiset{};
    Replace(s, b, i, e.(storage := e.storage[j := None])).(destructed := s.destructed + gone)
  }

  lemma ClearSlotEntry(s: State, b: nat, i: nat, j: nat)
    requires At(s, b, i) && EntryOk(s, b, s.table[b][i]) && j < |s.table[b][i].storage| && s.freeing == j
    ensures EntryOk(ClearSlot(s, b, i, j), b, ClearSlot(s, b, i, j).table[b][i])
  {
    var e, e' := s.table[b][i], ClearSlot(s, b, i, j).table[b][i];
    forall k | 0 <= k < |e'.storage| ensures SlotOk(s.kinds, s.freeing, e', k) {
      assert SlotOk(s.kinds, s.freeing, e, k);
    }
  }

  lemma ClearSlotKeeps(s: State, b: nat, i: nat, j: nat)
    requires Inv(s) && At(s, b, i) && j < |s.table[b][i].storage| && s.table[b][i].storage[j].Some? && s.freeing == j
    ensures j < |s.kinds| && Inv(ClearSlot(s, b, i, j))
  {
    assert EntryOk(s, b, s.table[b][i]);
    hide StorageOk, Live, Separate;
    var e, s' := s.table[b][i], ClearSlot(s, b, i, j);
    var e' := s'.table[b][i];
    ReplaceAt(s, s', b, i, e');
    ReplaceSeparate(s, s', b, i, e');
    ClearSlotEntry(s, b, i, j);
    forall c, k | At(s', c, k) ensures EntryOk(s', c, s'.table[c][k]) {
      assert At(s, c, k) && EntryOk(s, c, s.table[c][k]);
    }
    forall r ensures LifeOk(s', r) {
      assert LifeOk(s, r);
      ReplaceLive(s, s', b, i, e', r);
      if r.serial == e.serial { HeldIsLive(s, b, i, r); }
    }
  }

  // ----- linking an entry

  /** What the entry for a new thread holds: every id that has not been freed. */
  function NewStorage(kinds: seq<Kind>, serial: nat, n: nat): (storage: seq<Option<Resource>>)
    requires n <= |kinds|
    ensures |storage| == n
  {
    seq(n, j requires 0 <= j < |kinds| => if kinds[j].done then None else Some(Resource(serial, j)))
  }

  /** The resources in the first `n` slots for which `of` holds. */
  ghost function InSlots(e: Entry, n: nat, of: nat -> bool): (m: multiset<Resource>)
    requires n <= |e.storage|
    ensures forall r :: m[r] == if r.serial == e.serial && r.id < n && e.storage[r.id].Some? && of(r.id) then 1 else 0
  {
    if n == 0 then multiset{}
    else InSlots(e, n - 1, of) + if e.storage[n - 1].Some? && of(n - 1) then multiset{Resource(e.serial, n - 1)}
      else multiset{}
  }

  ghost function All(): nat -> bool {
    (j: nat) => true
  }

  ghost function Ctor(kinds: seq<Kind>): nat -> bool {
    (j: nat) => j < |kinds| && kinds[j].ctor
  }

  ghost function Link(s: State, b: nat, thread: nat): State
    requires b < |s.table|
  {
    var e := Entry(s.next, thread, NewStorage(s.kinds, s.next, |s.kinds|));
    s.(table := s.table[b := s.table[b] + [e]], next := s.next + 1,
       filled := s.filled + InSlots(e, |s.kinds|, All()),
       constructed := s.constructed + InSlots(e, |s.kinds|, Ctor(s.kinds)))
  }

  lemma LinkAt(s: State, b: nat, thread: nat)
    requires b < |s.table|
    ensures var s' := Link(s, b, thread); var n := |s.table[b]|;
            && |s'.table| == |s.table| && At(s', b, n)
              && s'.table[b][n] == Entry(s.next, thread, NewStorage(s.kinds, s.next, |s.kinds|))
            && (forall c, k :: At(s', c, k) <==> At(s, c, k) || (c == b && k == n))
            && (forall c, k :: At(s, c, k) ==> s'.table[c][k] == s.table[c][k])
  {
  }

  lemma LinkLive(s: State, b: nat, thread: nat, r: Resource)
    requires b < |s.table|
    ensures var s' := Link(s, b, thread);
            Live(s', r) <==> Live(s, r) || Holds(s'.table[b][|s.table[b]|], r)
  {
    LinkAt(s, b, thread);
    var s', n := Link(s, b, thread), |s.table[b]|;
    if Live(s, r) {
      var c, k :| At(s, c, k) && Holds(s.table[c][k], r);
      assert At(s', c, k) && Holds(s'.table[c][k], r);
    }
    if Live(s', r) {
      var c, k :| At(s', c, k) && Holds(s'.table[c][k], r);
      if c != b || k != n { assert At(s, c, k) && Holds(s.table[c][k], r); }
    }
    if Holds(s'.table[b][n], r) { assert At(s', b, n); }
  }

  ghost predicate Unknown(s: State, b: nat, thread: nat) {
    forall i :: At(s, b, i) ==> s.table[b][i].thread != thread
  }

  lemma LinkSeparate(s: State, b: nat, thread: nat)
    requires Separate(s) && Tables(s) && b < |s.table| && Unknown(s, b, thread)
    ensures Separate(Link(s, b, thread))
  {
    hide NewStorage, StorageOk;
    LinkAt(s, b, thread);
    hide Link;
    var s', n := Link(s, b, thread), |s.table[b]|;
    forall c, k | At(s, c, k) ensures s.table[c][k].serial < s.next {
      assert EntryOk(s, c, s.table[c][k]);
    }
  }

  lemma LinkKeeps(s: State, b: nat, thread: nat)
    requires Inv(s) && |s.table| > 0 && b == thread % |s.table| && Unknown(s, b, thread)
    ensures Inv(Link(s, b, thread)) && Fills(s, Link(s, b, thread))
  {
    hide Live, Separate;
    var s', n := Link(s, b, thread), |s.table[b]|;
    var e := Entry(s.next, thread, NewStorage(s.kinds, s.next, |s.kinds|));
    LinkAt(s, b, thread);
    LinkSeparate(s, b, thread);
    assert StorageOk(s'.kinds, s'.freeing, e) by {
      forall j | 0 <= j < |e.storage| ensures SlotOk(s.kinds, s.freeing, e, j) { }
    }
    assert EntryOk(s', b, e) by {
      forall r: Resource | r.serial == s.next && r.id >= |e.storage| ensures s'.filled[r] == 0 {
        assert LifeOk(s, r);
      }
    }
    hide StorageOk, NewStorage;
    forall c, k | At(s', c, k) ensures EntryOk(s', c, s'.table[c][k]) {
      if c != b || k != n { assert At(s, c, k) && EntryOk(s, c, s.table[c][k]); }
    }
    forall r ensures LifeOk(s', r) && FilledAs(s, s', r) {
      assert LifeOk(s, r);
      LinkLive(s, b, thread, r);
    }
  }

  // ----- unlinking an entry

  ghost function Dtor(kinds: seq<Kind>): nat -> bool {
    (j: nat) => j < |kinds| && kinds[j].dtor
  }

  ghost function Unlink(s: State, b: nat, i: nat): State
    requires b < |s.table| && i < |s.table[b]|
  {
    s.(table := s.table[b := s.table[b][..i] + s.table[b][i + 1..]],
       destructed := s.destructed + InSlots(s.table[b][i], |s.table[b][i].storage|, Dtor(s.kinds)))
  }

  lemma UnlinkAt(s: State, b: nat, i: nat)
    requires At(s, b, i)
    ensures var s' := Unlink(s, b, i);
            && |s'.table| == |s.table| && (forall c :: c != b && 0 <= c < |s.table| ==> s'.table[c] == s.table[c])
            && |s'.table[b]| == |s.table[b]| - 1
            && (forall k :: 0 <= k < i ==> s'.table[b][k] == s.table[b][k])
            && (forall k :: i <= k < |s'.table[b]| ==> s'.table[b][k] == s.table[b][k + 1])
  {
  }

  /** Where the entry now at `c`, `k` was before. */
  function Before(b: nat, i: nat, c: int, k: int): int {
    if c == b && k >= i then k + 1 else k
  }

  lemma UnlinkSource(s: State, b: nat, i: nat, c: int, k: int)
    requires At(s, b, i) && At(Unlink(s, b, i), c, k)
    ensures At(s, c, Before(b, i, c, k)) && (c != b || Before(b, i, c, k) != i)
    ensures Unlink(s, b, i).table[c][k] == s.table[c][Before(b, i, c, k)]
  {
    UnlinkAt(s, b, i);
  }

  lemma UnlinkSeparate(s: State, b: nat, i: nat)
    requires Separate(s) && At(s, b, i)
    ensures Separate(Unlink(s, b, i))
  {
    var s' := Unlink(s, b, i);
    hide Unlink;
    forall c, k, d, l | At(s', c, k) && At(s', d, l) && (c != d || k != l)
      ensures s'.table[c][k].serial != s'.table[d][l].serial
        && (c == d ==> s'.table[c][k].thread != s'.table[d][l].thread)
    {
      UnlinkSource(s, b, i, c, k);
      UnlinkSource(s, b, i, d, l);
    }
  }

  lemma UnlinkLive(s: State, b: nat, i: nat, r: Resource)
    requires Separate(s) && At(s, b, i)
    ensures Live(Unlink(s, b, i), r) <==> Live(s, r) && r.serial != s.table[b][i].serial
  {
    var s' := Unlink(s, b, i);
    if Live(s', r) {
      hide Unlink;
      var c, k :| At(s', c, k) && Holds(s'.table[c][k], r);
      UnlinkSource(s, b, i, c, k);
      assert Holds(s.table[c][Before(b, i, c, k)], r);
    }
    if Live(s, r) && r.serial != s.table[b][i].serial {
      UnlinkAt(s, b, i);
      hide Unlink;
      var c, k :| At(s, c, k) && Holds(s.table[c][k], r);
      var k' := if c == b && k > i then k - 1 else k;
      assert At(s', c, k') && Holds(s'.table[c][k'], r);
    }
  }

  lemma UnlinkKeeps(s: State, b: nat, i: nat)
    requires Inv(s) && At(s, b, i)
    ensures Inv(Unlink(s, b, i))
  {
    hide Live, Separate, StorageOk;
    var e, s' := s.table[b][i], Unlink(s, b, i);
    assert EntryOk(s, b, e);
    UnlinkSeparate(s, b, i);
    forall c, k | At(s', c, k) ensures EntryOk(s', c, s'.table[c][k]) {
      UnlinkSource(s, b, i, c, k);
      assert EntryOk(s, c, s.table[c][Before(b, i, c, k)]);
    }
    forall r ensures LifeOk(s', r) {
      assert LifeOk(s, r);
      UnlinkLive(s, b, i, r);
      if r.serial == e.serial { HeldIsLive(s, b, i, r); }
    }
  }

  // ----- ids

  function AddKind(s: State, k: Kind): State {
    s.(kinds := s.kinds + [k])
  }

  lemma SameLive(s: State, s': State, r: Resource)
    requires s.table == s'.table
    ensures Live(s, r) <==> Live(s', r)
  {
    if Live(s, r) {
      var c, k :| At(s, c, k) && Holds(s.table[c][k], r);
      assert At(s', c, k);
    }
    if Live(s', r) {
      var c, k :| At(s', c, k) && Holds(s'.table[c][k], r);
      assert At(s, c, k);
    }
  }

  lemma SameSeparate(s: State, s': State)
    requires Separate(s) && s.table == s'.table
    ensures Separate(s')
  {
    assert forall b, i :: At(s', b, i) ==> At(s, b, i);
  }

  lemma AddKindKeeps(s: State, k: Kind)
    requires Inv(s) && !k.done
    ensures Inv(AddKind(s, k)) && Fills(s, AddKind(s, k))
  {
    hide Live, Separate;
    var s' := AddKind(s, k);
    SameSeparate(s, s');
    forall c, l | At(s', c, l) ensures EntryOk(s', c, s'.table[c][l]) {
      assert At(s, c, l) && EntryOk(s, c, s.table[c][l]);
      var e := s.table[c][l];
      forall j | 0 <= j < |e.storage| ensures SlotOk(s'.kinds, s'.freeing, e, j) {
        assert SlotOk(s.kinds, s.freeing, e, j);
      }
    }
    forall r ensures LifeOk(s', r) && FilledAs(s, s', r) {
      assert LifeOk(s, r);
      SameLive(s, s', r);
    }
  }

  /** Every linked entry has a slot for every id. */
  ghost predicate Full(s: State) {
    forall b, i :: At(s, b, i) ==> |s.table[b][i].storage| == |s.kinds|
  }

  /** A successful allocation of an id ends. */
  function Commit(s: State): State {
    s.(good := |s.kinds|)
  }

  lemma CommitKeeps(s: State)
    requires Inv(s) && Full(s)
    ensures Inv(Commit(s)) && Fills(s, Commit(s))
  {
    hide Live, Separate, StorageOk;
    var s' := Commit(s);
    SameSeparate(s, s');
    forall c, l | At(s', c, l) ensures EntryOk(s', c, s'.table[c][l]) {
      assert At(s, c, l) && EntryOk(s, c, s.table[c][l]);
    }
    forall r ensures LifeOk(s', r) && FilledAs(s, s', r) {
      assert LifeOk(s, r);
      SameLive(s, s', r);
    }
  }

  function StartFree(s: State, j: nat): State {
    s.(freeing := j)
  }

  /** No linked entry holds anything at id `j`. */
  ghost predicate Cleared(s: State, j: nat) {
    forall b, i :: At(s, b, i) && j < |s.table[b][i].storage| ==> s.table[b][i].storage[j].None?
  }

  function EndFree(s: State, j: nat): State
    requires j < |s.kinds|
  {
    s.(freeing := -1, kinds := s.kinds[j := s.kinds[j].(done := true)])
  }

  lemma StartFreeKeeps(s: State, j: nat)
    requires Inv(s) && s.freeing == -1 && j < s.good
    ensures Inv(StartFree(s, j))
  {
    hide Live, Separate;
    var s' := StartFree(s, j);
    SameSeparate(s, s');
    forall c, l | At(s', c, l) ensures EntryOk(s', c, s'.table[c][l]) {
      assert At(s, c, l) && EntryOk(s, c, s.table[c][l]);
      var e := s.table[c][l];
      forall k | 0 <= k < |e.storage| ensures SlotOk(s'.kinds, s'.freeing, e, k) {
        assert SlotOk(s.kinds, s.freeing, e, k);
      }
    }
    forall r ensures LifeOk(s', r) {
      assert LifeOk(s, r);
      SameLive(s, s', r);
    }
  }

  lemma EndFreeKeeps(s: State, j: nat)
    requires Inv(s) && s.freeing == j && Cleared(s, j)
    ensures j < |s.kinds| && Inv(EndFree(s, j))
  {
    hide Live, Separate;
    var s' := EndFree(s, j);
    SameSeparate(s, s');
    forall c, l | At(s', c, l) ensures EntryOk(s', c, s'.table[c][l]) {
      assert At(s, c, l) && EntryOk(s, c, s.table[c][l]);
      var e := s.table[c][l];
      forall k | 0 <= k < |e.storage| ensures SlotOk(s'.kinds, s'.freeing, e, k) {
        assert SlotOk(s.kinds, s.freeing, e, k);
      }
    }
    forall r ensures LifeOk(s', r) {
      assert LifeOk(s, r);
      SameLive(s, s', r);
    }
  }

  lemma FillsTrans(s: State, s1: State, s2: State)
    requires Fills(s, s1) && Fills(s1, s2)
    ensures Fills(s, s2)
  {
    hide Live;
    forall r ensures FilledAs(s, s2, r) {
      assert FilledAs(s, s1, r) && FilledAs(s1, s2, r);
    }
  }
}
