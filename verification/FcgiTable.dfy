/** What the environment hash means: a log of bindings in creation order, a finite map keyed by
    hash value and name, and the bucket chains that find the live ones. */
module FcgiTable {
  import opened Common
  import opened FcgiRecord

  const TABLE_SIZE := 128

  datatype Key = Key(hash: nat, name: seq<byte>)

  /** A bucket in creation order; deleted ones stay, without a value. */
  datatype Entry = Entry(key: Key, value: Option<seq<byte>>)

  ghost predicate LiveKey(es: seq<Entry>, i: int, k: Key) {
    0 <= i < |es| && es[i].value.Some? && es[i].key == k
  }

  ghost predicate Distinct(es: seq<Entry>) {
    forall i, j :: 0 <= i < j < |es| && es[i].value.Some? && es[j].value.Some? ==> es[i].key != es[j].key
  }

  /** The live entry for `k`, or NULL. */
  ghost function Find(es: seq<Entry>, k: Key): (r: int)
    ensures r == NULL <==> forall i :: !LiveKey(es, i, k)
    ensures r != NULL ==> LiveKey(es, r, k)
  {
    if i :| LiveKey(es, i, k) then i else NULL
  }

  lemma FindUnique(es: seq<Entry>, k: Key, i: int)
    requires Distinct(es) && LiveKey(es, i, k)
    ensures Find(es, k) == i
  {
    assert LiveKey(es, Find(es, k), k);
  }

  ghost function Set(es: seq<Entry>, k: Key, v: seq<byte>): seq<Entry> {
    var i := Find(es, k);
    if i == NULL then es + [Entry(k, Some(v))] else es[i := Entry(k, Some(v))]
  }

  ghost function Del(es: seq<Entry>, k: Key): seq<Entry> {
    var i := Find(es, k);
    if i == NULL then es else es[i := Entry(k, None)]
  }

  /** The finite map a log stands for. */
  ghost function AsMap(es: seq<Entry>): map<Key, seq<byte>>
    requires Distinct(es)
  {
    map k: Key | k in Keys(es) && Find(es, k) != NULL :: es[Find(es, k)].value.value
  }

  ghost function Keys(es: seq<Entry>): set<Key> {
    set i | 0 <= i < |es| :: es[i].key
  }

  lemma InMap(es: seq<Entry>, k: Key)
    requires Distinct(es)
    ensures k in AsMap(es) <==> Find(es, k) != NULL
    ensures Find(es, k) != NULL ==> AsMap(es)[k] == es[Find(es, k)].value.value
  {
    if Find(es, k) != NULL { assert es[Find(es, k)].key in Keys(es); }
  }

  /** Setting refines map update. */
  lemma SetRefines(es: seq<Entry>, k: Key, v: seq<byte>)
    requires Distinct(es)
    ensures Distinct(Set(es, k, v)) && AsMap(Set(es, k, v)) == AsMap(es)[k := v]
  {
    var es' := Set(es, k, v);
    var at := if Find(es, k) == NULL then |es| else Find(es, k);
    assert Distinct(es') by { DistinctSet(es, k, v); }
    forall x: Key ensures x in AsMap(es') <==> x in AsMap(es)[k := v]
                  ensures x in AsMap(es') ==> AsMap(es')[x] == AsMap(es)[k := v][x] {
      InMap(es, x);
      InMap(es', x);
      if x == k {
        FindUnique(es', k, at);
      } else {
        SameFind(es, es', x, at);
      }
    }
  }

  lemma DistinctSet(es: seq<Entry>, k: Key, v: seq<byte>)
    requires Distinct(es)
    ensures Distinct(Set(es, k, v))
  {
    forall i | 0 <= i < |es| && i != Find(es, k) && es[i].value.Some? ensures es[i].key != k {
      assert LiveKey(es, i, es[i].key);
      if es[i].key == k { FindUnique(es, k, i); }
    }
  }

  /** Changing entry `at` to another key's does not change what is found for `x`. */
  lemma SameFind(es: seq<Entry>, es': seq<Entry>, x: Key, at: nat)
    requires Distinct(es) && Distinct(es') && |es| <= |es'|
    requires forall i :: 0 <= i < |es'| && i != at ==> i < |es| && es'[i] == es[i]
    requires !LiveKey(es, at, x) && !LiveKey(es', at, x)
    ensures Find(es', x) == Find(es, x)
  {
    if Find(es, x) != NULL {
      assert LiveKey(es', Find(es, x), x);
      FindUnique(es', x, Find(es, x));
    } else {
      forall i ensures !LiveKey(es', i, x) {
        assert !LiveKey(es, i, x);
      }
    }
  }

  lemma DelFind(es: seq<Entry>, k: Key, x: Key)
    requires Distinct(es)
    ensures Distinct(Del(es, k))
    ensures Find(Del(es, k), x) == if x == k then NULL else Find(es, x)
  {
    var es', at := Del(es, k), Find(es, k);
    if at != NULL {
      if x != k {
        SameFind(es, es', x, at);
      } else {
        forall i ensures !LiveKey(es', i, k) {
          if i != at && LiveKey(es, i, k) { FindUnique(es, k, i); }
        }
      }
    }
  }

  /** Deleting refines removal from the map. */
  lemma DelRefines(es: seq<Entry>, k: Key)
    requires Distinct(es)
    ensures Distinct(Del(es, k)) && AsMap(Del(es, k)) == AsMap(es) - {k}
  {
    hide AsMap;
    var es' := Del(es, k);
    DelFind(es, k, k);
    forall x: Key ensures x in AsMap(es') <==> x in AsMap(es) - {k}
                  ensures x in AsMap(es') ==> AsMap(es')[x] == (AsMap(es) - {k})[x] {
      InMap(es, x);
      InMap(es', x);
      DelFind(es, k, x);
    }
  }

  // ----- enumeration

  /** The bindings `fcgi_hash_apply` visits, newest bucket first. */
  function Visits(es: seq<Entry>): seq<(Key, seq<byte>)> {
    if es == [] then []
    else
      var e := es[|es| - 1];
      (if e.value.Some? then [(e.key, e.value.value)] else []) + Visits(es[..|es| - 1])
  }

  lemma {:induction false} VisitsLive(es: seq<Entry>, j: nat)
    requires j < |Visits(es)|
    ensures exists i :: LiveKey(es, i, Visits(es)[j].0) && es[i].value == Some(Visits(es)[j].1)
  {
    var n := |es| - 1;
    var e := es[n];
    if e.value.Some? && j == 0 {
      assert LiveKey(es, n, e.key);
    } else {
      var j' := if e.value.Some? then j - 1 else j;
      VisitsLive(es[..n], j');
      var i :| LiveKey(es[..n], i, Visits(es[..n])[j'].0) && es[..n][i].value == Some(Visits(es[..n])[j'].1);
      assert LiveKey(es, i, Visits(es)[j].0);
    }
  }

  lemma {:induction false} LiveVisited(es: seq<Entry>, i: nat)
    requires i < |es| && es[i].value.Some?
    ensures (es[i].key, es[i].value.value) in Visits(es)
  {
    if i < |es| - 1 { LiveVisited(es[..|es| - 1], i); }
  }

  /** The enumeration visits every binding of the map, and no key twice. */
  lemma {:induction false} VisitsMap(es: seq<Entry>)
    requires Distinct(es)
    ensures forall k: Key, v :: k in AsMap(es) && AsMap(es)[k] == v <==> (k, v) in Visits(es)
    ensures forall i, j :: 0 <= i < j < |Visits(es)| ==> Visits(es)[i].0 != Visits(es)[j].0
  {
    forall k: Key, v ensures k in AsMap(es) && AsMap(es)[k] == v <==> (k, v) in Visits(es) {
      InMap(es, k);
      if k in AsMap(es) { LiveVisited(es, Find(es, k)); }
      if (k, v) in Visits(es) {
        var j :| 0 <= j < |Visits(es)| && Visits(es)[j] == (k, v);
        VisitsLive(es, j);
        var i :| LiveKey(es, i, k) && es[i].value == Some(v);
        FindUnique(es, k, i);
      }
    }
    NoKeyTwice(es);
  }

  lemma {:induction false} NoKeyTwice(es: seq<Entry>)
    requires Distinct(es)
    ensures forall i, j :: 0 <= i < j < |Visits(es)| ==> Visits(es)[i].0 != Visits(es)[j].0
  {
    if es != [] {
      var n := |es| - 1;
      NoKeyTwice(es[..n]);
      forall j | 0 <= j < |Visits(es[..n])| && es[n].value.Some? ensures Visits(es[..n])[j].0 != es[n].key {
        VisitsLive(es[..n], j);
        var i :| LiveKey(es[..n], i, Visits(es[..n])[j].0);
        assert es[..n][i] == es[i];
      }
    }
  }

  // ----- the order of the enumeration

  /** The keys of the live entries, in the order in which they were created. */
  function LiveKeys(es: seq<Entry>): seq<Key> {
    if es == [] then []
    else LiveKeys(es[..|es| - 1]) + if es[|es| - 1].value.Some? then [es[|es| - 1].key] else []
  }

  function RemoveKey(ks: seq<Key>, k: Key): seq<Key> {
    if ks == [] then [] else RemoveKey(ks[..|ks| - 1], k) + if ks[|ks| - 1] == k then [] else [ks[|ks| - 1]]
  }

  lemma {:induction false} InLiveKeys(es: seq<Entry>, k: Key)
    ensures k in LiveKeys(es) <==> exists i :: LiveKey(es, i, k)
  {
    if es != [] {
      var n := |es| - 1;
      InLiveKeys(es[..n], k);
      if i :| LiveKey(es, i, k) {
        if i < n { assert LiveKey(es[..n], i, k); }
      }
      if i :| LiveKey(es[..n], i, k) { assert LiveKey(es, i, k); }
      if es[n].value.Some? && es[n].key == k { assert LiveKey(es, n, k); }
    }
  }

  lemma {:induction false} KeyGone(ks: seq<Key>, k: Key)
    requires k !in ks
    ensures RemoveKey(ks, k) == ks
  {
    if ks != [] { KeyGone(ks[..|ks| - 1], k); }
  }

  lemma {:induction false} RebindKeys(es: seq<Entry>, i: nat, v: seq<byte>)
    requires i < |es| && es[i].value.Some?
    ensures LiveKeys(es[i := Entry(es[i].key, Some(v))]) == LiveKeys(es)
  {
    var n := |es| - 1;
    var fs := es[i := Entry(es[i].key, Some(v))];
    if i < n {
      assert fs[..n] == es[..n][i := Entry(es[i].key, Some(v))];
      RebindKeys(es[..n], i, v);
    } else {
      assert fs[..n] == es[..n];
    }
  }

  lemma {:induction false} UnbindKeys(es: seq<Entry>, i: nat)
    requires i < |es| && es[i].value.Some? && Distinct(es)
    ensures LiveKeys(es[i := Entry(es[i].key, None)]) == RemoveKey(LiveKeys(es), es[i].key)
  {
    var n, k := |es| - 1, es[i].key;
    var fs := es[i := Entry(k, None)];
    assert Distinct(es[..n]);
    if i < n {
      assert fs[..n] == es[..n][i := Entry(k, None)];
      UnbindKeys(es[..n], i);
    } else {
      assert fs[..n] == es[..n];
      InLiveKeys(es[..n], k);
      KeyGone(LiveKeys(es[..n]), k);
    }
    var ks := LiveKeys(es[..n]);
    if es[n].value.Some? { assert (ks + [es[n].key])[..|ks|] == ks; } else { assert ks + [] == ks; }
  }

  /** A new key comes last, and one that is bound keeps its place. */
  lemma SetKeys(es: seq<Entry>, k: Key, v: seq<byte>)
    requires Distinct(es)
    ensures LiveKeys(Set(es, k, v)) == if k in LiveKeys(es) then LiveKeys(es) else LiveKeys(es) + [k]
  {
    InLiveKeys(es, k);
    var i := Find(es, k);
    if i == NULL {
      assert (es + [Entry(k, Some(v))])[..|es|] == es;
    } else {
      RebindKeys(es, i, v);
    }
  }

  lemma DelKeys(es: seq<Entry>, k: Key)
    requires Distinct(es)
    ensures LiveKeys(Del(es, k)) == RemoveKey(LiveKeys(es), k)
  {
    InLiveKeys(es, k);
    var i := Find(es, k);
    if i == NULL { KeyGone(LiveKeys(es), k); } else { UnbindKeys(es, i); }
  }

  /** The enumeration goes from the newest key to the oldest. */
  lemma {:induction false} VisitsOrder(es: seq<Entry>)
    ensures |Visits(es)| == |LiveKeys(es)|
    ensures forall j :: 0 <= j < |Visits(es)| ==> Visits(es)[j].0 == LiveKeys(es)[|LiveKeys(es)| - 1 - j]
  {
    if es != [] { VisitsOrder(es[..|es| - 1]); }
  }
}
