/** What a served request binds, in bytes: the role that it announces, and for every name the value of the
    last pair that has it. */
module FcgiBindings {
  import opened Common
  import opened FcgiRecord
  import opened FcgiParams
  import opened FcgiTable
  import opened FcgiRequest
  import opened FcgiServe
  import opened FcgiLimits

  // ----- the announcement

  /** The fields of a BEGIN_REQUEST record at the front of `t`: type 1, 8 bytes of content, a role from 1
      to 3, and the identifier and the first flag as they are read. */
  ghost predicate Announces(t: seq<byte>, inc: Incoming) {
    && |t| >= 16 && |t| >= 16 + (t[6] as int)
    && t[0] >= 1 && t[1] == 1 && t[4] == 0 && t[5] == 8 && t[8] == 0 && 1 <= t[9] <= 3
    && inc.id == 256 * (t[2] as int) + t[3] && inc.role == t[9] && inc.keep == (t[10] % 2 == 1)
  }

  /** `t` begins with a header of type 5 without content. */
  predicate Blank(t: seq<byte>) {
    |t| >= 8 && t[0] >= 1 && t[1] == 5 && t[4] == 0 && t[5] == 0
  }

  /** Behind blank headers a request is recognised exactly when one is announced and its PARAMS stream,
      which starts behind the padding, can be read. */
  lemma {:induction false} Recognised(s: seq<byte>, inc: Incoming)
    ensures Blank(s) ==> IncomingOf(s) == IncomingOf(s[8..])
    ensures !Blank(s) ==> (IncomingOf(s) == Some(inc) <==>
      Announces(s, inc) && ParamsOf(s[16 + (s[6] as int)..]) == Some((inc.contents, inc.rest)))
  {
    hide ParamsOf, BeginOf;
    BlankSkipped(s);
    BeginBytes(s, inc);
  }

  lemma BlankSkipped(s: seq<byte>)
    ensures SkipStdin(s) == if Blank(s) then SkipStdin(s[8..]) else s
  {
    if |s| >= 8 { WordBytes(s[4], s[5]); }
  }

  lemma BeginBytes(s: seq<byte>, inc: Incoming)
    ensures BeginOf(s) == Some(inc) <==>
      Announces(s, inc) && ParamsOf(s[16 + (s[6] as int)..]) == Some((inc.contents, inc.rest))
  {
    hide ParamsOf;
    if |s| >= 10 {
      WordBytes(s[2], s[3]);
      WordBytes(s[4], s[5]);
      WordBytes(s[8], s[9]);
    }
  }

  lemma WordBytes(hi: byte, lo: byte)
    ensures Word(hi, lo) == 256 * (hi as int) + lo
    ensures Word(hi, lo) == 0 <==> hi == 0 && lo == 0
    ensures Word(hi, lo) == 8 <==> hi == 0 && lo == 8
    ensures 1 <= Word(hi, lo) <= 3 <==> hi == 0 && 1 <= lo <= 3
  {
  }

  /** One record of the PARAMS stream, in bytes: type 4 with content goes on, and anything else ends it. */
  lemma ParamsRecord(s: seq<byte>)
    ensures |s| < 8 || s[0] == 0 ==> ParamsOf(s) == None
    ensures |s| >= 8 && s[0] >= 1 ==>
      var len, pad := 256 * (s[4] as int) + s[5], s[6] as int;
      if s[1] != 4 || len == 0 then ParamsOf(s) == Some(([], s[8..]))
      else if len + pad > 65535 || |s| < 8 + len + pad then ParamsOf(s) == None
      else
        var more := ParamsOf(s[8 + len + pad..]);
        if more.None? then ParamsOf(s) == None
        else ParamsOf(s) == Some(([s[8..8 + len]] + more.value.0, more.value.1))
  {
    hide ParamsOf;
    if |s| >= 8 && s[0] >= 1 {
      WordBytes(s[4], s[5]);
      ParamsUnfolds(s);
    } else {
      NoParams(s);
    }
  }

  // ----- the last binding

  ghost predicate Has(p: Pair, k: Key) {
    p.hash == k.hash && p.name == k.name
  }

  /** The last pair with key `k` is the one at `i`, or there is none and `i` is -1. */
  ghost predicate LastAt(pairs: seq<Pair>, k: Key, i: int) {
    && -1 <= i < |pairs| && (i >= 0 ==> Has(pairs[i], k))
    && forall j :: i < j < |pairs| ==> !Has(pairs[j], k)
  }

  /** Binding pairs from left to right leaves the value of the last one with a key. */
  lemma {:induction false} LastWins(m: map<Key, seq<byte>>, pairs: seq<Pair>, k: Key, i: int)
    requires LastAt(pairs, k, i)
    ensures i >= 0 ==> k in PutAll(m, pairs) && PutAll(m, pairs)[k] == pairs[i].value
    ensures i < 0 ==> (k in PutAll(m, pairs) <==> k in m) && (k in m ==> PutAll(m, pairs)[k] == m[k])
    decreases |pairs|
  {
    if pairs != [] {
      var p, rest := pairs[0], pairs[1..];
      var l, next := Key(p.hash, p.name), if i > 0 then i - 1 else -1;
      assert forall j :: 0 <= j < |rest| ==> rest[j] == pairs[j + 1];
      assert LastAt(rest, k, next);
      LastWins(m[l := p.value], rest, k, next);
      assert i == 0 ==> l == k;
      assert i < 0 ==> l != k by { assert i < 0 ==> !Has(pairs[0], k); }
    }
  }

  lemma {:induction false} PutAllConcat(m: map<Key, seq<byte>>, a: seq<Pair>, b: seq<Pair>)
    ensures PutAll(m, a + b) == PutAll(PutAll(m, a), b)
    decreases |a|
  {
    if a == [] {
      assert a + b == b;
    } else {
      assert (a + b)[1..] == a[1..] + b;
      PutAllConcat(m[Key(a[0].hash, a[0].name) := a[0].value], a[1..], b);
    }
  }

  /** Of all pairs of all records, the last one with key `k` is the one at `i` and `j`; or there is none,
      and `i` is -1. */
  ghost predicate LastOf(parts: seq<seq<Pair>>, k: Key, i: int, j: int) {
    && -1 <= i < |parts| && (i >= 0 ==> 0 <= j < |parts[i]| && Has(parts[i][j], k))
    && forall a, b :: 0 <= a < |parts| && 0 <= b < |parts[a]| && (a > i || (a == i && b > j)) ==> !Has(parts[a][b], k)
  }

  lemma {:induction false} LastOfAll(m: map<Key, seq<byte>>, parts: seq<seq<Pair>>, k: Key, i: int, j: int)
    requires LastOf(parts, k, i, j)
    ensures var e := PutAll(m, Concat(parts));
            if i >= 0 then k in e && e[k] == parts[i][j].value else (k in e <==> k in m) && (k in m ==> e[k] == m[k])
  {
    if parts != [] {
      var n := |parts| - 1;
      var init, last := parts[..n], parts[n];
      PutAllConcat(m, Concat(init), last);
      hide PutAll;
      if i == n {
        assert LastAt(last, k, j);
        LastWins(PutAll(m, Concat(init)), last, k, j);
      } else {
        assert LastAt(last, k, -1);
        LastWins(PutAll(m, Concat(init)), last, k, -1);
        assert LastOf(init, k, i, j);
        LastOfAll(m, init, k, i, j);
      }
    }
  }

  // ----- the environment of a request

  /** The hash of a name that has other than three bytes: its length, and from three bytes on of its fourth
      and its last two bytes. */
  lemma NameHashBytes(name: seq<byte>)
    requires |name| != 3
    ensures var n := |name|;
            NameHash(name)
            == if n < 3 then n
               else (4 * (name[3] as int) + 16 * (name[n - 2] as int) + 4 * (name[n - 1] as int) + n) % 0x1_0000_0000
  {
  }

  /** The key of the pair at `i` and `j` is not bound again behind it. */
  ghost predicate LastKey(r: Sent, lasts: seq<byte>, i: int, j: int)
    requires ValidSent(r) && |lasts| == |r.batches|
  {
    && InRequest(r, i, j)
    && forall a, b :: InRequest(r, a, b) && (a > i || (a == i && b > j)) ==>
         KeyAt(r, lasts, a, b) != KeyAt(r, lasts, i, j)
  }

  /** Every key has the value of the last pair that binds it. */
  lemma LastPairBound(r: Sent, parts: seq<seq<Pair>>, lasts: seq<byte>, i: int, j: int)
    requires ValidSent(r) && DecodedFor(r, parts, lasts) && |lasts| == |r.batches| && LastKey(r, lasts, i, j)
    ensures var env := Environment(r.role, parts); var k := KeyAt(r, lasts, i, j);
            k in env && env[k] == r.batches[i][j].value
  {
    hide KeyHash;
    var k := KeyAt(r, lasts, i, j);
    forall a, b | 0 <= a < |parts| && 0 <= b < |parts[a]|
      ensures Has(parts[a][b], k) <==> InRequest(r, a, b) && KeyAt(r, lasts, a, b) == k
    {
      PairAt(r, parts, lasts, a, b);
    }
    PairAt(r, parts, lasts, i, j);
    assert MatchesItem(parts[i][j], r.batches[i][j]);
    LastOfAll(map[RoleKey() := RoleName(r.role).value], parts, k, i, j);
  }

  /** The bytes of a C string literal. */
  function Ascii(s: string): (bs: seq<byte>)
    ensures |bs| == |s| && forall i :: 0 <= i < |s| ==> bs[i] == s[i] as int % 256
  {
    seq(|s|, i requires 0 <= i < |s| => s[i] as int % 256)
  }

  /** The name of the role in the environment, with its hash, and its values for the roles 1, 2 and 3. */
  lemma RoleBytes()
    ensures RoleKey() == Key(1793, Ascii("FCGI_ROLE"))
    ensures RoleName(1) == Some(Ascii("RESPONDER"))
    ensures RoleName(2) == Some(Ascii("AUTHORIZER"))
    ensures RoleName(3) == Some(Ascii("FILTER"))
    ensures forall role: nat :: RoleName(role).Some? ==> 1 <= role <= 3
  {
    NameHashBytes(Ascii("FCGI_ROLE"));
    assert FCGI_ROLE == Ascii("FCGI_ROLE");
    assert RESPONDER == Ascii("RESPONDER");
    assert AUTHORIZER == Ascii("AUTHORIZER");
    assert FILTER == Ascii("FILTER");
  }

  /** The last pair of a request with this name. */
  ghost predicate LastNamed(r: Sent, i: int, j: int, name: seq<byte>) {
    && InRequest(r, i, j) && r.batches[i][j].name == name
    && forall a, b :: InRequest(r, a, b) && (a > i || (a == i && b > j)) ==> r.batches[a][b].name != name
  }

  /** A name of other than three bytes is bound to the value of the last pair that has it. */
  lemma LastNamedBound(r: Sent, parts: seq<seq<Pair>>, lasts: seq<byte>, i: int, j: int, name: seq<byte>)
    requires ValidSent(r) && DecodedFor(r, parts, lasts) && |name| != 3 && LastNamed(r, i, j, name)
    ensures var env := Environment(r.role, parts); var k := Key(NameHash(name), name);
            k in env && env[k] == r.batches[i][j].value
  {
    Lengths(r, parts, lasts);
    hide NameHash, ByteAt, DecodedFor, Environment;
    LastPairBound(r, parts, lasts, i, j);
  }

  /** In the environment of a served request FCGI_ROLE is bound to RESPONDER, AUTHORIZER or FILTER, unless
      a pair has this name; then it has the value of the last such pair. */
  lemma RoleServed(r: Sent, env: seq<(Key, seq<byte>)>, parts: seq<seq<Pair>>, lasts: seq<byte>)
    requires ValidSent(r) && ServedOne(r, env, (parts, lasts))
    ensures (forall i, j :: InRequest(r, i, j) ==> r.batches[i][j].name != Ascii("FCGI_ROLE")) ==>
      && (r.role == 1 ==> (Key(1793, Ascii("FCGI_ROLE")), Ascii("RESPONDER")) in env)
      && (r.role == 2 ==> (Key(1793, Ascii("FCGI_ROLE")), Ascii("AUTHORIZER")) in env)
      && (r.role == 3 ==> (Key(1793, Ascii("FCGI_ROLE")), Ascii("FILTER")) in env)
    ensures forall i, j :: LastNamed(r, i, j, Ascii("FCGI_ROLE")) ==>
      (Key(1793, Ascii("FCGI_ROLE")), r.batches[i][j].value) in env
  {
    RoleBytes();
    var name, k := Ascii("FCGI_ROLE"), RoleKey();
    forall i, j | LastNamed(r, i, j, name) ensures (k, r.batches[i][j].value) in env {
      LastNamedBound(r, parts, lasts, i, j, name);
    }
    if forall i, j :: InRequest(r, i, j) ==> r.batches[i][j].name != name {
      forall a, b | 0 <= a < |parts| && 0 <= b < |parts[a]| ensures !Has(parts[a][b], k) {
        PairAt(r, parts, lasts, a, b);
      }
      LastOfAll(map[k := RoleName(r.role).value], parts, k, -1, 0);
    }
  }

  /** A request of role 1, byte by byte, whose environment binds the name "ABC" twice. */
  method TwiceBound() returns (env: seq<(Key, seq<byte>)>)
    ensures (Key(1327, [65, 66, 67]), [0]) in env && (Key(1331, [65, 66, 67]), [1]) in env
    ensures (Key(1793, Ascii("FCGI_ROLE")), Ascii("RESPONDER")) in env
  {
    ghost var name: seq<byte> := [65, 66, 67];
    ghost var items := [Item(name, [0], false, false), Item(name, [1], false, false)];
    ghost var r := Sent([], 1, 1, 1, [items], Pads([], [[]], []));
    var wire: seq<byte> := [1, 1, 0, 1, 0, 8, 0, 0, 0, 1, 1, 0, 0, 0, 0, 0]
                         + [1, 4, 0, 1, 0, 12, 0, 0, 3, 1, 65, 66, 67, 0, 3, 1, 65, 66, 67, 1]
                         + [1, 4, 0, 1, 0, 0, 0, 0];
    TwiceWire(name, r.batches[0], wire);
    var ok;
    ghost var parts, lasts;
    ok, env, parts, lasts := Serve(r, wire);
    TwiceKeys(name, r, parts, lasts);
    ThreeByteHash(name, 0, 1);
    ThreeByteHash(name, 1, 0);
    RoleServed(r, env, parts, lasts);
  }

  lemma TwiceWire(name: seq<byte>, items: seq<Item>, wire: seq<byte>)
    requires name == [65, 66, 67] && items == [Item(name, [0], false, false), Item(name, [1], false, false)]
    requires wire == [1, 1, 0, 1, 0, 8, 0, 0, 0, 1, 1, 0, 0, 0, 0, 0]
                   + [1, 4, 0, 1, 0, 12, 0, 0, 3, 1, 65, 66, 67, 0, 3, 1, 65, 66, 67, 1]
                   + [1, 4, 0, 1, 0, 0, 0, 0]
    ensures var r := Sent([], 1, 1, 1, [items], Pads([], [[]], [])); ValidSent(r) && Servable(r) && wire == SentBytes(r)
  {
    var r := Sent([], 1, 1, 1, [items], Pads([], [[]], []));
    var c: seq<byte> := [3, 1, 65, 66, 67, 0, 3, 1, 65, 66, 67, 1];
    TwiceItems(name, items, c);
    hide EncodeItems, Padded;
    ContentsAt([items]);
    assert ContentsOf([items]) == [c];
    TwiceRecords(c);
    assert BlankBytes([]) == [] && ContentsOf([items])[1..] == [];
    var begin: seq<byte> := [1, 1, 0, 1, 0, 8, 0, 0, 0, 1, 1, 0, 0, 0, 0, 0];
    assert RequestBytes(1, 1, 1, [c], r.pads) == begin + ParamsBytes(1, [c], [[]], []);
    assert [c][1..] == [];
    assert ParamsBytes(1, [c], [[]], []) == Padded(Record(PARAMS, 1, c), []) + Padded(Record(PARAMS, 1, []), []);
    assert [] + RequestBytes(1, 1, 1, [c], r.pads) == RequestBytes(1, 1, 1, [c], r.pads);
  }

  lemma TwiceItems(name: seq<byte>, items: seq<Item>, c: seq<byte>)
    requires name == [65, 66, 67] && items == [Item(name, [0], false, false), Item(name, [1], false, false)]
    requires c == [3, 1, 65, 66, 67, 0, 3, 1, 65, 66, 67, 1]
    ensures ValidItems(items) && EncodeItems(items) == c && !Refused(items)
  {
    assert EncodeItem(items[0]) == [3, 1, 65, 66, 67, 0] && EncodeItem(items[1]) == [3, 1, 65, 66, 67, 1];
    hide EncodeItem;
    assert items[1..] == [items[1]] && items[1..][1..] == [];
    assert EncodeItems(items[1..]) == EncodeItem(items[1]) + [];
  }

  lemma TwiceRecords(c: seq<byte>)
    requires c == [3, 1, 65, 66, 67, 0, 3, 1, 65, 66, 67, 1]
    ensures Padded(Record(BEGIN_REQUEST, 1, [0, 1, 1, 0, 0, 0, 0, 0]), [])
      == [1, 1, 0, 1, 0, 8, 0, 0, 0, 1, 1, 0, 0, 0, 0, 0]
    ensures Padded(Record(PARAMS, 1, c), [])
      == [1, 4, 0, 1, 0, 12, 0, 0, 3, 1, 65, 66, 67, 0, 3, 1, 65, 66, 67, 1]
    ensures Padded(Record(PARAMS, 1, []), []) == [1, 4, 0, 1, 0, 0, 0, 0]
  {
  }

  lemma TwiceKeys(name: seq<byte>, r: Sent, parts: seq<seq<Pair>>, lasts: seq<byte>)
    requires name == [65, 66, 67]
      && r == Sent([], 1, 1, 1, [[Item(name, [0], false, false), Item(name, [1], false, false)]],
                   Pads([], [[]], []))
    requires ValidSent(r) && DecodedFor(r, parts, lasts)
    ensures var env := Environment(r.role, parts); var k, l := Key(KeyHash(name, 0), name), Key(KeyHash(name, 1), name);
            k in env && env[k] == [0] && l in env && env[l] == [1]
  {
    var p, q := TwicePairs(name, r, parts, lasts);
    hide KeyHash;
    ThreeByteHash(name, 0, 1);
    PutTwo(map[RoleKey() := RoleName(1).value], p, q);
  }

  lemma TwicePairs(name: seq<byte>, r: Sent, parts: seq<seq<Pair>>, lasts: seq<byte>) returns (p: Pair, q: Pair)
    requires name == [65, 66, 67]
      && r == Sent([], 1, 1, 1, [[Item(name, [0], false, false), Item(name, [1], false, false)]],
                   Pads([], [[]], []))
    requires ValidSent(r) && DecodedFor(r, parts, lasts)
    ensures Concat(parts) == [p, q]
    ensures p == Pair(KeyHash(name, 0), name, [0]) && q == Pair(KeyHash(name, 1), name, [1])
  {
    hide KeyHash;
    PairAt(r, parts, lasts, 0, 0);
    PairAt(r, parts, lasts, 0, 1);
    var items := r.batches[0];
    assert items[1..][0] == items[1] && Behind(items, lasts[0])[1] == Behind(items[1..], lasts[0])[0];
    assert ByteAt(r, lasts, 0, 0) == 0 && ByteAt(r, lasts, 0, 1) == 1;
    p, q := parts[0][0], parts[0][1];
    assert MatchesItem(p, items[0]) && MatchesItem(q, items[1]);
    assert parts[..0] == [] && [] + parts[0] == parts[0] == [p, q];
  }

  lemma PutTwo(m: map<Key, seq<byte>>, p: Pair, q: Pair)
    ensures PutAll(m, [p, q]) == m[Key(p.hash, p.name) := p.value][Key(q.hash, q.name) := q.value]
  {
    var m1 := m[Key(p.hash, p.name) := p.value];
    assert [p, q][1..] == [q] && [q][1..] == [];
    assert PutAll(m, [p, q]) == PutAll(m1, [q]) == PutAll(m1[Key(q.hash, q.name) := q.value], []);
  }
}
