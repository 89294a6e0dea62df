/** Where the request reader differs from what the protocol promises: records it refuses, and names it
    binds more than once. */
module FcgiLimits {
  import opened Common
  import opened FcgiRecord
  import opened FcgiParams
  import opened FcgiTable
  import opened FcgiRequest
  import opened FcgiServe

  // ----- a record and its padding

  /** A pair whose encoding has `n` + 6 bytes. */
  function LongItem(n: nat): Item {
    Item([65], Zeros(n), false, true)
  }

  lemma LongItemSize(n: nat)
    requires n < 0x8000_0000
    ensures ValidItem(LongItem(n)) && |EncodeItems([LongItem(n)])| == n + 6
  {
    var it := LongItem(n);
    assert EncodeItems([it]) == EncodeItem(it) + EncodeItems([]);
  }

  /** A request with a single pair that takes `n` + 6 bytes, in a record with this padding. */
  function LongRequest(n: nat, padding: Padding): Sent {
    Sent([], 1, 1, 1, [[LongItem(n)]], Pads([], [padding], []))
  }

  /** A single pair that takes 65529 to 65535 bytes: without padding the request is recognised, and padded
      to a multiple of eight, as the protocol recommends, it is not, because content and padding together
      exceed 65535 bytes. */
  lemma LongRecordRefused(n: nat, next: seq<byte>)
    requires 65523 <= n <= 65529
    ensures var r := LongRequest(n, Zeros(Pad(n + 6))); ValidSent(r) && IncomingOf(SentBytes(r) + next) == None
    ensures var r := LongRequest(n, []); ValidSent(r) && IncomingOf(SentBytes(r) + next).Some?
  {
    hide LongRequest, IncomingOf, ValidSent;
    LongRecordFits(n, Zeros(Pad(n + 6)), next);
    LongRecordFits(n, [], next);
  }

  lemma LongRecordFits(n: nat, padding: Padding, next: seq<byte>)
    requires n + 6 <= MAX_LENGTH
    ensures var r := LongRequest(n, padding);
            ValidSent(r) && (IncomingOf(SentBytes(r) + next).Some? <==> n + 6 + |padding| <= MAX_LENGTH)
  {
    hide LongItem, EncodeItems, IncomingOf;
    LongItemSize(n);
    var r := LongRequest(n, padding);
    assert ValidItems([LongItem(n)]);
    assert ValidBatches(r.batches);
    ContentsAt(r.batches);
    IncomingOfSent(r, next);
  }

  // ----- the end of the stream

  /** A header ends the PARAMS stream, successfully and just as an empty PARAMS record does, if and only if it
      is empty or of another type; what it announces is dropped. */
  lemma EndsParams(hdr: seq<byte>, id: nat, s: seq<byte>)
    requires |hdr| == HEADER_LEN && HasHeader(hdr)
    ensures ParamsOf(hdr + s) == ParamsOf(Header(PARAMS, id, 0, 0) + s)
       <==> hdr[1] != PARAMS || Word(hdr[4], hdr[5]) == 0
  {
    hide ParamsOf, Header, Word, After;
    EmptyParams(id);
    ParamsStep(Header(PARAMS, id, 0, 0), s);
    ParamsStep(hdr, s);
    var len := Word(hdr[4], hdr[5]);
    if len + hdr[6] <= |s| { NotEmptyAfter(s[..len], ParamsOf(s[len + hdr[6]..])); }
  }

  lemma EmptyParams(id: nat)
    ensures var h := Header(PARAMS, id, 0, 0);
            |h| == HEADER_LEN && HasHeader(h) && h[1] == PARAMS && Word(h[4], h[5]) == 0
  {
  }

  lemma NotEmptyAfter(content: seq<byte>, p: Option<(seq<seq<byte>>, seq<byte>)>)
    ensures After([content], p).Some? ==> After([content], p).value.0 != []
  {
  }

  /** The padding of the record that ends the stream is not skipped: behind a request whose end is padded with
      zeros the next one is recognised if and only if there are none. */
  lemma BehindPaddedEnd(pad: nat, r: Sent, next: seq<byte>)
    requires pad < 256 && ValidSent(r) && Fits(r)
    ensures IncomingOf(Zeros(pad) + (SentBytes(r) + next)).Some? <==> pad == 0
  {
    hide SentBytes, BeginOf, Fits, ValidSent;
    if pad == 0 {
      IncomingOfSent(r, next);
      assert Zeros(0) + (SentBytes(r) + next) == SentBytes(r) + next;
    } else {
      assert (Zeros(pad) + (SentBytes(r) + next))[0] == 0;
      NoVersion(Zeros(pad) + (SentBytes(r) + next));
    }
  }

  lemma NoVersion(s: seq<byte>)
    requires s != [] && s[0] == 0
    ensures IncomingOf(s) == None
  {
  }

  // ----- names of three bytes

  /** The hash of a three-byte name tells which byte is behind it. */
  lemma ThreeByteHash(name: seq<byte>, b: byte, c: byte)
    requires |name| == 3
    ensures KeyHash(name, b) == 4 * (b as int) + 16 * (name[1] as int) + 4 * (name[2] as int) + 3
    ensures KeyHash(name, b) == KeyHash(name, c) <==> b == c
  {
    assert (name + [b])[1] == (name + [c])[1] == name[1] && (name + [b])[2] == (name + [c])[2] == name[2];
    assert (name + [b])[3] == b && (name + [c])[3] == c;
    assert HashAt(name + [b], 0, 3) == 4 * (b as int) + 16 * (name[1] as int) + 4 * (name[2] as int) + 3;
    assert HashAt(name + [c], 0, 3) == 4 * (c as int) + 16 * (name[1] as int) + 4 * (name[2] as int) + 3;
  }

  /** No name is bound twice. */
  ghost predicate NamesOnce(env: map<Key, seq<byte>>) {
    forall k, l :: k in env && l in env && k.name == l.name ==> k == l
  }

  /** `i` and `j` say where a pair of the request is. */
  ghost predicate InRequest(r: Sent, i: int, j: int) {
    0 <= i < |r.batches| && 0 <= j < |r.batches[i]|
  }

  /** The byte behind the name of a pair. */
  ghost function ByteAt(r: Sent, lasts: seq<byte>, i: int, j: int): byte
    requires ValidSent(r) && |lasts| == |r.batches| && InRequest(r, i, j)
  {
    Behind(r.batches[i], lasts[i])[j]
  }

  /** The key of a pair: its name, hashed together with the byte behind it. */
  ghost function KeyAt(r: Sent, lasts: seq<byte>, i: int, j: int): Key
    requires ValidSent(r) && |lasts| == |r.batches| && InRequest(r, i, j)
  {
    Key(KeyHash(r.batches[i][j].name, ByteAt(r, lasts, i, j)), r.batches[i][j].name)
  }

  /** Equal names of three bytes are followed by equal bytes. */
  ghost predicate SameBehind(r: Sent, lasts: seq<byte>)
    requires ValidSent(r) && |lasts| == |r.batches|
  {
    forall i, j, k, l :: Rivals(r, i, j, k, l) ==> ByteAt(r, lasts, i, j) == ByteAt(r, lasts, k, l)
  }

  /** Two pairs with the same name of three bytes. */
  ghost predicate Rivals(r: Sent, i: int, j: int, k: int, l: int) {
    && InRequest(r, i, j) && InRequest(r, k, l)
    && r.batches[i][j].name == r.batches[k][l].name && |r.batches[i][j].name| == 3
  }

  lemma {:induction false} InFlat(parts: seq<seq<Pair>>, p: Pair)
    ensures p in Concat(parts) <==> exists i :: 0 <= i < |parts| && p in parts[i]
  {
    if parts != [] {
      var n := |parts| - 1;
      InFlat(parts[..n], p);
      if p in Concat(parts[..n]) {
        var i :| 0 <= i < n && p in parts[..n][i];
        assert p in parts[i];
      }
      if i :| 0 <= i < |parts| && p in parts[i] {
        if i < n { assert p in parts[..n][i]; }
      }
    }
  }

  lemma {:induction false} KeysOf(m: map<Key, seq<byte>>, pairs: seq<Pair>, k: Key)
    ensures k in PutAll(m, pairs) <==> k in m || exists p :: p in pairs && k == Key(p.hash, p.name)
    decreases |pairs|
  {
    if pairs != [] {
      var first := pairs[0];
      KeysOf(m[Key(first.hash, first.name) := first.value], pairs[1..], k);
      assert pairs == [first] + pairs[1..];
    }
  }

  /** The keys of a served environment: the role, and a key for each pair, hashed by its name and the byte
      behind it. */
  lemma ServedKeys(r: Sent, parts: seq<seq<Pair>>, lasts: seq<byte>, k: Key)
    requires ValidSent(r) && DecodedFor(r, parts, lasts)
    ensures k in Environment(r.role, parts)
       <==> k == RoleKey() || exists i, j :: InRequest(r, i, j) && k == KeyAt(r, lasts, i, j)
  {
    hide KeyHash;
    KeysOf(map[RoleKey() := RoleName(r.role).value], Concat(parts), k);
    if p :| p in Concat(parts) && k == Key(p.hash, p.name) {
      InFlat(parts, p);
      var i :| 0 <= i < |parts| && p in parts[i];
      var j :| 0 <= j < |parts[i]| && parts[i][j] == p;
      PairAt(r, parts, lasts, i, j);
    }
    if i, j :| InRequest(r, i, j) && k == KeyAt(r, lasts, i, j) {
      PairAt(r, parts, lasts, i, j);
      var p := parts[i][j];
      assert p in parts[i];
      InFlat(parts, p);
      assert p in Concat(parts);
    }
  }

  lemma PairAt(r: Sent, parts: seq<seq<Pair>>, lasts: seq<byte>, i: nat, j: nat)
    requires ValidSent(r) && DecodedFor(r, parts, lasts) && i < |parts| && (j < |parts[i]| || InRequest(r, i, j))
    ensures InRequest(r, i, j) && j < |parts[i]| && parts[i][j].name == r.batches[i][j].name
    ensures parts[i][j].hash == KeyHash(parts[i][j].name, ByteAt(r, lasts, i, j))
  {
    assert Matches(parts[i], r.batches[i]) && Hashed(parts[i], Behind(r.batches[i], lasts[i]));
    if j < |parts[i]| { assert MatchesItem(parts[i][j], r.batches[i][j]); }
  }

  /** In the environment that is served every name is bound once if and only if equal names of three bytes
      are followed by equal bytes. */
  lemma NamesBoundOnce(r: Sent, parts: seq<seq<Pair>>, lasts: seq<byte>)
    requires ValidSent(r) && DecodedFor(r, parts, lasts)
    ensures NamesOnce(Environment(r.role, parts)) <==> SameBehind(r, lasts)
  {
    var env := Environment(r.role, parts);
    Lengths(r, parts, lasts);
    hide KeyHash, DecodedFor, Environment, ValidSent;
    if SameBehind(r, lasts) {
      forall k, l | k in env && l in env && k.name == l.name ensures k == l {
        ServedKeys(r, parts, lasts, k);
        ServedKeys(r, parts, lasts, l);
        OneKey(r, lasts, k, l);
      }
    } else {
      var i, j, k, l :| Rivals(r, i, j, k, l) && ByteAt(r, lasts, i, j) != ByteAt(r, lasts, k, l);
      var name := r.batches[i][j].name;
      var key, other := KeyAt(r, lasts, i, j), KeyAt(r, lasts, k, l);
      ServedKeys(r, parts, lasts, key);
      ServedKeys(r, parts, lasts, other);
      ThreeByteHash(name, ByteAt(r, lasts, i, j), ByteAt(r, lasts, k, l));
    }
  }

  lemma Lengths(r: Sent, parts: seq<seq<Pair>>, lasts: seq<byte>)
    requires ValidSent(r) && DecodedFor(r, parts, lasts)
    ensures |lasts| == |parts| == |r.batches|
  {
  }

  /** A key that a request makes. */
  ghost predicate MakesKey(r: Sent, lasts: seq<byte>, k: Key)
    requires ValidSent(r) && |lasts| == |r.batches|
  {
    k == RoleKey() || exists i, j :: InRequest(r, i, j) && k == KeyAt(r, lasts, i, j)
  }

  lemma OneKey(r: Sent, lasts: seq<byte>, k: Key, l: Key)
    requires ValidSent(r) && |lasts| == |r.batches| && SameBehind(r, lasts) && k.name == l.name
    requires MakesKey(r, lasts, k) && MakesKey(r, lasts, l)
    ensures k == l
  {
    hide ByteAt, ValidSent;
    if |k.name| != 3 {
      assert k.hash == NameHash(k.name) && l.hash == NameHash(l.name);
    } else {
      hide KeyHash;
      assert RoleKey().name == FCGI_ROLE && |FCGI_ROLE| == 9;
      var i, j :| InRequest(r, i, j) && k == KeyAt(r, lasts, i, j);
      var m, n :| InRequest(r, m, n) && l == KeyAt(r, lasts, m, n);
      assert Rivals(r, i, j, m, n);
    }
  }

  /** Without names of three bytes every name is bound once. */
  lemma OtherNamesBoundOnce(r: Sent, parts: seq<seq<Pair>>, lasts: seq<byte>)
    requires ValidSent(r) && DecodedFor(r, parts, lasts)
    requires forall i, j :: InRequest(r, i, j) ==> |r.batches[i][j].name| != 3
    ensures NamesOnce(Environment(r.role, parts))
  {
    NamesBoundOnce(r, parts, lasts);
  }

  /** A name is found in the environment that is served if and only if it is that of the role, or a pair has
      it, and, for a name of three bytes, a NUL behind it on the wire; and where `char` is signed a name with
      a high byte among those that are hashed is never found. */
  lemma NamesFound(r: Sent, parts: seq<seq<Pair>>, lasts: seq<byte>, name: seq<byte>, signed: bool)
    requires ValidSent(r) && DecodedFor(r, parts, lasts)
    ensures |lasts| == |r.batches|
    ensures Key(LookupHash(name, signed), name) in Environment(r.role, parts)
       <==> name == FCGI_ROLE || ((signed ==> Plain(name)) && exists i, j :: HitAt(r, lasts, i, j, name))
  {
    Lengths(r, parts, lasts);
    RoleFound(signed);
    hide KeyHash, LookupHash, DecodedFor, Environment, ByteAt, ValidSent, Plain;
    var k := Key(LookupHash(name, signed), name);
    ServedKeys(r, parts, lasts, k);
    forall i, j | InRequest(r, i, j)
      ensures k == KeyAt(r, lasts, i, j) <==> (signed ==> Plain(name)) && HitAt(r, lasts, i, j, name)
    {
      LookupHits(name, ByteAt(r, lasts, i, j), signed);
    }
  }

  /** A pair has this name, and a NUL behind it if it has three bytes. */
  ghost predicate HitAt(r: Sent, lasts: seq<byte>, i: int, j: int, name: seq<byte>)
    requires ValidSent(r) && |lasts| == |r.batches|
  {
    InRequest(r, i, j) && r.batches[i][j].name == name && (|name| == 3 ==> ByteAt(r, lasts, i, j) == 0)
  }

  lemma RoleFound(signed: bool)
    ensures RoleKey() == Key(LookupHash(FCGI_ROLE, signed), FCGI_ROLE)
  {
  }
}
