/** Name-value pairs (section 3.4 of the FastCGI Specification 1.0): the decoder loop of
    `fcgi_get_params` as a function, and the encodings it accepts. */
module FcgiParams {
  import opened Common
  import opened FcgiRecord

  const UINT := 0x1_0000_0000

  datatype Pair = Pair(hash: nat, name: seq<byte>, value: seq<byte>)

  /** The pairs stored before the decoder stopped, and whether it reached the end. */
  datatype Parse = Parse(ok: bool, pairs: seq<Pair>)

  /** `FCGI_HASH_FUNC` on the `len` bytes at `p`; for names of three bytes it reads one byte more. */
  function HashAt(mem: seq<byte>, p: nat, len: nat): nat
    requires p + len <= |mem| && (len == 3 ==> p + 3 < |mem|)
  {
    if len < 3 then len
    else (4 * (mem[p + 3] as int) + 16 * (mem[p + len - 2] as int) + 4 * (mem[p + len - 1] as int) + len) % UINT
  }

  /** The hash of a name that does not depend on what follows it in memory. */
  function NameHash(name: seq<byte>): nat
    requires |name| != 3
  {
    HashAt(name, 0, |name|)
  }

  /** The hash of a name with the byte `b` behind it; only a name of three bytes needs it. */
  function KeyHash(name: seq<byte>, b: byte): nat {
    if |name| == 3 then HashAt(name + [b], 0, 3) else NameHash(name)
  }

  /** The value of a character of a C string; where `char` is signed, high bytes are negative. */
  function CharValue(b: byte, signed: bool): int {
    if signed && b >= 128 then (b as int) - 256 else b
  }

  /** The hash with which `fcgi_getenv` looks for a name: of characters instead of bytes, and a name of three
      bytes has its terminating NUL behind it. */
  function LookupHash(name: seq<byte>, signed: bool): nat {
    var n := |name|;
    if n < 3 then n
    else
      var fourth: byte := if n == 3 then 0 else name[3];
      (4 * CharValue(fourth, signed) + 16 * CharValue(name[n - 2], signed) + 4 * CharValue(name[n - 1], signed) + n)
        % UINT
  }

  /** The bytes that are hashed are the same as characters. */
  predicate Plain(name: seq<byte>) {
    |name| >= 3 ==> name[|name| - 2] < 128 && name[|name| - 1] < 128 && (|name| > 3 ==> name[3] < 128)
  }

  /** A lookup uses the hash under which a name with the byte `b` behind it was stored if and only if the
      name has other than three bytes or `b` is NUL, and no high byte is hashed where `char` is signed. */
  lemma LookupHits(name: seq<byte>, b: byte, signed: bool)
    ensures LookupHash(name, signed) == KeyHash(name, b) <==> (|name| == 3 ==> b == 0) && (signed ==> Plain(name))
  {
    var n := |name|;
    if n >= 3 {
      if n == 3 { assert (name + [b])[1] == name[1] && (name + [b])[2] == name[2] && (name + [b])[3] == b; }
      var fourth := if n == 3 then b else name[3];
      var hash := 4 * (fourth as int) + 16 * (name[n - 2] as int) + 4 * (name[n - 1] as int) + n;
      assert KeyHash(name, b) == hash % UINT;
      var high := (if n > 3 && name[3] >= 128 then 1024 else 0) + (if name[n - 2] >= 128 then 4096 else 0)
                + (if name[n - 1] >= 128 then 1024 else 0);
      var less := (if n == 3 then 4 * (b as int) else 0) + (if signed then high else 0);
      Shifted(hash, less);
      assert LookupHash(name, signed) == (hash - less) % UINT;
    }
  }

  lemma Shifted(a: int, d: nat)
    requires d < UINT
    ensures (a - d) % UINT == a % UINT <==> d == 0
  {
    var q, r := a / UINT, a % UINT;
    assert a == q * UINT + r;
    if 0 < d <= r {
      Remainder(a - d, q, r - d);
    } else if d > r {
      Remainder(a - d, q - 1, r - d + UINT);
    }
  }

  lemma Remainder(a: int, q: int, r: nat)
    requires a == q * UINT + r && r < UINT
    ensures a % UINT == r
  {
  }

  /** One length at `p`: a byte below 128, or four bytes that must not be the last before `end`. */
  function ReadLen(mem: seq<byte>, p: nat, end: nat): (r: Option<(nat, nat)>)
    requires end < |mem|
    ensures r.Some? ==> r.value.0 < 0x8000_0000 && p < r.value.1 <= end
  {
    if p >= end then None
    else if mem[p] < 128 then Some((mem[p], p + 1))
    else if p + 1 + 3 >= end then None
    else Some((((mem[p] as int) - 128) * 0x100_0000 + Word(mem[p + 1], mem[p + 2]) * 0x100 + mem[p + 3], p + 4))
  }

  function Push(first: Pair, rest: Parse): Parse {
    Parse(rest.ok, [first] + rest.pairs)
  }

  /** The pair at `p` and where the next one starts; None when it does not fit before `end`. */
  function NextPair(mem: seq<byte>, p: nat, end: nat): (r: Option<(Pair, nat)>)
    requires end < |mem|
    ensures r.Some? ==> p < r.value.1 <= end
  {
    var n := ReadLen(mem, p, end);
    if n.None? then None else
    var v := ReadLen(mem, n.value.1, end);
    if v.None? then None else
    var (nameLen, _) := n.value;
    var (valLen, q) := v.value;
    if (nameLen + valLen) % UINT > end - q then None
    else
      NoWrap(nameLen, valLen);
      var r := q + nameLen;
      Some((Pair(HashAt(mem, q, nameLen), mem[q..r], mem[r..r + valLen]), r + valLen))
  }

  /** `fcgi_get_params` on the bytes of `mem` from `p` to `end`. */
  function DecodePairs(mem: seq<byte>, p: nat, end: nat): Parse
    requires end < |mem|
    decreases end - p
  {
    if p >= end then Parse(true, [])
    else
      match NextPair(mem, p, end)
      case None => Parse(false, [])
      case Some((pair, q)) => Push(pair, DecodePairs(mem, q, end))
  }

  /** The unsigned sum of two 31-bit lengths does not wrap, so the bounds test is exact. */
  lemma NoWrap(a: nat, b: nat)
    requires a < 0x8000_0000 && b < 0x8000_0000
    ensures (a + b) % UINT == a + b
  {
  }

  // ----- encodings

  /** A pair with the form chosen for each length; short lengths may use either form. */
  datatype Item = Item(name: seq<byte>, value: seq<byte>, longName: bool, longValue: bool)

  ghost predicate ValidItem(it: Item) {
    && |it.name| < 0x8000_0000 && (|it.name| >= 128 ==> it.longName)
    && |it.value| < 0x8000_0000 && (|it.value| >= 128 ==> it.longValue)
  }

  ghost predicate ValidItems(items: seq<Item>) {
    forall i :: 0 <= i < |items| ==> ValidItem(items[i])
  }

  function EncodeLen(n: nat, long: bool): (s: seq<byte>)
    requires n < 0x8000_0000 && (n >= 128 ==> long)
    ensures |s| == if long then 4 else 1
  {
    if long then [n / 0x100_0000 + 128, n / 0x1_0000 % 256, n / 0x100 % 256, n % 256] else [n]
  }

  ghost function EncodeItem(it: Item): seq<byte>
    requires ValidItem(it)
  {
    EncodeLen(|it.name|, it.longName) + EncodeLen(|it.value|, it.longValue) + it.name + it.value
  }

  ghost function EncodeItems(items: seq<Item>): seq<byte>
    requires ValidItems(items)
  {
    if items == [] then [] else EncodeItem(items[0]) + EncodeItems(items[1..])
  }

  /** The one shape the decoder refuses: a last pair of empty name and empty value whose value
      length is written in four bytes. */
  ghost predicate Refused(items: seq<Item>) {
    items != [] && var it := items[|items| - 1]; it.name == [] && it.value == [] && it.longValue
  }

  ghost predicate Matches(pairs: seq<Pair>, items: seq<Item>) {
    |pairs| == |items| && forall i :: 0 <= i < |items| ==> MatchesItem(pairs[i], items[i])
  }

  /** A decoded pair is the encoded one, hashed by its name unless that has three bytes. */
  ghost predicate MatchesItem(p: Pair, it: Item) {
    p.name == it.name && p.value == it.value && (|p.name| != 3 ==> p.hash == NameHash(p.name))
  }

  lemma ReadEncodedLen(mem: seq<byte>, p: nat, end: nat, n: nat, long: bool)
    requires n < 0x8000_0000 && (n >= 128 ==> long)
    requires p + |EncodeLen(n, long)| <= end < |mem| && mem[p..p + |EncodeLen(n, long)|] == EncodeLen(n, long)
    ensures ReadLen(mem, p, end) == if long && p + 4 == end then None else Some((n, p + |EncodeLen(n, long)|))
  {
    if long {
      ReadLong(mem, p, end, n);
    } else {
      assert mem[p] == mem[p..p + 1][0];
    }
  }

  lemma ReadLong(mem: seq<byte>, p: nat, end: nat, n: nat)
    requires n < 0x8000_0000 && p + 4 <= end < |mem| && mem[p..p + 4] == EncodeLen(n, true)
    ensures ReadLen(mem, p, end) == if p + 4 == end then None else Some((n, p + 4))
  {
    var e := mem[p..p + 4];
    assert mem[p] == e[0] && mem[p + 1] == e[1] && mem[p + 2] == e[2] && mem[p + 3] == e[3];
    FourBytes(n);
  }

  lemma FourBytes(n: nat)
    ensures n / 0x100_0000 * 0x100_0000 + n / 0x1_0000 % 256 * 0x1_0000 + n / 0x100 % 256 * 0x100 + n % 256 == n
  {
    var m := n / 0x100;
    var k := m / 0x100;
    assert n == m * 0x100 + n % 0x100 && m == k * 0x100 + m % 0x100 && k == k / 0x100 * 0x100 + k % 0x100;
    assert n / 0x1_0000 == k && n / 0x100_0000 == k / 0x100;
  }

  lemma HashOfName(mem: seq<byte>, p: nat, len: nat)
    requires p + len < |mem|
    ensures HashAt(mem, p, len) == KeyHash(mem[p..p + len], mem[p + len])
    ensures len != 3 ==> HashAt(mem, p, len) == NameHash(mem[p..p + len])
  {
  }

  lemma FourParts(a: seq<byte>, b: seq<byte>, c: seq<byte>, d: seq<byte>)
    ensures var e := a + b + c + d;
            e[0..|a|] == a && e[|a|..|a| + |b|] == b && e[|a| + |b|..|a| + |b| + |c|] == c
              && e[|a| + |b| + |c|..|e|] == d
  {
    var ab := a + b;
    assert ab[0..|a|] == a && ab[|a|..|ab|] == b;
    var abc := ab + c;
    assert abc[0..|ab|] == ab && abc[|ab|..|abc|] == c;
    assert abc[0..|a|] == ab[0..|a|] && abc[|a|..|ab|] == ab[|a|..|ab|];
    var e := abc + d;
    assert e[0..|a|] == abc[0..|a|] && e[|a|..|ab|] == abc[|a|..|ab|] && e[|ab|..|abc|] == abc[|ab|..|abc|];
  }

  /** A pair whose lengths have been read. */
  lemma NextPairIs(mem: seq<byte>, p: nat, end: nat, q: nat, v: nat, n: nat, m: nat)
    requires end < |mem| && v + n + m <= end
    requires ReadLen(mem, p, end) == Some((n, q)) && ReadLen(mem, q, end) == Some((m, v))
    ensures NextPair(mem, p, end) == Some((Pair(HashAt(mem, v, n), mem[v..v + n], mem[v + n..v + n + m]), v + n + m))
  {
    hide ReadLen, HashAt;
    NoWrap(n, m);
  }

  /** Decoding one encoded pair, unless it is the refused one at the end of the buffer. */
  lemma DecodeOne(it: Item, mem: seq<byte>, p: nat, end: nat) returns (first: Pair)
    requires ValidItem(it) && end < |mem| && p + |EncodeItem(it)| <= end
    requires mem[p..p + |EncodeItem(it)|] == EncodeItem(it)
    ensures MatchesItem(first, it) && first.name == it.name
    ensures var n := |EncodeItem(it)| - |it.name| - |it.value|; n >= 0 && first.hash == HashAt(mem, p + n, |it.name|)
    ensures var q := p + |EncodeItem(it)|;
            NextPair(mem, p, end) == if q == end && Refused([it]) then None else Some((first, q))
  {
    hide EncodeItem, HashAt, NameHash, KeyHash, NextPair;
    var n := DecodeParts(it, mem, p, end);
    first := Pair(HashAt(mem, p + n, |it.name|), it.name, it.value);
  }

  lemma DecodeParts(it: Item, mem: seq<byte>, p: nat, end: nat) returns (n: nat)
    requires ValidItem(it) && end < |mem| && p + |EncodeItem(it)| <= end
    requires mem[p..p + |EncodeItem(it)|] == EncodeItem(it)
    ensures n == |EncodeItem(it)| - |it.name| - |it.value|
    ensures |it.name| != 3 ==> HashAt(mem, p + n, |it.name|) == NameHash(it.name)
    ensures var s := p + |EncodeItem(it)|;
            NextPair(mem, p, end) == if s == end && Refused([it]) then None
                                     else Some((Pair(HashAt(mem, p + n, |it.name|), it.name, it.value), s))
  {
    hide *;
    var a, b := EncodedParts(it, mem, p);
    n := a + b;
    HashOfName(mem, p + n, |it.name|);
    DecodeLens(it, mem, p, end, p + a, p + n);
  }

  /** Decoding a pair whose lengths lie at `p..q` and `q..v`. */
  lemma DecodeLens(it: Item, mem: seq<byte>, p: nat, end: nat, q: nat, v: nat)
    requires ValidItem(it) && p <= q <= v && v + |it.name| + |it.value| <= end < |mem|
    requires mem[p..q] == EncodeLen(|it.name|, it.longName) && mem[q..v] == EncodeLen(|it.value|, it.longValue)
    requires mem[v..v + |it.name|] == it.name && mem[v + |it.name|..v + |it.name| + |it.value|] == it.value
    ensures var s := v + |it.name| + |it.value|;
            NextPair(mem, p, end) == if s == end && Refused([it]) then None
                                     else Some((Pair(HashAt(mem, v, |it.name|), it.name, it.value), s))
  {
    ReadEncodedLen(mem, p, end, |it.name|, it.longName);
    ReadEncodedLen(mem, q, end, |it.value|, it.longValue);
    var alone := v + |it.name| + |it.value| == end && Refused([it]);
    assert alone <==> it.longValue && q + 4 == end;
    hide EncodeLen, ReadLen, HashAt, NextPair;
    if alone {
      NoPair(mem, p, end, q, |it.name|);
    } else {
      NextPairIs(mem, p, end, q, v, |it.name|, |it.value|);
    }
  }

  /** Where the parts of an encoded pair lie: its lengths take `a` and `b` bytes. */
  lemma EncodedParts(it: Item, mem: seq<byte>, p: nat) returns (a: nat, b: nat)
    requires ValidItem(it) && p + |EncodeItem(it)| <= |mem| && mem[p..p + |EncodeItem(it)|] == EncodeItem(it)
    ensures a + b + |it.name| + |it.value| == |EncodeItem(it)|
    ensures mem[p..p + a] == EncodeLen(|it.name|, it.longName)
    ensures mem[p + a..p + (a + b)] == EncodeLen(|it.value|, it.longValue)
    ensures var v := p + (a + b);
            mem[v..v + |it.name|] == it.name && mem[v + |it.name|..v + |it.name| + |it.value|] == it.value
  {
    hide EncodeLen;
    var e, l, m := EncodeItem(it), EncodeLen(|it.name|, it.longName), EncodeLen(|it.value|, it.longValue);
    assert e == l + m + it.name + it.value;
    hide EncodeItem;
    a, b := |l|, |m|;
    SubSlice(mem, p, e, 0, a);
    SubSlice(mem, p, e, a, a + b);
    SubSlice(mem, p, e, a + b, a + b + |it.name|);
    SubSlice(mem, p, e, a + b + |it.name|, |e|);
    FourParts(l, m, it.name, it.value);
  }

  lemma NoPair(mem: seq<byte>, p: nat, end: nat, q: nat, n: nat)
    requires end < |mem| && ReadLen(mem, p, end) == Some((n, q)) && ReadLen(mem, q, end).None?
    ensures NextPair(mem, p, end) == None
  {
  }

  lemma MatchesPush(first: Pair, it: Item, rest: Parse, items: seq<Item>)
    requires MatchesItem(first, it) && Matches(rest.pairs, items)
    ensures Matches(Push(first, rest).pairs, [it] + items) && Push(first, rest).ok == rest.ok
  {
  }

  /** Every encoding of a list of pairs decodes to the list, in order, except exactly the refused
      ones; those deliver all pairs but the last. */
  lemma {:induction false} DecodeEncoded(items: seq<Item>, mem: seq<byte>, p: nat, end: nat)
    requires ValidItems(items) && end < |mem| && p + |EncodeItems(items)| == end
    requires mem[p..end] == EncodeItems(items)
    ensures DecodePairs(mem, p, end).ok <==> !Refused(items)
    ensures Matches(DecodePairs(mem, p, end).pairs, if Refused(items) then items[..|items| - 1] else items)
    decreases |items|
  {
    hide EncodeItem, NextPair, MatchesItem, Push;
    if items == [] {
      DecodeNothing(mem, end);
    } else {
      EncodeItemNotEmpty(items[0]);
      var it, rest := items[0], items[1..];
      var q, n := p + |EncodeItem(it)|, |EncodeItem(it)|;
      SubSlice(mem, p, EncodeItems(items), 0, n);
      SubSlice(mem, p, EncodeItems(items), n, |EncodeItems(items)|);
      assert EncodeItems(items)[0..n] == EncodeItem(it)
        && EncodeItems(items)[n..|EncodeItems(items)|] == EncodeItems(rest);
      var first := DecodeOne(it, mem, p, end);
      DecodeEncoded(rest, mem, q, end);
      RefusedTail(items);
      if rest != [] { EncodeItemNotEmpty(rest[0]); }
      if rest != [] || !Refused([it]) {
        MatchesPush(first, it, DecodePairs(mem, q, end), if Refused(rest) then rest[..|rest| - 1] else rest);
      }
    }
  }

  /** The lengths in bytes: one below 128, or four, high byte first, of which the first has 128 added. */
  lemma LengthBytes(n: nat, b0: byte, b1: byte, b2: byte, b3: byte)
    requires b0 < 128 && n == 0x100_0000 * (b0 as int) + 0x1_0000 * (b1 as int) + 0x100 * (b2 as int) + b3
    ensures EncodeLen(n, true) == [128 + b0, b1, b2, b3] && (n < 128 ==> EncodeLen(n, false) == [n])
  {
    var m, k := n / 0x100, n / 0x100 / 0x100;
    assert m == 0x1_0000 * (b0 as int) + 0x100 * (b1 as int) + b2;
    assert k == 0x100 * (b0 as int) + b1;
    assert n / 0x1_0000 == k && n / 0x100_0000 == k / 0x100;
  }

  // ----- the byte behind a name

  /** The bytes behind the names: the first byte of the value, or of the next pair when the value is
      empty, or `last`, which follows the pairs in memory. */
  ghost function Behind(items: seq<Item>, last: byte): (bs: seq<byte>)
    requires ValidItems(items)
    ensures |bs| == |items|
  {
    if items == [] then []
    else [ByteBehind(items, last)] + Behind(items[1..], last)
  }

  ghost function ByteBehind(items: seq<Item>, last: byte): byte
    requires items != [] && ValidItems(items)
  {
    if items[0].value != [] then items[0].value[0] else if |items| > 1 then First(EncodeItem(items[1])) else last
  }

  function First(s: seq<byte>): byte {
    if s == [] then 0 else s[0]
  }

  /** Every pair is hashed by its name and the byte behind it. */
  ghost predicate Hashed(pairs: seq<Pair>, bs: seq<byte>) {
    |pairs| <= |bs| && forall i :: 0 <= i < |pairs| ==> pairs[i].hash == KeyHash(pairs[i].name, bs[i])
  }

  /** The decoded pairs are hashed by their names and the bytes that follow these in memory. */
  lemma {:induction false} HashedBehind(items: seq<Item>, mem: seq<byte>, p: nat, end: nat)
    requires ValidItems(items) && end < |mem| && p + |EncodeItems(items)| == end
    requires mem[p..end] == EncodeItems(items)
    ensures Hashed(DecodePairs(mem, p, end).pairs, Behind(items, mem[end]))
    decreases |items|
  {
    hide EncodeItem, NextPair, MatchesItem, KeyHash, ByteBehind, HashAt, Push, Hashed;
    NothingHashed();
    if items == [] {
      DecodeNothing(mem, end);
    } else {
      EncodeItemNotEmpty(items[0]);
      var it, rest := items[0], items[1..];
      var q, n := p + |EncodeItem(it)|, |EncodeItem(it)|;
      SubSlice(mem, p, EncodeItems(items), 0, n);
      SubSlice(mem, p, EncodeItems(items), n, |EncodeItems(items)|);
      assert EncodeItems(items)[0..n] == EncodeItem(it)
        && EncodeItems(items)[n..|EncodeItems(items)|] == EncodeItems(rest);
      var first := DecodeOne(it, mem, p, end);
      HashOfFirst(it, mem, p, first.hash);
      HashedBehind(rest, mem, q, end);
      BehindFirst(items, mem, p, end);
      HashedPush(first, DecodePairs(mem, q, end), ByteBehind(items, mem[end]), Behind(rest, mem[end]));
    }
  }

  lemma NothingHashed()
    ensures Hashed([], [])
  {
  }

  lemma HashOfFirst(it: Item, mem: seq<byte>, p: nat, hash: nat)
    requires ValidItem(it) && p + |EncodeItem(it)| < |mem| && mem[p..p + |EncodeItem(it)|] == EncodeItem(it)
    requires var n := |EncodeItem(it)| - |it.name| - |it.value|; n >= 0 && hash == HashAt(mem, p + n, |it.name|)
    ensures hash == KeyHash(it.name, mem[p + |EncodeItem(it)| - |it.value|])
  {
    hide EncodeLen, HashAt, NameHash, KeyHash;
    var e, a, b := EncodeItem(it), EncodeLen(|it.name|, it.longName), EncodeLen(|it.value|, it.longValue);
    var q := p + |a| + |b|;
    FourParts(a, b, it.name, it.value);
    SubSlice(mem, p, e, |a| + |b|, |a| + |b| + |it.name|);
    HashOfName(mem, q, |it.name|);
  }

  lemma HashedPush(first: Pair, rest: Parse, b: byte, bs: seq<byte>)
    requires first.hash == KeyHash(first.name, b) && Hashed(rest.pairs, bs)
    ensures Hashed(Push(first, rest).pairs, [b] + bs) && Hashed([], [b] + bs)
  {
    hide KeyHash;
  }

  lemma BehindFirst(items: seq<Item>, mem: seq<byte>, p: nat, end: nat)
    requires items != [] && ValidItems(items) && end < |mem| && p + |EncodeItems(items)| == end
    requires mem[p..end] == EncodeItems(items)
    ensures var n := |EncodeItem(items[0])|; |items[0].value| <= n && p + n - |items[0].value| <= end
    ensures ByteBehind(items, mem[end]) == mem[p + |EncodeItem(items[0])| - |items[0].value|]
  {
    hide EncodeItem, EncodeItems;
    FirstOfItems(items);
    ValueIsLast(items[0]);
    ByteAfter(mem, p, end, EncodeItem(items[0]), items[0].value, EncodeItems(items[1..]));
  }

  lemma FirstOfItems(items: seq<Item>)
    requires items != [] && ValidItems(items)
    ensures EncodeItems(items) == EncodeItem(items[0]) + EncodeItems(items[1..])
    ensures |items| == 1 ==> EncodeItems(items[1..]) == []
    ensures |items| > 1 ==>
      EncodeItems(items[1..]) != [] && EncodeItems(items[1..])[0] == First(EncodeItem(items[1]))
  {
    if |items| > 1 {
      EncodeItemNotEmpty(items[1]);
      hide EncodeItem;
      assert EncodeItems(items[1..]) == EncodeItem(items[1]) + EncodeItems(items[1..][1..]);
    }
  }

  /** The byte behind what `f` holds in front of its last part `v`. */
  lemma ByteAfter(mem: seq<byte>, p: nat, end: nat, f: seq<byte>, v: seq<byte>, more: seq<byte>)
    requires p <= end < |mem| && mem[p..end] == f + more && |v| <= |f| && f[|f| - |v|..] == v
    ensures p + |f| - |v| <= end
    ensures mem[p + |f| - |v|] == if v != [] then v[0] else if more != [] then more[0] else mem[end]
  {
    var e := mem[p..end];
    if v != [] {
      assert mem[p + (|f| - |v|)] == e[|f| - |v|] == f[|f| - |v|..][0];
    } else if more != [] {
      assert mem[p + |f|] == e[|f|];
    }
  }

  lemma ValueIsLast(it: Item)
    requires ValidItem(it)
    ensures |it.value| <= |EncodeItem(it)| && EncodeItem(it)[|EncodeItem(it)| - |it.value|..] == it.value
  {
  }

  lemma DecodeNothing(mem: seq<byte>, end: nat)
    requires end < |mem|
    ensures DecodePairs(mem, end, end) == Parse(true, [])
    ensures !Refused([]) && Matches([], [])
  {
  }

  lemma RefusedTail(items: seq<Item>)
    requires items != []
    ensures Refused(items) <==> if items[1..] == [] then Refused([items[0]]) else Refused(items[1..])
    ensures items == [items[0]] + items[1..]
    ensures items[1..] != [] ==> items[..|items| - 1] == [items[0]] + items[1..][..|items| - 2]
  {
  }

  lemma SubSlice(mem: seq<byte>, p: nat, e: seq<byte>, i: nat, j: nat)
    requires i <= j <= |e| && p + |e| <= |mem| && mem[p..p + |e|] == e
    ensures mem[p + i..p + j] == e[i..j]
  {
    var m := mem[p..p + |e|];
    forall k | 0 <= k < j - i ensures mem[p + i..p + j][k] == m[i..j][k] {
      assert m[i + k] == mem[p + (i + k)];
    }
    assert m[i..j] == mem[p + i..p + j];
  }

  lemma EncodeItemNotEmpty(it: Item)
    requires ValidItem(it)
    ensures |EncodeItem(it)| > 0
  {
  }

  /** The length rule of the GET_VALUES reply: one byte below 128, else four. */
  function ReplyItem(name: seq<byte>, value: seq<byte>): Item {
    Item(name, value, |name| >= 0x80, |value| >= 0x80)
  }

  /** What the reply rule encodes is never refused. */
  lemma ReplyNotRefused(items: seq<Item>)
    requires forall i :: 0 <= i < |items| ==> items[i] == ReplyItem(items[i].name, items[i].value)
    ensures !Refused(items)
  {
  }

  /** A valid encoding that the decoder refuses: an empty pair whose value length takes four bytes. */
  lemma RefusedExample()
    ensures var it := Item([], [], false, true);
            ValidItem(it) && EncodeItem(it) == [0, 128, 0, 0, 0] && !DecodePairs(EncodeItem(it) + [0], 0, 5).ok
  {
    var it := Item([], [], false, true);
    assert EncodeItem(it) == [0, 128, 0, 0, 0];
    assert EncodeItems([it]) == EncodeItem(it) + EncodeItems([]);
    DecodeEncoded([it], EncodeItem(it) + [0], 0, 5);
  }
}
