/** `fcgi_read_request`: from the bytes of a request to the environment. */
module FcgiRequest {
  import opened Common
  import opened FcgiRecord
  import opened FcgiParams
  import opened FcgiArena
  import opened FcgiTable
  import opened FcgiHash
  import opened FcgiReader

  const FCGI_ROLE: seq<byte> := [70, 67, 71, 73, 95, 82, 79, 76, 69]
  const RESPONDER: seq<byte> := [82, 69, 83, 80, 79, 78, 68, 69, 82]
  const AUTHORIZER: seq<byte> := [65, 85, 84, 72, 79, 82, 73, 90, 69, 82]
  const FILTER: seq<byte> := [70, 73, 76, 84, 69, 82]

  function RoleName(role: nat): Option<seq<byte>> {
    if role == 1 then Some(RESPONDER)
    else if role == 2 then Some(AUTHORIZER)
    else if role == 3 then Some(FILTER)
    else None
  }

  function RoleKey(): Key {
    Key(NameHash(FCGI_ROLE), FCGI_ROLE)
  }

  /** Binding the pairs from left to right. */
  ghost function SetAll(es: seq<Entry>, pairs: seq<Pair>): seq<Entry>
    decreases |pairs|
  {
    if pairs == [] then es
    else SetAll(Set(es, Key(pairs[0].hash, pairs[0].name), pairs[0].value), pairs[1..])
  }

  function PutAll(m: map<Key, seq<byte>>, pairs: seq<Pair>): map<Key, seq<byte>>
    decreases |pairs|
  {
    if pairs == [] then m
    else PutAll(m[Key(pairs[0].hash, pairs[0].name) := pairs[0].value], pairs[1..])
  }

  lemma {:induction false} SetAllConcat(es: seq<Entry>, a: seq<Pair>, b: seq<Pair>)
    ensures SetAll(es, a + b) == SetAll(SetAll(es, a), b)
    decreases |a|
  {
    if a == [] {
      assert a + b == b;
    } else {
      assert (a + b)[1..] == a[1..] + b;
      SetAllConcat(Set(es, Key(a[0].hash, a[0].name), a[0].value), a[1..], b);
    }
  }

  /** The environment as a map is the left-to-right fold: later bindings of a key win. */
  lemma {:induction false} SetAllRefines(es: seq<Entry>, pairs: seq<Pair>)
    requires Distinct(es)
    ensures Distinct(SetAll(es, pairs)) && AsMap(SetAll(es, pairs)) == PutAll(AsMap(es), pairs)
    decreases |pairs|
  {
    if pairs != [] {
      var k := Key(pairs[0].hash, pairs[0].name);
      SetRefines(es, k, pairs[0].value);
      SetAllRefines(Set(es, k, pairs[0].value), pairs[1..]);
    }
  }

  /** The decoder loop stands at `p` and has delivered `done`. */
  ghost predicate DecodedTo(mem: seq<byte>, len: nat, p: nat, done: seq<Pair>)
    requires len < |mem|
  {
    p <= len && DecodePairs(mem, 0, len) == Parse(DecodePairs(mem, p, len).ok, done + DecodePairs(mem, p, len).pairs)
  }

  lemma DecodedStep(mem: seq<byte>, len: nat, p: nat, done: seq<Pair>, start: seq<Entry>)
    requires len < |mem| && DecodedTo(mem, len, p, done) && p < len
    ensures var next := NextPair(mem, p, len);
            if next.None? then DecodePairs(mem, 0, len) == Parse(false, done)
            else var (pair, q) := next.value;
                 && DecodedTo(mem, len, q, done + [pair])
                 && SetAll(start, done + [pair]) == Set(SetAll(start, done), Key(pair.hash, pair.name), pair.value)
  {
    hide NextPair;
    var next := NextPair(mem, p, len);
    if next.None? {
      assert done + [] == done;
    } else {
      var (pair, q) := next.value;
      assert done + ([pair] + DecodePairs(mem, q, len).pairs) == done + [pair] + DecodePairs(mem, q, len).pairs;
      SetAllConcat(start, done, [pair]);
      assert SetAll(SetAll(start, done), [pair])
        == SetAll(Set(SetAll(start, done), Key(pair.hash, pair.name), pair.value), [pair][1..]);
    }
  }

  lemma DecodedEnds(mem: seq<byte>, len: nat, done: seq<Pair>)
    requires len < |mem|
    ensures DecodedTo(mem, len, 0, [])
    ensures DecodedTo(mem, len, len, done) ==> DecodePairs(mem, 0, len) == Parse(true, done)
  {
    assert [] + DecodePairs(mem, 0, len).pairs == DecodePairs(mem, 0, len).pairs;
    assert done + [] == done;
  }

  /** `fcgi_get_params` on the first `len` bytes of `buf`: the pairs that decode are bound. */
  method GetParams(env: Env, buf: array<byte>, len: nat) returns (ok: bool)
    requires env.Valid() && len < buf.Length && buf !in env.Repr()
    modifies env.Repr()
    ensures env.Valid() && fresh(env.Repr() - old(env.Repr())) && buf !in env.Repr()
    ensures ok == DecodePairs(buf[..], 0, len).ok && buf[..] == old(buf[..])
    ensures env.entries == SetAll(old(env.entries), DecodePairs(buf[..], 0, len).pairs)
  {
    hide NextPair, DecodePairs, SetAll, DecodedTo, Env.Valid;
    ghost var mem, done: seq<Pair>, start := buf[..], [], env.entries;
    var p := 0;
    DecodedEnds(mem, len, []);
    SetNothing(start);
    while p < len
      invariant p <= len && env.Valid() && fresh(env.Repr() - old(env.Repr())) && buf !in env.Repr() && buf[..] == mem
      invariant DecodedTo(mem, len, p, done) && env.entries == SetAll(start, done)
    {
      DecodedStep(mem, len, p, done, start);
      var next := NextPair(buf[..], p, len);
      if next.None? {
        return false;
      }
      var (pair, q) := next.value;
      var _ := env.Bind(Key(pair.hash, pair.name), pair.value);
      done, p := done + [pair], q;
    }
    DecodedEnds(mem, len, done);
    ok := true;
  }

  lemma SetNothing(es: seq<Entry>)
    ensures SetAll(es, []) == es
  {
  }

  // ----- the request on the wire

  /** What a request announces: its PARAMS contents and what follows it on the wire. */
  datatype Incoming = Incoming(id: nat, role: nat, keep: bool, contents: seq<seq<byte>>, rest: seq<byte>)

  predicate HasHeader(s: seq<byte>) {
    |s| >= HEADER_LEN && s[0] >= 1
  }

  function ContentLen(s: seq<byte>): nat
    requires |s| >= HEADER_LEN
  {
    Word(s[4], s[5])
  }

  /** Empty STDIN records left over from the previous request are skipped. */
  function SkipStdin(s: seq<byte>): seq<byte> {
    if HasHeader(s) && s[1] == STDIN && ContentLen(s) == 0 then SkipStdin(s[HEADER_LEN..]) else s
  }

  /** The contents of PARAMS records up to the header that ends them. */
  function ParamsOf(s: seq<byte>): Option<(seq<seq<byte>>, seq<byte>)> {
    if !HasHeader(s) then None
    else if s[1] != PARAMS || ContentLen(s) == 0 then Some(([], s[HEADER_LEN..]))
    else
      var len := ContentLen(s);
      var next := HEADER_LEN + len + s[6];
      if len + s[6] > MAX_LENGTH || |s| < next then None
      else
        match ParamsOf(s[next..])
        case None => None
        case Some((contents, rest)) => Some(([s[HEADER_LEN..HEADER_LEN + len]] + contents, rest))
  }

  function IncomingOf(s: seq<byte>): Option<Incoming> {
    BeginOf(SkipStdin(s))
  }

  /** The request that starts with a BEGIN_REQUEST record at the front of `t`. */
  function BeginOf(t: seq<byte>): Option<Incoming> {
    if !HasHeader(t) || t[1] != BEGIN_REQUEST || ContentLen(t) != 8 || |t| < HEADER_LEN + 8 + t[6] then None
    else
      var role := Word(t[8], t[9]);
      if RoleName(role).None? then None
      else
        match ParamsOf(t[HEADER_LEN + 8 + t[6]..])
        case None => None
        case Some((contents, rest)) => Some(Incoming(Word(t[2], t[3]), role, t[10] % 2 == 1, contents, rest))
  }

  /** A well-formed request whose PARAMS contents all decode. */
  predicate Acceptable(inc: Option<Incoming>) {
    inc.Some? && forall c :: c in inc.value.contents ==> Decodable(c)
  }

  /** The bytes `c`, somewhere in memory, decode to `pairs`. */
  ghost predicate Yields(c: seq<byte>, pairs: seq<Pair>) {
    exists mem: seq<byte> :: |mem| > |c| && mem[..|c|] == c && DecodePairs(mem, 0, |c|) == Parse(true, pairs)
  }

  ghost predicate YieldsAll(contents: seq<seq<byte>>, parts: seq<seq<Pair>>) {
    |parts| == |contents| && forall i :: 0 <= i < |contents| ==> Yields(contents[i], parts[i])
  }

  predicate Decodable(c: seq<byte>) {
    DecodePairs(c + [0], 0, |c|).ok
  }

  lemma NextFrame(mem: seq<byte>, mem': seq<byte>, p: nat, end: nat)
    requires end < |mem| && end < |mem'| && mem[..end] == mem'[..end]
    ensures NextPair(mem, p, end).None? <==> NextPair(mem', p, end).None?
    ensures NextPair(mem, p, end).Some? ==> NextPair(mem, p, end).value.1 == NextPair(mem', p, end).value.1
  {
    hide HashAt;
    forall k: nat | k < end ensures mem[k] == mem'[k] {
      assert mem[..end][k] == mem[k];
    }
    assert ReadLen(mem, p, end) == ReadLen(mem', p, end);
    if ReadLen(mem, p, end).Some? {
      var q := ReadLen(mem, p, end).value.1;
      assert ReadLen(mem, q, end) == ReadLen(mem', q, end);
    }
  }

  /** Whether bytes decode does not depend on what follows them in memory. */
  lemma {:induction false} DecodeFrame(mem: seq<byte>, mem': seq<byte>, p: nat, end: nat)
    requires end < |mem| && end < |mem'| && mem[..end] == mem'[..end]
    ensures DecodePairs(mem, p, end).ok == DecodePairs(mem', p, end).ok
    decreases end - p
  {
    hide NextPair;
    if p < end {
      NextFrame(mem, mem', p, end);
      var next := NextPair(mem, p, end);
      if next.Some? { DecodeFrame(mem, mem', next.value.1, end); }
    }
  }

  /** What is left of `s`, and in the environment, when no request is read: a record of type 9 is read, and
      its names are bound, in order to answer it; of any other record that is not a BEGIN_REQUEST of 8 bytes,
      and of one that is too long, only the header is read. */
  ghost predicate Refuses(s: seq<byte>, rest: seq<byte>, entries: seq<Entry>) {
    |s| >= 8 && s[0] >= 1 ==>
      var len, pad := 256 * (s[4] as int) + s[5], s[6] as int;
      if len + pad > 65535 || (s[1] != 9 && (s[1] != 1 || len != 8)) then rest == s[8..] && entries == []
      else if s[1] != 9 then true
      else if |s| < 8 + len + pad then rest == [] && entries == []
      else
        && rest == s[8 + len + pad..]
        && (Decodable(s[8..8 + len]) ==> exists part :: Yields(s[8..8 + len], part) && entries == SetAll([], part))
  }

  lemma RefusesNothing(s: seq<byte>, rest: seq<byte>, entries: seq<Entry>)
    requires !HasHeader(s)
    ensures Refuses(s, rest, entries)
  {
  }

  lemma RefusesHeader(hdr: seq<byte>, s: seq<byte>)
    requires |hdr| == HEADER_LEN && HasHeader(hdr)
    ensures Word(hdr[4], hdr[5]) + hdr[6] > MAX_LENGTH ==> Refuses(hdr + s, s, [])
    ensures hdr[1] != GET_VALUES && !(hdr[1] == BEGIN_REQUEST && Word(hdr[4], hdr[5]) == 8) ==>
              Refuses(hdr + s, s, [])
    ensures hdr[1] == BEGIN_REQUEST && Word(hdr[4], hdr[5]) == 8 && 8 + (hdr[6] as int) <= MAX_LENGTH ==>
      forall rest, entries :: Refuses(hdr + s, rest, entries)
  {
    assert (hdr + s)[8..] == s && (hdr + s)[1] == hdr[1] && (hdr + s)[4] == hdr[4] && (hdr + s)[5] == hdr[5];
    assert (hdr + s)[6] == hdr[6];
  }

  lemma RefusesValues(hdr: seq<byte>, s: seq<byte>, rest: seq<byte>, entries: seq<Entry>, ok: bool, part: seq<Pair>)
    requires |hdr| == HEADER_LEN && HasHeader(hdr) && hdr[1] == GET_VALUES
    requires var n := Word(hdr[4], hdr[5]) + hdr[6];
             && n <= MAX_LENGTH && (|s| < n ==> rest == [] && entries == []) && (|s| >= n ==> rest == s[n..])
    requires ok ==> |s| >= Word(hdr[4], hdr[5]) && Yields(s[..Word(hdr[4], hdr[5])], part)
    requires ok ==> entries == SetAll([], part)
    requires !ok ==> |s| < Word(hdr[4], hdr[5]) + hdr[6] || !Decodable(s[..Word(hdr[4], hdr[5])])
    ensures Refuses(hdr + s, rest, entries)
  {
    hide Yields, Decodable, SetAll;
    var t, len := hdr + s, Word(hdr[4], hdr[5]);
    assert t[0] == hdr[0] && t[1] == hdr[1] && t[4] == hdr[4] && t[5] == hdr[5] && t[6] == hdr[6];
    if |s| >= len + hdr[6] {
      assert t[8..8 + len] == s[..len] && t[8 + len + (hdr[6] as int)..] == s[len + hdr[6]..];
    }
  }

  class Request {
    const env: Env
    const conn: Reader
    var id: nat
    var hasEnv: bool

    constructor (input: seq<byte>)
      ensures Valid() && conn.input == input && fresh(Repr()) && conn !in env.Repr()
    {
      env := new Env();
      conn := new Reader(input);
      id, hasEnv := 0, false;
    }

    ghost function Repr(): set<object>
      reads this, env, env.arena
    {
      {this, conn} + env.Repr()
    }

    ghost predicate Valid()
      reads Repr()
    {
      env.Valid() && (!hasEnv ==> env.entries == [])
    }

    /** A record header, or an empty sequence when it is cut short or of version 0. */
    method NextHeader() returns (hdr: seq<byte>)
      requires env.Valid() && conn !in env.Repr()
      modifies conn`input
      ensures env.Valid() && env.Repr() == old(env.Repr()) && env.entries == old(env.entries)
      ensures hdr != [] <==> old(HasHeader(conn.input))
      ensures |conn.input| <= old(|conn.input|)
      ensures hdr != [] ==> |hdr| == HEADER_LEN && HasHeader(hdr) && old(conn.input) == hdr + conn.input
    {
      hdr := conn.SafeRead(HEADER_LEN);
      if |hdr| != HEADER_LEN || hdr[0] < 1 {
        hdr := [];
      }
    }

    /** `safe_read` of `n` bytes into the front of `buf`. */
    method ReadInto(buf: array<byte>, n: nat) returns (ok: bool)
      requires n <= buf.Length
      modifies conn`input, buf
      ensures ok <==> old(|conn.input|) >= n
      ensures ok ==> buf[..n] == old(conn.input)[..n] && conn.input == old(conn.input)[n..]
      ensures !ok ==> conn.input == []
    {
      ghost var s := conn.input;
      var data := conn.SafeRead(n);
      ok := |data| == n;
      forall k | 0 <= k < |data| { buf[k] := data[k]; }
      if ok {
        assert s[..n] == data && s[n..] == conn.input;
        assert forall k :: 0 <= k < n ==> buf[k] == data[k];
      }
    }

    /** Read one PARAMS record of `len` bytes and `pad` bytes of padding, and bind its pairs. */
    method ReadRecord(buf: array<byte>, len: nat, pad: nat) returns (ok: bool, ghost part: seq<Pair>)
      requires env.Valid() && buf.Length == MAX_LENGTH + 8 && buf !in env.Repr() && conn !in env.Repr()
        && len + pad <= MAX_LENGTH
      modifies conn, env.Repr(), buf
      ensures env.Valid() && fresh(env.Repr() - old(env.Repr())) && buf !in env.Repr() && conn !in env.Repr()
      ensures ok ==> |old(conn.input)| >= len + pad && conn.input == old(conn.input)[len + pad..]
      ensures |old(conn.input)| < len + pad ==> conn.input == [] && env.entries == old(env.entries)
      ensures |old(conn.input)| >= len + pad ==> conn.input == old(conn.input)[len + pad..]
      ensures ok ==> Yields(old(conn.input)[..len], part) && env.entries == SetAll(old(env.entries), part)
      ensures !ok ==> |old(conn.input)| < len + pad || !Decodable(old(conn.input)[..len])
      ensures ok ==> conn.keep == old(conn.keep) && conn.inLen == old(conn.inLen)
    {
      hide Env.Valid, DecodePairs, SetAll;
      ghost var s := conn.input;
      part := [];
      ok := ReadInto(buf, len + pad);
      if !ok {
        conn.keep := false;
        return;
      }
      assert buf[..len] == s[..len];
      ok := GetParams(env, buf, len);
      DecodeFrame(buf[..], s[..len] + [0], 0, len);
      if !ok {
        conn.keep := false;
        return;
      }
      part := DecodePairs(buf[..], 0, len).pairs;
      assert buf[..][..len] == s[..len];
    }

    /** The records with `contents` have been read and bound to `parts`, with `hdr` behind them; `start` and
        `whole` are the environment and the stream before. */
    ghost predicate ReadSoFar(start: seq<Entry>, whole: Option<(seq<seq<byte>>, seq<byte>)>, hdr: seq<byte>,
                              contents: seq<seq<byte>>, parts: seq<seq<Pair>>)
      reads env, conn
    {
      && |hdr| == HEADER_LEN && HasHeader(hdr) && YieldsAll(contents, parts)
      && env.entries == SetAll(start, Concat(parts)) && whole == After(contents, ParamsOf(hdr + conn.input))
    }

    /** Read and bind PARAMS records up to the header that ends them; `first` is the first header. */
    method ReadParams(buf: array<byte>, first: seq<byte>)
      returns (ok: bool, ghost contents: seq<seq<byte>>, ghost parts: seq<seq<Pair>>)
      requires env.Valid() && buf.Length == MAX_LENGTH + 8 && buf !in env.Repr() && conn !in env.Repr()
      requires |first| == HEADER_LEN && HasHeader(first)
      modifies conn, env.Repr(), buf
      ensures env.Valid() && fresh(env.Repr() - old(env.Repr()))
      ensures ok ==> ParamsOf(first + old(conn.input)) == Some((contents, conn.input))
      ensures ok ==> conn.keep == old(conn.keep) && conn.inLen == old(conn.inLen)
      ensures ok ==> YieldsAll(contents, parts) && env.entries == SetAll(old(env.entries), Concat(parts))
      ensures AllDecode(ParamsOf(first + old(conn.input))) ==> ok
    {
      hide Env.Valid, DecodePairs, SetAll, ParamsOf, Yields, Decodable;
      ghost var start, whole := env.entries, ParamsOf(first + conn.input);
      var hdr := first;
      contents, parts := [], [];
      SetNothing(start);
      AfterNothing(whole);
      while hdr[1] == PARAMS && Word(hdr[4], hdr[5]) > 0
        invariant env.Valid() && fresh(env.Repr() - old(env.Repr())) && buf !in env.Repr() && conn !in env.Repr()
        invariant conn.keep == old(conn.keep) && conn.inLen == old(conn.inLen)
        invariant ReadSoFar(start, whole, hdr, contents, parts)
        decreases |conn.input|
      {
        ok, hdr, contents, parts := ReadOne(buf, hdr, start, whole, contents, parts);
        if !ok {
          return false, [], [];
        }
      }
      ParamsStep(hdr, conn.input);
      ok := true;
      assert contents + [] == contents;
    }

    /** Read and bind the record with the header `hdr`, and read the next header. */
    method ReadOne(buf: array<byte>, hdr: seq<byte>, ghost start: seq<Entry>,
                   ghost whole: Option<(seq<seq<byte>>, seq<byte>)>, ghost contents: seq<seq<byte>>,
                   ghost parts: seq<seq<Pair>>)
      returns (ok: bool, next: seq<byte>, ghost contents': seq<seq<byte>>, ghost parts': seq<seq<Pair>>)
      requires env.Valid() && buf.Length == MAX_LENGTH + 8 && buf !in env.Repr() && conn !in env.Repr()
      requires ReadSoFar(start, whole, hdr, contents, parts) && hdr[1] == PARAMS && Word(hdr[4], hdr[5]) > 0
      modifies conn, env.Repr(), buf
      ensures env.Valid() && fresh(env.Repr() - old(env.Repr())) && buf !in env.Repr() && conn !in env.Repr()
      ensures ok ==> ReadSoFar(start, whole, next, contents', parts') && |conn.input| < |old(conn.input)|
      ensures ok ==> conn.keep == old(conn.keep) && conn.inLen == old(conn.inLen)
      ensures AllDecode(whole) ==> ok
    {
      hide Env.Valid, DecodePairs, SetAll, ParamsOf, Yields, Decodable;
      next, contents', parts' := [], contents, parts;
      var len, pad := Word(hdr[4], hdr[5]), hdr[6];
      ghost var s, part := conn.input, [];
      ParamsStep(hdr, s);
      if len + pad > MAX_LENGTH {
        return false, [], [], [];
      }
      ok, part := ReadRecord(buf, len, pad);
      if len + pad <= |s| { AfterMore(contents, s[..len], ParamsOf(s[len + pad..])); }
      if !ok {
        return;
      }
      FlattenMore(start, parts, part);
      contents', parts' := contents + [s[..len]], parts + [part];
      NoParams(conn.input);
      next := NextHeader();
      if next == [] {
        conn.keep, ok := false, false;
      }
    }

    /** Headers of empty STDIN records are skipped; an empty result means the input ended. */
    method FirstHeader() returns (hdr: seq<byte>)
      requires env.Valid() && conn !in env.Repr()
      modifies conn`input
      ensures env.Valid() && env.Repr() == old(env.Repr()) && env.entries == old(env.entries)
      ensures hdr == [] <==> !HasHeader(SkipStdin(old(conn.input)))
      ensures hdr != [] ==> |hdr| == HEADER_LEN && HasHeader(hdr) && SkipStdin(old(conn.input)) == hdr + conn.input
    {
      hide Env.Valid;
      hdr := NextHeader();
      while hdr != [] && hdr[1] == STDIN && Word(hdr[4], hdr[5]) == 0
        invariant env.Valid() && env.Repr() == old(env.Repr()) && env.entries == old(env.entries)
        invariant hdr != [] ==>
          |hdr| == HEADER_LEN && HasHeader(hdr) && SkipStdin(old(conn.input)) == SkipStdin(hdr + conn.input)
        invariant hdr == [] ==> !HasHeader(SkipStdin(old(conn.input)))
        decreases |hdr| + |conn.input|
      {
        SkipStep(hdr, conn.input);
        hdr := NextHeader();
      }
      if hdr != [] { SkipStep(hdr, conn.input); }
    }

    /** `fcgi_getenv`: what the environment holds under the name with the hash of a lookup. */
    method GetEnv(name: seq<byte>, signed: bool) returns (s: Option<Str>)
      requires Valid()
      ensures var k := Key(LookupHash(name, signed), name);
              && (s.None? <==> k !in AsMap(env.entries))
              && (s.Some? ==> (s.value, AsMap(env.entries)[k]) in env.arena.handed)
    {
      s := env.Get(Key(LookupHash(name, signed), name));
    }

    /** `fcgi_read_request`: on success the environment holds FCGI_ROLE and then all pairs of the
        PARAMS records, bound from left to right, and nothing from the request before. */
    method ReadRequest() returns (ok: bool, ghost inc: Incoming, ghost parts: seq<seq<Pair>>)
      requires Valid() && conn !in env.Repr()
      modifies Repr()
      ensures Valid() && conn !in env.Repr() && fresh(Repr() - old(Repr()))
      ensures ok ==> IncomingOf(old(conn.input)) == Some(inc) && YieldsAll(inc.contents, parts)
      ensures ok ==> id == inc.id && conn.keep == inc.keep && conn.input == inc.rest && conn.inLen == 0
      ensures ok ==> RoleName(inc.role).Some?
      ensures ok ==> env.entries == SetAll([Entry(RoleKey(), RoleName(inc.role))], Concat(parts))
      ensures Acceptable(IncomingOf(old(conn.input))) ==> ok
      ensures !ok ==> Refuses(SkipStdin(old(conn.input)), conn.input, env.entries)
    {
      hide Env.Valid, BeginOf, YieldsAll, Acceptable, SetAll, Refuses;
      ok, inc, parts := false, Incoming(0, 0, false, [], []), [];
      Renew();
      var buf := new byte[MAX_LENGTH + 8];
      var hdr := FirstHeader();
      if hdr == [] {
        NotBegin(SkipStdin(old(conn.input)));
        RefusesNothing(SkipStdin(old(conn.input)), conn.input, env.entries);
        return;
      }
      ok, inc, parts := Dispatch(buf, hdr);
    }

    /** What the first header that is not an empty STDIN record announces. */
    method Dispatch(buf: array<byte>, hdr: seq<byte>)
      returns (ok: bool, ghost inc: Incoming, ghost parts: seq<seq<Pair>>)
      requires env.Valid() && env.entries == [] && buf.Length == MAX_LENGTH + 8 && buf !in env.Repr()
        && conn !in env.Repr()
      requires |hdr| == HEADER_LEN && HasHeader(hdr)
      modifies this`id, conn, env.Repr(), buf
      ensures env.Valid() && fresh(env.Repr() - old(env.Repr()))
      ensures ok ==> BeginOf(hdr + old(conn.input)) == Some(inc) && YieldsAll(inc.contents, parts)
      ensures ok ==> id == inc.id && conn.keep == inc.keep && conn.input == inc.rest && conn.inLen == old(conn.inLen)
      ensures ok ==> RoleName(inc.role).Some?
      ensures ok ==> env.entries == SetAll([Entry(RoleKey(), RoleName(inc.role))], Concat(parts))
      ensures Acceptable(BeginOf(hdr + old(conn.input))) ==> ok
      ensures !ok ==> Refuses(hdr + old(conn.input), conn.input, env.entries)
    {
      hide Env.Valid, BeginOf, YieldsAll, Acceptable, SetAll, Refuses, Yields, Decodable;
      ok, inc, parts := false, Incoming(0, 0, false, [], []), [];
      ghost var s := conn.input;
      NotBegin(hdr + s);
      RefusesHeader(hdr, s);
      var len, pad := Word(hdr[4], hdr[5]), hdr[6];
      if len + pad > MAX_LENGTH {
        return;
      }
      id := Word(hdr[2], hdr[3]);
      if hdr[1] == BEGIN_REQUEST && len == 8 {
        ok, inc, parts := ReadBegin(buf, hdr);
      } else if hdr[1] == GET_VALUES {
        ghost var part;
        ok, part := ReadRecord(buf, len, pad);
        RefusesValues(hdr, s, conn.input, env.entries, ok, part);
        ok := false;
      }
    }

    /** The request starts with an empty environment. */
    method Renew()
      requires Valid() && conn !in env.Repr()
      modifies this, conn, env, env.table, env.arena
      ensures env.Valid() && env.entries == [] && hasEnv && conn.inLen == 0 && conn.input == old(conn.input)
      ensures env.Repr() <= old(env.Repr())
    {
      hide Env.Valid;
      conn.keep, conn.inLen := false, 0;
      if hasEnv {
        env.Clean();
      } else {
        hasEnv := true;
      }
    }

    /** The BEGIN_REQUEST branch of `fcgi_read_request`, behind its header `hdr`. */
    method ReadBegin(buf: array<byte>, hdr: seq<byte>)
      returns (ok: bool, ghost inc: Incoming, ghost parts: seq<seq<Pair>>)
      requires env.Valid() && env.entries == [] && buf.Length == MAX_LENGTH + 8 && buf !in env.Repr()
        && conn !in env.Repr()
      requires |hdr| == HEADER_LEN && HasHeader(hdr) && hdr[1] == BEGIN_REQUEST && Word(hdr[4], hdr[5]) == 8
      requires id == Word(hdr[2], hdr[3])
      modifies conn, env.Repr(), buf
      ensures env.Valid() && fresh(env.Repr() - old(env.Repr()))
      ensures ok ==> BeginOf(hdr + old(conn.input)) == Some(inc) && YieldsAll(inc.contents, parts)
      ensures ok ==> id == inc.id && conn.keep == inc.keep && conn.input == inc.rest && conn.inLen == old(conn.inLen)
      ensures ok ==> RoleName(inc.role).Some?
      ensures ok ==> env.entries == SetAll([Entry(RoleKey(), RoleName(inc.role))], Concat(parts))
      ensures Acceptable(BeginOf(hdr + old(conn.input))) ==> ok
    {
      hide Env.Valid, SetAll, DecodePairs, ParamsOf, YieldsAll, Decodable, BeginOf;
      inc, parts := Incoming(0, 0, false, [], []), [];
      ghost var t, role := conn.input, 0;
      ok, role := ReadRole(buf, hdr);
      BeginIs(hdr, t);
      if !ok {
        return;
      }
      NoParams(conn.input);
      var next := NextHeader();
      if next == [] {
        return false, inc, [];
      }
      ghost var contents;
      ok, contents, parts := ReadParams(buf, next);
      inc := Incoming(id, role, t[2] % 2 == 1, contents, conn.input);
    }

    /** Read the body of a BEGIN_REQUEST record and bind the role. */
    method ReadRole(buf: array<byte>, hdr: seq<byte>) returns (ok: bool, ghost role: nat)
      requires env.Valid() && env.entries == [] && buf.Length == MAX_LENGTH + 8 && buf !in env.Repr()
        && conn !in env.Repr()
      requires |hdr| == HEADER_LEN
      modifies conn, env.Repr(), buf
      ensures env.Valid() && fresh(env.Repr() - old(env.Repr())) && buf !in env.Repr() && conn !in env.Repr()
      ensures var t, n := old(conn.input), 8 + (hdr[6] as int);
              && (ok <==> |t| >= n && RoleName(Word(t[0], t[1])).Some?)
              && (ok ==> role == Word(t[0], t[1]) && conn.keep == (t[2] % 2 == 1))
              && (ok ==> conn.input == t[n..] && conn.inLen == old(conn.inLen))
              && (ok ==> env.entries == [Entry(RoleKey(), RoleName(role))])
    {
      hide Env.Valid;
      role := 0;
      var pad := hdr[6];
      ghost var t := conn.input;
      ok := ReadInto(buf, 8 + (pad as int));
      if !ok {
        return;
      }
      assert forall k :: 0 <= k < 8 ==> buf[k] == buf[..8 + (pad as int)][k] == t[k];
      conn.keep := buf[2] % 2 == 1;
      role := Word(buf[0], buf[1]);
      var name := RoleName(Word(buf[0], buf[1]));
      if name.None? {
        return false, 0;
      }
      RoleSet(name.value);
      var _ := env.Bind(RoleKey(), name.value);
    }
  }

  /** What the fields of a BEGIN_REQUEST record and the header behind it make of the request. */
  lemma BeginIs(hdr: seq<byte>, t: seq<byte>)
    requires |hdr| == HEADER_LEN && HasHeader(hdr) && hdr[1] == BEGIN_REQUEST && Word(hdr[4], hdr[5]) == 8
    ensures var n := 8 + (hdr[6] as int);
            if |t| < n || RoleName(Word(t[0], t[1])).None? then BeginOf(hdr + t) == None
            else BeginOf(hdr + t)
                 == match ParamsOf(t[n..])
                    case None => None
                    case Some((contents, rest)) =>
                      Some(Incoming(Word(hdr[2], hdr[3]), Word(t[0], t[1]), t[2] % 2 == 1, contents, rest))
  {
    hide ParamsOf;
    HeaderFields(hdr, t);
    if |t| >= 8 + (hdr[6] as int) { BeginFields(hdr, t, t[..8 + (hdr[6] as int)]); }
  }

  lemma NotBegin(t: seq<byte>)
    ensures Acceptable(BeginOf(t)) ==>
      HasHeader(t) && t[1] == BEGIN_REQUEST && ContentLen(t) == 8 && 8 + (t[6] as int) <= MAX_LENGTH
  {
  }

  lemma SkipStep(hdr: seq<byte>, s: seq<byte>)
    requires |hdr| == HEADER_LEN && HasHeader(hdr)
    ensures SkipStdin(hdr + s) == if hdr[1] == STDIN && Word(hdr[4], hdr[5]) == 0 then SkipStdin(s) else hdr + s
    ensures !HasHeader(s) ==> SkipStdin(s) == s
  {
    assert (hdr + s)[HEADER_LEN..] == s;
  }

  lemma HeaderFields(hdr: seq<byte>, t: seq<byte>)
    requires |hdr| == HEADER_LEN
    ensures forall k :: 0 <= k < HEADER_LEN ==> (hdr + t)[k] == hdr[k]
    ensures forall k :: 0 <= k < |t| ==> (hdr + t)[HEADER_LEN + k] == t[k]
  {
  }

  /** What the bytes `b` of a BEGIN_REQUEST body say about the request. */
  lemma BeginFields(hdr: seq<byte>, t: seq<byte>, b: seq<byte>)
    requires |hdr| == HEADER_LEN && HasHeader(hdr) && hdr[1] == BEGIN_REQUEST && Word(hdr[4], hdr[5]) == 8
    requires |t| >= 8 + (hdr[6] as int) && b == t[..8 + (hdr[6] as int)]
    ensures b[0] == t[0] && b[1] == t[1] && b[2] == t[2]
    ensures (hdr + t)[HEADER_LEN + 8 + hdr[6]..] == t[8 + (hdr[6] as int)..]
    ensures (hdr + t)[8] == t[0] && (hdr + t)[9] == t[1] && (hdr + t)[10] == t[2]
  {
  }

  lemma RoleSet(role: seq<byte>)
    ensures Set([], RoleKey(), role) == [Entry(RoleKey(), Some(role))]
  {
    forall i ensures !LiveKey([], i, RoleKey()) {}
  }

  // ----- facts about the PARAMS stream

  ghost predicate AllDecode(p: Option<(seq<seq<byte>>, seq<byte>)>) {
    p.Some? && forall c :: c in p.value.0 ==> Decodable(c)
  }

  function After(contents: seq<seq<byte>>, p: Option<(seq<seq<byte>>, seq<byte>)>)
    : Option<(seq<seq<byte>>, seq<byte>)>
  {
    match p
    case None => None
    case Some((more, rest)) => Some((contents + more, rest))
  }

  lemma AfterNothing(p: Option<(seq<seq<byte>>, seq<byte>)>)
    ensures After([], p) == p
  {
    if p.Some? { assert [] + p.value.0 == p.value.0; }
  }

  lemma AfterMore(a: seq<seq<byte>>, c: seq<byte>, p: Option<(seq<seq<byte>>, seq<byte>)>)
    ensures After(a, After([c], p)) == After(a + [c], p)
    ensures AllDecode(After(a + [c], p)) ==> Decodable(c)
  {
    if p.Some? {
      assert a + ([c] + p.value.0) == a + [c] + p.value.0;
      assert (a + [c] + p.value.0)[|a|] == c;
    }
  }

  lemma ParamsUnfolds(t: seq<byte>)
    requires HasHeader(t)
    ensures var len, pad := ContentLen(t), t[6]; var next := HEADER_LEN + len + pad;
            ParamsOf(t) == if t[1] != PARAMS || len == 0 then Some(([], t[HEADER_LEN..]))
                           else if len + pad > MAX_LENGTH || |t| < next then None
                           else After([t[HEADER_LEN..HEADER_LEN + len]], ParamsOf(t[next..]))
  {
  }

  /** One step of the PARAMS stream behind the header `hdr`. */
  lemma ParamsStep(hdr: seq<byte>, s: seq<byte>)
    requires |hdr| == HEADER_LEN && HasHeader(hdr)
    ensures var len, pad := Word(hdr[4], hdr[5]), hdr[6];
            ParamsOf(hdr + s) == if hdr[1] != PARAMS || len == 0 then Some(([], s))
                                 else if len + pad > MAX_LENGTH || |s| < len + pad then None
                                 else After([s[..len]], ParamsOf(s[len + pad..]))
  {
    hide Word, ParamsOf, After;
    var t := hdr + s;
    var len, pad := Word(hdr[4], hdr[5]), hdr[6];
    assert t[0] == hdr[0] && t[1] == hdr[1] && t[4] == hdr[4] && t[5] == hdr[5] && t[6] == hdr[6];
    assert ContentLen(t) == len && t[HEADER_LEN..] == s;
    ParamsUnfolds(t);
    if |s| >= len + pad {
      assert t[HEADER_LEN + len + pad..] == s[len + pad..] && t[HEADER_LEN..HEADER_LEN + len] == s[..len];
    }
  }

  lemma NoParams(s: seq<byte>)
    ensures !HasHeader(s) ==> ParamsOf(s).None?
  {
  }

  lemma FlattenMore(start: seq<Entry>, parts: seq<seq<Pair>>, part: seq<Pair>)
    ensures Concat(parts + [part]) == Concat(parts) + part
    ensures SetAll(SetAll(start, Concat(parts)), part) == SetAll(start, Concat(parts + [part]))
  {
    assert (parts + [part])[..|parts|] == parts;
    SetAllConcat(start, Concat(parts), part);
  }
}
