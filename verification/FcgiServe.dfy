/** From requests encoded by the rules to the environments that are served. */
module FcgiServe {
  import opened Common
  import opened FcgiRecord
  import opened FcgiParams
  import opened FcgiTable
  import opened FcgiHash
  import opened FcgiRequest

  ghost predicate ValidBatches(batches: seq<seq<Item>>) {
    forall i :: 0 <= i < |batches| ==> ValidItems(batches[i]) && 0 < |EncodeItems(batches[i])| <= MAX_LENGTH
  }

  ghost function ContentsOf(batches: seq<seq<Item>>): seq<seq<byte>>
    requires ValidBatches(batches)
  {
    if batches == [] then [] else [EncodeItems(batches[0])] + ContentsOf(batches[1..])
  }

  /** The padding of the records of a request: of BEGIN_REQUEST, of the PARAMS records, and of the empty
      one that ends them. */
  datatype Pads = Pads(begin: Padding, params: seq<Padding>, end: Padding)

  /** PARAMS records of whole pairs, ended by an empty one. */
  ghost function ParamsBytes(id: nat, contents: seq<seq<byte>>, pads: seq<Padding>, end: Padding): seq<byte>
    requires |pads| == |contents|
  {
    if contents == [] then Padded(Record(PARAMS, id, []), end)
    else Padded(Record(PARAMS, id, contents[0]), pads[0]) + ParamsBytes(id, contents[1..], pads[1..], end)
  }

  ghost function RequestBytes(id: nat, role: nat, flags: byte, contents: seq<seq<byte>>, pads: Pads): seq<byte>
    requires role < 256 && |pads.params| == |contents|
  {
    Padded(Record(BEGIN_REQUEST, id, [0, role, flags, 0, 0, 0, 0, 0]), pads.begin)
      + ParamsBytes(id, contents, pads.params, pads.end)
  }

  /** Content and padding of every record together are at most 65535 bytes. */
  ghost predicate AllFit(contents: seq<seq<byte>>, pads: seq<Padding>)
    requires |pads| == |contents|
  {
    forall i :: 0 <= i < |contents| ==> |contents[i]| + |pads[i]| <= MAX_LENGTH
  }

  lemma HeaderOf(r: Record, padding: Padding, s: seq<byte>)
    requires ValidRecord(r)
    ensures var t := Padded(r, padding) + s; var len, pad := |r.content|, |padding|;
            && HasHeader(t) && t[1] == r.kind && Word(t[2], t[3]) == r.id && ContentLen(t) == len && t[6] == pad
            && HEADER_LEN + len + pad == |Padded(r, padding)| && t[HEADER_LEN..HEADER_LEN + len] == r.content
            && t[HEADER_LEN..] == r.content + padding + s && t[HEADER_LEN + len + pad..] == s
  {
    var t, len := Padded(r, padding) + s, |r.content|;
    assert t[..HEADER_LEN] == Header(r.kind, r.id, len, |padding|);
    assert t[0] == 1 && t[1] == r.kind && t[2] == r.id / 256 && t[3] == r.id % 256 && t[4] == len / 256
      && t[5] == len % 256 && t[6] == |padding|;
  }

  /** The PARAMS stream is read back whole, unless a record and its padding exceed 65535 bytes; the padding of
      the record that ends it is left on the wire. */
  lemma {:induction false} ParamsOfBytes(id: nat, contents: seq<seq<byte>>, pads: seq<Padding>, end: Padding,
                                         next: seq<byte>)
    requires id < 0x10000 && (forall i :: 0 <= i < |contents| ==> 0 < |contents[i]| <= MAX_LENGTH)
      && |pads| == |contents|
    ensures ParamsOf(ParamsBytes(id, contents, pads, end) + next)
         == if AllFit(contents, pads) then Some((contents, end + next)) else None
    decreases |contents|
  {
    hide Padded, ParamsOf;
    var s := ParamsBytes(id, contents, pads, end) + next;
    if contents == [] {
      HeaderOf(Record(PARAMS, id, []), end, next);
      ParamsUnfolds(s);
      assert [] + end + next == end + next;
    } else {
      var c, p, more := contents[0], pads[0], ParamsBytes(id, contents[1..], pads[1..], end) + next;
      assert s == Padded(Record(PARAMS, id, c), p) + more;
      HeaderOf(Record(PARAMS, id, c), p, more);
      ParamsUnfolds(s);
      ParamsOfBytes(id, contents[1..], pads[1..], end, next);
      assert contents == [c] + contents[1..];
      assert AllFit(contents, pads) <==> |c| + |p| <= MAX_LENGTH && AllFit(contents[1..], pads[1..]);
    }
  }

  /** A request encoded by the rules is recognised, with exactly its contents, if and only if every
      PARAMS record fits together with its padding. */
  lemma IncomingOfBytes(id: nat, role: nat, flags: byte, contents: seq<seq<byte>>, pads: Pads, next: seq<byte>)
    requires id < 0x10000 && 1 <= role <= 3 && forall i :: 0 <= i < |contents| ==> 0 < |contents[i]| <= MAX_LENGTH
    requires |pads.params| == |contents|
    ensures IncomingOf(RequestBytes(id, role, flags, contents, pads) + next)
         == if AllFit(contents, pads.params)
           then Some(Incoming(id, role, flags % 2 == 1, contents, pads.end + next)) else None
  {
    hide Padded, AllFit, ParamsOf;
    var body: seq<byte> := [0, role, flags, 0, 0, 0, 0, 0];
    var more := ParamsBytes(id, contents, pads.params, pads.end) + next;
    var s := RequestBytes(id, role, flags, contents, pads) + next;
    assert s == Padded(Record(BEGIN_REQUEST, id, body), pads.begin) + more;
    HeaderOf(Record(BEGIN_REQUEST, id, body), pads.begin, more);
    assert SkipStdin(s) == s;
    assert s[8] == s[8..16][0] == 0 && s[9] == s[8..16][1] == role && s[10] == s[8..16][2] == flags;
    ParamsOfBytes(id, contents, pads.params, pads.end, next);
  }

  ghost predicate MatchesAll(parts: seq<seq<Pair>>, batches: seq<seq<Item>>) {
    |parts| == |batches| && forall i :: 0 <= i < |batches| ==> Matches(parts[i], batches[i])
  }

  lemma {:induction false} ContentsAt(batches: seq<seq<Item>>)
    requires ValidBatches(batches)
    ensures |ContentsOf(batches)| == |batches|
    ensures forall i :: 0 <= i < |batches| ==> ContentsOf(batches)[i] == EncodeItems(batches[i])
    decreases |batches|
  {
    if batches != [] { ContentsAt(batches[1..]); }
  }

  /** `pairs` are hashed as if some byte followed `items` in memory. */
  ghost predicate HasLast(pairs: seq<Pair>, items: seq<Item>)
    requires ValidItems(items)
  {
    exists b: byte :: Hashed(pairs, Behind(items, b))
  }

  lemma YieldsItems(items: seq<Item>, pairs: seq<Pair>)
    requires ValidItems(items)
    ensures Decodable(EncodeItems(items)) <==> !Refused(items)
    ensures Yields(EncodeItems(items), pairs) ==>
              !Refused(items) && Matches(pairs, items) && HasLast(pairs, items)
  {
    var c := EncodeItems(items);
    assert (c + [0])[0..|c|] == c;
    DecodeEncoded(items, c + [0], 0, |c|);
    if Yields(c, pairs) {
      var mem: seq<byte> :| |mem| > |c| && mem[..|c|] == c && DecodePairs(mem, 0, |c|) == Parse(true, pairs);
      assert mem[0..|c|] == c;
      DecodeEncoded(items, mem, 0, |c|);
      HashedBehind(items, mem, 0, |c|);
    }
  }

  /** Which encoded requests are accepted. */
  lemma AcceptedBatches(batches: seq<seq<Item>>, inc: Option<Incoming>)
    requires ValidBatches(batches) && inc.Some? && inc.value.contents == ContentsOf(batches)
    ensures Acceptable(inc) <==> forall i :: 0 <= i < |batches| ==> !Refused(batches[i])
  {
    ContentsAt(batches);
    var contents := ContentsOf(batches);
    forall i | 0 <= i < |batches| ensures Decodable(contents[i]) <==> !Refused(batches[i]) {
      YieldsItems(batches[i], []);
    }
    forall i | 0 <= i < |batches| ensures contents[i] in contents {}
  }

  // ----- one request after another

  /** A request on the wire: the identifiers of empty STDIN records left over before it, its
      BEGIN_REQUEST fields, its pairs, record by record, and the padding of its records. */
  datatype Sent = Sent(blanks: seq<nat>, id: nat, role: nat, flags: byte, batches: seq<seq<Item>>, pads: Pads)

  ghost predicate ValidSent(r: Sent) {
    r.id < 0x10000 && 1 <= r.role <= 3 && ValidBatches(r.batches) && |r.pads.params| == |r.batches|
  }

  ghost function SentBytes(r: Sent): seq<byte>
    requires ValidSent(r)
  {
    ContentsAt(r.batches);
    BlankBytes(r.blanks) + RequestBytes(r.id, r.role, r.flags, ContentsOf(r.batches), r.pads)
  }

  ghost function BlankBytes(ids: seq<nat>): seq<byte> {
    if ids == [] then [] else Header(STDIN, ids[0], 0, 0) + BlankBytes(ids[1..])
  }

  /** No PARAMS record exceeds 65535 bytes together with its padding. */
  ghost predicate Fits(r: Sent)
    requires ValidSent(r)
  {
    ContentsAt(r.batches);
    AllFit(ContentsOf(r.batches), r.pads.params)
  }

  /** The records fit together with their padding, and none ends in the refused pair. */
  ghost predicate Servable(r: Sent)
    requires ValidSent(r)
  {
    Fits(r) && forall i :: 0 <= i < |r.batches| ==> !Refused(r.batches[i])
  }

  lemma {:induction false} BlanksSkipped(ids: seq<nat>, s: seq<byte>)
    ensures SkipStdin(BlankBytes(ids) + s) == SkipStdin(s)
  {
    hide Header, SkipStdin;
    if ids == [] {
      assert BlankBytes(ids) + s == s;
    } else {
      var h, more := Header(STDIN, ids[0], 0, 0), BlankBytes(ids[1..]);
      assert h + more + s == h + (more + s);
      BlankHeader(ids[0], more + s);
      BlanksSkipped(ids[1..], s);
    }
  }

  lemma BlankHeader(id: nat, t: seq<byte>)
    ensures SkipStdin(Header(STDIN, id, 0, 0) + t) == SkipStdin(t)
  {
    var h := Header(STDIN, id, 0, 0);
    assert h[0] == 1 && h[1] == STDIN && h[4] == 0 && h[5] == 0;
    hide Header, SkipStdin;
    SkipStep(h, t);
  }

  lemma IncomingOfSent(r: Sent, next: seq<byte>)
    requires ValidSent(r)
    ensures IncomingOf(SentBytes(r) + next)
         == if Fits(r)
           then Some(Incoming(r.id, r.role, r.flags % 2 == 1, ContentsOf(r.batches), r.pads.end + next)) else None
  {
    hide AllFit, RequestBytes, BeginOf;
    BatchSizes(r.batches);
    ContentsAt(r.batches);
    var s := RequestBytes(r.id, r.role, r.flags, ContentsOf(r.batches), r.pads);
    assert SentBytes(r) + next == BlankBytes(r.blanks) + (s + next);
    BlanksSkipped(r.blanks, s + next);
    IncomingOfBytes(r.id, r.role, r.flags, ContentsOf(r.batches), r.pads, next);
  }

  /** The pairs that were decoded for `r`: those sent, hashed by their names and the bytes behind these. */
  ghost predicate DecodedFor(r: Sent, parts: seq<seq<Pair>>, lasts: seq<byte>)
    requires ValidSent(r)
  {
    && MatchesAll(parts, r.batches) && |lasts| == |parts|
    && forall i :: 0 <= i < |parts| ==> Hashed(parts[i], Behind(r.batches[i], lasts[i]))
  }

  /** `env` is a list of the bindings of `m`, each key once. */
  ghost predicate Lists(env: seq<(Key, seq<byte>)>, m: map<Key, seq<byte>>) {
    && (forall k: Key, v :: (k, v) in env <==> k in m && m[k] == v)
    && (forall i, j :: 0 <= i < j < |env| ==> env[i].0 != env[j].0)
  }

  /** The next request of a connection, whatever was read before: it is accepted exactly when it is
      servable, and then the environment is FCGI_ROLE followed by its pairs alone, and the connection stands
      behind it if the record that ended it was not padded. At the end of the input there is none. */
  method ServeNext(req: Request, ghost sent: Option<Sent>, ghost next: seq<byte>)
    returns (ok: bool, env: seq<(Key, seq<byte>)>, ghost parts: seq<seq<Pair>>, ghost lasts: seq<byte>)
    requires req.Valid() && req.conn !in req.env.Repr() && (sent.Some? ==> ValidSent(sent.value))
    requires req.conn.input == if sent.Some? then SentBytes(sent.value) + next else []
    modifies req.Repr()
    ensures req.Valid() && req.conn !in req.env.Repr() && fresh(req.Repr() - old(req.Repr()))
    ensures ok <==> sent.Some? && Servable(sent.value)
    ensures ok ==> req.id == sent.value.id && req.conn.keep == (sent.value.flags % 2 == 1)
    ensures ok ==> req.conn.input == sent.value.pads.end + next
    ensures ok ==> ServedOne(sent.value, env, (parts, lasts))
    ensures ok ==> Distinct(req.env.entries) && AsMap(req.env.entries) == Environment(sent.value.role, parts)
  {
    hide Fits, Acceptable, RequestBytes, YieldsAll, SetAll, IncomingOf, AsMap, SentBytes, Hashed, Lists, Decodable,
      Env.Valid;
    env, lasts := [], [];
    ghost var s := req.conn.input;
    if sent.Some? {
      IncomingOfSent(sent.value, next);
      if IncomingOf(s).Some? { AcceptedBatches(sent.value.batches, IncomingOf(s)); }
    } else {
      NothingIncoming();
    }
    ghost var inc;
    ok, inc, parts := req.ReadRequest();
    if ok {
      lasts := PartsMatch(sent.value.batches, parts);
      env := req.env.Apply();
      Bindings(sent.value.role, parts, req.env.entries, env);
    }
  }

  lemma NothingIncoming()
    ensures IncomingOf([]) == None
  {
  }

  lemma Bindings(role: nat, parts: seq<seq<Pair>>, entries: seq<Entry>, env: seq<(Key, seq<byte>)>)
    requires 1 <= role <= 3 && entries == SetAll([Entry(RoleKey(), RoleName(role))], Concat(parts))
      && env == Visits(entries)
    ensures Lists(env, Environment(role, parts)) && Distinct(entries) && AsMap(entries) == Environment(role, parts)
  {
    RoleMap(role);
    SetAllRefines([Entry(RoleKey(), RoleName(role))], Concat(parts));
    VisitsMap(entries);
  }

  /** A single request on a new connection. */
  method Serve(ghost r: Sent, wire: seq<byte>)
    returns (ok: bool, env: seq<(Key, seq<byte>)>, ghost parts: seq<seq<Pair>>, ghost lasts: seq<byte>)
    requires ValidSent(r) && wire == SentBytes(r)
    ensures ok <==> Servable(r)
    ensures ok ==> DecodedFor(r, parts, lasts) && Lists(env, Environment(r.role, parts))
  {
    hide SentBytes, Servable, DecodedFor, Lists, Environment;
    var req := new Request(wire);
    assert wire + [] == wire;
    ok, env, parts, lasts := ServeNext(req, Some(r), []);
  }

  ghost predicate AllValid(rs: seq<Sent>) {
    forall i :: 0 <= i < |rs| ==> ValidSent(rs[i])
  }

  ghost function SessionBytes(rs: seq<Sent>): seq<byte>
    requires AllValid(rs)
  {
    if rs == [] then [] else SentBytes(rs[0]) + SessionBytes(rs[1..])
  }

  /** `env` is what `r` asks for: FCGI_ROLE and the pairs of `r`, decoded as `d`. */
  ghost predicate ServedOne(r: Sent, env: seq<(Key, seq<byte>)>, d: (seq<seq<Pair>>, seq<byte>))
    requires ValidSent(r)
  {
    Servable(r) && DecodedFor(r, d.0, d.1) && Lists(env, Environment(r.role, d.0))
  }

  /** The first requests of `rs` have been served. */
  ghost predicate ServedFirst(rs: seq<Sent>, envs: seq<seq<(Key, seq<byte>)>>,
                              decoded: seq<(seq<seq<Pair>>, seq<byte>)>)
    requires AllValid(rs)
  {
    |envs| == |decoded| <= |rs| && forall i :: 0 <= i < |envs| ==> ServedOne(rs[i], envs[i], decoded[i])
  }

  lemma ServedCount(rs: seq<Sent>, envs: seq<seq<(Key, seq<byte>)>>, decoded: seq<(seq<seq<Pair>>, seq<byte>)>)
    requires AllValid(rs) && ServedFirst(rs, envs, decoded)
    ensures |envs| == |decoded| <= |rs|
  {
  }

  lemma ServedMore(rs: seq<Sent>, envs: seq<seq<(Key, seq<byte>)>>, decoded: seq<(seq<seq<Pair>>, seq<byte>)>,
                   env: seq<(Key, seq<byte>)>, d: (seq<seq<Pair>>, seq<byte>))
    requires AllValid(rs) && ServedFirst(rs, envs, decoded) && |envs| < |rs| && ServedOne(rs[|envs|], env, d)
    ensures ServedFirst(rs, envs + [env], decoded + [d])
  {
    hide ServedOne;
    var envs', decoded' := envs + [env], decoded + [d];
    forall i | 0 <= i < |envs'| ensures ServedOne(rs[i], envs'[i], decoded'[i]) {
      if i < |envs| { assert envs'[i] == envs[i] && decoded'[i] == decoded[i]; }
    }
  }

  /** Requests one after another on a connection that is kept, none ended by a padded record, with
      left-over empty STDIN records between them: all are served up to the first that is refused, each
      with an environment of its own. */
  method ServeMany(ghost rs: seq<Sent>, wire: seq<byte>)
    returns (envs: seq<seq<(Key, seq<byte>)>>, ghost decoded: seq<(seq<seq<Pair>>, seq<byte>)>)
    requires AllValid(rs) && wire == SessionBytes(rs)
    requires forall i :: 0 <= i < |rs| ==> rs[i].pads.end == [] && (i < |rs| - 1 ==> rs[i].flags % 2 == 1)
    ensures ServedFirst(rs, envs, decoded)
    ensures |envs| < |rs| ==> !Servable(rs[|envs|])
  {
    hide SentBytes, ServedOne, ServedFirst, SessionBytes, Servable, ValidSent, Request.Valid, Env.Valid, RequestBytes;
    ServedNone(rs);
    var req := new Request(wire);
    envs, decoded := [], [];
    assert rs[0..] == rs;
    ghost var n := 0;
    var more := true;
    while more
      invariant |envs| == n <= |rs| && AllValid(rs[n..]) && ServedFirst(rs, envs, decoded)
      invariant req.Valid() && req.conn !in req.env.Repr() && fresh(req.Repr())
      invariant more ==> req.conn.input == SessionBytes(rs[n..])
      invariant !more && n < |rs| ==> !Servable(rs[n])
      decreases more, |rs| - n
    {
      var ok;
      ok, more, envs, decoded := ServeRound(req, rs, envs, decoded);
      if ok { n := n + 1; }
      SessionStep(rs, n);
    }
  }

  lemma ServedNone(rs: seq<Sent>)
    requires AllValid(rs)
    ensures ServedFirst(rs, [], [])
  {
  }

  /** One request of the connection; it goes on while requests are accepted and ask to keep it. */
  method ServeRound(req: Request, ghost rs: seq<Sent>, envs: seq<seq<(Key, seq<byte>)>>,
                    ghost decoded: seq<(seq<seq<Pair>>, seq<byte>)>)
    returns (ok: bool, more: bool, envs': seq<seq<(Key, seq<byte>)>>, ghost decoded': seq<(seq<seq<Pair>>, seq<byte>)>)
    requires AllValid(rs) && ServedFirst(rs, envs, decoded)
    requires forall i :: 0 <= i < |rs| ==> rs[i].pads.end == [] && (i < |rs| - 1 ==> rs[i].flags % 2 == 1)
    requires req.Valid() && req.conn !in req.env.Repr() && req.conn.input == SessionBytes(rs[|envs|..])
    modifies req.Repr()
    ensures req.Valid() && req.conn !in req.env.Repr() && fresh(req.Repr() - old(req.Repr()))
    ensures |envs'| == (if ok then |envs| + 1 else |envs|) <= |rs| && ServedFirst(rs, envs', decoded')
    ensures more ==> ok && req.conn.input == SessionBytes(rs[|envs'|..])
    ensures !more && |envs'| < |rs| ==> !Servable(rs[|envs'|])
  {
    hide *;
    ghost var n := |envs|;
    ServedCount(rs, envs, decoded);
    SessionStep(rs, n);
    ghost var sent, next := if n < |rs| then Some(rs[n]) else None, SessionBytes(if n < |rs| then rs[n + 1..] else []);
    ghost var parts, lasts;
    var env;
    ok, env, parts, lasts := ServeNext(req, sent, next);
    more, envs', decoded' := false, envs, decoded;
    if ok {
      ServedMore(rs, envs, decoded, env, (parts, lasts));
      envs', decoded' := envs + [env], decoded + [(parts, lasts)];
      assert [] + next == next;
      more := req.conn.keep;
    }
  }

  lemma SessionStep(rs: seq<Sent>, n: nat)
    requires AllValid(rs) && n <= |rs|
    ensures AllValid(rs[n..]) && (n < |rs| ==> AllValid(rs[n + 1..]) && ValidSent(rs[n])) && AllValid([])
      && SessionBytes([]) == []
    ensures SessionBytes(rs[n..]) == if n < |rs| then SentBytes(rs[n]) + SessionBytes(rs[n + 1..]) else []
  {
    if n < |rs| { assert rs[n..][1..] == rs[n + 1..]; }
  }

  lemma BatchSizes(batches: seq<seq<Item>>)
    requires ValidBatches(batches)
    ensures forall i :: 0 <= i < |ContentsOf(batches)| ==> 0 < |ContentsOf(batches)[i]| <= MAX_LENGTH
  {
    ContentsAt(batches);
  }

  lemma PartsMatch(batches: seq<seq<Item>>, parts: seq<seq<Pair>>) returns (lasts: seq<byte>)
    requires ValidBatches(batches) && YieldsAll(ContentsOf(batches), parts)
    ensures MatchesAll(parts, batches) && |lasts| == |parts|
    ensures forall i :: 0 <= i < |batches| ==> !Refused(batches[i]) && Hashed(parts[i], Behind(batches[i], lasts[i]))
  {
    hide Hashed, Yields;
    ContentsAt(batches);
    forall i | 0 <= i < |batches|
      ensures Matches(parts[i], batches[i]) && !Refused(batches[i]) && HasLast(parts[i], batches[i])
    {
      assert Yields(ContentsOf(batches)[i], parts[i]);
      YieldsItems(batches[i], parts[i]);
    }
    lasts := seq(|parts|, i requires 0 <= i < |parts| => LastByte(parts[i], batches[i]));
    forall i | 0 <= i < |batches| ensures Hashed(parts[i], Behind(batches[i], lasts[i])) {
      assert HasLast(parts[i], batches[i]);
    }
  }

  /** The byte that followed the pairs in memory. */
  ghost function LastByte(pairs: seq<Pair>, items: seq<Item>): byte
    requires ValidItems(items)
  {
    if b: byte :| Hashed(pairs, Behind(items, b)) then b else 0
  }

  lemma RoleMap(role: nat)
    requires 1 <= role <= 3
    ensures Distinct([Entry(RoleKey(), RoleName(role))])
    ensures AsMap([Entry(RoleKey(), RoleName(role))]) == map[RoleKey() := RoleName(role).value]
  {
    var es := [Entry(RoleKey(), RoleName(role))];
    assert LiveKey(es, 0, RoleKey());
    FindUnique(es, RoleKey(), 0);
    forall k: Key ensures k in AsMap(es) <==> k == RoleKey() {
      InMap(es, k);
    }
    InMap(es, RoleKey());
  }

  /** FCGI_ROLE, then all pairs from left to right. */
  function Environment(role: nat, parts: seq<seq<Pair>>): map<Key, seq<byte>>
    requires 1 <= role <= 3
  {
    PutAll(map[RoleKey() := RoleName(role).value], Concat(parts))
  }
}
