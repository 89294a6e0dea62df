/** FastCGI records (section 3.3 of the FastCGI Specification 1.0): the bytes of a record, a
    reference decoder, and the byte stream each record type carries. */
module FcgiRecord {
  import opened Common

  type byte = b: int | 0 <= b < 256

  const NULL := -1  // an offset or index that is not there

  const BEGIN_REQUEST: byte := 1
  const END_REQUEST: byte := 3
  const PARAMS: byte := 4
  const STDIN: byte := 5
  const GET_VALUES: byte := 9
  const HEADER_LEN := 8
  const MAX_LENGTH := 0xffff

  datatype Record = Record(kind: byte, id: nat, content: seq<byte>)

  ghost predicate ValidRecord(r: Record) {
    r.id < 0x10000 && |r.content| <= MAX_LENGTH
  }

  ghost predicate ValidRecords(rs: seq<Record>) {
    forall i :: 0 <= i < |rs| ==> ValidRecord(rs[i])
  }

  /** Two header bytes, high byte first. */
  function Word(hi: byte, lo: byte): (w: nat)
    ensures w < 0x10000
  {
    (hi as int) * 256 + (lo as int)
  }

  /** Padding up to the next multiple of eight. */
  function Pad(len: nat): (pad: nat)
    ensures pad < 8 && (len + pad) % 8 == 0
  {
    (len + 7) / 8 * 8 - len
  }

  function Zeros(n: nat): (s: seq<byte>)
    ensures |s| == n && forall k :: 0 <= k < n ==> s[k] == 0
  {
    seq(n, _ => 0)
  }

  function Header(kind: byte, id: nat, len: nat, pad: byte): (h: seq<byte>)
    ensures |h| == HEADER_LEN
  {
    [1, kind, id / 256 % 256, id % 256, len / 256 % 256, len % 256, pad, 0]
  }

  /** What may follow the content of a record: up to 255 bytes of any value. */
  type Padding = p: seq<byte> | |p| < 256

  /** A record with any padding, as a peer may send it. */
  function Padded(r: Record, padding: Padding): seq<byte> {
    Header(r.kind, r.id, |r.content|, |padding|) + r.content + padding
  }

  function PaddedAll(rs: seq<Record>, pads: seq<Padding>): seq<byte>
    requires |pads| == |rs|
  {
    if rs == [] then [] else Padded(rs[0], pads[0]) + PaddedAll(rs[1..], pads[1..])
  }

  /** A record padded with zeros to a multiple of eight bytes, as the writer emits it. */
  ghost function Encode(r: Record): seq<byte> {
    Header(r.kind, r.id, |r.content|, Pad(|r.content|)) + r.content + Zeros(Pad(|r.content|))
  }

  ghost function EncodeAll(rs: seq<Record>): seq<byte> {
    if rs == [] then [] else Encode(rs[0]) + EncodeAll(rs[1..])
  }

  /** Reference decoder: any padding length is skipped. */
  function Decode(s: seq<byte>): Option<seq<Record>> {
    if s == [] then Some([])
    else if |s| < HEADER_LEN || s[0] != 1 then None
    else
      var len := Word(s[4], s[5]);
      var next := HEADER_LEN + len + s[6];
      if |s| < next then None
      else
        var rest := Decode(s[next..]);
        if rest.None? then None
        else Some([Record(s[1], Word(s[2], s[3]), s[HEADER_LEN..HEADER_LEN + len])] + rest.value)
  }

  /** The bytes carried by the records of one type. */
  function StreamOf(kind: byte, rs: seq<Record>): seq<byte> {
    if rs == [] then []
    else (if rs[0].kind == kind then rs[0].content else []) + StreamOf(kind, rs[1..])
  }

  function Empties(rs: seq<Record>): int {
    if rs == [] then 0
    else (if rs[0].content == [] then 1 else 0) + Empties(rs[1..])
  }

  // ----- round trip

  lemma {:induction false} DecodeEncodeOne(r: Record, s: seq<byte>)
    requires ValidRecord(r) && Decode(s).Some?
    ensures Decode(Encode(r) + s) == Some([r] + Decode(s).value)
  {
    var e, pad := Encode(r), Pad(|r.content|);
    var len := |r.content|;
    var t := e + s;
    assert t[..HEADER_LEN] == Header(r.kind, r.id, len, pad);
    assert t[0] == 1 && t[1] == r.kind && t[2] == r.id / 256 && t[3] == r.id % 256;
    assert t[4] == len / 256 && t[5] == len % 256 && t[6] == pad;
    assert HEADER_LEN + len + pad == |e| && t[|e|..] == s;
    assert t[HEADER_LEN..HEADER_LEN + len] == r.content;
  }

  /** Decoding what was encoded gives the records back. */
  lemma {:induction false} DecodeEncodeAll(rs: seq<Record>)
    requires ValidRecords(rs)
    ensures Decode(EncodeAll(rs)) == Some(rs)
  {
    if rs != [] {
      DecodeEncodeAll(rs[1..]);
      DecodeEncodeOne(rs[0], EncodeAll(rs[1..]));
      assert rs == [rs[0]] + rs[1..];
    }
  }

  /** Encoding is padding with zeros to multiples of eight. */
  lemma {:induction false} EncodeIsPadded(rs: seq<Record>) returns (pads: seq<Padding>)
    ensures |pads| == |rs| && EncodeAll(rs) == PaddedAll(rs, pads)
  {
    if rs == [] {
      return [];
    }
    var more := EncodeIsPadded(rs[1..]);
    pads := [Zeros(Pad(|rs[0].content|))] + more;
    assert pads[1..] == more;
  }

  /** The bytes of an encoded record, one by one: the header of section 3.3 of the FastCGI Specification
      1.0, the content, and zeros up to the next multiple of eight. */
  lemma EncodedBytes(r: Record)
    requires ValidRecord(r)
    ensures var e, len := Encode(r), |r.content|; var pad := (8 - len % 8) % 8;
            && |e| == 8 + len + pad && e[..8] == [1, r.kind, r.id / 256, r.id % 256, len / 256, len % 256, pad, 0]
            && e[8..8 + len] == r.content && forall k :: 8 + len <= k < |e| ==> e[k] == 0
  {
    var e, len := Encode(r), |r.content|;
    assert Pad(len) == (8 - len % 8) % 8;
    assert e[..8] == Header(r.kind, r.id, len, Pad(len));
  }

  /** `wire` ends in the record that ends request `id`: type 3, 8 bytes of content, no padding, and
      status zero. */
  ghost predicate Ended(wire: seq<byte>, id: nat) {
    && id < 0x10000 && |wire| >= 16
    && wire[|wire| - 16..|wire| - 3] == [1, 3, id / 256, id % 256, 0, 8, 0, 0, 0, 0, 0, 0, 0]
  }

  lemma EndBytes(wire: seq<byte>, r: Record)
    requires ValidRecord(r) && r.kind == END_REQUEST && |r.content| == 8 && r.content[..5] == Zeros(5)
    ensures Ended(wire + Encode(r), r.id)
  {
    EncodedBytes(r);
    hide Encode;
    var e, w := Encode(r), wire + Encode(r);
    assert w[|w| - 16..] == e && e[8..16] == r.content;
    assert r.content[..5] == [0, 0, 0, 0, 0];
    assert e[..13] == e[..8] + e[8..16][..5];
    assert w[|w| - 16..|w| - 3] == e[..13];
  }

  // ----- appending a record

  lemma {:induction false} EncodeAppend(rs: seq<Record>, r: Record)
    ensures EncodeAll(rs + [r]) == EncodeAll(rs) + Encode(r)
  {
    if rs == [] {
      assert rs + [r] == [r];
      assert EncodeAll([r]) == Encode(r) + EncodeAll([r][1..]);
    } else {
      assert (rs + [r])[1..] == rs[1..] + [r];
      EncodeAppend(rs[1..], r);
    }
  }

  lemma {:induction false} StreamAppend(kind: byte, rs: seq<Record>, r: Record)
    ensures StreamOf(kind, rs + [r]) == StreamOf(kind, rs) + (if r.kind == kind then r.content else [])
    ensures Empties(rs + [r]) == Empties(rs) + (if r.content == [] then 1 else 0)
  {
    if rs == [] {
      assert rs + [r] == [r];
      assert StreamOf(kind, [r]) == (if r.kind == kind then r.content else []) + StreamOf(kind, [r][1..]);
    } else {
      assert (rs + [r])[1..] == rs[1..] + [r];
      StreamAppend(kind, rs[1..], r);
    }
  }

  // ----- what a sequence of writes adds

  /** From `rs` to `rs'` exactly the bytes `str` of type `kind` were added, and `e` empty records. */
  ghost predicate Wrote(rs: seq<Record>, rs': seq<Record>, kind: byte, str: seq<byte>, e: int) {
    && (forall t: byte :: StreamOf(t, rs') == StreamOf(t, rs) + (if t == kind then str else []))
    && Empties(rs') == Empties(rs) + e
  }

  lemma WroteNothing(rs: seq<Record>, kind: byte)
    ensures Wrote(rs, rs, kind, [], 0)
  {
  }

  lemma WroteTrans(r0: seq<Record>, r1: seq<Record>, r2: seq<Record>, kind: byte, s: seq<byte>, s': seq<byte>,
                   e: int, e': int)
    requires Wrote(r0, r1, kind, s, e) && Wrote(r1, r2, kind, s', e')
    ensures Wrote(r0, r2, kind, s + s', e + e')
  {
    forall t: byte ensures StreamOf(t, r2) == StreamOf(t, r0) + (if t == kind then s + s' else []) {
      assert StreamOf(t, r1) == StreamOf(t, r0) + (if t == kind then s else []);
    }
  }

  lemma WroteOpen(rs: seq<Record>, kind: byte, id: nat)
    ensures Wrote(rs, rs + [Record(kind, id, [])], kind, [], 1)
  {
    forall t: byte ensures StreamOf(t, rs + [Record(kind, id, [])]) == StreamOf(t, rs) {
      StreamAppend(t, rs, Record(kind, id, []));
    }
    StreamAppend(0, rs, Record(kind, id, []));
  }

  lemma WroteGrow(rs: seq<Record>, kind: byte, id: nat, content: seq<byte>, str: seq<byte>)
    requires str != []
    ensures Wrote(rs + [Record(kind, id, content)], rs + [Record(kind, id, content + str)], kind, str,
                  if content == [] then -1 else 0)
  {
    var r, r' := Record(kind, id, content), Record(kind, id, content + str);
    forall t: byte ensures StreamOf(t, rs + [r']) == StreamOf(t, rs + [r]) + (if t == kind then str else []) {
      StreamAppend(t, rs, r);
      StreamAppend(t, rs, r');
    }
    StreamAppend(0, rs, r);
    StreamAppend(0, rs, r');
  }

  lemma WroteWhole(rs: seq<Record>, r: Record)
    requires r.content != []
    ensures Wrote(rs, rs + [r], r.kind, r.content, 0)
  {
    forall t: byte ensures StreamOf(t, rs + [r]) == StreamOf(t, rs) + (if t == r.kind then r.content else []) {
      StreamAppend(t, rs, r);
    }
    StreamAppend(0, rs, r);
  }
}
