/** The deframer `fcgi_read`, and the journey of a byte stream from the writer to the reader. */
module FcgiReader {
  import opened Common
  import opened FcgiRecord
  import opened FcgiWriter

  /** The transport seen from the reader: what the peer has sent and what is still unread. */
  class Reader {
    var input: seq<byte>
    var inLen: nat   // content bytes of the current record still unread
    var inPad: nat   // its padding
    var keep: bool

    constructor (input: seq<byte>)
      ensures this.input == input && inLen == 0 && keep
    {
      this.input, inLen, inPad, keep := input, 0, 0, true;
    }

    /** `safe_read`: `count` bytes, or fewer at the end of the input. */
    method SafeRead(count: nat) returns (data: seq<byte>)
      modifies this`input
      ensures data + input == old(input) && |data| == if count <= old(|input|) then count else old(|input|)
    {
      var n := if count <= |input| then count else |input|;
      data, input := input[..n], input[n..];
    }

    ghost function View(): Reading
      reads this
    {
      Reading(input, inLen, inPad, keep)
    }

    /** The stream still to be delivered, and what follows its terminating record on the wire. */
    ghost function Pending(): Option<(seq<byte>, seq<byte>)>
      reads this
    {
      PendingOf(View())
    }

    /** Read the next record header. */
    method ReadHeader() returns (ok: bool)
      requires inLen == 0
      modifies this
      ensures ok == old(Framed(input)) && View() == Headed(old(View()))
    {
      ghost var s := input;
      var hdr := SafeRead(HEADER_LEN);
      ok := |hdr| == HEADER_LEN && hdr[0] >= 1 && hdr[1] == STDIN;
      assert |s| >= HEADER_LEN ==> input == s[HEADER_LEN..] && forall k :: 0 <= k < HEADER_LEN ==> s[k] == hdr[k];
      if !ok {
        keep := false;
        return;
      }
      inLen, inPad := Word(hdr[4], hdr[5]), hdr[6];
    }

    /** Deliver up to `n` bytes of the current record and skip its padding at its end. */
    method Take(n: nat) returns (data: seq<byte>, ok: bool)
      requires 0 < n <= inLen
      modifies this
      ensures (data, ok, View()) == Taken(old(View()), n)
    {
      ghost var s := input;
      data := SafeRead(n);
      assert data == s[..|data|] && input == s[|data|..];
      inLen, ok := inLen - |data|, true;
      if |data| > 0 && inLen == 0 && inPad > 0 {
        ghost var t := input;
        var padding := SafeRead(inPad);
        assert input == t[|padding|..];
        ok := |padding| == inPad;
        if !ok { keep := false; }
      }
    }

    /** `fcgi_read`, on any input; on a well-formed stream it delivers exactly the next `len` bytes, or
        all that are left. */
    method Read(len: nat) returns (ret: nat, str: seq<byte>)
      modifies this
      ensures (ret, str, View()) == ReadFrom(old(View()), len, [])
      ensures old(Pending()).Some? ==>
        Delivers(old(Pending()).value.0, old(Pending()).value.1, len, [], (ret, str, View()))
      ensures var t := old(View()); TakesArrived(t, ArrivedAt(t).0, ArrivedAt(t).1, len, [], (ret, str, View()))
    {
      hide Delivers, Headed, Taken, PendingOf, ReadFrom, TakesArrived, ArrivedAt;
      ret, str := 0, [];
      var rest := len;
      ghost var t := View();
      ReadsArrived(t, len, []);
      if PendingOf(t).Some? { ReadsPending(t, len, []); }
      while rest > 0
        invariant rest >= 0 && ret == |str| && ReadFrom(View(), rest, str) == ReadFrom(t, len, [])
        decreases rest, inLen == 0
      {
        Unroll(View(), rest, str);
        if inLen == 0 {
          var ok := ReadHeader();
          if !ok {
            return 0, str;
          }
          if inLen == 0 {
            return ret, str;
          }
          Unroll(View(), rest, str);
        }
        var data, ok := Take(if inLen >= rest then rest else inLen);
        if |data| == 0 {
          return ret, str;
        }
        rest, ret, str := rest - |data|, ret + |data|, str + data;
        if !ok {
          return |data|, str;
        }
        if inLen > 0 {
          return ret, str;
        }
      }
      Unroll(View(), rest, str);
    }
  }

  // ----- any input

  /** What the reader has before it: the unread input and where it stands in the current record. */
  datatype Reading = Reading(input: seq<byte>, inLen: nat, inPad: nat, keep: bool)

  /** After reading a header; one that cannot be read costs the connection. */
  function Headed(t: Reading): Reading {
    var rest := if |t.input| >= HEADER_LEN then t.input[HEADER_LEN..] else [];
    if Framed(t.input) then t.(input := rest, inLen := Word(t.input[4], t.input[5]), inPad := t.input[6])
    else t.(input := rest, keep := false)
  }

  /** Up to `n` bytes of the current record, whether its padding was there when it ended, and what is
      left. */
  function Taken(t: Reading, n: nat): (r: (seq<byte>, bool, Reading))
    requires n <= t.inLen
    ensures |r.0| <= n && r.2.inLen == t.inLen - |r.0|
  {
    var m := if n <= |t.input| then n else |t.input|;
    var t' := t.(input := t.input[m..], inLen := t.inLen - m);
    if m == 0 || t'.inLen > 0 then (t.input[..m], true, t')
    else if |t'.input| < t.inPad then (t.input[..m], false, t'.(input := [], keep := false))
    else (t.input[..m], true, t'.(input := t'.input[t.inPad..]))
  }

  /** One header, or one piece of a record: the call ends, or goes on. */
  datatype Progress =
    | Stop(ret: nat, str: seq<byte>, end: Reading)
    | More(next: Reading, rest: nat, got: seq<byte>)

  function Advance(t: Reading, rest: nat, got: seq<byte>): (p: Progress)
    ensures p.More? ==> p.rest < rest || (p.rest == rest && t.inLen == 0 && p.next.inLen > 0)
  {
    if rest == 0 then Stop(|got|, got, t)
    else if t.inLen == 0 then
      var h := Headed(t);
      if !Framed(t.input) then Stop(0, got, h)
      else if h.inLen == 0 then Stop(|got|, got, h)
      else More(h, rest, got)
    else
      var (data, ok, t') := Taken(t, if t.inLen >= rest then rest else t.inLen);
      if data == [] then Stop(|got|, got, t')
      else if !ok then Stop(|data|, got + data, t')
      else if t'.inLen > 0 then Stop(|got + data|, got + data, t')
      else More(t', rest - |data|, got + data)
  }

  /** A call that still has `rest` bytes to deliver after `got`, on any input: its result, the bytes it
      delivered, and what is left. */
  function ReadFrom(t: Reading, rest: nat, got: seq<byte>): (nat, seq<byte>, Reading)
    decreases rest, t.inLen == 0
  {
    match Advance(t, rest, got)
    case Stop(ret, str, end) => (ret, str, end)
    case More(next, rest', got') => ReadFrom(next, rest', got')
  }

  lemma Unroll(t: Reading, rest: nat, got: seq<byte>)
    ensures match Advance(t, rest, got)
            case Stop(ret, str, end) => ReadFrom(t, rest, got) == (ret, str, end)
            case More(next, rest', got') => ReadFrom(t, rest, got) == ReadFrom(next, rest', got')
  {
  }

  lemma ReadsNothing(t: Reading, len: nat)
    requires t.inLen == 0 && t.input == []
    ensures var (ret, str, t') := ReadFrom(t, len, []); str == [] && t'.input == [] && t'.inLen == 0
  {
    hide ReadFrom;
    Unroll(t, len, []);
  }

  /** The stream still to be delivered, and what follows its terminating record on the wire. */
  function PendingOf(t: Reading): Option<(seq<byte>, seq<byte>)> {
    if t.inLen == 0 then Payload(t.input)
    else if |t.input| < t.inLen + t.inPad then None
    else Prepend(t.input[..t.inLen], Payload(t.input[t.inLen + t.inPad..]))
  }

  /** The outcome `r` of a call that had `rest` bytes to deliver after `got` from a stream with `p` still
      to come and `next` behind its end. */
  ghost predicate Delivers(p: seq<byte>, next: seq<byte>, rest: nat, got: seq<byte>, r: (nat, seq<byte>, Reading)) {
    var n := if rest <= |p| then rest else |p|;
    && r.1 == got + p[..n] && r.0 == |r.1|
    && (rest <= |p| ==> PendingOf(r.2) == Some((p[n..], next)))
    && (rest > |p| ==> r.2.input == next && r.2.inLen == 0)
  }

  lemma DeliversMore(p: seq<byte>, q: seq<byte>, data: seq<byte>, next: seq<byte>, rest: nat, got: seq<byte>,
                     r: (nat, seq<byte>, Reading))
    requires p == data + q && |data| <= rest && Delivers(q, next, rest - |data|, got + data, r)
    ensures Delivers(p, next, rest, got, r)
  {
    hide PendingOf;
    var m := if rest - |data| <= |q| then rest - |data| else |q|;
    assert p[..|data| + m] == data + q[..m] && p[|data| + m..] == q[m..];
    assert got + data + q[..m] == got + (data + q[..m]);
  }

  lemma DeliversEnough(p: seq<byte>, data: seq<byte>, next: seq<byte>, got: seq<byte>, t: Reading)
    requires data <= p && PendingOf(t) == Some((p[|data|..], next))
    ensures Delivers(p, next, |data|, got, (|got + data|, got + data, t))
  {
  }

  /** On a well-formed stream a call delivers the next bytes, and all of them when they do not suffice. */
  lemma {:induction false} ReadsPending(t: Reading, rest: nat, got: seq<byte>)
    requires PendingOf(t).Some?
    ensures Delivers(PendingOf(t).value.0, PendingOf(t).value.1, rest, got, ReadFrom(t, rest, got))
    decreases rest, t.inLen == 0
  {
    hide ReadFrom, Payload, PendingOf, Headed, Taken;
    Unroll(t, rest, got);
    var (p, next) := PendingOf(t).value;
    if rest == 0 {
      assert p[0..] == p && got + [] == got;
      DeliversEnough(p, [], next, got, t);
    } else if t.inLen == 0 {
      PendingAfterHeader(t);
      if Headed(t).inLen > 0 {
        hide Delivers;
        ReadsPending(Headed(t), rest, got);
      } else {
        assert got + [] == got;
      }
    } else {
      hide Delivers;
      var k := if t.inLen >= rest then rest else t.inLen;
      var (data, ok, t') := Taken(t, k);
      PendingAfterPiece(t, k);
      if t'.inLen == 0 {
        ReadsPending(t', rest - k, got + data);
        DeliversMore(p, PendingOf(t').value.0, data, next, rest, got, ReadFrom(t', rest - k, got + data));
      } else {
        assert p[|data|..] == PendingOf(t').value.0;
        DeliversEnough(p, data, next, got, t');
      }
    }
  }

  lemma PendingAfterHeader(t: Reading)
    requires t.inLen == 0 && PendingOf(t).Some?
    ensures Framed(t.input)
    ensures if Headed(t).inLen > 0 then PendingOf(Headed(t)) == PendingOf(t)
      else PendingOf(t) == Some(([], Headed(t).input))
  {
    var s, h := t.input, Headed(t);
    if h.inLen > 0 {
      assert h.input[..h.inLen] == s[HEADER_LEN..HEADER_LEN + h.inLen];
      assert h.input[h.inLen + h.inPad..] == s[HEADER_LEN + h.inLen + h.inPad..];
    }
  }

  lemma PendingAfterPiece(t: Reading, k: nat)
    requires 0 < k <= t.inLen && PendingOf(t).Some?
    ensures var (data, ok, t') := Taken(t, k);
            && ok && |data| == k && PendingOf(t').Some? && PendingOf(t').value.1 == PendingOf(t).value.1
            && PendingOf(t).value.0 == data + PendingOf(t').value.0
  {
    hide Payload;
    var s, more := t.input, Payload(t.input[t.inLen + t.inPad..]);
    var t' := Taken(t, k).2;
    if k == t.inLen {
      assert s[k..][t.inPad..] == s[t.inLen + t.inPad..];
    } else {
      assert t'.input[t'.inLen + t.inPad..] == s[t.inLen + t.inPad..];
      assert s[..t.inLen] == s[..k] + t'.input[..t'.inLen];
      assert s[..k] + t'.input[..t'.inLen] + more.value.0 == s[..k] + (t'.input[..t'.inLen] + more.value.0);
    }
  }

  /** Where the reader stands when the current record and its padding are through. */
  function Passed(t: Reading): Reading
    requires t.inLen + t.inPad <= |t.input|
  {
    t.(input := t.input[t.inLen + t.inPad..], inLen := 0)
  }

  /** A record that is delivered to its end, with or without its padding. */
  lemma WholePiece(t: Reading, rest: nat, got: seq<byte>)
    requires 0 < t.inLen <= rest && t.inLen <= |t.input|
    ensures var str := got + t.input[..t.inLen];
            if |t.input| < t.inLen + t.inPad
            then ReadFrom(t, rest, got) == (t.inLen, str, t.(input := [], inLen := 0, keep := false))
            else ReadFrom(t, rest, got) == ReadFrom(Passed(t), rest - t.inLen, str)
  {
    hide ReadFrom;
    Unroll(t, rest, got);
    if |t.input| >= t.inLen + t.inPad {
      assert t.input[t.inLen..][t.inPad..] == t.input[t.inLen + t.inPad..];
    }
  }

  /** A record that is not delivered to its end ends the call. */
  lemma LastPiece(t: Reading, rest: nat, got: seq<byte>)
    requires 0 < t.inLen && rest > 0 && (t.inLen > rest || t.inLen > |t.input|)
    ensures var (ret, str, _) := ReadFrom(t, rest, got); got <= str && ret == |str| <= |got| + rest
  {
    hide ReadFrom;
    Unroll(t, rest, got);
  }

  // ----- what is there

  /** How the content that has arrived ends: at a header that cannot be read, or that of an empty record,
      with what follows; within a record; or within the padding of a record that had `last` bytes. */
  datatype Ending =
    | Unreadable(left: seq<byte>)
    | EndOfStream(left: seq<byte>)
    | CutShort
    | PaddingCutShort(last: nat)

  /** The content bytes at the front of `s`, which starts with a record header, and how they end: those of
      the records of type 5 one after another, including a record of which only a part is there. */
  function Arrived(s: seq<byte>): (r: (seq<byte>, Ending))
    ensures r.1.PaddingCutShort? ==> r.0 != []
    decreases |s|, 0
  {
    if |s| < 8 then ([], Unreadable([]))
    else if s[0] == 0 || s[1] != 5 then ([], Unreadable(s[8..]))
    else
      var len := 256 * (s[4] as int) + s[5];
      if len == 0 then ([], EndOfStream(s[8..]))
      else ArrivedIn(s[8..], len, s[6])
  }

  /** The same within a record of which `len` bytes and its padding are still to come. */
  function ArrivedIn(s: seq<byte>, len: nat, pad: nat): (r: (seq<byte>, Ending))
    requires len > 0
    ensures r.1.PaddingCutShort? ==> r.0 != []
    decreases |s|, 1
  {
    if |s| < len then (s, CutShort)
    else if |s| < len + pad then (s[..len], PaddingCutShort(len))
    else
      var (more, end) := Arrived(s[len + pad..]);
      (s[..len] + more, end)
  }

  function ArrivedAt(t: Reading): (seq<byte>, Ending) {
    if t.inLen == 0 then Arrived(t.input) else ArrivedIn(t.input, t.inLen, t.inPad)
  }

  /** The outcome `r` of a call that had `rest` bytes to deliver after `got`, with `p` there and ending in
      `end`: the bytes that are there, in order, up to the number asked for, and what is left. */
  ghost predicate TakesArrived(t: Reading, p: seq<byte>, end: Ending, rest: nat, got: seq<byte>,
                               r: (nat, seq<byte>, Reading)) {
    var (ret, str, t') := r;
    if rest < |p| || rest == 0 || (rest == |p| && !end.PaddingCutShort?) then
      && str == got + p[..rest] && ret == |str| && ArrivedAt(t').0 == p[rest..] && t'.keep == t.keep
      && (ArrivedAt(t').1 == end || (ArrivedAt(t').1.PaddingCutShort? && end.PaddingCutShort?))
    else
      && str == got + p
      && match end
         case Unreadable(left) => ret == 0 && t'.input == left && t'.inLen == 0 && !t'.keep
         case EndOfStream(left) => ret == |str| && t'.input == left && t'.inLen == 0 && t'.keep == t.keep
         case CutShort => ret == |str| && t'.input == [] && t'.inLen > 0 && t'.keep == t.keep
         case PaddingCutShort(last) => ret == last && t'.input == [] && t'.inLen == 0 && !t'.keep
  }

  lemma HeaderBytes(s: seq<byte>)
    ensures Framed(s) <==> |s| >= 8 && s[0] >= 1 && s[1] == 5
    ensures |s| >= 8 ==> Word(s[4], s[5]) == 256 * (s[4] as int) + s[5]
  {
  }

  lemma TakesMore(t: Reading, t1: Reading, a: seq<byte>, p: seq<byte>, end: Ending, rest: nat, got: seq<byte>,
                  r: (nat, seq<byte>, Reading))
    requires |a| <= rest && t1.keep == t.keep && (end.PaddingCutShort? ==> p != [])
    requires TakesArrived(t1, p, end, rest - |a|, got + a, r)
    ensures TakesArrived(t, a + p, end, rest, got, r)
  {
    hide ArrivedAt;
    if rest <= |a + p| {
      assert (a + p)[..rest] == a + p[..rest - |a|] && (a + p)[rest..] == p[rest - |a|..];
      assert got + a + p[..rest - |a|] == got + (a + p[..rest - |a|]);
    }
    assert got + a + p == got + (a + p);
  }

  /** A call that ends within a record. */
  lemma TakesLastPiece(t: Reading, rest: nat, got: seq<byte>)
    requires 0 < t.inLen && rest > 0 && (t.inLen > rest || t.inLen > |t.input|)
    ensures TakesArrived(t, ArrivedAt(t).0, ArrivedAt(t).1, rest, got, ReadFrom(t, rest, got))
  {
    hide ReadFrom, Arrived;
    Unroll(t, rest, got);
    if rest < |t.input| {
      var s := t.input[rest..];
      if |t.input| >= t.inLen {
        assert s[..t.inLen - rest] == t.input[..t.inLen][rest..];
        if |t.input| >= t.inLen + t.inPad {
          assert s[t.inLen - rest + t.inPad..] == t.input[t.inLen + t.inPad..];
          var more := Arrived(t.input[t.inLen + t.inPad..]).0;
          assert (t.input[..t.inLen] + more)[rest..] == t.input[..t.inLen][rest..] + more;
        }
      }
    }
  }

  /** On any input a call delivers the bytes that have arrived, in order, as many as it was asked for, and
      leaves the others; its result, what is left and whether the connection is kept at the end of what
      has arrived depend on how that ends. */
  lemma {:induction false} ReadsArrived(t: Reading, rest: nat, got: seq<byte>)
    ensures TakesArrived(t, ArrivedAt(t).0, ArrivedAt(t).1, rest, got, ReadFrom(t, rest, got))
    decreases rest, t.inLen == 0
  {
    hide ReadFrom, TakesArrived;
    if rest == 0 || t.inLen == 0 {
      HeaderStep(t, rest, got);
      if rest > 0 && Framed(t.input) && Headed(t).inLen > 0 {
        ReadsArrived(Headed(t), rest, got);
      }
    } else if t.inLen > rest || t.inLen > |t.input| {
      TakesLastPiece(t, rest, got);
    } else {
      WholePiece(t, rest, got);
      if |t.input| < t.inLen + t.inPad {
        CutPadding(t, rest, got);
      } else {
        var a := t.input[..t.inLen];
        ReadsArrived(Passed(t), rest - t.inLen, got + a);
        var (p, end) := ArrivedAt(Passed(t));
        TakesMore(t, Passed(t), a, p, end, rest, got, ReadFrom(t, rest, got));
      }
    }
  }

  lemma CutPadding(t: Reading, rest: nat, got: seq<byte>)
    requires 0 < t.inLen <= rest && t.inLen <= |t.input| < t.inLen + t.inPad
    ensures TakesArrived(t, ArrivedAt(t).0, ArrivedAt(t).1, rest, got, ReadFrom(t, rest, got))
  {
    hide ReadFrom;
    WholePiece(t, rest, got);
  }

  lemma HeaderStep(t: Reading, rest: nat, got: seq<byte>)
    requires rest == 0 || t.inLen == 0
    ensures rest > 0 && Framed(t.input) && Headed(t).inLen > 0 ==>
      && ArrivedAt(Headed(t)) == ArrivedAt(t) && ReadFrom(t, rest, got) == ReadFrom(Headed(t), rest, got)
      && forall p, end, r :: TakesArrived(Headed(t), p, end, rest, got, r) ==> TakesArrived(t, p, end, rest, got, r)
    ensures !(rest > 0 && Framed(t.input) && Headed(t).inLen > 0) ==>
      TakesArrived(t, ArrivedAt(t).0, ArrivedAt(t).1, rest, got, ReadFrom(t, rest, got))
  {
    hide ReadFrom;
    HeaderBytes(t.input);
    Unroll(t, rest, got);
    assert got + [] == got;
    if rest == 0 { assert ArrivedAt(t).0[0..] == ArrivedAt(t).0; }
  }

  /** Before `rest` bytes are delivered, and after some have been, a record header cannot be read or the
      padding of a record is cut short. */
  predicate Spoiled(t: Reading, rest: nat, late: bool)
    decreases rest, t.inLen == 0
  {
    rest > 0 &&
    if t.inLen == 0 then if Framed(t.input) then Headed(t).inLen > 0 && Spoiled(Headed(t), rest, late) else late
    else
      && t.inLen <= rest && t.inLen <= |t.input|
      && if |t.input| < t.inLen + t.inPad then late else Spoiled(Passed(t), rest - t.inLen, true)
  }

  /** The result of a call is the number of bytes it delivered, unless exactly the input is spoiled:
      then it is 0, or the length of the last piece. */
  lemma {:induction false} ResultIsLength(t: Reading, rest: nat, got: seq<byte>)
    ensures var (ret, str, _) := ReadFrom(t, rest, got);
            got <= str && |str| <= |got| + rest && (ret == |str| <==> !Spoiled(t, rest, got != []))
    decreases rest, t.inLen == 0
  {
    hide ReadFrom;
    if rest == 0 || t.inLen == 0 {
      Unroll(t, rest, got);
      if rest > 0 && Framed(t.input) && Headed(t).inLen > 0 {
        hide Framed, Headed;
        ResultIsLength(Headed(t), rest, got);
      }
    } else if t.inLen > rest || t.inLen > |t.input| {
      LastPiece(t, rest, got);
    } else {
      WholePiece(t, rest, got);
      var str := got + t.input[..t.inLen];
      assert got <= str && str != [] && |str| == |got| + t.inLen;
      if |t.input| >= t.inLen + t.inPad {
        hide Passed;
        ResultIsLength(Passed(t), rest - t.inLen, str);
      }
    }
  }

  /** A call that delivers a byte and returns 0, because the next header is of another type. */
  lemma LateHeaderExample()
    ensures var other: seq<byte> := [1, 9, 0, 1, 0, 0, 0, 0];
            var (ret, str, _) := ReadFrom(Reading([1, 5, 0, 1, 0, 1, 0, 0, 120] + other, 0, 0, true), 2, []);
            ret == 0 && str == [120]
  {
    hide ReadFrom, Headed;
    var other: seq<byte> := [1, 9, 0, 1, 0, 0, 0, 0];
    OneByte([1, 5, 0, 1, 0, 1, 0, 0, 120], 0, 120, other, 2, []);
    assert other[0..] == other && [] + [120] == [120];
    Unroll(Reading(other, 0, 0, true), 1, [120]);
  }

  /** A call that delivers two bytes and returns 1, because the padding of the second record is missing. */
  lemma ShortPaddingExample()
    ensures var second: seq<byte> := [1, 5, 0, 1, 0, 1, 7, 0, 121];
            var (ret, str, _) := ReadFrom(Reading([1, 5, 0, 1, 0, 1, 0, 0, 120] + second, 0, 0, true), 2, []);
            ret == 1 && str == [120, 121]
  {
    hide ReadFrom;
    var second: seq<byte> := [1, 5, 0, 1, 0, 1, 7, 0, 121];
    OneByte([1, 5, 0, 1, 0, 1, 0, 0, 120], 0, 120, second, 2, []);
    assert second[0..] == second && second + [] == second && [] + [120] == [120] && [120] + [121] == [120, 121];
    OneByte(second, 7, 121, [], 1, [120]);
  }

  /** Reading a record of one byte. */
  lemma OneByte(r: seq<byte>, pad: byte, x: byte, more: seq<byte>, rest: nat, got: seq<byte>)
    requires r == [1, 5, 0, 1, 0, 1, pad, 0, x] && rest > 0
    ensures ReadFrom(Reading(r + more, 0, 0, true), rest, got)
         == if |more| < pad then (1, got + [x], Reading([], 0, pad, false))
            else ReadFrom(Reading(more[pad..], 0, pad, true), rest - 1, got + [x])
  {
    hide ReadFrom;
    var s := r + more;
    var t := Reading(s, 0, 0, true);
    assert s[0] == 1 && s[1] == 5 && s[4] == 0 && s[5] == 1 && s[6] == pad && s[8] == x;
    Unroll(t, rest, got);
    var h := Headed(t);
    assert h == Reading(s[8..], 1, pad, true) && h.input[..1] == [x];
    WholePiece(h, rest, got);
    if |more| >= pad {
      assert h.input[1 + (pad as int)..] == more[pad..];
    }
  }

  /** A STDIN record header is at the front of `s`. */
  predicate Framed(s: seq<byte>) {
    |s| >= HEADER_LEN && s[0] >= 1 && s[1] == STDIN
  }

  function Prepend(a: seq<byte>, p: Option<(seq<byte>, seq<byte>)>): Option<(seq<byte>, seq<byte>)> {
    match p
    case None => None
    case Some((b, rest)) => Some((a + b, rest))
  }

  /** The content of the STDIN records in front of the first empty one, and what follows the header
      of the empty one; None when the records are cut short or of another type. */
  function Payload(s: seq<byte>): Option<(seq<byte>, seq<byte>)> {
    if !Framed(s) then None
    else
      var len := Word(s[4], s[5]);
      var next := HEADER_LEN + len + s[6];
      if len == 0 then Some(([], s[HEADER_LEN..]))
      else if |s| < next then None
      else Prepend(s[HEADER_LEN..HEADER_LEN + len], Payload(s[next..]))
  }

  // ----- from the writer to the reader

  lemma PayloadOfRecord(r: Record, padding: Padding, more: seq<byte>)
    requires ValidRecord(r) && r.kind == STDIN && r.content != []
    ensures Payload(Padded(r, padding) + more) == Prepend(r.content, Payload(more))
  {
    var s, len, p := Padded(r, padding) + more, |r.content|, |padding|;
    assert s[..HEADER_LEN] == Header(STDIN, r.id, len, p);
    assert s[0] == 1 && s[1] == STDIN && s[4] == len / 256 && s[5] == len % 256 && s[6] == p;
    assert HEADER_LEN + len + p == |Padded(r, padding)| && s[|Padded(r, padding)|..] == more;
    assert s[HEADER_LEN..HEADER_LEN + len] == r.content;
  }

  lemma PayloadOfEnd(id: nat, pad: byte, next: seq<byte>)
    ensures Payload(Header(STDIN, id, 0, pad) + next) == Some(([], next))
  {
    var s := Header(STDIN, id, 0, pad) + next;
    assert s[0] == 1 && s[1] == STDIN && s[4] == 0 && s[5] == 0 && s[HEADER_LEN..] == next;
  }

  /** The stream of non-empty STDIN records with any padding, ended by an empty record, is the payload. */
  lemma {:induction false} PayloadOfStream(rs: seq<Record>, pads: seq<Padding>, payload: seq<byte>, id: nat,
                                           pad: byte, next: seq<byte>)
    requires OneStream(STDIN, rs, payload) && |pads| == |rs|
    ensures Payload(PaddedAll(rs, pads) + Header(STDIN, id, 0, pad) + next) == Some((payload, next))
  {
    hide Padded, Payload, Header;
    if rs == [] {
      PayloadOfEnd(id, pad, next);
      assert PaddedAll(rs, pads) + Header(STDIN, id, 0, pad) + next == Header(STDIN, id, 0, pad) + next;
    } else {
      var more := PaddedAll(rs[1..], pads[1..]);
      PayloadOfRecord(rs[0], pads[0], more + Header(STDIN, id, 0, pad) + next);
      assert PaddedAll(rs, pads) + Header(STDIN, id, 0, pad) + next
          == Padded(rs[0], pads[0]) + (more + Header(STDIN, id, 0, pad) + next);
      PayloadOfStream(rs[1..], pads[1..], StreamOf(STDIN, rs[1..]), id, pad, next);
    }
  }

  function Sum(sizes: seq<nat>): nat {
    if sizes == [] then 0 else Sum(sizes[..|sizes| - 1]) + sizes[|sizes| - 1]
  }

  /** Frame `chunks` with the writer, end the stream with an empty unpadded record, and read it back
      with calls of any sizes: the original bytes come out in order, as many as were asked for. */
  method Transfer(chunks: seq<seq<byte>>, sizes: seq<nat>, id: nat, simple: bool) returns (got: seq<byte>)
    requires id < 0x10000
    ensures got == Concat(chunks)[..if Sum(sizes) <= |Concat(chunks)| then Sum(sizes) else |Concat(chunks)|]
  {
    hide Payload, EncodeAll, OneStream, Header, ReadFrom;
    var ok, wire := RunStream(STDIN, chunks, id, simple, None);
    ghost var rs :| wire == EncodeAll(rs) && OneStream(STDIN, rs, Concat(chunks));
    ghost var all := Concat(chunks);
    ghost var pads := EncodeIsPadded(rs);
    PayloadOfStream(rs, pads, all, id, 0, []);
    assert wire + Header(STDIN, id, 0, 0) == PaddedAll(rs, pads) + Header(STDIN, id, 0, 0) + [];
    var reader := new Reader(wire + Header(STDIN, id, 0, 0));
    got := [];
    var i := 0;
    assert all[0..] == all;
    while i < |sizes|
      invariant i <= |sizes| && fresh(reader) && Progressed(all, Sum(sizes[..i]), got, reader.View())
    {
      assert sizes[..i + 1][..i] == sizes[..i];
      got := ReadMore(reader, sizes[i], all, Sum(sizes[..i]), got);
      i := i + 1;
    }
    assert sizes[..i] == sizes;
  }

  /** Of the stream `all`, `got` has been read by calls that asked for `asked` bytes together. */
  ghost predicate Progressed(all: seq<byte>, asked: nat, got: seq<byte>, t: Reading) {
    && got == all[..if asked <= |all| then asked else |all|]
    && (asked <= |all| ==> PendingOf(t) == Some((all[asked..], [])))
    && (asked > |all| ==> t.input == [] && t.inLen == 0)
  }

  method ReadMore(reader: Reader, size: nat, ghost all: seq<byte>, ghost asked: nat, got: seq<byte>)
    returns (got': seq<byte>)
    requires Progressed(all, asked, got, reader.View())
    modifies reader
    ensures Progressed(all, asked + size, got', reader.View())
  {
    hide ReadFrom, PendingOf;
    if asked > |all| { ReadsNothing(reader.View(), size); }
    var ret, str := reader.Read(size);
    got' := got + str;
    if asked <= |all| {
      ghost var n := if size <= |all| - asked then size else |all| - asked;
      assert all[..asked] + all[asked..][..n] == all[..asked + n] && all[asked..][n..] == all[asked + n..];
    } else {
      assert got + [] == got;
    }
  }

  /** After a whole stream has been read the reader stands at the next record header exactly when
      the terminating record was not padded: its padding is not skipped. */
  lemma TerminatorPadding(rs: seq<Record>, pads: seq<Padding>, payload: seq<byte>, id: nat, padding: Padding,
                          next: seq<byte>)
    requires OneStream(STDIN, rs, payload) && |pads| == |rs|
    ensures var wire := PaddedAll(rs, pads) + Header(STDIN, id, 0, |padding|) + (padding + next);
            Payload(wire).Some? && (Payload(wire).value.1 == next <==> padding == [])
  {
    PayloadOfStream(rs, pads, payload, id, |padding|, padding + next);
    assert |padding + next| == |padding| + |next|;
  }
}
