/** The buffered packetiser: `fcgi_write` in its optimised form and in the form the source calls
    unoptimised but clear, `fcgi_flush`, and the packet helpers. */
module FcgiWriter {
  import opened Common
  import opened FcgiRecord

  const OUT_BUF := 1024 * 8
  const RESERVED := 16  // sizeof(fcgi_end_request_rec), right behind out_buf

  class Writer {
    const id: nat
    const limited: bool       // whether the peer may refuse bytes
    var keep: bool
    var outHdr: int           // offset of the open packet's header, or NULL
    var outPos: nat
    const outBuf: array<byte> // out_buf and reserved
    var wire: seq<byte>       // bytes accepted by the peer
    var room: Option<nat>     // bytes the peer will still accept; None when writes never fail
    ghost var broken: bool    // a transport write has failed
    ghost var done: seq<Record>

    constructor (id: nat, room: Option<nat>)
      requires id < 0x10000
      ensures Valid() && Recs() == [] && outPos == 0 && outHdr == NULL && !broken && wire == []
      ensures fresh(outBuf) && this.id == id && limited == room.Some?
    {
      this.id, limited, this.room, keep, outHdr, outPos, wire := id, room.Some?, room, true, NULL, 0, [];
      outBuf := new byte[OUT_BUF + RESERVED];
      broken, done := false, [];
    }

    /** The buffer layout at every moment: a closed position is a multiple of eight, an open packet
        starts at one, and nothing but a late header ever lies in the reserved bytes. */
    ghost predicate Shape()
      reads this
    {
      && id < 0x10000 && outBuf.Length == OUT_BUF + RESERVED
      && (outHdr == NULL ==> outPos % 8 == 0 && outPos <= OUT_BUF + HEADER_LEN)
      && (outHdr != NULL ==> 0 <= outHdr <= OUT_BUF && outHdr % 8 == 0)
      && (outHdr != NULL ==>
        outHdr + HEADER_LEN <= outPos && (outPos <= OUT_BUF || (outHdr == OUT_BUF && outPos == OUT_BUF + HEADER_LEN)))
    }

    ghost function Closed(): nat
      reads this
      requires Shape()
    {
      if outHdr == NULL then outPos else outHdr
    }

    /** Where the buffer will end once the open packet is closed. */
    ghost function ClosedPos(): nat
      reads this
      requires Shape()
    {
      if outHdr == NULL then outPos else outPos + Pad(outPos - outHdr - HEADER_LEN)
    }

    ghost function Content(): seq<byte>
      reads this, outBuf
      requires Shape() && outHdr != NULL
    {
      outBuf[outHdr + HEADER_LEN..outPos]
    }

    function Kind(): byte
      reads this, outBuf
      requires Shape() && outHdr != NULL
    {
      outBuf[outHdr + 1]
    }

    /** All records written so far; the open packet is the last of them. */
    ghost function Recs(): seq<Record>
      reads this, outBuf
      requires Shape()
    {
      done + if outHdr == NULL then [] else [Record(Kind(), id, Content())]
    }

    /** As long as no transport write has failed, the wire and the buffer hold the closed records. */
    ghost predicate Consistent()
      reads this, outBuf
    {
      && Shape() && ValidRecords(done) && SameId(done, id)
      && limited == room.Some? && (broken ==> limited)
      && (!broken ==> wire + outBuf[..Closed()] == EncodeAll(done))
    }

    /** Between calls the buffer is empty or its packet is open, not empty, and not full. */
    ghost predicate Valid()
      reads this, outBuf
    {
      && Consistent()
      && (outHdr == NULL ==> outPos == 0)
      && (outHdr != NULL ==> outHdr + HEADER_LEN < outPos < OUT_BUF)
    }

    predicate Fits(n: nat)
      reads this
    {
      room.None? || n <= room.value
    }

    /** `safe_write` of `buf`: all of it, or an error. */
    method SafeWrite(buf: seq<byte>) returns (ret: int)
      modifies this`wire, this`room, this`broken
      ensures ret == if old(Fits(|buf|)) then |buf| else -1
      ensures ret != -1 ==> wire == old(wire) + buf && broken == old(broken)
      ensures ret != -1 ==> room == if old(room).None? then None else Some(old(room).value - |buf|)
      ensures ret == -1 ==> broken && room.Some? && room == old(room)
    {
      if Fits(|buf|) {
        wire, ret := wire + buf, |buf|;
        room := if room.None? then None else Some(room.value - |buf|);
      } else {
        ret, broken := -1, true;
      }
    }

    /** `fcgi_make_header`: fill in the header at `hdr` and zero the padding behind the content. */
    method MakeHeader(hdr: nat, kind: byte, len: nat) returns (pad: nat)
      requires hdr + HEADER_LEN <= outBuf.Length
      requires Pad(len) > 0 ==> hdr + HEADER_LEN + len + Pad(len) <= outBuf.Length
      modifies outBuf
      ensures pad == Pad(len)
      ensures outBuf[hdr..hdr + HEADER_LEN] == Header(kind, id, len, pad)
      ensures pad > 0 ==> outBuf[hdr + HEADER_LEN + len..hdr + HEADER_LEN + len + pad] == Zeros(pad)
      ensures var end := hdr + HEADER_LEN + len;
              forall k :: 0 <= k < outBuf.Length && !(hdr <= k < hdr + HEADER_LEN) && !(end <= k < end + pad) ==>
                outBuf[k] == old(outBuf[k])
    {
      pad := Pad(len);
      outBuf[hdr + 5] := len % 256;
      outBuf[hdr + 4] := len / 256 % 256;
      outBuf[hdr + 6] := pad;
      outBuf[hdr + 3] := id % 256;
      outBuf[hdr + 2] := id / 256 % 256;
      outBuf[hdr + 7] := 0;
      outBuf[hdr + 1] := kind;
      outBuf[hdr] := 1;
      if pad > 0 {
        var at := hdr + HEADER_LEN + len;
        forall k | at <= k < at + pad { outBuf[k] := 0; }
      }
    }

    /** `open_packet`: only the type of the new header is known yet. */
    method OpenPacket(kind: byte)
      requires Consistent() && outHdr == NULL && outPos <= OUT_BUF
      modifies this`outHdr, this`outPos, outBuf
      ensures Consistent() && outHdr == old(outPos) && outPos == old(outPos) + HEADER_LEN
      ensures Kind() == kind && Content() == [] && Recs() == old(Recs()) + [Record(kind, id, [])]
      ensures outBuf[..outHdr] == old(outBuf[..outPos])
    {
      ghost var b := outBuf[..outPos];
      outHdr := outPos;
      outBuf[outHdr + 1] := kind;
      outPos := outPos + HEADER_LEN;
      assert outBuf[..outHdr] == b;
    }

    /** `close_packet`: complete the header and pad; the records do not change. */
    method ClosePacket()
      requires Consistent()
      modifies this`outHdr, this`outPos, this`done, outBuf
      ensures Consistent() && outHdr == NULL && Recs() == old(Recs())
      ensures outPos == old(ClosedPos()) && (old(outPos) <= OUT_BUF ==> outPos <= OUT_BUF)
    {
      if outHdr != NULL {
        var len := outPos - (outHdr + HEADER_LEN);
        var pad := CompleteHeader(len);
        PadFits(outHdr, len);
        outPos, outHdr := outPos + pad, NULL;
      }
    }

    /** The header of the open packet is filled in and its content padded. */
    method CompleteHeader(len: nat) returns (pad: nat)
      requires Consistent() && outHdr != NULL && len == outPos - (outHdr + HEADER_LEN)
      modifies this`done, outBuf
      ensures pad == Pad(len) && ValidRecords(done)
      ensures done == old(Recs())
      ensures !broken ==> wire + outBuf[..outPos + pad] == EncodeAll(done)
    {
      hide Header, Zeros, Pad, Encode, EncodeAll, ValidRecords;
      ghost var r, b := Record(Kind(), id, Content()), outBuf[..outHdr];
      PadFits(outHdr, len);
      pad := MakeHeader(outHdr, outBuf[outHdr + 1], len);
      AppendValid(done, r);
      if !broken { Assemble(wire, outBuf[..], outHdr, b, done, r, pad); }
      done := done + [r];
    }

    /** Copy `chunk` into the open packet. */
    method Append(chunk: seq<byte>)
      requires Consistent() && outHdr != NULL && chunk != [] && outPos + |chunk| <= OUT_BUF
      modifies this`outPos, outBuf
      ensures Consistent() && outPos == old(outPos) + |chunk| && Kind() == old(Kind())
      ensures Wrote(old(Recs()), Recs(), Kind(), chunk, if old(Content()) == [] then -1 else 0)
    {
      hide Wrote, EncodeAll, ValidRecords;
      ghost var was, c, k := outBuf[..], Content(), Kind();
      var at := outPos;
      CopyTo(outBuf, at, chunk);
      outPos := at + |chunk|;
      Joined(was, outBuf[..], outHdr, outHdr + HEADER_LEN, at, chunk);
      WroteGrow(done, k, id, c, chunk);
    }

    /** The END_REQUEST record with status zero; its three reserved bytes are whatever the buffer held. */
    ghost predicate IsEnd(r: Record) {
      r.kind == END_REQUEST && r.id == id && |r.content| == 8 && r.content[..5] == Zeros(5)
    }

    method PutEnd() returns (ghost r: Record)
      requires id < 0x10000 && outPos + RESERVED <= outBuf.Length
      modifies outBuf
      ensures IsEnd(r) && outBuf[..outPos + RESERVED] == old(outBuf[..outPos]) + Encode(r)
    {
      ghost var b := outBuf[..outPos];
      var _ := MakeHeader(outPos, END_REQUEST, 8);
      var at := outPos + HEADER_LEN;
      outBuf[at], outBuf[at + 1], outBuf[at + 2], outBuf[at + 3], outBuf[at + 4] := 0, 0, 0, 0, 0;
      r := Record(END_REQUEST, id, outBuf[at..at + 8]);
      assert outBuf[..outPos] == b;
      assert r.content[..5] == Zeros(5);
      assert outBuf[..outPos + RESERVED] == outBuf[..outPos] + (outBuf[outPos..at] + outBuf[at..at + 8] + []);
    }

    /** `fcgi_flush` once no packet is open: send the buffer, and the END record behind it. */
    method FlushClosed(end: bool) returns (ok: bool, ghost r: Record)
      requires outHdr == NULL && id < 0x10000 && outBuf.Length == OUT_BUF + RESERVED
      requires outPos <= OUT_BUF + HEADER_LEN && (end ==> outPos <= OUT_BUF)
      modifies this`keep, this`outPos, this`wire, this`room, this`broken, outBuf
      ensures outPos == 0 && IsEnd(r)
      ensures ok <==> old(Fits(outPos + if end then RESERVED else 0))
      ensures ok ==> broken == old(broken) && keep == old(keep)
      ensures ok ==> wire == old(wire) + (old(outBuf[..outPos]) + if end then Encode(r) else [])
      ensures room.Some? == old(room).Some? && (!ok ==> broken && !keep && room.Some?)
    {
      var len := outPos;
      r := Record(END_REQUEST, id, Zeros(8));
      if end {
        r := PutEnd();
        len := len + RESERVED;
      }
      var n := SafeWrite(outBuf[..len]);
      outPos := 0;
      ok := n == len;
      if !ok { keep := false; }
    }

    /** `fcgi_flush`: everything written so far is on the wire, followed by the END record if asked for. */
    method Flush(end: bool) returns (ok: bool, ghost r: Record)
      requires Consistent() && (end ==> outPos <= OUT_BUF)
      modifies this, outBuf
      ensures Consistent() && outHdr == NULL && outPos == 0
      ensures ok <==> old(Fits(ClosedPos() + if end then RESERVED else 0))
      ensures ok ==> broken == old(broken) && keep == old(keep)
      ensures ok ==> IsEnd(r) && Recs() == if end then old(Recs()) + [r] else old(Recs())
      ensures ok && !broken ==> wire == EncodeAll(Recs())
      ensures ok && end ==> Ended(wire, id)
      ensures !ok ==> broken && !keep
    {
      hide EncodeAll, ValidRecords, Encode, Header, Zeros, Ended;
      ClosePacket();
      ghost var w, b := wire, outBuf[..outPos];
      ok, r := FlushClosed(end);
      if ok && end {
        EncodeAppend(done, r);
        AppendValid(done, r);
        assert w + (b + Encode(r)) == (w + b) + Encode(r);
        EndBytes(w + b, r);
        done := done + [r];
      }
      assert Recs() == done && w + (b + []) == w + b;
    }

    /** Flush the buffer with the complete header of a record whose content will be sent directly. */
    method SendHeader(kind: byte, len: nat) returns (ok: bool)
      requires Consistent() && outHdr == NULL && outPos <= OUT_BUF && len % 8 == 0
      modifies this`keep, this`outHdr, this`outPos, this`wire, this`room, this`broken, outBuf
      ensures outHdr == NULL && outPos == 0
      ensures ok ==> broken == old(broken)
      ensures ok ==> wire == old(wire) + (old(outBuf[..outPos]) + Header(kind, id, len, 0))
      ensures room.Some? == old(room).Some? && (!ok ==> broken && room.Some?)
    {
      hide EncodeAll, ValidRecords, Header;
      ghost var b := outBuf[..outPos];
      OpenPacket(kind);
      var pad := MakeHeader(outHdr, kind, len);
      outHdr := NULL;
      assert outBuf[..|b|] == b && outBuf[|b|..outPos] == Header(kind, id, len, 0);
      assert outBuf[..outPos] == outBuf[..|b|] + outBuf[|b|..outPos];
      ghost var e;
      ok, e := FlushClosed(false);
      assert b + Header(kind, id, len, 0) + [] == b + Header(kind, id, len, 0);
    }

    /** Send `chunk` straight behind a header of its own, without copying it into the buffer. */
    method WriteDirect(kind: byte, chunk: seq<byte>) returns (ok: bool)
      requires Consistent() && outHdr == NULL && outPos <= OUT_BUF
      requires chunk != [] && |chunk| % 8 == 0 && |chunk| <= MAX_LENGTH
      modifies this, outBuf
      ensures Consistent() && outHdr == NULL && outPos == 0
      ensures ok ==> broken == old(broken) && Wrote(old(Recs()), Recs(), kind, chunk, 0)
      ensures ok ==> Recs() == old(Recs()) + [Record(kind, id, chunk)]
      ensures !ok ==> broken
    {
      hide EncodeAll, ValidRecords, Wrote, Header, Encode;
      ghost var r, w, b := Record(kind, id, chunk), wire, outBuf[..outPos];
      assert Recs() == done;
      ok := SendHeader(kind, |chunk|);
      if !ok {
        return;
      }
      var n := SafeWrite(chunk);
      if n != |chunk| {
        keep := false;
        return false;
      }
      if !broken { DirectRecord(w, b, done, r); }
      AppendValid(done, r);
      WroteWhole(done, r);
      done := done + [r];
      assert Recs() == done && wire + outBuf[..0] == wire;
    }

    /** Whether a packet of type `kind` is open. */
    ghost predicate Open(kind: byte)
      reads this, outBuf
      requires Shape()
    {
      outHdr != NULL && Kind() == kind
    }

    /** The empty records `Write` emits for `len` bytes of type `kind`: one, when after the switch to
        `kind` the buffer has no room behind a new header and the data is short enough to be buffered. */
    ghost function Blanks(kind: byte, len: nat): int
      reads this, outBuf
      requires Shape()
    {
      if !Open(kind) && ClosedPos() >= OUT_BUF - HEADER_LEN && 0 < len < OUT_BUF - HEADER_LEN then 1 else 0
    }

    /** The same for `WriteSimple`: one, when there is room for a header and for nothing else. */
    ghost function BlanksSimple(kind: byte, len: nat): int
      reads this, outBuf
      requires Shape()
    {
      if !Open(kind) && ClosedPos() == OUT_BUF - HEADER_LEN && 0 < len then 1 else 0
    }

    /** Where the next byte of type `kind` goes, and the header in front of it, unless there is no room. */
    ghost function DataPos(kind: byte): nat
      reads this, outBuf
      requires Shape()
    {
      if Open(kind) then outPos else ClosedPos() + HEADER_LEN
    }

    ghost function HeaderPos(kind: byte): int
      reads this, outBuf
      requires Shape()
    {
      if Open(kind) then outHdr else ClosedPos()
    }

    /** Whether `len` bytes of type `kind` fit in the buffer with room to spare. */
    ghost predicate Buffers(kind: byte, len: nat)
      reads this, outBuf
      requires Shape()
    {
      0 < len < OUT_BUF - DataPos(kind)
    }

    method SwitchTo(kind: byte)
      requires Valid()
      modifies this`outHdr, this`outPos, this`done, outBuf
      ensures Consistent() && outPos <= OUT_BUF && Recs() == old(Recs())
      ensures outHdr == if old(Open(kind)) then old(outHdr) else NULL
      ensures outHdr != NULL ==> Kind() == kind && Content() != [] && outPos < OUT_BUF
      ensures outPos == if old(Open(kind)) then old(outPos) else old(ClosedPos())
    {
      if outHdr != NULL && outBuf[outHdr + 1] != kind {
        ClosePacket();
      }
    }

    /** Copy `chunk` into the open packet of type `kind`, opening one if there is none. */
    method Store(kind: byte, chunk: seq<byte>)
      requires Consistent() && (outHdr != NULL ==> Kind() == kind && Content() != [])
      requires chunk != [] && outPos + (if outHdr == NULL then HEADER_LEN else 0) + |chunk| <= OUT_BUF
      modifies this`outHdr, this`outPos, outBuf
      ensures Consistent() && outHdr != NULL && Kind() == kind && Content() != [] && done == old(done)
      ensures outPos == old(outPos) + old(if outHdr == NULL then HEADER_LEN else 0) + |chunk|
      ensures outHdr == old(if outHdr == NULL then outPos else outHdr)
      ensures Wrote(old(Recs()), Recs(), kind, chunk, 0)
    {
      hide Wrote, EncodeAll, ValidRecords;
      if outHdr == NULL {
        ghost var rs := Recs();
        OpenPacket(kind);
        WroteOpen(rs, kind, id);
        ghost var rs' := Recs();
        Append(chunk);
        WroteTrans(rs, rs', Recs(), kind, [], chunk, 1, -1);
        assert [] + chunk == chunk;
      } else {
        Append(chunk);
      }
    }

    /** Like `Store`, for a chunk that may be empty: a packet is opened all the same. */
    method StoreAny(kind: byte, chunk: seq<byte>)
      requires Consistent() && (outHdr != NULL ==> Kind() == kind && Content() != [])
      requires outPos <= OUT_BUF
        && (chunk != [] ==> outPos + (if outHdr == NULL then HEADER_LEN else 0) + |chunk| <= OUT_BUF)
      modifies this`outHdr, this`outPos, outBuf
      ensures Consistent() && outHdr != NULL && Kind() == kind && (chunk != [] ==> Content() != [])
      ensures outPos == old(outPos) + old(if outHdr == NULL then HEADER_LEN else 0) + |chunk|
      ensures Wrote(old(Recs()), Recs(), kind, chunk, if chunk == [] && old(outHdr) == NULL then 1 else 0)
    {
      hide Wrote, EncodeAll, ValidRecords;
      if chunk != [] {
        Store(kind, chunk);
      } else if outHdr == NULL {
        WroteOpen(Recs(), kind, id);
        assert Recs() == done;
        OpenPacket(kind);
      } else {
        WroteNothing(Recs(), kind);
      }
    }

    /** Fill up the packet and send the buffer. */
    method StoreAndFlush(kind: byte, chunk: seq<byte>) returns (ok: bool)
      requires Consistent() && (outHdr != NULL ==> Kind() == kind && Content() != [])
      requires outPos <= OUT_BUF
        && (chunk != [] ==> outPos + (if outHdr == NULL then HEADER_LEN else 0) + |chunk| <= OUT_BUF)
      modifies this, outBuf
      ensures Consistent() && outHdr == NULL && outPos == 0 && (!ok ==> broken)
      ensures ok ==> broken == old(broken)
      ensures ok ==>
        Wrote(old(Recs()), Recs(), kind, chunk, if chunk == [] && old(outHdr) == NULL then 1 else 0)
    {
      hide Wrote, EncodeAll, ValidRecords;
      StoreAny(kind, chunk);
      ghost var none;
      ok, none := Flush(false);
    }

    /** `fcgi_write`: all bytes of `str` join the stream of `kind` and no other stream changes. An
        empty record appears exactly when a type switch leaves no room behind the new header and
        the data is short enough to be buffered. */
    method Write(kind: byte, str: seq<byte>) returns (ret: int)
      requires Valid()
      modifies this, outBuf
      ensures Valid()
      ensures ret == |str| || (ret == -1 && broken)
      ensures ret != -1 ==> broken == old(broken)
      ensures ret != -1 ==> Wrote(old(Recs()), Recs(), kind, str, old(Blanks(kind, |str|)))
      ensures old(Buffers(kind, |str|)) ==> ret == |str| && wire == old(wire) && Open(kind)
      ensures old(Buffers(kind, |str|)) ==> outHdr == old(HeaderPos(kind)) && outPos == old(DataPos(kind)) + |str|
      ensures ret != -1 && (str != [] || old(outHdr == NULL || Open(kind))) ==> outHdr == NULL || Open(kind)
    {
      hide Wrote, EncodeAll, ValidRecords;
      var len := |str|;
      if len <= 0 {
        WroteNothing(Recs(), kind);
        assert str == [];
        return 0;
      }
      ghost var rs := Recs();
      SwitchTo(kind);
      var limit: int := OUT_BUF - outPos;
      if outHdr == NULL {
        limit := limit - HEADER_LEN;
        if limit < 0 { limit := 0; }
      }
      if len < limit {
        Store(kind, str);
        ret := len;
      } else if len - limit < OUT_BUF - HEADER_LEN {
        ret := WriteAcross(kind, str, limit);
      } else {
        ClosePacket();
        ret := WriteLong(kind, str);
      }
    }

    /** The packet is filled up and sent; the rest of `str` starts the next one. */
    method WriteAcross(kind: byte, str: seq<byte>, limit: nat) returns (ret: int)
      requires Consistent() && outPos <= OUT_BUF
      requires outHdr != NULL ==> Kind() == kind && Content() != [] && outPos + limit == OUT_BUF && limit > 0
      requires outHdr == NULL ==> limit == if outPos <= OUT_BUF - HEADER_LEN then OUT_BUF - HEADER_LEN - outPos else 0
      requires 0 < |str| && limit <= |str| < limit + OUT_BUF - HEADER_LEN
      modifies this, outBuf
      ensures Valid() && (ret == |str| || (ret == -1 && broken))
      ensures ret != -1 ==> broken == old(broken) && Wrote(old(Recs()), Recs(), kind, str, if limit == 0 then 1 else 0)
      ensures outHdr == NULL || Open(kind)
    {
      hide Wrote, EncodeAll, ValidRecords;
      ghost var r0 := Recs();
      var first, rest := str[..limit], str[limit..];
      var ok := StoreAndFlush(kind, first);
      if !ok {
        return -1;
      }
      ghost var r1, e := Recs(), if limit == 0 then 1 else 0;
      assert first + rest == str && (rest == [] ==> first == str);
      if |str| > limit {
        Store(kind, rest);
        WroteTrans(r0, r1, Recs(), kind, first, rest, e, 0);
      }
      ret := |str|;
    }

    /** Records of 0xfff8 bytes, each behind its own header, until a single record can take what is left. */
    method WriteFull(kind: byte, str: seq<byte>) returns (ok: bool, pos: nat)
      requires Consistent() && outHdr == NULL && outPos <= OUT_BUF && |str| >= 8
      modifies this, outBuf
      ensures Consistent() && outHdr == NULL && outPos <= OUT_BUF
      ensures pos + 8 <= |str| && if ok then |str| - pos <= MAX_LENGTH else outPos == 0
      ensures if ok then broken == old(broken) && Wrote(old(Recs()), Recs(), kind, str[..pos], 0) else broken
      ensures ok ==> |Recs()| >= old(|Recs()|)
      ensures ok ==> forall k :: old(|Recs()|) <= k < |Recs()| ==> |Recs()[k].content| == 65528
    {
      hide Wrote, EncodeAll, ValidRecords;
      ghost var r0 := Recs();
      ok, pos := true, 0;
      WroteNothing(r0, kind);
      while |str| - pos > 0xffff
        invariant Consistent() && outHdr == NULL && outPos <= OUT_BUF
        invariant pos + 8 <= |str| && broken == old(broken) && ok
        invariant Wrote(r0, Recs(), kind, str[..pos], 0) && |Recs()| >= |r0|
        invariant forall k :: |r0| <= k < |Recs()| ==> |Recs()[k].content| == 65528
      {
        ghost var r1 := Recs();
        ok := WriteDirect(kind, str[pos..pos + 0xfff8]);
        if !ok {
          return;
        }
        WroteTrans(r0, r1, Recs(), kind, str[..pos], str[pos..pos + 0xfff8], 0, 0);
        assert str[..pos] + str[pos..pos + 0xfff8] == str[..pos + 0xfff8];
        pos := pos + 0xfff8;
      }
    }

    /** Records of 0xfff8 bytes, one last record of a multiple of eight bytes, all sent directly;
        fewer than eight bytes stay behind in a new packet. */
    method WriteLong(kind: byte, str: seq<byte>) returns (ret: int)
      requires Consistent() && outHdr == NULL && outPos <= OUT_BUF && |str| >= OUT_BUF - HEADER_LEN
      modifies this, outBuf
      ensures Valid() && (ret == |str| || (ret == -1 && broken))
      ensures ret != -1 ==> broken == old(broken) && Wrote(old(Recs()), Recs(), kind, str, 0)
      ensures ret != -1 ==> forall k :: old(|Recs()|) <= k < |Recs()| - 2 ==> |Recs()[k].content| == 65528
      ensures outHdr == NULL || Open(kind)
    {
      hide Wrote, EncodeAll, ValidRecords;
      ghost var r0 := Recs();
      var len := |str|;
      var ok, pos := WriteFull(kind, str);
      if !ok {
        return -1;
      }
      var pad := Pad(len - pos);
      var rest := if pad > 0 then 8 - pad else 0;
      ghost var r1 := Recs();
      ok := WriteDirect(kind, str[pos..len - rest]);
      if !ok {
        return -1;
      }
      WroteTrans(r0, r1, Recs(), kind, str[..pos], str[pos..len - rest], 0, 0);
      assert str[..pos] + str[pos..len - rest] == str[..len - rest];
      if pad > 0 {
        ghost var r2 := Recs();
        Store(kind, str[len - rest..]);
        WroteTrans(r0, r2, Recs(), kind, str[..len - rest], str[len - rest..], 0, 0);
        assert str[..len - rest] + str[len - rest..] == str;
        assert r2 == r1 + [r2[|r1|]] && Recs() == r2 + [Recs()[|r2|]];
      } else {
        assert str[..len - rest] == str;
      }
      ret := len;
    }

    /** Where the content of the open packet goes on, or that of a new one starts. */
    ghost function DataAt(): nat
      reads this
    {
      outPos + if outHdr == NULL then HEADER_LEN else 0
    }

    /** One round of the clear version: open a packet if there is none, then either all of `rest`
        fits with room to spare, or the packet is filled up and sent. */
    method SimpleRound(kind: byte, rest: seq<byte>) returns (taken: int)
      requires Consistent() && outPos <= OUT_BUF && rest != []
      requires outHdr != NULL ==> Kind() == kind && Content() != [] && outPos < OUT_BUF
      modifies this, outBuf
      ensures Consistent() && -1 <= taken <= |rest| && (taken == -1 ==> broken && Valid())
      ensures taken != -1 ==> broken == old(broken)
      ensures taken != -1 ==>
        Wrote(old(Recs()), Recs(), kind, rest[..taken],
              if old(outHdr == NULL && outPos == OUT_BUF - HEADER_LEN) then 1 else 0)
      ensures taken == |rest| ==> Valid()
      ensures outHdr == NULL || Open(kind)
      ensures taken < |rest| ==> outHdr == NULL && outPos == 0
      ensures taken == 0 ==> old(outPos) > 0
      ensures var at := old(DataAt());
              at + |rest| < OUT_BUF ==>
                && taken == |rest| && wire == old(wire) && outPos == at + |rest|
                && outHdr == old(if outHdr == NULL then outPos else outHdr)
    {
      hide Wrote, EncodeAll, ValidRecords;
      var ok;
      if outHdr == NULL && OUT_BUF - outPos < HEADER_LEN {
        ghost var none;
        ok, none := Flush(false);
        if !ok {
          return -1;
        }
      }
      var limit := OUT_BUF - outPos - if outHdr == NULL then HEADER_LEN else 0;
      if |rest| < limit {
        Store(kind, rest);
        assert rest[..|rest|] == rest;
        return |rest|;
      }
      ok := StoreAndFlush(kind, rest[..limit]);
      taken := if ok then limit else -1;
    }

    /** The body the source keeps disabled as the clear version: the same streams. An empty record
        appears exactly when a type switch leaves room for a header and nothing else. */
    method WriteSimple(kind: byte, str: seq<byte>) returns (ret: int)
      requires Valid()
      modifies this, outBuf
      ensures Valid()
      ensures ret == |str| || (ret == -1 && broken)
      ensures ret != -1 ==> broken == old(broken)
      ensures ret != -1 ==> Wrote(old(Recs()), Recs(), kind, str, old(BlanksSimple(kind, |str|)))
      ensures old(Buffers(kind, |str|)) ==> ret == |str| && wire == old(wire) && Open(kind)
      ensures old(Buffers(kind, |str|)) ==> outHdr == old(HeaderPos(kind)) && outPos == old(DataPos(kind)) + |str|
      ensures ret != -1 && (str != [] || old(outHdr == NULL || Open(kind))) ==> outHdr == NULL || Open(kind)
    {
      hide Wrote, EncodeAll, ValidRecords;
      if |str| <= 0 {
        WroteNothing(Recs(), kind);
        assert str == [];
        return 0;
      }
      SwitchTo(kind);
      ret := SimpleRounds(kind, str);
    }

    /** The loop of the clear version. */
    method SimpleRounds(kind: byte, str: seq<byte>) returns (ret: int)
      requires Consistent() && outPos <= OUT_BUF && str != []
      requires outHdr != NULL ==> Kind() == kind && Content() != [] && outPos < OUT_BUF
      modifies this, outBuf
      ensures Valid() && (ret == |str| || (ret == -1 && broken))
      ensures ret != -1 ==> broken == old(broken)
      ensures ret != -1 ==>
        Wrote(old(Recs()), Recs(), kind, str, if old(outHdr == NULL && outPos == OUT_BUF - HEADER_LEN) then 1 else 0)
      ensures outHdr == NULL || Open(kind)
      ensures var at := old(DataAt());
              at + |str| < OUT_BUF ==>
                && ret == |str| && wire == old(wire) && outPos == at + |str|
                && outHdr == old(if outHdr == NULL then outPos else outHdr)
    {
      hide Wrote, EncodeAll, ValidRecords;
      ghost var r0, e := Recs(), if outHdr == NULL && outPos == OUT_BUF - HEADER_LEN then 1 else 0;
      ghost var w, hdr, at := wire, if outHdr == NULL then outPos else outHdr, DataAt();
      WroteNothing(r0, kind);
      var pos := 0;
      ghost var first := true;
      while pos < |str|
        invariant Consistent() && outPos <= OUT_BUF && pos <= |str| && broken == old(broken)
        invariant first ==> pos == 0 && outPos == old(outPos) && outHdr == old(outHdr) && wire == w && Recs() == r0
        invariant first && outHdr != NULL ==> Kind() == kind && Content() != []
        invariant !first ==> (outHdr == NULL ==> outPos == 0) && (pos < |str| ==> outHdr == NULL)
        invariant pos == |str| ==> Valid()
        invariant outHdr == NULL || Open(kind)
        invariant Wrote(r0, Recs(), kind, str[..pos], if first then 0 else e)
        invariant !first && at + |str| < OUT_BUF ==>
          pos == |str| && wire == w && outPos == at + |str| && outHdr == hdr
        decreases |str| - pos, outPos
      {
        ghost var r1, rest := Recs(), str[pos..];
        var taken := SimpleRound(kind, str[pos..]);
        if taken == -1 {
          return -1;
        }
        WroteTrans(r0, r1, Recs(), kind, str[..pos], rest[..taken], if first then 0 else e, if first then e else 0);
        NextPiece(str, pos, taken);
        pos, first := pos + taken, false;
      }
      assert str[..pos] == str;
      ret := |str|;
    }
  }

  lemma NextPiece(str: seq<byte>, pos: nat, taken: nat)
    requires pos + taken <= |str|
    ensures str[..pos] + str[pos..][..taken] == str[..pos + taken]
  {
  }

  /** `memcpy` of `chunk` to `buf + at`. */
  method CopyTo(buf: array<byte>, at: nat, chunk: seq<byte>)
    requires at + |chunk| <= buf.Length
    modifies buf
    ensures buf[..] == old(buf[..at]) + chunk + old(buf[at + |chunk|..])
  {
    forall i | 0 <= i < |chunk| { buf[at + i] := chunk[i]; }
  }

  /** What was in front of `at` stays, and a stretch that ended at `at` is continued by `chunk`. */
  lemma Joined(was: seq<byte>, now: seq<byte>, hdr: nat, from: nat, at: nat, chunk: seq<byte>)
    requires hdr < from <= at && at + |chunk| <= |was| && now == was[..at] + chunk + was[at + |chunk|..]
    ensures |now| == |was| && now[..hdr] == was[..hdr] && now[hdr..from] == was[hdr..from]
    ensures now[from..at + |chunk|] == was[from..at] + chunk
  {
  }

  /** Padding never leads out of `out_buf`. */
  lemma PadFits(hdr: nat, len: nat)
    requires hdr % 8 == 0
    ensures Pad(len) < 8 && (hdr + HEADER_LEN + len + Pad(len)) % 8 == 0
    ensures hdr + HEADER_LEN + len <= OUT_BUF ==> hdr + HEADER_LEN + len + Pad(len) <= OUT_BUF
  {
  }

  /** All records belong to request `id`. */
  ghost predicate SameId(rs: seq<Record>, id: nat) {
    forall i :: 0 <= i < |rs| ==> rs[i].id == id
  }

  lemma AppendValid(rs: seq<Record>, r: Record)
    requires ValidRecords(rs) && ValidRecord(r)
    ensures ValidRecords(rs + [r]) && (SameId(rs, r.id) ==> SameId(rs + [r], r.id))
  {
  }

  /** A completed packet at the end of the buffer is one more encoded record. */
  lemma Assemble(wire: seq<byte>, buf: seq<byte>, hdr: nat, b: seq<byte>, done: seq<Record>, r: Record, pad: nat)
    requires pad == Pad(|r.content|) && hdr + HEADER_LEN + |r.content| + pad <= |buf|
    requires buf[..hdr] == b && buf[hdr..hdr + HEADER_LEN] == Header(r.kind, r.id, |r.content|, pad)
    requires buf[hdr + HEADER_LEN..hdr + HEADER_LEN + |r.content|] == r.content
    requires pad > 0 ==> buf[hdr + HEADER_LEN + |r.content|..hdr + HEADER_LEN + |r.content| + pad] == Zeros(pad)
    requires wire + b == EncodeAll(done)
    ensures wire + buf[..hdr + HEADER_LEN + |r.content| + pad] == EncodeAll(done + [r])
  {
    hide Header, EncodeAll, Zeros, Pad;
    Sections(buf, hdr, hdr + HEADER_LEN, hdr + HEADER_LEN + |r.content|, hdr + HEADER_LEN + |r.content| + pad);
    assert pad == 0 ==> Zeros(pad) == [];
    assert Encode(r) == Header(r.kind, r.id, |r.content|, pad) + r.content + Zeros(pad);
    Regroup(wire, b, Encode(r));
    EncodeAppend(done, r);
  }

  lemma Sections(buf: seq<byte>, i: nat, j: nat, k: nat, l: nat)
    requires i <= j <= k <= l <= |buf|
    ensures buf[..l] == buf[..i] + (buf[i..j] + buf[j..k] + buf[k..l])
  {
  }

  lemma Regroup(a: seq<byte>, b: seq<byte>, c: seq<byte>)
    ensures a + (b + c) == (a + b) + c
  {
  }

  lemma DirectRecord(w: seq<byte>, b: seq<byte>, done: seq<Record>, r: Record)
    requires w + b == EncodeAll(done) && |r.content| % 8 == 0
    ensures w + (b + Header(r.kind, r.id, |r.content|, 0)) + r.content == EncodeAll(done + [r])
  {
    assert Zeros(Pad(|r.content|)) == [] && Pad(|r.content|) == 0;
    hide Header, EncodeAll, Zeros, Pad;
    var h := Header(r.kind, r.id, |r.content|, 0);
    assert Encode(r) == h + r.content by { assert h + r.content + [] == h + r.content; }
    EncodeAppend(done, r);
    Regroup(w, b, h);
    Regroup(w + b, h, r.content);
  }

  // ----- whole runs

  datatype Op = Put(kind: byte, str: seq<byte>) | Flush

  /** What a run of calls writes to the stream of type `t`. */
  function Written(t: byte, ops: seq<Op>): seq<byte> {
    if ops == [] then []
    else
      var last := ops[|ops| - 1];
      Written(t, ops[..|ops| - 1]) + if last.Put? && last.kind == t then last.str else []
  }

  ghost predicate Tracks(rs: seq<Record>, ops: seq<Op>) {
    forall t: byte :: StreamOf(t, rs) == Written(t, ops)
  }

  lemma TrackPut(rs: seq<Record>, rs': seq<Record>, ops: seq<Op>, e: int)
    requires ops != [] && ops[|ops| - 1].Put? && Tracks(rs, ops[..|ops| - 1])
    requires Wrote(rs, rs', ops[|ops| - 1].kind, ops[|ops| - 1].str, e)
    ensures Tracks(rs', ops)
  {
    forall t: byte ensures StreamOf(t, rs') == Written(t, ops) {
      assert StreamOf(t, rs) == Written(t, ops[..|ops| - 1]);
    }
  }

  /** A single write: the bytes on the wire, one by one. */
  method OneWrite(kind: byte, str: seq<byte>, id: nat, simple: bool) returns (wire: seq<byte>)
    requires id < 0x10000 && 0 < |str| < OUT_BUF - HEADER_LEN
    ensures var len := |str|; var pad := (8 - len % 8) % 8;
            && |wire| == 8 + len + pad + 16
            && wire[..8] == [1, kind, id / 256, id % 256, len / 256, len % 256, pad, 0]
            && wire[8..8 + len] == str && (forall k :: 8 + len <= k < 8 + len + pad ==> wire[k] == 0)
    ensures Ended(wire, id)
  {
    hide Wrote, EncodeAll, ValidRecords, Encode, Ended;
    var w := new Writer(id, None);
    ghost var r0 := w.Recs();
    var ret;
    if simple {
      ret := w.WriteSimple(kind, str);
    } else {
      ret := w.Write(kind, str);
    }
    assert w.wire + w.outBuf[..0] == [];
    ghost var r, e := Record(kind, id, w.Content()), Record(0, 0, []);
    OneRecord(w.done, r, str);
    assert w.Recs() == [r];
    var ok;
    ok, e := w.Flush(true);
    wire := w.wire;
    assert w.Recs() == w.done == [r] + [e];
    assert ValidRecord(w.done[1]);
    OneEncoded(r, e);
  }

  /** What a single write leaves is a single record. */
  lemma OneRecord(done: seq<Record>, r: Record, str: seq<byte>)
    requires EncodeAll(done) == [] && Wrote([], done + [r], r.kind, str, 0)
    ensures done == [] && r.content == str
  {
    assert done + [r] == [r] && [r][1..] == [];
    assert StreamOf(r.kind, [r]) == r.content + [] == r.content;
    assert StreamOf(r.kind, done + [r]) == StreamOf(r.kind, []) + str == [] + str == str;
  }

  lemma OneEncoded(r: Record, e: Record)
    requires ValidRecord(r) && ValidRecord(e) && |e.content| == 8
    ensures var wire, len := EncodeAll([r] + [e]), |r.content|; var pad := (8 - len % 8) % 8;
            && |wire| == 8 + len + pad + 16
            && wire[..8] == [1, r.kind, r.id / 256, r.id % 256, len / 256, len % 256, pad, 0]
            && wire[8..8 + len] == r.content && (forall k :: 8 + len <= k < 8 + len + pad ==> wire[k] == 0)
  {
    EncodedBytes(r);
    EncodedBytes(e);
    hide Encode;
    var rs := [r] + [e];
    assert rs[1..] == [e] && [e][1..] == [];
    assert EncodeAll(rs) == Encode(r) + (Encode(e) + EncodeAll([])) && EncodeAll([]) == [];
    var wire, len := EncodeAll(rs), |r.content|;
    var f, more := Encode(r), Encode(e) + EncodeAll([]);
    hide EncodeAll;
    assert |wire| == |f| + |more| && |more| == 16;
    assert wire[..8] == f[..8] && wire[8..8 + len] == f[8..8 + len];
    assert forall k :: 0 <= k < |f| ==> wire[k] == f[k];
  }

  /** `n` bytes of one type and a single byte of another: an empty record appears behind 8169 to 8176 bytes
      with either body, and behind 8177 to 8183 bytes with the optimised one alone. */
  method SwitchBehind(n: nat, simple: bool) returns (wire: seq<byte>, ghost rs: seq<Record>)
    requires 0 < n < OUT_BUF - HEADER_LEN
    ensures wire == EncodeAll(rs) && ValidRecords(rs)
    ensures StreamOf(6, rs) == Zeros(n) && StreamOf(7, rs) == [1]
    ensures Empties(rs) == if 8169 <= n <= 8176 || (!simple && n > 8176) then 1 else 0
  {
    hide Wrote, EncodeAll, ValidRecords;
    var w := new Writer(1, None);
    ghost var r0 := w.Recs();
    var ret;
    if simple {
      ret := w.WriteSimple(6, Zeros(n));
    } else {
      ret := w.Write(6, Zeros(n));
    }
    ghost var r1, e := w.Recs(), if 8169 <= n <= 8176 || (!simple && n > 8176) then 1 else 0;
    assert w.outHdr == 0 && w.outPos == HEADER_LEN + n;
    assert w.ClosedPos() == HEADER_LEN + n + Pad(n);
    PaddedEnd(n);
    assert e == if simple then w.BlanksSimple(7, 1) else w.Blanks(7, 1);
    if simple {
      ret := w.WriteSimple(7, [1]);
    } else {
      ret := w.Write(7, [1]);
    }
    TwoKinds(r0, r1, w.Recs(), Zeros(n), [1], e);
    var ok;
    ghost var end;
    ok, end := w.Flush(false);
    wire, rs := w.wire, w.done;
    assert w.Recs() == w.done;
  }

  lemma PaddedEnd(n: nat)
    ensures n + Pad(n) == 8176 <==> 8169 <= n <= 8176
    ensures n + Pad(n) > 8176 <==> n > 8176
  {
  }

  lemma TwoKinds(r0: seq<Record>, r1: seq<Record>, r2: seq<Record>, a: seq<byte>, b: seq<byte>, e: int)
    requires r0 == [] && Wrote(r0, r1, 6, a, 0) && Wrote(r1, r2, 7, b, e)
    ensures StreamOf(6, r2) == a && StreamOf(7, r2) == b && Empties(r2) == e
  {
    var s, t: byte := 6, 7;
    assert StreamOf(s, r1) == [] + a && StreamOf(s, r2) == StreamOf(s, r1) + [];
    assert StreamOf(t, r1) == [] + [] && StreamOf(t, r2) == StreamOf(t, r1) + b;
  }

  /** A run of writes and flushes, ended by `fcgi_end`, through the optimised or the clear body:
      the wire decodes to records whose streams are the bytes written, with the END record last. */
  method Run(ops: seq<Op>, id: nat, simple: bool, room: Option<nat>) returns (ok: bool, wire: seq<byte>)
    requires id < 0x10000
    ensures !ok ==> room.Some?
    ensures ok ==> Carries(wire, ops, id) && Ended(wire, id)
  {
    hide Wrote, Tracks, Carries, SameId, ValidRecords, EncodeAll;
    var w := new Writer(id, room);
    var i := 0;
    TracksNothing();
    while i < |ops|
      invariant i <= |ops| && w.Valid() && !w.broken && fresh(w) && fresh(w.outBuf) && w.id == id
      invariant w.limited == room.Some? && Tracks(w.Recs(), ops[..i])
    {
      assert ops[..i + 1][..i] == ops[..i];
      ok := Perform(w, ops[..i + 1], simple);
      if !ok {
        return false, [];
      }
      i := i + 1;
    }
    assert ops[..i] == ops;
    ghost var rs, e := w.Recs(), Record(0, 0, []);
    ok, e := w.Flush(true);
    wire := w.wire;
    assert w.done + [] == w.done;
    if ok { CarriesAll(rs, e, wire, ops, id); }
  }

  /** The last of `ops` on a writer that has done the others. */
  method Perform(w: Writer, ops: seq<Op>, simple: bool) returns (ok: bool)
    requires w.Valid() && !w.broken && ops != [] && Tracks(w.Recs(), ops[..|ops| - 1])
    modifies w, w.outBuf
    ensures ok ==> w.Valid() && !w.broken && Tracks(w.Recs(), ops)
    ensures !ok ==> w.limited
  {
    hide Wrote, Tracks, SameId, ValidRecords, EncodeAll;
    ghost var rs := w.Recs();
    ok := true;
    match ops[|ops| - 1] {
      case Put(kind, str) =>
        var ret;
        ghost var e := if simple then w.BlanksSimple(kind, |str|) else w.Blanks(kind, |str|);
        if simple { ret := w.WriteSimple(kind, str); } else { ret := w.Write(kind, str); }
        if ret == -1 {
          return false;
        }
        TrackPut(rs, w.Recs(), ops, e);
      case Flush =>
        ghost var none;
        ok, none := w.Flush(false);
        TrackFlush(rs, ops);
    }
  }

  lemma TracksNothing()
    ensures Tracks([], [])
  {
  }

  lemma TrackFlush(rs: seq<Record>, ops: seq<Op>)
    requires ops != [] && ops[|ops| - 1].Flush? && Tracks(rs, ops[..|ops| - 1])
    ensures Tracks(rs, ops)
  {
    forall t: byte ensures StreamOf(t, rs) == Written(t, ops) {
      assert StreamOf(t, rs) == Written(t, ops[..|ops| - 1]) && StreamOf(t, rs) + [] == StreamOf(t, rs);
    }
  }

  lemma CarriesAll(rs: seq<Record>, e: Record, wire: seq<byte>, ops: seq<Op>, id: nat)
    requires ValidRecords(rs + [e]) && wire == EncodeAll(rs + [e]) && e.kind == END_REQUEST && e.id == id
    requires SameId(rs + [e], id) && Tracks(rs, ops)
    ensures Carries(wire, ops, id)
  {
    DecodeEncodeAll(rs + [e]);
    assert SameId(rs, id) by { assert forall i :: 0 <= i < |rs| ==> (rs + [e])[i] == rs[i]; }
  }

  /** `wire` is a sequence of records of request `id` whose streams are what `ops` wrote, ended by an END
      record. */
  ghost predicate Carries(wire: seq<byte>, ops: seq<Op>, id: nat) {
    exists rs, e: Record ::
      && Decode(wire) == Some(rs + [e]) && e.kind == END_REQUEST && e.id == id
      && SameId(rs, id) && Tracks(rs, ops)
  }

  /** Runs with the same calls carry the same streams, whichever body wrote them. */
  lemma BodiesAgree(w1: seq<byte>, w2: seq<byte>, ops: seq<Op>, id: nat, t: byte)
    requires Carries(w1, ops, id) && Carries(w2, ops, id) && t != END_REQUEST
    ensures Decode(w1).Some? && Decode(w2).Some?
    ensures StreamOf(t, Decode(w1).value) == StreamOf(t, Decode(w2).value) == Written(t, ops)
  {
    var rs, e: Record :| Decode(w1) == Some(rs + [e]) && e.kind == END_REQUEST && e.id == id && SameId(rs, id)
      && Tracks(rs, ops);
    StreamAppend(t, rs, e);
    var rs', e': Record :| Decode(w2) == Some(rs' + [e']) && e'.kind == END_REQUEST && e'.id == id && SameId(rs', id)
      && Tracks(rs', ops);
    StreamAppend(t, rs', e');
    StreamsWritten(rs, ops, t);
    StreamsWritten(rs', ops, t);
  }

  lemma StreamsWritten(rs: seq<Record>, ops: seq<Op>, t: byte)
    requires Tracks(rs, ops)
    ensures StreamOf(t, rs) + [] == Written(t, ops)
  {
    assert StreamOf(t, rs) == Written(t, ops);
  }

  // ----- one stream

  /** `rs` carries `payload` in non-empty records of one type. */
  ghost predicate OneStream(kind: byte, rs: seq<Record>, payload: seq<byte>) {
    && ValidRecords(rs) && StreamOf(kind, rs) == payload
    && forall i :: 0 <= i < |rs| ==> rs[i].kind == kind && rs[i].content != []
  }

  lemma {:induction false} OnlyKind(kind: byte, rs: seq<Record>)
    requires forall t: byte :: t != kind ==> StreamOf(t, rs) == []
    requires Empties(rs) == 0
    ensures forall i :: 0 <= i < |rs| ==> rs[i].kind == kind && rs[i].content != []
  {
    if rs != [] {
      EmptiesCount(rs[1..]);
      assert rs[0].content != [];
      assert rs[0].kind != kind ==> StreamOf(rs[0].kind, rs) != [];
      forall t: byte | t != kind ensures StreamOf(t, rs[1..]) == [] {
        assert StreamOf(t, rs) == [];
      }
      OnlyKind(kind, rs[1..]);
      assert rs == [rs[0]] + rs[1..];
    }
  }

  lemma {:induction false} EmptiesCount(rs: seq<Record>)
    ensures Empties(rs) >= 0
  {
    if rs != [] { EmptiesCount(rs[1..]); }
  }

  /** Writing chunks of a single type and flushing emits no empty record. */
  method RunStream(kind: byte, chunks: seq<seq<byte>>, id: nat, simple: bool, room: Option<nat>)
    returns (ok: bool, wire: seq<byte>)
    requires id < 0x10000
    ensures !ok ==> room.Some?
    ensures ok ==> exists rs :: wire == EncodeAll(rs) && OneStream(kind, rs, Concat(chunks)) && SameId(rs, id)
  {
    hide Wrote, SoFar, OneStream, EncodeAll;
    var w := new Writer(id, room);
    var i := 0;
    SoFarNothing(kind);
    while i < |chunks|
      invariant i <= |chunks| && w.Valid() && !w.broken && fresh(w) && fresh(w.outBuf) && w.id == id
      invariant w.limited == room.Some? && (w.outHdr == NULL || w.Open(kind))
      invariant SoFar(kind, w.Recs(), Concat(chunks[..i]))
    {
      assert chunks[..i + 1][..i] == chunks[..i];
      ghost var rs := w.Recs();
      var ret;
      if simple { ret := w.WriteSimple(kind, chunks[i]); } else { ret := w.Write(kind, chunks[i]); }
      if ret == -1 {
        assert w.limited;
        return false, [];
      }
      SoFarMore(kind, rs, w.Recs(), Concat(chunks[..i]), chunks[i]);
      i := i + 1;
    }
    assert chunks[..i] == chunks;
    ghost var none;
    ghost var rs := w.Recs();
    SoFarOne(kind, rs, Concat(chunks));
    ok, none := w.Flush(false);
    wire := w.wire;
  }

  lemma SoFarOne(kind: byte, rs: seq<Record>, payload: seq<byte>)
    requires SoFar(kind, rs, payload)
    ensures ValidRecords(rs) ==> OneStream(kind, rs, payload)
  {
    OnlyKind(kind, rs);
  }

  ghost predicate SoFar(kind: byte, rs: seq<Record>, payload: seq<byte>) {
    Empties(rs) == 0 && forall t: byte :: StreamOf(t, rs) == if t == kind then payload else []
  }

  lemma SoFarNothing(kind: byte)
    ensures SoFar(kind, [], [])
  {
  }

  lemma SoFarMore(kind: byte, rs: seq<Record>, rs': seq<Record>, payload: seq<byte>, chunk: seq<byte>)
    requires SoFar(kind, rs, payload) && Wrote(rs, rs', kind, chunk, 0)
    ensures SoFar(kind, rs', payload + chunk)
  {
    forall t: byte ensures StreamOf(t, rs') == if t == kind then payload + chunk else [] {
      assert StreamOf(t, rs) == if t == kind then payload else [];
    }
  }
}
