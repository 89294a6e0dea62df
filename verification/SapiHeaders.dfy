/** The response headers as they are kept: a linked list, a code, a status line and a MIME type,
    changed by `sapi_header_op`; every call is proved to do what HeaderSpec says. */
module SapiHeaders {
  import opened Common
  import opened HeaderList
  import opened HeaderSpec

  /** `strlcpy`: copy what fits into `size` bytes with the final NUL. */
  function StrLCpy(src: string, size: nat): string
    requires size > 0
  {
    if |src| < size then src else src[..size - 1]
  }

  /** `strlcat`: append what fits into `size` bytes with the final NUL. */
  function StrLCat(dst: string, src: string, size: nat): string
    requires |dst| < size
  {
    dst + if |dst| + |src| < size then src else src[..size - 1 - |dst|]
  }

  /** Cut off trailing spaces, linefeeds and carriage returns. */
  method CutSpaces(line: string) returns (cut: string)
    ensures cut == Trim(line)
  {
    var len := |line|;
    assert line[..len] == line;
    while len > 0 && IsSpace(line[len - 1])
      invariant 0 <= len <= |line| && Trim(line) == Trim(line[..len])
    {
      assert line[..len][..len - 1] == line[..len - 1];
      len := len - 1;
    }
    cut := line[..len];
  }

  /** The safety check for new lines and NULs. */
  method CheckLine(line: string) returns (ok: bool)
    ensures ok <==> Legal(line)
  {
    var i := 0;
    while i < |line|
      invariant i <= |line| && forall k :: 0 <= k < i ==> line[k] != '\n' && line[k] != '\r' && line[k] != '\0'
    {
      if line[i] == '\n' || line[i] == '\r' {
        return false;
      }
      if line[i] == '\0' {
        return false;
      }
      i := i + 1;
    }
    ok := true;
  }

  /** `sapi_extract_response_code`. */
  method ExtractResponseCode(line: string) returns (code: int)
    ensures code == ExtractCode(line)
  {
    code := 200;
    var i := 0;
    while i < |line|
      invariant i <= |line| && ExtractCode(line) == ExtractCode(line[i..])
    {
      if line[i] == ' ' && (i + 1 == |line| || line[i + 1] != ' ') {
        assert line[i..][1..] == line[i + 1..];
        return AtoI(line[i + 1..]);
      }
      assert line[i..][1..] == line[i + 1..];
      i := i + 1;
    }
  }

  /** Skip the blanks before the MIME type, counting its length down. */
  method SkipBlanks(s: string) returns (rest: string, len: nat)
    ensures rest == SkipSpaces(s) && len == |rest|
  {
    var i := 0;
    len := |s|;
    while i < |s| && s[i] == ' '
      invariant i <= |s| && len == |s| - i && SkipSpaces(s) == SkipSpaces(s[i..])
    {
      assert s[i..][1..] == s[i + 1..];
      i, len := i + 1, len - 1;
    }
    rest := s[i..];
  }

  /** `sapi_apply_default_charset`: the new length, or 0 when nothing was added; the buffer is exactly
      as long as needed. */
  method ApplyDefaultCharset(mimetype: string, len: nat, charset: string) returns (full: string, newlen: nat)
    requires len == |mimetype|
    ensures full == WithCharset(mimetype, charset)
    ensures newlen == (if full == mimetype then 0 else |full|) && (newlen == 0 <==> full == mimetype)
  {
    if charset != "" && "text/" <= mimetype && !Contains(mimetype, "charset=") {
      newlen := len + |";charset="| + |charset|;
      full := StrLCpy(mimetype, newlen + 1);
      full := StrLCat(full, ";charset=", newlen + 1);
      full := StrLCat(full, charset, newlen + 1);
    } else {
      full, newlen := mimetype, 0;
    }
  }

  /** The header that replaces the line when a charset was added: `newlen` counts the final NUL. */
  method NewHeader(mimetype: string, typeLength: nat) returns (header: string, headerLength: nat)
    requires typeLength == |mimetype|
    ensures header == "Content-type: " + mimetype && headerLength == |header|
  {
    var newlen := typeLength + |"Content-type: "| + 1;
    header := StrLCpy("Content-type: ", newlen);
    header := StrLCat(header, mimetype, newlen);
    headerLength := newlen - 1;
  }

  class Sapi {
    const req: Request
    const list: List
    var sent: bool
    var code: int
    var status: Option<string>
    var mimetype: Option<string>
    var sendDefault: bool

    ghost predicate Valid()
      reads this, list, list.repr
    {
      list.Valid()
    }

    ghost function View(): State
      reads this, list
    {
      State(list.Contents(), code, status, mimetype, sendDefault)
    }

    constructor (req: Request, code: int)
      ensures Valid() && View() == State([], code, None, None, true) && !sent && this.req == req
      ensures fresh(list) && list.repr == {}
    {
      this.req, this.code := req, code;
      list := new List();
      sent, status, mimetype, sendDefault := false, None, None, true;
    }

    /** `sapi_update_response_code`. */
    method UpdateResponseCode(ncode: int)
      modifies this`code, this`status
      ensures View() == UpdateCode(old(View()), ncode)
    {
      if code == ncode {
        return;
      }
      status := None;
      code := ncode;
    }

    /** What the code does for the headers it knows. */
    method Recognise(line: string, c: nat, lineCode: int) returns (header: string)
      requires c == Find(line, ':') < |line|
      modifies this`code, this`status, this`mimetype, this`sendDefault
      ensures View() == SideEffects(old(View()), req, line, lineCode) && header == Stored(line, req.charset)
    {
      header := line;
      var name := LowerAll(line[..c]);
      if name == "content-type" {
        header := ContentType(line, c);
      } else if name == "location" {
        if (code < 300 || code > 399) && code != 201 {
          if lineCode != 0 {
            UpdateResponseCode(lineCode);
          } else if req.proto > 1000 && req.requestMethod.Some? && req.requestMethod.value != "HEAD"
            && req.requestMethod.value != "GET" {
            UpdateResponseCode(303);
          } else {
            UpdateResponseCode(302);
          }
        }
      } else if name == "www-authenticate" {
        UpdateResponseCode(401);
      }
    }

    method ContentType(line: string, c: nat) returns (header: string)
      requires c == Find(line, ':') < |line| && IsContentType(line)
      modifies this`mimetype, this`sendDefault
      ensures header == Stored(line, req.charset) && !sendDefault
      ensures mimetype == if old(mimetype).Some? then old(mimetype) else Some(WithCharset(MimeType(line), req.charset))
    {
      hide WithCharset;
      var ptr, len := SkipBlanks(line[c + 1..]);
      var full, newlen := ApplyDefaultCharset(ptr, len, req.charset);
      if mimetype.None? {
        mimetype := Some(full);
      }
      header := line;
      if newlen != 0 {
        var headerLength;
        header, headerLength := NewHeader(full, newlen);
      }
      sendDefault := false;
    }

    /** `sapi_header_add_op`. */
    method AddOp(replace: bool, header: string)
      requires Valid()
      modifies list, list.repr
      ensures Valid() && fresh(list.repr - old(list.repr))
      ensures list.Contents() == if replace then ReplaceIn(old(list.Contents()), header)
        else old(list.Contents()) + [header]
    {
      if replace {
        var colon := Find(header, ':');
        if colon < |header| {
          list.Remove(header[..colon]);
        }
      }
      list.Add(header);
    }

    /** The adding and replacing part of `sapi_header_op`. */
    method Enter(replace: bool, line: string, lineCode: int) returns (ok: bool)
      requires Valid()
      modifies this`code, this`status, this`mimetype, this`sendDefault, list, list.repr
      ensures Valid() && fresh(list.repr - old(list.repr))
      ensures (View(), ok) == Put(old(View()), req, replace, line, lineCode)
    {
      hide Legal, Stored, SideEffects, ReplaceIn, UpdateCode, ExtractCode;
      ok := CheckLine(line);
      if !ok { return; }
      if |line| >= 5 && LowerAll(line[..5]) == "http/" {
        StatusLine(line);
        return;
      }
      ghost var s := View();
      var header := line;
      var c := Find(line, ':');
      if c < |line| {
        header := Recognise(line, c, lineCode);
      } else {
        Plain(s, req, line, lineCode);
      }
      ghost var s1 := View();
      assert s1 == SideEffects(s, req, line, lineCode);
      if lineCode != 0 {
        UpdateResponseCode(lineCode);
      }
      ghost var s2 := View();
      AddOp(replace, header);
      assert View() == s2.(headers := list.Contents());
    }

    method StatusLine(line: string)
      modifies this`code, this`status
      ensures View() == UpdateCode(old(View()), ExtractCode(line)).(status := Some(line))
    {
      var ncode := ExtractResponseCode(line);
      UpdateResponseCode(ncode);
      status := Some(line);
    }

    /** `sapi_header_op` without a header handler. */
    method Op(c: Command) returns (ok: bool)
      requires Valid()
      modifies this, list, list.repr
      ensures Valid() && sent == old(sent) && fresh(list.repr - old(list.repr))
      ensures (View(), ok) == HeaderOp(old(View()), req, sent, c)
    {
      hide Put, UpdateCode, Trim, Find, Without;
      if sent && !req.noHeaders {
        return false;
      }
      match c {
        case SetStatus(ncode) =>
          UpdateResponseCode(ncode);
          return true;
        case DeleteAll =>
          list.Clean();
          return true;
        case Delete(line) =>
          if line == "" { return false; }
          var name := CutSpaces(line);
          if Find(name, ':') < |name| { return false; }
          list.Remove(name);
          return true;
        case Add(line, code) =>
          if line == "" { return false; }
          var cut := CutSpaces(line);
          ok := Enter(false, cut, code);
        case Replace(line, code) =>
          if line == "" { return false; }
          var cut := CutSpaces(line);
          ok := Enter(true, cut, code);
      }
    }
  }

  lemma Plain(s: State, req: Request, line: string, code: int)
    requires Find(line, ':') == |line|
    ensures SideEffects(s, req, line, code) == s && Stored(line, req.charset) == line
  {
  }

  /** The state after a run of operations. */
  function Run(s: State, req: Request, sent: bool, cs: seq<Command>): State {
    if cs == [] then s else HeaderOp(Run(s, req, sent, cs[..|cs| - 1]), req, sent, cs[|cs| - 1]).0
  }

  lemma {:induction false} RunKeepsLegal(s: State, req: Request, sent: bool, cs: seq<Command>)
    requires LegalState(s) && Legal(req.charset)
    ensures LegalState(Run(s, req, sent, cs))
  {
    if cs != [] {
      RunKeepsLegal(s, req, sent, cs[..|cs| - 1]);
      OpKeepsLegal(Run(s, req, sent, cs[..|cs| - 1]), req, sent, cs[|cs| - 1]);
    }
  }

  /** Any run of operations: the lines to send are those of the specification, and contain no CR, LF
      or NUL when the default charset contains none. */
  method Session(req: Request, cs: seq<Command>) returns (lines: seq<string>)
    ensures lines == Run(State([], 200, None, None, true), req, false, cs).headers
    ensures Legal(req.charset) ==> AllLegal(lines)
  {
    hide HeaderOp, Legal;
    var sapi := new Sapi(req, 200);
    ghost var start := sapi.View();
    var i := 0;
    while i < |cs|
      invariant i <= |cs| && sapi.Valid() && fresh(sapi) && fresh(sapi.list) && fresh(sapi.list.repr) && !sapi.sent
      invariant sapi.View() == Run(start, req, false, cs[..i])
    {
      assert cs[..i + 1][..i] == cs[..i];
      var _ := sapi.Op(cs[i]);
      i := i + 1;
    }
    assert cs[..i] == cs;
    if Legal(req.charset) { RunKeepsLegal(start, req, false, cs); }
    lines := Lines(sapi.list);
  }

  /** The lines of a list, front to back. */
  method Lines(list: List) returns (lines: seq<string>)
    requires list.Valid()
    ensures lines == list.Contents()
  {
    lines := [];
    var current := list.head;
    ghost var i := 0;
    while current != null
      invariant 0 <= i <= |list.nodes| && current == list.At(i) && lines == list.Contents()[..i]
      decreases |list.nodes| - i
    {
      assert list.LinkOk(i);
      lines := lines + [current.header];
      current := current.next;
      i := i + 1;
    }
  }
}
