/** Header operations on values: which lines are accepted, what they become, and what is left of the
    list; with the properties of every run. */
module HeaderSpec {
  import opened Common
  import opened HeaderList

  // ----- C strings

  predicate IsSpace(c: char) {
    c in {' ', '\t', '\n', '\U{B}', '\U{C}', '\r'}
  }

  function Trim(line: string): (r: string)
    ensures r <= line && (r != "" ==> !IsSpace(r[|r| - 1]))
  {
    if line != "" && IsSpace(line[|line| - 1]) then Trim(line[..|line| - 1]) else line
  }

  /** Where `strchr` finds `c`, or the length of `s`; the search ends at a NUL. */
  function Find(s: string, c: char): (i: nat)
    ensures i <= |s| && (i < |s| ==> s[i] == c)
    ensures forall j :: 0 <= j < i ==> s[j] != c || i == |s|
  {
    if s == "" || s[0] == c then 0
    else if s[0] == '\0' then |s|
    else 1 + Find(s[1..], c)
  }

  /** No CR, LF or NUL. */
  predicate Legal(s: string) {
    forall i :: 0 <= i < |s| ==> s[i] != '\n' && s[i] != '\r' && s[i] != '\0'
  }

  function LowerAll(s: string): (r: string)
    ensures |r| == |s| && forall i :: 0 <= i < |s| ==> r[i] == Lower(s[i])
  {
    seq(|s|, i requires 0 <= i < |s| => Lower(s[i]))
  }

  function SkipSpaces(s: string): string {
    if s != "" && s[0] == ' ' then SkipSpaces(s[1..]) else s
  }

  predicate Contains(s: string, t: string) {
    exists i :: 0 <= i <= |s| && t <= s[i..]
  }

  function Digits(s: string, acc: int): int {
    if s != "" && '0' <= s[0] <= '9' then Digits(s[1..], acc * 10 + (s[0] as int - '0' as int)) else acc
  }

  /** `atoi`. */
  function AtoI(s: string): int {
    if s == "" then 0
    else if IsSpace(s[0]) then AtoI(s[1..])
    else if s[0] == '-' then -Digits(s[1..], 0)
    else if s[0] == '+' then Digits(s[1..], 0)
    else Digits(s, 0)
  }

  /** The number behind the last of the first spaces, or 200. */
  function ExtractCode(line: string): int {
    if line == "" then 200
    else if line[0] == ' ' && (|line| == 1 || line[1] != ' ') then AtoI(line[1..])
    else ExtractCode(line[1..])
  }

  // ----- the state

  /** What a header operation consults besides the header state. */
  datatype Request = Request(charset: string, noHeaders: bool, proto: int, requestMethod: Option<string>)

  datatype State = State(headers: seq<string>, code: int, status: Option<string>, mimetype: Option<string>,
                         sendDefault: bool)

  datatype Command =
    | SetStatus(ncode: int)
    | Add(line: string, code: int)
    | Replace(line: string, code: int)
    | Delete(line: string)
    | DeleteAll

  function UpdateCode(s: State, ncode: int): State {
    if s.code == ncode then s else s.(code := ncode, status := None)
  }

  predicate IsStatus(line: string) {
    |line| >= 5 && LowerAll(line[..5]) == "http/"
  }

  /** A text type without a charset gets the default one. */
  function WithCharset(mimetype: string, charset: string): string {
    if charset != "" && "text/" <= mimetype && !Contains(mimetype, "charset=") then mimetype + ";charset=" + charset
    else mimetype
  }

  predicate IsContentType(line: string) {
    var c := Find(line, ':');
    c < |line| && LowerAll(line[..c]) == "content-type"
  }

  function MimeType(line: string): string {
    var c := Find(line, ':');
    if c < |line| then SkipSpaces(line[c + 1..]) else ""
  }

  /** The line as it is stored. */
  function Stored(line: string, charset: string): string {
    if IsContentType(line) && WithCharset(MimeType(line), charset) != MimeType(line)
    then "Content-type: " + WithCharset(MimeType(line), charset)
    else line
  }

  /** The code a redirect without a code of its own gets. */
  function RedirectCode(req: Request, code: int): int {
    if code != 0 then code
    else if req.proto > 1000 && req.requestMethod.Some? && req.requestMethod.value != "HEAD"
      && req.requestMethod.value != "GET" then 303
    else 302
  }

  /** What a line does to the response besides being listed. */
  function SideEffects(s: State, req: Request, line: string, code: int): State {
    var c := Find(line, ':');
    if c == |line| then s
    else
      var name := LowerAll(line[..c]);
      if name == "content-type" then
        s.(mimetype := if s.mimetype.Some? then s.mimetype else Some(WithCharset(MimeType(line), req.charset)),
           sendDefault := false)
      else if name == "location" && (s.code < 300 || s.code > 399) && s.code != 201
        then UpdateCode(s, RedirectCode(req, code))
      else if name == "www-authenticate" then UpdateCode(s, 401)
      else s
  }

  function ReplaceIn(hs: seq<string>, header: string): seq<string> {
    var c := Find(header, ':');
    (if c < |header| then Without(hs, header[..c]) else hs) + [header]
  }

  /** Adding (or replacing by) a line that has been trimmed. */
  function Put(s: State, req: Request, replace: bool, line: string, code: int): (State, bool) {
    if !Legal(line) then (s, false)
    else if IsStatus(line) then (UpdateCode(s, ExtractCode(line)).(status := Some(line)), true)
    else
      var s1 := SideEffects(s, req, line, code);
      var s2 := if code != 0 then UpdateCode(s1, code) else s1;
      var h := Stored(line, req.charset);
      (s2.(headers := if replace then ReplaceIn(s2.headers, h) else s2.headers + [h]), true)
  }

  /** `sapi_header_op`, without a header handler. */
  function HeaderOp(s: State, req: Request, sent: bool, c: Command): (State, bool) {
    if sent && !req.noHeaders then (s, false)
    else match c
      case SetStatus(ncode) => (UpdateCode(s, ncode), true)
      case DeleteAll => (s.(headers := []), true)
      case Delete(line) =>
        if line == "" || Find(Trim(line), ':') < |Trim(line)| then (s, false)
        else (s.(headers := Without(s.headers, Trim(line))), true)
      case Add(line, code) => if line == "" then (s, false) else Put(s, req, false, Trim(line), code)
      case Replace(line, code) => if line == "" then (s, false) else Put(s, req, true, Trim(line), code)
  }

  // ----- names

  /** `h` is a header called `name`, whatever the case. */
  predicate Named(h: string, name: string) {
    var c := Find(h, ':');
    c < |h| && LowerAll(h[..c]) == LowerAll(name)
  }

  lemma {:induction false} SameNoCaseMeans(a: string, b: string, n: nat)
    requires n <= |a| && n <= |b| && '\0' !in a
    ensures SameNoCase(a, b, n) <==> LowerAll(a[..n]) == LowerAll(b[..n])
  {
    if n > 0 {
      SameNoCaseMeans(a[1..], b[1..], n - 1);
      assert a[..n] == [a[0]] + a[1..][..n - 1] && b[..n] == [b[0]] + b[1..][..n - 1];
      assert LowerAll(a[..n]) == [Lower(a[0])] + LowerAll(a[1..][..n - 1]);
      assert LowerAll(b[..n]) == [Lower(b[0])] + LowerAll(b[1..][..n - 1]);
    }
  }

  lemma {:induction false} FindFirst(s: string, c: char, i: nat)
    requires i < |s| && s[i] == c && forall j :: 0 <= j < i ==> s[j] != c && s[j] != '\0'
    ensures Find(s, c) == i
  {
    if i > 0 { FindFirst(s[1..], c, i - 1); }
  }

  /** A character that is not found although it is there is behind a NUL. */
  lemma {:induction false} FoundOrNul(s: string, c: char)
    requires c in s && Find(s, c) == |s|
    ensures '\0' in s
  {
    if s[0] != '\0' && s[0] != c {
      assert c in s[1..];
      FoundOrNul(s[1..], c);
      assert s == [s[0]] + s[1..];
    }
  }

  lemma NulNotNamed(h: string, name: string)
    requires '\0' !in h && '\0' in name
    ensures !Matches(h, name) && !Named(h, name)
  {
    var i :| 0 <= i < |name| && name[i] == '\0';
    if |h| > |name| {
      SameNoCaseMeans(h, name, |name|);
      assert name[..|name|] == name;
      assert LowerAll(h[..|name|])[i] != LowerAll(name)[i];
    }
    var c := Find(h, ':');
    assert i < c < |h| ==> LowerAll(h[..c])[i] != LowerAll(name)[i];
  }

  /** The test of the removing loop is equality of names ignoring case, for every name that a DELETE
      accepts, even one with a colon behind a NUL. */
  lemma MatchesIsNamed(h: string, name: string)
    requires '\0' !in h && Find(name, ':') == |name|
    ensures Matches(h, name) <==> Named(h, name)
  {
    if ':' in name {
      FoundOrNul(name, ':');
      NulNotNamed(h, name);
    } else {
      PlainNamed(h, name);
    }
  }

  lemma PlainNamed(h: string, name: string)
    requires '\0' !in h && ':' !in name
    ensures Matches(h, name) <==> Named(h, name)
  {
    var n := |name|;
    if |h| > n {
      SameNoCaseMeans(h, name, n);
      assert name[..n] == name;
      if h[n] == ':' && LowerAll(h[..n]) == LowerAll(name) {
        forall j | 0 <= j < n ensures h[j] != ':' {
          assert LowerAll(h[..n])[j] == LowerAll(name)[j] && name[j] in name;
        }
        FindFirst(h, ':', n);
      }
    }
    if Named(h, name) { assert |LowerAll(h[..Find(h, ':')])| == n; }
  }

  /** No line contains a NUL; this is all the names need. */
  ghost predicate NulFree(hs: seq<string>) {
    forall i :: 0 <= i < |hs| ==> '\0' !in hs[i]
  }

  /** All stored lines are free of CR, LF and NUL. */
  ghost predicate AllLegal(hs: seq<string>) {
    forall i :: 0 <= i < |hs| ==> Legal(hs[i])
  }

  ghost predicate LegalState(s: State) {
    AllLegal(s.headers) && (s.status.Some? ==> Legal(s.status.value)) && (s.mimetype.Some? ==> Legal(s.mimetype.value))
  }

  lemma LegalWithout(hs: seq<string>, name: string)
    requires AllLegal(hs)
    ensures AllLegal(Without(hs, name))
  {
    WithoutKeeps(hs, name);
    var left := Without(hs, name);
    forall i | 0 <= i < |left| ensures Legal(left[i]) {
      assert left[i] in left;
      assert left[i] in hs;
    }
  }

  lemma LegalSkip(s: string)
    requires Legal(s)
    ensures Legal(SkipSpaces(s))
  {
    if s != "" && s[0] == ' ' { LegalSkip(s[1..]); }
  }

  lemma LegalStored(line: string, charset: string)
    requires Legal(line) && Legal(charset)
    ensures Legal(Stored(line, charset)) && Legal(MimeType(line)) && Legal(WithCharset(MimeType(line), charset))
  {
    LegalMimeType(line);
    hide MimeType, Find, LowerAll, Contains, IsContentType;
    assert Legal(";charset=") && Legal("Content-type: ");
    hide Legal;
    var mimetype := MimeType(line);
    LegalConcat(mimetype, ";charset=");
    LegalConcat(mimetype + ";charset=", charset);
    LegalConcat("Content-type: ", WithCharset(mimetype, charset));
  }

  lemma LegalMimeType(line: string)
    requires Legal(line)
    ensures Legal(MimeType(line))
  {
    var c := Find(line, ':');
    if c < |line| { LegalSkip(line[c + 1..]); }
  }

  lemma LegalConcat(a: string, b: string)
    ensures Legal(a) && Legal(b) ==> Legal(a + b)
  {
  }

  /** With a charset free of CR, LF and NUL, every operation keeps all stored lines free of them. */
  lemma OpKeepsLegal(s: State, req: Request, sent: bool, c: Command)
    requires LegalState(s) && Legal(req.charset)
    ensures LegalState(HeaderOp(s, req, sent, c).0)
  {
    match c {
      case SetStatus(_) =>
      case DeleteAll =>
      case Delete(line) => LegalWithout(s.headers, Trim(line));
      case Add(line, code) => PutKeepsLegal(s, req, false, Trim(line), code);
      case Replace(line, code) => PutKeepsLegal(s, req, true, Trim(line), code);
    }
  }

  lemma LegalEffects(s: State, req: Request, line: string, code: int)
    requires LegalState(s) && Legal(line) && Legal(req.charset)
    ensures LegalState(SideEffects(s, req, line, code)) && SideEffects(s, req, line, code).headers == s.headers
  {
    hide Legal, Stored, WithCharset, MimeType, LowerAll, AllLegal;
    LegalStored(line, req.charset);
  }

  lemma LegalAppend(hs: seq<string>, h: string)
    requires AllLegal(hs) && Legal(h)
    ensures AllLegal(hs + [h])
  {
  }

  lemma LegalReplace(hs: seq<string>, h: string)
    requires AllLegal(hs) && Legal(h)
    ensures AllLegal(ReplaceIn(hs, h))
  {
    var c := Find(h, ':');
    if c < |h| { LegalWithout(hs, h[..c]); }
    hide Legal, AllLegal, Without, Find;
    LegalAppend(if c < |h| then Without(hs, h[..c]) else hs, h);
  }

  lemma PutKeepsLegal(s: State, req: Request, replace: bool, line: string, code: int)
    requires LegalState(s) && Legal(req.charset)
    ensures LegalState(Put(s, req, replace, line, code).0)
  {
    if Legal(line) && !IsStatus(line) {
      hide Legal, Stored, WithCharset, MimeType, Without, Find, LowerAll, IsStatus, SideEffects, AllLegal;
      LegalStored(line, req.charset);
      LegalEffects(s, req, line, code);
      hide ReplaceIn;
      LegalReplace(s.headers, Stored(line, req.charset));
      LegalAppend(s.headers, Stored(line, req.charset));
    }
  }

  // ----- the laws of replacing and deleting

  /** The line that is stored has the name of the line that was given, up to case. */
  lemma StoredName(line: string, charset: string)
    requires Find(line, ':') < |line|
    ensures var c := Find(line, ':');
            Find(Stored(line, charset), ':') < |Stored(line, charset)| && Named(Stored(line, charset), line[..c])
  {
    hide WithCharset, MimeType, LowerAll;
    if Stored(line, charset) != line {
      ContentTypeName(WithCharset(MimeType(line), charset));
    }
  }

  lemma ContentTypeName(value: string)
    ensures var h := "Content-type: " + value; Find(h, ':') == 12 && LowerAll(h[..12]) == "content-type"
  {
    var h := "Content-type: " + value;
    assert h[..12] == "Content-type" && h[12] == ':';
    assert LowerAll("Content-type") == "content-type";
    FindFirst(h, ':', 12);
  }

  /** After a REPLACE of a line that, without its trailing white space, is legal, has a colon and is not a
      status line, exactly one header has its name, the last one; all others are as before and in the
      same order. */
  lemma ReplaceLaw(s: State, req: Request, line: string, code: int)
    requires NulFree(s.headers)
    requires var t := Trim(line); Legal(t) && !IsStatus(t) && Find(t, ':') < |t|
    ensures var t := Trim(line); var name := t[..Find(t, ':')];
            var (s', ok) := HeaderOp(s, req, false, Replace(line, code)); var hs := s'.headers;
            && ok && hs == Others(s.headers, name) + [Stored(t, req.charset)]
            && Named(Stored(t, req.charset), name)
            && forall i :: 0 <= i < |hs| - 1 ==> !Named(hs[i], name)
  {
    hide Put, IsStatus, Stored, Others, Named, Find, Legal;
    PutLaw(s, req, Trim(line), code);
  }

  lemma PutLaw(s: State, req: Request, line: string, code: int)
    requires Legal(line) && !IsStatus(line) && Find(line, ':') < |line| && NulFree(s.headers)
    ensures var name := line[..Find(line, ':')]; var hs := Put(s, req, true, line, code).0.headers;
            && Put(s, req, true, line, code).1
            && hs == Others(s.headers, name) + [Stored(line, req.charset)]
            && Named(Stored(line, req.charset), name)
            && forall i :: 0 <= i < |hs| - 1 ==> !Named(hs[i], name)
  {
    hide Legal, Stored, SideEffects, IsStatus, Without, Others, LowerAll, Find;
    var c, h := Find(line, ':'), Stored(line, req.charset);
    var d := Find(h, ':');
    StoredName(line, req.charset);
    NotFound(h[..d], ':');
    WithoutIsOthers(s.headers, h[..d]);
    SameOthers(s.headers, h[..d], line[..c]);
    NoneNamed(s.headers, line[..c]);
    SameList(s, req, line, code);
  }

  lemma SameList(s: State, req: Request, line: string, code: int)
    ensures SideEffects(s, req, line, code).headers == s.headers
  {
    hide LowerAll, MimeType, WithCharset;
  }

  /** A DELETE is accepted exactly for a line in which no colon is found, and then leaves no header of that
      name and the others in the same order. */
  lemma DeleteLaw(s: State, req: Request, line: string)
    requires NulFree(s.headers)
    ensures var name := Trim(line);
            && HeaderOp(s, req, false, Delete(line))
               == (if line != "" && Find(name, ':') == |name| then (s.(headers := Others(s.headers, name)), true)
                 else (s, false))
            && forall i :: 0 <= i < |Others(s.headers, name)| ==> !Named(Others(s.headers, name)[i], name)
  {
    var name := Trim(line);
    NoneNamed(s.headers, name);
    hide Others, Without, Named, Find, Legal;
    if Find(name, ':') == |name| { WithoutIsOthers(s.headers, name); }
  }

  lemma {:induction false} AllTrimmed(line: string)
    requires forall i :: 0 <= i < |line| ==> IsSpace(line[i])
    ensures Trim(line) == ""
  {
    if line != "" { AllTrimmed(line[..|line| - 1]); }
  }

  /** A line of nothing but white space is not refused: deleting it removes the headers that begin with a
      colon, and adding it stores an empty line. */
  lemma OnlyWhiteSpace(s: State, req: Request, line: string)
    requires NulFree(s.headers) && line != "" && forall i :: 0 <= i < |line| ==> IsSpace(line[i])
    ensures HeaderOp(s, req, false, Delete(line)) == (s.(headers := Others(s.headers, "")), true)
    ensures forall h: string :: Named(h, "") <==> ":" <= h
    ensures HeaderOp(s, req, false, Add(line, 0)) == (s.(headers := s.headers + [""]), true)
  {
    AllTrimmed(line);
    DeleteLaw(s, req, line);
    forall h: string ensures Named(h, "") <==> ":" <= h {
      if Named(h, "") { assert |LowerAll(h[..Find(h, ':')])| == 0; }
    }
  }

  /** The headers of other names, in order. */
  function Others(hs: seq<string>, name: string): seq<string> {
    if hs == [] then []
    else Others(hs[..|hs| - 1], name) + if Named(hs[|hs| - 1], name) then [] else [hs[|hs| - 1]]
  }

  lemma {:induction false} WithoutIsOthers(hs: seq<string>, name: string)
    requires NulFree(hs) && Find(name, ':') == |name|
    ensures Without(hs, name) == Others(hs, name)
  {
    hide Matches, Named;
    if hs != [] {
      WithoutIsOthers(hs[..|hs| - 1], name);
      MatchesIsNamed(hs[|hs| - 1], name);
    }
  }

  lemma {:induction false} SameOthers(hs: seq<string>, a: string, b: string)
    requires LowerAll(a) == LowerAll(b)
    ensures Others(hs, a) == Others(hs, b)
  {
    if hs != [] { SameOthers(hs[..|hs| - 1], a, b); }
  }

  lemma {:induction false} NoneNamed(hs: seq<string>, name: string)
    ensures forall i :: 0 <= i < |Others(hs, name)| ==> !Named(Others(hs, name)[i], name)
  {
    hide Named;
    if hs != [] { NoneNamed(hs[..|hs| - 1], name); }
  }

  lemma {:induction false} NotFound(s: string, c: char)
    requires c !in s
    ensures Find(s, c) == |s|
  {
    if s != "" { NotFound(s[1..], c); }
  }

  /** A call that fails changes nothing. */
  lemma FailureKeeps(s: State, req: Request, sent: bool, c: Command)
    ensures !HeaderOp(s, req, sent, c).1 ==> HeaderOp(s, req, sent, c).0 == s
  {
  }
}
