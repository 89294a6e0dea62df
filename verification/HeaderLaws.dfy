/** What a header operation does to the response, spelled out for the line it is given: which lines are
    accepted, which content types get the default charset, and which response codes come of it. */
module HeaderLaws {
  import opened Common
  import opened HeaderList
  import opened HeaderSpec

  // ----- lines

  predicate White(c: char) {
    c == ' ' || 9 <= c as int <= 13
  }

  /** `raw` is `line` with white space behind it. */
  ghost predicate Cut(raw: string, line: string, white: string) {
    && raw == line + white && (forall i :: 0 <= i < |white| ==> White(white[i]))
    && (line != "" ==> !White(line[|line| - 1]))
  }

  lemma CutIsTrim(raw: string, line: string, white: string)
    requires Cut(raw, line, white)
    ensures Trim(raw) == line
  {
    TrimCut(line, white);
  }

  lemma {:induction false} TrimCut(line: string, white: string)
    requires (forall i :: 0 <= i < |white| ==> White(white[i])) && (line != "" ==> !White(line[|line| - 1]))
    ensures Trim(line + white) == line
  {
    if white == "" {
      assert line + white == line;
    } else {
      var n := |white| - 1;
      TrimCut(line, white[..n]);
      TrimOne(line + white[..n], white[n]);
      assert line + white == line + white[..n] + [white[n]];
    }
  }

  lemma TrimOne(line: string, c: char)
    requires White(c)
    ensures Trim(line + [c]) == Trim(line)
  {
    assert (line + [c])[..|line|] == line;
  }

  /** A line that is added or replaces others. */
  function Given(replace: bool, raw: string, code: int): Command {
    if replace then Replace(raw, code) else Add(raw, code)
  }

  /** No CR, LF or NUL. */
  predicate Clean(line: string) {
    forall i :: 0 <= i < |line| ==> line[i] as int != 10 && line[i] as int != 13 && line[i] as int != 0
  }

  /** Nothing is accepted once the headers are sent, unless none are; and of lines exactly those that are not
      empty and, without the white space behind them, free of CR, LF and NUL. */
  lemma Accepts(s: State, req: Request, sent: bool, replace: bool, raw: string, line: string, white: string, code: int)
    requires Cut(raw, line, white)
    ensures var (s', ok) := HeaderOp(s, req, sent, Given(replace, raw, code));
            (ok <==> (!sent || req.noHeaders) && raw != "" && Clean(line)) && (!ok ==> s' == s)
  {
    CutIsTrim(raw, line, white);
    assert Legal(line) <==> Clean(line);
    hide Legal, Clean, IsStatus, SideEffects, Stored, ReplaceIn, UpdateCode, ExtractCode;
  }

  /** The other operations. */
  lemma Plainly(s: State, req: Request, ncode: int)
    ensures HeaderOp(s, req, false, DeleteAll) == (s.(headers := []), true)
    ensures HeaderOp(s, req, false, SetStatus(ncode))
         == (s.(code := ncode, status := if ncode == s.code then s.status else None), true)
  {
  }

  // ----- names

  /** The same character but for the case of a letter. */
  predicate SameLetter(c: char, d: char) {
    || c == d || ('A' <= c <= 'Z' && d as int == c as int + 32)
    || ('A' <= d <= 'Z' && c as int == d as int + 32)
  }

  ghost predicate SameName(a: string, b: string) {
    |a| == |b| && forall i :: 0 <= i < |a| ==> SameLetter(a[i], b[i])
  }

  lemma SameNameIsLower(a: string, b: string)
    ensures SameName(a, b) <==> LowerAll(a) == LowerAll(b)
  {
    forall c: char, d: char ensures SameLetter(c, d) <==> Lower(c) == Lower(d) {}
    if LowerAll(a) == LowerAll(b) {
      forall i | 0 <= i < |a| ensures SameLetter(a[i], b[i]) {
        assert LowerAll(a)[i] == LowerAll(b)[i];
      }
    }
  }

  /** `line` is a header with this name and value. */
  ghost predicate Splits(line: string, name: string, value: string) {
    line == name + ":" + value && ':' !in name && '\0' !in name
  }

  lemma SplitsAt(line: string, name: string, value: string)
    requires Splits(line, name, value)
    ensures Find(line, ':') == |name| < |line| && line[..|name|] == name && line[|name| + 1..] == value
  {
    assert forall j :: 0 <= j < |name| ==> line[j] == name[j] && name[j] in name;
    FindFirst(line, ':', |name|);
  }

  lemma PutGiven(s: State, req: Request, replace: bool, raw: string, line: string, white: string, code: int)
    requires Cut(raw, line, white) && raw != ""
    ensures HeaderOp(s, req, false, Given(replace, raw, code)) == Put(s, req, replace, line, code)
  {
    hide Put, Cut;
    CutIsTrim(raw, line, white);
  }

  lemma KnownNames(name: string)
    ensures SameName(name, "content-type") <==> LowerAll(name) == "content-type"
    ensures SameName(name, "location") <==> LowerAll(name) == "location"
    ensures SameName(name, "www-authenticate") <==> LowerAll(name) == "www-authenticate"
  {
    SameNameIsLower(name, "content-type");
    SameNameIsLower(name, "location");
    SameNameIsLower(name, "www-authenticate");
    assert LowerAll("content-type") == "content-type" && LowerAll("location") == "location";
    assert LowerAll("www-authenticate") == "www-authenticate";
  }

  lemma NotStatus(line: string, name: string, value: string)
    requires Splits(line, name, value) && name != "" && Lower(name[0]) != 'h'
    ensures !IsStatus(line)
  {
    if |line| >= 5 { assert LowerAll(line[..5])[0] == Lower(name[0]) && "http/"[0] == 'h'; }
  }

  /** A header is stored, last of all, and the code of the call is set. */
  lemma Stores(s: State, req: Request, replace: bool, raw: string, line: string, white: string, code: int)
    requires Cut(raw, line, white) && raw != "" && Clean(line) && !IsStatus(line)
    ensures var (s', ok) := HeaderOp(s, req, false, Given(replace, raw, code));
            var e := SideEffects(s, req, line, code); var hs := s'.headers; var h := Stored(line, req.charset);
            && ok && hs != [] && hs[|hs| - 1] == h && (!replace ==> hs == s.headers + [h])
            && s'.(headers := s.headers) == (if code != 0 then UpdateCode(e, code) else e)
  {
    assert Legal(line);
    hide HeaderOp, Cut, Clean, Legal, IsStatus, SideEffects, Stored, Without, Find;
    PutGiven(s, req, replace, raw, line, white, code);
    SameList(s, req, line, code);
  }

  // ----- content types

  function Spaces(n: nat): string {
    seq(n, _ => ' ')
  }

  lemma {:induction false} SpacesSkipped(n: nat, v: string)
    requires v != "" ==> v[0] != ' '
    ensures SkipSpaces(Spaces(n) + v) == v
  {
    if n == 0 {
      assert Spaces(0) + v == v;
    } else {
      assert (Spaces(n) + v)[1..] == Spaces(n - 1) + v;
      SpacesSkipped(n - 1, v);
    }
  }

  predicate OccursAt(v: string, t: string, i: int) {
    0 <= i && i + |t| <= |v| && v[i..i + |t|] == t
  }

  /** A text type in which no charset is named, when there is one to add. */
  ghost predicate LacksCharset(v: string, charset: string) {
    && charset != "" && |v| >= 5 && v[..5] == "text/"
    && forall i :: !OccursAt(v, "charset=", i)
  }

  lemma CharsetAdded(v: string, charset: string)
    ensures WithCharset(v, charset) == if LacksCharset(v, charset) then v + ";charset=" + charset else v
  {
    if i :| 0 <= i <= |v| && "charset=" <= v[i..] {
      assert v[i..][..8] == v[i..i + 8] && OccursAt(v, "charset=", i);
    }
    if i :| OccursAt(v, "charset=", i) {
      assert v[i..][..8] == v[i..i + 8] && "charset=" <= v[i..];
    }
  }

  /** A content type, spelled in any case: text types without a charset get the default one, and then the
      line is written anew; all other lines are stored as they are. The first type is remembered. */
  lemma ContentTypes(s: State, req: Request, replace: bool, raw: string, line: string, white: string, code: int,
                     name: string, blanks: nat, v: string)
    requires Cut(raw, line, white) && Clean(line) && Splits(line, name, Spaces(blanks) + v)
    requires SameName(name, "content-type") && (v != "" ==> v[0] != ' ')
    ensures var (s', ok) := HeaderOp(s, req, false, Given(replace, raw, code)); var hs := s'.headers;
            var full := if LacksCharset(v, req.charset) then v + ";charset=" + req.charset else v;
            var h := if LacksCharset(v, req.charset) then "Content-type: " + full else line;
            && ok && hs != [] && hs[|hs| - 1] == h && (!replace ==> hs == s.headers + [h])
            && s'.mimetype == (if s.mimetype.Some? then s.mimetype else Some(full)) && !s'.sendDefault
            && (s'.code, s'.status) == (if code == 0 || code == s.code then (s.code, s.status) else (code, None))
  {
    TypeRead(line, name, blanks, v, req.charset);
    Stores(s, req, replace, raw, line, white, code);
    hide HeaderOp, WithCharset, LacksCharset, LowerAll, Find, MimeType, Stored, Cut, Clean, SameName;
  }

  /** How the line of a content type is read and written anew. */
  lemma TypeRead(line: string, name: string, blanks: nat, v: string, charset: string)
    requires Splits(line, name, Spaces(blanks) + v) && SameName(name, "content-type") && (v != "" ==> v[0] != ' ')
    ensures Find(line, ':') < |line| && LowerAll(line[..Find(line, ':')]) == "content-type" && !IsStatus(line)
    ensures WithCharset(MimeType(line), charset) == if LacksCharset(v, charset) then v + ";charset=" + charset else v
    ensures Stored(line, charset) == if LacksCharset(v, charset) then "Content-type: " + (v + ";charset=" + charset)
                                     else line
  {
    TypeSplit(line, name, blanks, v);
    StoredAs(line, v, charset);
    hide WithCharset, LacksCharset, LowerAll, Find, MimeType, Stored, IsStatus;
  }

  lemma TypeSplit(line: string, name: string, blanks: nat, v: string)
    requires Splits(line, name, Spaces(blanks) + v) && SameName(name, "content-type") && (v != "" ==> v[0] != ' ')
    ensures Find(line, ':') < |line| && LowerAll(line[..Find(line, ':')]) == "content-type" && !IsStatus(line)
    ensures MimeType(line) == v
  {
    SplitsAt(line, name, Spaces(blanks) + v);
    KnownNames(name);
    assert LowerAll(name)[0] == 'c';
    NotStatus(line, name, Spaces(blanks) + v);
    hide LowerAll, Find, SkipSpaces, IsStatus, SameName;
    SpacesSkipped(blanks, v);
  }

  lemma StoredAs(line: string, v: string, charset: string)
    requires IsContentType(line) && MimeType(line) == v
    ensures WithCharset(v, charset) == if LacksCharset(v, charset) then v + ";charset=" + charset else v
    ensures Stored(line, charset) == if LacksCharset(v, charset) then "Content-type: " + (v + ";charset=" + charset)
                                     else line
  {
    CharsetAdded(v, charset);
    assert |v + ";charset=" + charset| > |v|;
    hide WithCharset, LacksCharset, IsContentType, MimeType;
  }

  // ----- response codes

  /** The code and the status line after the code has been set to `n`: the status line goes when the code
      changes. */
  ghost predicate CodeBecomes(s: State, s': State, n: int) {
    s'.code == n && s'.status == if n == s.code then s.status else None
  }

  ghost predicate SameType(s: State, s': State) {
    s'.mimetype == s.mimetype && s'.sendDefault == s.sendDefault
  }

  /** A header that is none of the three that are known, or a line without a colon: the code of the call is
      set, and the line is stored as it is. */
  lemma OtherLines(s: State, req: Request, replace: bool, raw: string, line: string, white: string, code: int,
                   name: string, value: string)
    requires Cut(raw, line, white) && raw != "" && Clean(line)
    requires |line| >= 5 ==> !SameName(line[..5], "http/")
    requires ':' !in line || (Splits(line, name, value) && !SameName(name, "content-type")
      && !SameName(name, "location") && !SameName(name, "www-authenticate"))
    ensures var (s', ok) := HeaderOp(s, req, false, Given(replace, raw, code)); var hs := s'.headers;
            && ok && hs != [] && hs[|hs| - 1] == line && (!replace ==> hs == s.headers + [line])
            && CodeBecomes(s, s', if code != 0 then code else s.code) && SameType(s, s')
  {
    if |line| >= 5 { SameNameIsLower(line[..5], "http/"); }
    assert LowerAll("http/") == "http/";
    if ':' in line {
      SplitsAt(line, name, value);
      KnownNames(name);
    } else {
      NotFound(line, ':');
    }
    Stores(s, req, replace, raw, line, white, code);
    hide HeaderOp, WithCharset, MimeType, LowerAll, Find;
  }

  /** A redirect: the code of the call is set; without one the code becomes 303 for a method other than GET
      and HEAD from HTTP/1.1 on, and 302 otherwise, unless it is 201 or from 300 to 399. */
  lemma Redirects(s: State, req: Request, replace: bool, raw: string, line: string, white: string, code: int,
                  name: string, value: string)
    requires Cut(raw, line, white) && Clean(line) && Splits(line, name, value) && SameName(name, "location")
    ensures var (s', ok) := HeaderOp(s, req, false, Given(replace, raw, code)); var hs := s'.headers;
            && ok && hs != [] && hs[|hs| - 1] == line && (!replace ==> hs == s.headers + [line])
            && CodeBecomes(s, s', if code != 0 then code
                                  else if s.code == 201 || 300 <= s.code <= 399 then s.code
                                  else if req.proto > 1000 && req.requestMethod.Some?
                                    && req.requestMethod.value != "HEAD" && req.requestMethod.value != "GET" then 303
                                  else 302)
            && SameType(s, s')
  {
    SplitsAt(line, name, value);
    KnownNames(name);
    assert LowerAll(name)[0] == 'l';
    NotStatus(line, name, value);
    Stores(s, req, replace, raw, line, white, code);
    hide HeaderOp, WithCharset, MimeType, LowerAll, Find;
  }

  /** A request for authentication: the code becomes 401, and then that of the call, so that the status line
      is kept only if the code was 401 and stays. */
  lemma Authenticates(s: State, req: Request, replace: bool, raw: string, line: string, white: string, code: int,
                      name: string, value: string)
    requires Cut(raw, line, white) && Clean(line) && Splits(line, name, value) && SameName(name, "www-authenticate")
    ensures var (s', ok) := HeaderOp(s, req, false, Given(replace, raw, code)); var hs := s'.headers;
            && ok && hs != [] && hs[|hs| - 1] == line && (!replace ==> hs == s.headers + [line])
            && s'.code == (if code != 0 then code else 401)
            && s'.status == (if s.code == 401 && s'.code == 401 then s.status else None)
            && SameType(s, s')
  {
    SplitsAt(line, name, value);
    KnownNames(name);
    assert LowerAll(name)[0] == 'w';
    NotStatus(line, name, value);
    Stores(s, req, replace, raw, line, white, code);
    hide HeaderOp, WithCharset, MimeType, LowerAll, Find;
  }

  // ----- status lines

  predicate Digit(c: char) {
    '0' <= c <= '9'
  }

  /** The number that decimal digits write. */
  function Decimal(d: string): int {
    if d == "" then 0 else 10 * Decimal(d[..|d| - 1]) + (d[|d| - 1] as int - '0' as int)
  }

  lemma {:induction false} DigitsRead(pre: string, d: string, rest: string)
    requires (forall i :: 0 <= i < |d| ==> Digit(d[i])) && (rest != "" ==> !Digit(rest[0]))
    ensures Digits(d + rest, Decimal(pre)) == Decimal(pre + d)
    decreases |d|
  {
    if d == "" {
      assert d + rest == rest && pre + d == pre;
    } else {
      assert (pre + [d[0]])[..|pre|] == pre;
      DigitsRead(pre + [d[0]], d[1..], rest);
      assert (d + rest)[1..] == d[1..] + rest && pre + [d[0]] + d[1..] == pre + d;
    }
  }

  lemma {:induction false} CodeBehind(a: string, n: nat, t: string)
    requires ' ' !in a && (t != "" ==> t[0] != ' ')
    ensures ExtractCode(a + Spaces(n) + t) == if n > 0 then AtoI(t) else if a == "" then ExtractCode(t)
                                              else ExtractCode(a + t)
    decreases |a|, n
  {
    var line := a + Spaces(n) + t;
    if a != "" {
      assert line[1..] == a[1..] + Spaces(n) + t && line[0] == a[0] && a[0] in a;
      assert a[1..] + Spaces(n) + t == (a + Spaces(n) + t)[1..];
      if n > 0 { CodeBehind(a[1..], n, t); } else { assert a + Spaces(0) + t == a + t; }
    } else if n > 0 {
      assert line[1..] == Spaces(n - 1) + t;
      if n > 1 {
        assert "" + Spaces(n - 1) + t == Spaces(n - 1) + t;
        CodeBehind("", n - 1, t);
      } else {
        assert Spaces(0) + t == t;
      }
    } else {
      assert line == t;
    }
  }

  lemma {:induction false} NoCode(line: string)
    requires ' ' !in line
    ensures ExtractCode(line) == 200
  {
    if line != "" { NoCode(line[1..]); }
  }

  /** A sign or none, digits, and what does not go on with the number. */
  ghost predicate Numeral(sign: string, d: string, rest: string) {
    && sign in {"", "+", "-"} && (forall i :: 0 <= i < |d| ==> Digit(d[i])) && (rest != "" ==> !Digit(rest[0]))
    && (sign == "" && d == "" && rest != "" ==> rest[0] !in {'+', '-', ' ', '\t', '\n', '\U{B}', '\U{C}', '\r'})
  }

  lemma NumberRead(sign: string, d: string, rest: string)
    requires Numeral(sign, d, rest)
    ensures AtoI(sign + (d + rest)) == if sign == "-" then -Decimal(d) else Decimal(d)
    ensures sign + (d + rest) != "" ==> (sign + (d + rest))[0] != ' '
  {
    var t := sign + (d + rest);
    if sign == "" {
      assert t == d + rest && (d != "" ==> t[0] == d[0] && Digit(d[0])) && (d == "" ==> t == rest);
      assert AtoI(t) == Digits(t, 0);
    } else {
      assert t[0] == sign[0] && t[1..] == d + rest;
    }
    hide AtoI, Digits;
    DigitsRead("", d, rest);
    assert "" + d == d;
  }

  lemma PutStatus(s: State, req: Request, replace: bool, line: string, code: int)
    requires Legal(line) && IsStatus(line)
    ensures Put(s, req, replace, line, code) == (s.(code := ExtractCode(line), status := Some(line)), true)
  {
    hide Legal, IsStatus, ExtractCode, SideEffects, Stored, ReplaceIn;
  }

  lemma CleanStatus(line: string)
    requires Clean(line) && |line| >= 5 && SameName(line[..5], "http/")
    ensures Legal(line) && IsStatus(line)
  {
    SameNameIsLower(line[..5], "http/");
    assert LowerAll("http/") == "http/";
  }

  /** A status line is remembered and not stored; its code is the number behind the first blanks, with its
      sign, 0 if there is none, and 200 without any blank. */
  lemma StatusLines(s: State, req: Request, replace: bool, raw: string, line: string, white: string, code: int,
                    a: string, n: nat, sign: string, d: string, rest: string)
    requires Cut(raw, line, white) && Clean(line) && |line| >= 5 && SameName(line[..5], "http/") && ' ' !in a
    requires line == a + Spaces(n) + (sign + (d + rest)) && Numeral(sign, d, rest)
    requires n == 0 ==> sign + (d + rest) == ""
    ensures HeaderOp(s, req, false, Given(replace, raw, code))
         == (s.(code := if n == 0 then 200 else if sign == "-" then -Decimal(d) else Decimal(d),
                status := Some(line)), true)
  {
    CleanStatus(line);
    hide HeaderOp, Put, ExtractCode, Decimal, Cut, SameName, Clean, Legal, IsStatus, Numeral;
    PutGiven(s, req, replace, raw, line, white, code);
    PutStatus(s, req, replace, line, code);
    if n == 0 {
      assert line == a;
      NoCode(line);
    } else {
      NumberRead(sign, d, rest);
      CodeBehind(a, n, sign + (d + rest));
    }
  }
}
