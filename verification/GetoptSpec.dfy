/** Option parsing on values: what one call makes of the command line, why repeated calls end, and
    that a command line written from a list of options is read back as that list. */
module GetoptSpec {
  import opened Common

  /** An entry of the option table; the table ends at the first entry whose character is '-'.
      `needParam` is 0, 1 for a required and anything else for an optional parameter. */
  datatype Opt = Opt(optChar: char, needParam: int, name: Option<string>)

  /** The caller's `optind` and `optarg`, and the position kept between calls: `dash` says that the
      argument's options are being read, the next one at `optchr`. */
  datatype Cursor = Cursor(optind: nat, optarg: Option<string>, optchr: nat, dash: bool)

  datatype Result = Eof | Invalid | Found(opt: char)

  /** C strings. */
  ghost predicate ArgsOk(argv: seq<string>) {
    forall i :: 0 <= i < |argv| ==> '\0' !in argv[i]
  }

  ghost predicate TableOk(opts: seq<Opt>) {
    exists i :: 0 <= i < |opts| && opts[i].optChar == '-'
  }

  /** A kept position is inside a short-option argument. */
  ghost predicate CursorOk(argv: seq<string>, c: Cursor) {
    c.dash && c.optind < |argv| ==>
      && var a := argv[c.optind];
      && 1 <= c.optchr < |a| && a[0] == '-' && a[1] != '-'
  }

  /** The first entry that `accepts` takes, before the end of the table. */
  function Index(opts: seq<Opt>, accepts: Opt -> bool): (i: Option<nat>)
    ensures i.Some? ==> i.value < |opts| && accepts(opts[i.value]) && opts[i.value].optChar != '-'
  {
    if opts == [] || opts[0].optChar == '-' then None
    else if accepts(opts[0]) then Some(0)
    else match Index(opts[1..], accepts)
      case None => None
      case Some(i) => Some(i + 1)
  }

  function Called(name: string): Opt -> bool {
    (o: Opt) => o.name == Some(name)
  }

  function Spelled(ch: char): Opt -> bool {
    (o: Opt) => o.optChar == ch
  }

  /** The first '=' of `s`, or its length. */
  function FindEq(s: string): (i: nat)
    ensures i <= |s| && (i < |s| ==> s[i] == '=') && forall j :: 0 <= j < i ==> s[j] != '='
  {
    if s == "" || s[0] == '=' then 0 else 1 + FindEq(s[1..])
  }

  /** An option that takes a parameter; `rest` is what follows it in its argument. */
  function TakeParam(argv: seq<string>, c: Cursor, opt: Opt, rest: string): (Cursor, Result)
    requires c.optind < |argv|
  {
    var c' := c.(optind := c.optind + 1, dash := false);
    if rest == "" then
      if opt.needParam != 1 then (c', Found(opt.optChar))
      else if c'.optind == |argv| then (c', Invalid)
      else (c'.(optind := c'.optind + 1, optarg := Some(argv[c'.optind])), Found(opt.optChar))
    else (c'.(optarg := Some(if rest[0] == '=' then rest[1..] else rest)), Found(opt.optChar))
  }

  /** `--name` or `--name=value`; a '=' at the very end belongs to the name. */
  function NextLong(argv: seq<string>, opts: seq<Opt>, c: Cursor): (Cursor, Result)
    requires c.optind < |argv| && |argv[c.optind]| >= 2
  {
    var rest := argv[c.optind][2..];
    if rest == "" then (c.(optind := c.optind + 1), Eof)
    else
      var eq := FindEq(rest[..|rest| - 1]);
      var name := if eq < |rest| - 1 then rest[..eq] else rest;
      match Index(opts, Called(name))
      case None => (c.(optind := c.optind + 1), Invalid)
      case Some(i) =>
        var c' := c.(optchr := 0, dash := false);
        if opts[i].needParam != 0 then TakeParam(argv, c', opts[i], if eq < |rest| - 1 then rest[eq + 1..] else "")
        else (c'.(optind := c.optind + 1), Found(opts[i].optChar))
  }

  /** To the next character of the argument, or to the next argument. */
  function Advance(argv: seq<string>, c: Cursor): Cursor
    requires c.optind < |argv|
  {
    if c.optchr + 1 < |argv[c.optind]| then c.(optchr := c.optchr + 1) else c.(optind := c.optind + 1, dash := false)
  }

  function NextShort(argv: seq<string>, opts: seq<Opt>, c: Cursor): (Cursor, Result)
    requires c.optind < |argv| && c.optchr < |argv[c.optind]|
  {
    var ch := argv[c.optind][c.optchr];
    if ch == ':' then (c.(optind := c.optind + 1, dash := false), Invalid)
    else match Index(opts, Spelled(ch))
      case None => (Advance(argv, c), Invalid)
      case Some(i) =>
        if opts[i].needParam != 0 then TakeParam(argv, c, opts[i], argv[c.optind][c.optchr + 1..])
        else (Advance(argv, c), Found(ch))
  }

  /** `php_getopt`. */
  function Next(argv: seq<string>, opts: seq<Opt>, c: Cursor): (Cursor, Result)
    requires CursorOk(argv, c)
  {
    if c.optind >= |argv| then (c, Eof)
    else
      var a := argv[c.optind];
      if !c.dash && (a == "" || a[0] != '-' || |a| == 1) then (c, Eof)
      else if a[1] == '-' then NextLong(argv, opts, c)
      else NextShort(argv, opts, if c.dash then c else c.(dash := true, optchr := 1))
  }

  // ----- repeated calls end

  /** How much of the command line is still to be read. */
  function Left(argv: seq<string>, c: Cursor): nat {
    if c.optind < |argv| && c.dash && c.optchr < |argv[c.optind]| then |argv[c.optind]| - c.optchr
    else if c.optind < |argv| then |argv[c.optind]| + 1
    else 0
  }

  /** From `c` to `c'`: to a later argument, never past the end, or to the next character of the same
      argument. */
  ghost predicate Moved(argv: seq<string>, c: Cursor, c': Cursor) {
    || (c.optind < c'.optind <= |argv| && !c'.dash)
    || (c'.optind == c.optind < |argv| && c'.dash
      && c'.optchr == (if c.dash then c.optchr else 1) + 1 < |argv[c.optind]|)
  }

  lemma ParamMoves(argv: seq<string>, c: Cursor, opt: Opt, rest: string)
    requires c.optind < |argv|
    ensures Moved(argv, c, TakeParam(argv, c, opt, rest).0) && !TakeParam(argv, c, opt, rest).0.dash
      && TakeParam(argv, c, opt, rest).1 != Eof
  {
  }

  lemma LongMoves(argv: seq<string>, opts: seq<Opt>, c: Cursor)
    requires c.optind < |argv| && |argv[c.optind]| >= 2 && !c.dash
    ensures Moved(argv, c, NextLong(argv, opts, c).0) && (NextLong(argv, opts, c).1 == Eof <==> |argv[c.optind]| == 2)
    ensures !NextLong(argv, opts, c).0.dash
    ensures NextLong(argv, opts, c).0.optind == c.optind + 1 || NextLong(argv, opts, c).1 != Eof
  {
    hide Index, FindEq, TakeParam;
    var rest := argv[c.optind][2..];
    if rest != "" {
      var eq := FindEq(rest[..|rest| - 1]);
      var name := if eq < |rest| - 1 then rest[..eq] else rest;
      var i := Index(opts, Called(name));
      if i.Some? {
        ParamMoves(argv, c.(optchr := 0, dash := false), opts[i.value], if eq < |rest| - 1 then rest[eq + 1..] else "");
      }
    }
  }

  lemma ShortMoves(argv: seq<string>, opts: seq<Opt>, c: Cursor)
    requires c.optind < |argv| && c.dash && c.optchr < |argv[c.optind]|
    ensures Moved(argv, c, NextShort(argv, opts, c).0) && NextShort(argv, opts, c).1 != Eof
  {
    hide Index, TakeParam;
    var i := Index(opts, Spelled(argv[c.optind][c.optchr]));
    if i.Some? { ParamMoves(argv, c, opts[i.value], argv[c.optind][c.optchr + 1..]); }
  }

  /** Every call that does not report the end makes a move, and a call that does stays where it is, or
      steps over a `--`. */
  lemma Progress(argv: seq<string>, opts: seq<Opt>, c: Cursor)
    requires CursorOk(argv, c)
    ensures var (c', r) := Next(argv, opts, c);
            && CursorOk(argv, c') && (r != Eof ==> Moved(argv, c, c'))
            && (r == Eof ==> c' == c || (c.optind < |argv| && argv[c.optind] == "--" && c'.optind == c.optind + 1))
  {
    hide NextLong, NextShort;
    if c.optind < |argv| {
      var a := argv[c.optind];
      if c.dash || (a != "" && a[0] == '-' && |a| > 1) {
        if a[1] == '-' {
          LongMoves(argv, opts, c);
          assert |a| == 2 ==> a == "--";
        } else {
          ShortMoves(argv, opts, if c.dash then c else c.(dash := true, optchr := 1));
        }
      }
    }
  }

  lemma Decreases(argv: seq<string>, opts: seq<Opt>, c: Cursor)
    requires CursorOk(argv, c) && Next(argv, opts, c).1 != Eof
    ensures var c' := Next(argv, opts, c).0;
            c.optind < c'.optind <= |argv| || (c'.optind == c.optind <= |argv| && Left(argv, c') < Left(argv, c))
  {
    Progress(argv, opts, c);
    hide Next;
  }

  /** The results of calling until the end is reported, each with the `optarg` of that time, and the
      index of the first argument that was not read. */
  function Drive(argv: seq<string>, opts: seq<Opt>, c: Cursor): (r: (seq<(Result, Option<string>)>, nat))
    requires CursorOk(argv, c)
    decreases if c.optind <= |argv| then |argv| - c.optind else 0, Left(argv, c)
  {
    Progress(argv, opts, c);
    var (c', r) := Next(argv, opts, c);
    if r == Eof then ([], c'.optind)
    else
      Decreases(argv, opts, c);
      var (more, end) := Drive(argv, opts, c');
      ([(r, c'.optarg)] + more, end)
  }

  // ----- writing a command line and reading it back

  /** One argument, or two, of a command line. A short option may stand behind a cluster of flags. */
  datatype Item =
    | Flags(flags: string, ch: char)                    // -abc
    | Attached(flags: string, ch: char, value: string)  // -abcVALUE
    | Equals(flags: string, ch: char, value: string)    // -abc=VALUE
    | Separate(flags: string, ch: char, value: string)  // -abc VALUE
    | LongFlag(name: string)                            // --name
    | LongEquals(name: string, value: string)           // --name=VALUE
    | LongSeparate(name: string, value: string)         // --name VALUE

  function RenderItem(item: Item): (args: seq<string>)
    ensures |args| == if item.Separate? || item.LongSeparate? then 2 else 1
  {
    match item
    case Flags(flags, ch) => ["-" + flags + [ch]]
    case Attached(flags, ch, value) => ["-" + flags + [ch] + value]
    case Equals(flags, ch, value) => ["-" + flags + [ch] + "=" + value]
    case Separate(flags, ch, value) => ["-" + flags + [ch], value]
    case LongFlag(name) => ["--" + name]
    case LongEquals(name, value) => ["--" + name + "=" + value]
    case LongSeparate(name, value) => ["--" + name, value]
  }

  function Render(items: seq<Item>): seq<string> {
    if items == [] then [] else RenderItem(items[0]) + Render(items[1..])
  }

  predicate HasShort(opts: seq<Opt>, ch: char, needs: int -> bool) {
    var i := Index(opts, Spelled(ch));
    ch != ':' && ch != '-' && i.Some? && needs(opts[i.value].needParam)
  }

  predicate HasLong(opts: seq<Opt>, name: string, needs: int -> bool) {
    var i := Index(opts, Called(name));
    name != "" && FindEq(name) == |name| && i.Some? && needs(opts[i.value].needParam)
  }

  predicate AllFlags(opts: seq<Opt>, flags: string) {
    forall i :: 0 <= i < |flags| ==> HasShort(opts, flags[i], n => n == 0)
  }

  /** `item` can be written so that it is understood. */
  predicate Writable(opts: seq<Opt>, item: Item) {
    match item
    case Flags(flags, ch) => AllFlags(opts, flags) && HasShort(opts, ch, n => n != 1)
    case Attached(flags, ch, value) => AllFlags(opts, flags) && value != "" && HasShort(opts, ch, n => n != 0)
    case Equals(flags, ch, value) => AllFlags(opts, flags) && HasShort(opts, ch, n => n != 0)
    case Separate(flags, ch, value) => AllFlags(opts, flags) && HasShort(opts, ch, n => n == 1)
    case LongFlag(name) => HasLong(opts, name, n => n != 1)
    case LongEquals(name, value) => value != "" && HasLong(opts, name, n => n != 0)
    case LongSeparate(name, value) => HasLong(opts, name, n => n == 1)
  }

  predicate Short(item: Item) {
    item.Flags? || item.Attached? || item.Equals? || item.Separate?
  }

  /** A value directly behind its option, or behind the sign of a long one, loses a leading '='. */
  function Unsigned(value: string): string {
    if value != "" && value[0] == '=' then value[1..] else value
  }

  /** What is read for `item`; `arg` is the `optarg` left by what came before. */
  function Meaning(opts: seq<Opt>, item: Item, arg: Option<string>): (seq<(Result, Option<string>)>, Option<string>)
    requires Writable(opts, item)
  {
    match item
    case Flags(flags, ch) => (FlagResults(flags, arg) + [(Found(ch), arg)], arg)
    case Attached(flags, ch, value) =>
      (FlagResults(flags, arg) + [(Found(ch), Some(Unsigned(value)))], Some(Unsigned(value)))
    case Equals(flags, ch, value) => (FlagResults(flags, arg) + [(Found(ch), Some(value))], Some(value))
    case Separate(flags, ch, value) => (FlagResults(flags, arg) + [(Found(ch), Some(value))], Some(value))
    case LongFlag(name) => ([(Found(opts[Index(opts, Called(name)).value].optChar), arg)], arg)
    case LongEquals(name, value) =>
      ([(Found(opts[Index(opts, Called(name)).value].optChar), Some(Unsigned(value)))], Some(Unsigned(value)))
    case LongSeparate(name, value) =>
      ([(Found(opts[Index(opts, Called(name)).value].optChar), Some(value))], Some(value))
  }

  function FlagResults(chars: string, arg: Option<string>): seq<(Result, Option<string>)> {
    if chars == "" then [] else [(Found(chars[0]), arg)] + FlagResults(chars[1..], arg)
  }

  function Meanings(opts: seq<Opt>, items: seq<Item>, arg: Option<string>): seq<(Result, Option<string>)>
    requires forall i :: 0 <= i < |items| ==> Writable(opts, items[i])
  {
    if items == [] then []
    else
      var (first, arg') := Meaning(opts, items[0], arg);
      first + Meanings(opts, items[1..], arg')
  }

  lemma {:induction false} FindEqAt(s: string, i: nat)
    requires i <= |s| && (forall j :: 0 <= j < i ==> s[j] != '=') && (i < |s| ==> s[i] == '=')
    ensures FindEq(s) == i
  {
    if i > 0 { FindEqAt(s[1..], i - 1); }
  }

  /** Nothing more is read at `post`. */
  predicate Stops(post: seq<string>) {
    post == [] || post[0] == "" || post[0][0] != '-' || post[0] == "-" || post[0] == "--"
  }

  /** Where reading ends. */
  function End(n: nat, post: seq<string>): nat {
    if post != [] && post[0] == "--" then n + 1 else n
  }

  lemma ReadStop(argv: seq<string>, opts: seq<Opt>, c: Cursor, post: seq<string>)
    requires !c.dash && c.optind <= |argv| && argv[c.optind..] == post && Stops(post)
    ensures Drive(argv, opts, c) == ([], End(c.optind, post))
  {
    if post != [] { assert argv[c.optind] == post[0]; }
  }

  /** The argument `a` starts with these flags, and goes on. */
  ghost predicate StartsWith(opts: seq<Opt>, a: string, flags: string) {
    AllFlags(opts, flags) && |a| > |flags| + 1 && a[0] == '-' && a[1] != '-' && a[1..|flags| + 1] == flags
  }

  lemma ReadFlag(argv: seq<string>, opts: seq<Opt>, c: Cursor, flags: string)
    requires c.optind < |argv| && StartsWith(opts, argv[c.optind], flags) && c.dash && 1 <= c.optchr <= |flags|
    ensures CursorOk(argv, c)
    ensures Next(argv, opts, c) == (c.(optchr := c.optchr + 1), Found(flags[c.optchr - 1]))
  {
    hide Index;
    assert argv[c.optind][c.optchr] == flags[c.optchr - 1];
    assert HasShort(opts, flags[c.optchr - 1], n => n == 0);
  }

  /** The flags of an argument, from one of them on. */
  lemma {:induction false} ReadFlags(argv: seq<string>, opts: seq<Opt>, c: Cursor, flags: string)
    requires c.optind < |argv| && StartsWith(opts, argv[c.optind], flags) && c.dash && 1 <= c.optchr <= |flags| + 1
    ensures CursorOk(argv, c) && CursorOk(argv, c.(optchr := |flags| + 1))
    ensures var (more, end) := Drive(argv, opts, c.(optchr := |flags| + 1));
            Drive(argv, opts, c) == (FlagResults(flags[c.optchr - 1..], c.optarg) + more, end)
    decreases |flags| + 1 - c.optchr
  {
    if c.optchr == |flags| + 1 {
      assert c == c.(optchr := |flags| + 1) && flags[c.optchr - 1..] == "";
      assert [] + Drive(argv, opts, c).0 == Drive(argv, opts, c).0;
    } else {
      assert CursorOk(argv, c.(optchr := |flags| + 1));
      ReadFlag(argv, opts, c, flags);
      hide Next, AllFlags, StartsWith;
      var ch, more := flags[c.optchr - 1], Drive(argv, opts, c.(optchr := |flags| + 1)).0;
      ReadFlags(argv, opts, c.(optchr := c.optchr + 1), flags);
      assert flags[c.optchr - 1..][1..] == flags[c.optchr..];
      assert [(Found(ch), c.optarg)] + (FlagResults(flags[c.optchr..], c.optarg) + more)
          == [(Found(ch), c.optarg)] + FlagResults(flags[c.optchr..], c.optarg) + more;
    }
  }

  /** The `optarg` a short option leaves. */
  function ShortArg(item: Item, arg: Option<string>): Option<string>
    requires Short(item)
  {
    match item
    case Flags(_, _) => arg
    case Attached(_, _, value) => Some(Unsigned(value))
    case _ => Some(item.value)
  }

  /** What stands behind a short option in its argument. */
  function Tail(item: Item): string
    requires Short(item)
  {
    match item
    case Attached(_, _, value) => value
    case Equals(_, _, value) => "=" + value
    case _ => ""
  }

  lemma Parts(flags: string, ch: char, tail: string)
    ensures var a, n := "-" + flags + [ch] + tail, |flags| + 1;
            |a| > n && a[0] == '-' && a[1..n] == flags && a[n] == ch && a[n + 1..] == tail
  {
  }

  lemma ShortParts(opts: seq<Opt>, item: Item)
    requires Short(item) && Writable(opts, item)
    ensures var a, n := RenderItem(item)[0], |item.flags| + 1;
            StartsWith(opts, a, item.flags) && a[n] == item.ch && a[n + 1..] == Tail(item)
  {
    var a := RenderItem(item)[0];
    assert a == "-" + item.flags + [item.ch] + Tail(item);
    hide RenderItem, Index, Tail;
    Parts(item.flags, item.ch, Tail(item));
    assert a[1] == if item.flags != "" then a[1..|item.flags| + 1][0] else item.ch;
    if item.flags != "" { assert HasShort(opts, item.flags[0], n => n == 0); }
  }

  /** The option behind the flags takes one call. */
  lemma ReadShort(argv: seq<string>, opts: seq<Opt>, c: Cursor, item: Item)
    requires Short(item) && Writable(opts, item) && c.dash && c.optchr == |item.flags| + 1
    requires c.optind + |RenderItem(item)| <= |argv|
      && argv[c.optind..c.optind + |RenderItem(item)|] == RenderItem(item)
    ensures CursorOk(argv, c)
    ensures Next(argv, opts, c)
         == (Cursor(c.optind + |RenderItem(item)|, ShortArg(item, c.optarg), c.optchr, false), Found(item.ch))
  {
    hide Index, AllFlags;
    ShortParts(opts, item);
    assert argv[c.optind] == RenderItem(item)[0];
    assert item.Separate? ==> argv[c.optind + 1] == RenderItem(item)[1];
    if item.Equals? { assert ("=" + item.value)[1..] == item.value; }
    assert |RenderItem(item)| == if item.Separate? then 2 else 1;
    hide RenderItem;
    assert argv[c.optind][c.optchr + 1..] == "" <==> item.Flags? || item.Separate?;
  }

  /** The `optarg` a long option leaves. */
  function LongArg(item: Item, arg: Option<string>): Option<string>
    requires item.LongFlag? || item.LongEquals? || item.LongSeparate?
  {
    match item
    case LongEquals(_, value) => Some(Unsigned(value))
    case LongSeparate(_, value) => Some(value)
    case _ => arg
  }

  lemma ReadLong(argv: seq<string>, opts: seq<Opt>, c: Cursor, item: Item)
    requires item.LongFlag? || item.LongEquals? || item.LongSeparate?
    requires Writable(opts, item) && !c.dash && c.optind + |RenderItem(item)| <= |argv|
    requires argv[c.optind..c.optind + |RenderItem(item)|] == RenderItem(item)
    ensures Next(argv, opts, c)
         == (Cursor(c.optind + |RenderItem(item)|, LongArg(item, c.optarg), 0, false),
             Found(opts[Index(opts, Called(item.name)).value].optChar))
  {
    hide Index, FindEq, TakeParam;
    var a, name := argv[c.optind], item.name;
    assert a == RenderItem(item)[0];
    if item.LongEquals? {
      EqualsParts(name, item.value);
    } else {
      NameParts(name);
      assert item.LongSeparate? ==> argv[c.optind + 1] == RenderItem(item)[1];
    }
    assert a[..2] == "--" && a[0] == a[..2][0] && a[1] == a[..2][1];
    LongTaken(argv, opts, c, item);
  }

  lemma LongTaken(argv: seq<string>, opts: seq<Opt>, c: Cursor, item: Item)
    requires item.LongFlag? || item.LongEquals? || item.LongSeparate?
    requires Writable(opts, item) && !c.dash && c.optind + |RenderItem(item)| <= |argv|
    requires var a := argv[c.optind];
             && |a| > 2 && a[0] == '-' && a[1] == '-'
             && var rest := a[2..]; var eq := FindEq(rest[..|rest| - 1]);
             && if item.LongEquals? then eq < |rest| - 1 && rest[..eq] == item.name && rest[eq + 1..] == item.value
                else eq == |rest| - 1 && rest == item.name && (item.LongSeparate? ==> argv[c.optind + 1] == item.value)
    ensures Next(argv, opts, c)
         == (Cursor(c.optind + |RenderItem(item)|, LongArg(item, c.optarg), 0, false),
             Found(opts[Index(opts, Called(item.name)).value].optChar))
  {
    hide Index, FindEq, HasShort;
    assert |RenderItem(item)| == if item.LongSeparate? then 2 else 1;
    hide RenderItem;
    var taken := Index(opts, Called(item.name)).value;
    assert if item.LongFlag? then opts[taken].needParam != 1 else opts[taken].needParam != 0;
  }

  /** What an argument `--name=value` is split into. */
  lemma EqualsParts(name: string, value: string)
    requires name != "" && FindEq(name) == |name| && value != ""
    ensures var a := "--" + name + "=" + value; var rest := a[2..]; var eq := FindEq(rest[..|rest| - 1]);
            a[..2] == "--" && rest != "" && eq == |name| < |rest| - 1 && rest[..eq] == name && rest[eq + 1..] == value
  {
    var rest := ("--" + name + "=" + value)[2..];
    assert rest == name + "=" + value;
    assert forall j :: 0 <= j < |name| ==> name[j] != '=';
    FindEqAt(rest[..|rest| - 1], |name|);
  }

  lemma NameParts(name: string)
    requires name != "" && FindEq(name) == |name|
    ensures var a := "--" + name; var rest := a[2..];
            a[..2] == "--" && rest == name && FindEq(rest[..|rest| - 1]) == |rest| - 1
  {
    var rest := ("--" + name)[2..];
    assert rest == name;
    assert forall j :: 0 <= j < |name| ==> name[j] != '=';
    FindEqAt(rest[..|rest| - 1], |rest| - 1);
  }

  /** One step of reading. */
  lemma DriveStep(argv: seq<string>, opts: seq<Opt>, c: Cursor)
    requires CursorOk(argv, c) && Next(argv, opts, c).1 != Eof
    ensures var (c', r) := Next(argv, opts, c);
            && CursorOk(argv, c')
            && Drive(argv, opts, c) == ([(r, c'.optarg)] + Drive(argv, opts, c').0, Drive(argv, opts, c').1)
  {
    Progress(argv, opts, c);
    hide Next;
  }

  /** `item` is read as what it means, and reading goes on at `c'`. */
  ghost predicate ReadsAs(argv: seq<string>, opts: seq<Opt>, c: Cursor, item: Item, c': Cursor)
    requires CursorOk(argv, c) && Writable(opts, item)
  {
    && !c'.dash && c'.optind == c.optind + |RenderItem(item)| && c'.optarg == Meaning(opts, item, c.optarg).1
    && Drive(argv, opts, c)
       == (Meaning(opts, item, c.optarg).0 + Drive(argv, opts, c').0, Drive(argv, opts, c').1)
  }

  /** Reading starts at the first character behind the dash. */
  lemma EnterShort(argv: seq<string>, opts: seq<Opt>, c: Cursor, item: Item)
    requires Short(item) && Writable(opts, item) && !c.dash && c.optind < |argv|
    requires argv[c.optind] == RenderItem(item)[0]
    ensures StartsWith(opts, argv[c.optind], item.flags)
    ensures var c1 := c.(dash := true, optchr := 1);
            CursorOk(argv, c1) && Drive(argv, opts, c) == Drive(argv, opts, c1)
  {
    var c1 := c.(dash := true, optchr := 1);
    ShortParts(opts, item);
    hide Writable, RenderItem, AllFlags, NextShort;
    assert Next(argv, opts, c) == Next(argv, opts, c1);
    SameDrive(argv, opts, c, c1);
  }

  lemma ReadShortItem(argv: seq<string>, opts: seq<Opt>, c: Cursor, item: Item) returns (c': Cursor)
    requires Short(item) && Writable(opts, item) && !c.dash && c.optind + |RenderItem(item)| <= |argv|
    requires argv[c.optind..c.optind + |RenderItem(item)|] == RenderItem(item)
    ensures ReadsAs(argv, opts, c, item, c')
  {
    hide Next, Drive, Writable, RenderItem, StartsWith, ShortArg, FlagResults, Meaning;
    var c1, c2 := c.(dash := true, optchr := 1), c.(dash := true, optchr := |item.flags| + 1);
    assert argv[c.optind] == RenderItem(item)[0];
    EnterShort(argv, opts, c, item);
    ReadFlags(argv, opts, c1, item.flags);
    ReadShort(argv, opts, c2, item);
    DriveStep(argv, opts, c2);
    c' := Next(argv, opts, c2).0;
    assert c1.(optchr := |item.flags| + 1) == c2 && item.flags[0..] == item.flags;
    ShortMeaning(opts, item, c.optarg);
    Regroup(FlagResults(item.flags, c.optarg), [(Found(item.ch), c'.optarg)], Drive(argv, opts, c').0);
  }

  lemma Regroup<T>(a: seq<T>, b: seq<T>, c: seq<T>)
    ensures a + (b + c) == a + b + c
  {
  }

  lemma ShortMeaning(opts: seq<Opt>, item: Item, arg: Option<string>)
    requires Short(item) && Writable(opts, item)
    ensures Meaning(opts, item, arg)
         == (FlagResults(item.flags, arg) + [(Found(item.ch), ShortArg(item, arg))], ShortArg(item, arg))
  {
    hide Writable, FlagResults;
  }

  /** One item is read as what it means, and reading goes on behind it. */
  lemma ReadItem(argv: seq<string>, opts: seq<Opt>, c: Cursor, item: Item) returns (c': Cursor)
    requires Writable(opts, item) && !c.dash && c.optind + |RenderItem(item)| <= |argv|
    requires argv[c.optind..c.optind + |RenderItem(item)|] == RenderItem(item)
    ensures ReadsAs(argv, opts, c, item, c')
  {
    hide Drive, Next, RenderItem;
    if Short(item) {
      c' := ReadShortItem(argv, opts, c, item);
    } else {
      ReadLong(argv, opts, c, item);
      hide Index;
      DriveStep(argv, opts, c);
      c' := Next(argv, opts, c).0;
    }
  }

  lemma SameDrive(argv: seq<string>, opts: seq<Opt>, c: Cursor, c1: Cursor)
    requires CursorOk(argv, c) && CursorOk(argv, c1) && Next(argv, opts, c) == Next(argv, opts, c1)
    ensures Drive(argv, opts, c) == Drive(argv, opts, c1)
  {
    hide Next;
  }

  lemma Combine(opts: seq<Opt>, items: seq<Item>, arg: Option<string>)
    requires items != [] && (forall i :: 0 <= i < |items| ==> Writable(opts, items[i]))
    ensures var (first, arg') := Meaning(opts, items[0], arg);
            Meanings(opts, items, arg) == first + Meanings(opts, items[1..], arg')
    ensures Render(items) == RenderItem(items[0]) + Render(items[1..])
  {
    hide Writable, Meaning, RenderItem;
  }

  lemma Placed(pre: seq<string>, first: seq<string>, rest: seq<string>, post: seq<string>)
    ensures pre + (first + rest) + post == pre + first + rest + post
    ensures (pre + (first + rest) + post)[|pre|..|pre| + |first|] == first
  {
  }

  /** A command line written from a list of options, followed by anything that is not an option, is
      read back as that list, in order, and reading stops there. */
  lemma {:induction false} ReadBack(pre: seq<string>, opts: seq<Opt>, items: seq<Item>, post: seq<string>, c: Cursor)
    requires (forall i :: 0 <= i < |items| ==> Writable(opts, items[i])) && Stops(post) && c.optind == |pre| && !c.dash
    ensures Drive(pre + Render(items) + post, opts, c)
         == (Meanings(opts, items, c.optarg), End(|pre| + |Render(items)|, post))
    decreases |items|
  {
    hide Drive, Next, Stops, Writable, Meaning, RenderItem, End, Meanings, Render, ReadsAs;
    if items == [] {
      ReadNothing(pre, opts, post, c);
    } else {
      var c' := ReadFirst(pre, opts, items, post, c);
      ReadBack(pre + RenderItem(items[0]), opts, items[1..], post, c');
      ReadOn(pre, opts, items, post, c, c');
    }
  }

  lemma ReadNothing(pre: seq<string>, opts: seq<Opt>, post: seq<string>, c: Cursor)
    requires Stops(post) && c.optind == |pre| && !c.dash
    ensures Drive(pre + Render([]) + post, opts, c) == (Meanings(opts, [], c.optarg), End(|pre| + |Render([])|, post))
  {
    hide Drive;
    assert pre + [] == pre && (pre + post)[|pre|..] == post;
    ReadStop(pre + post, opts, c, post);
  }

  /** The first item is read, and the rest stands behind it. */
  lemma ReadFirst(pre: seq<string>, opts: seq<Opt>, items: seq<Item>, post: seq<string>, c: Cursor)
    returns (c': Cursor)
    requires items != [] && Writable(opts, items[0]) && c.optind == |pre| && !c.dash
    ensures ReadsAs(pre + Render(items) + post, opts, c, items[0], c')
    ensures !c'.dash && c'.optind == |pre + RenderItem(items[0])|
  {
    hide Writable, RenderItem, Drive, Meaning;
    Placed(pre, RenderItem(items[0]), Render(items[1..]), post);
    c' := ReadItem(pre + Render(items) + post, opts, c, items[0]);
  }

  lemma ReadOn(pre: seq<string>, opts: seq<Opt>, items: seq<Item>, post: seq<string>, c: Cursor, c': Cursor)
    requires items != [] && (forall i :: 0 <= i < |items| ==> Writable(opts, items[i])) && !c.dash
    requires ReadsAs(pre + Render(items) + post, opts, c, items[0], c')
    requires Drive(pre + RenderItem(items[0]) + Render(items[1..]) + post, opts, c')
          == (Meanings(opts, items[1..], c'.optarg),
              End(|pre + RenderItem(items[0])| + |Render(items[1..])|, post))
    ensures Drive(pre + Render(items) + post, opts, c)
         == (Meanings(opts, items, c.optarg), End(|pre| + |Render(items)|, post))
  {
    hide Drive, Writable, Meaning, RenderItem, End, Meanings, Render;
    Combine(opts, items, c.optarg);
    Placed(pre, RenderItem(items[0]), Render(items[1..]), post);
  }

  /** What was written as the parameter of an option, if it has one. */
  function Given(item: Item): Option<string> {
    match item
    case Flags(_, _) => None
    case LongFlag(_) => None
    case _ => Some(item.value)
  }

  /** An item is read with the parameter that was given if and only if this is not a value in the form
      `-aVALUE` or `--name=VALUE` that begins with a '='. */
  lemma GivenIsRead(opts: seq<Opt>, item: Item, arg: Option<string>)
    requires Writable(opts, item) && Given(item).Some?
    ensures Meaning(opts, item, arg).1 == Given(item) <==> !((item.Attached? || item.LongEquals?) && "=" <= item.value)
  {
    if (item.Attached? || item.LongEquals?) && "=" <= item.value {
      assert |Unsigned(item.value)| < |item.value|;
    }
  }

  /** `--name==v` is read as "v". */
  lemma DoubleSignExample(opts: seq<Opt>, argv: seq<string>)
    requires opts == [Opt('n', 1, Some("name")), Opt('-', 0, None)] && argv == ["--name==v"]
    ensures Drive(argv, opts, Cursor(0, None, 0, false)).0 == [(Found('n'), Some("v"))]
  {
    var item := LongEquals("name", "=v");
    assert Called("name")(opts[0]) && Index(opts, Called("name")) == Some(0);
    FindEqAt("name", 4);
    assert Writable(opts, item);
    assert "--" + "name" + "=" + "=v" == "--name==v";
    assert RenderItem(item) == argv && [item][1..] == [] && Render([item]) == argv + Render([]) == argv;
    assert [] + argv + [] == argv;
    hide Drive, Writable, Render;
    assert [item][1..] == [];
    ReadBack([], opts, [item], [], Cursor(0, None, 0, false));
    assert Unsigned("=v") == "v";
  }

  /** A long option with a sign and nothing behind it is looked up with the sign in its name; if that is a
      name of the table it is read like a long option without a sign. */
  lemma EmptyLongValue(argv: seq<string>, opts: seq<Opt>, c: Cursor, name: string)
    requires c.optind < |argv| && !c.dash && argv[c.optind] == "--" + name + "=" && name != "" && FindEq(name) == |name|
    ensures Next(argv, opts, c) ==
            match Index(opts, Called(name + "="))
            case None => (c.(optind := c.optind + 1), Invalid)
            case Some(i) =>
              if opts[i].needParam != 1 then (Cursor(c.optind + 1, c.optarg, 0, false), Found(opts[i].optChar))
              else if c.optind + 1 == |argv| then (Cursor(c.optind + 1, c.optarg, 0, false), Invalid)
              else (Cursor(c.optind + 2, Some(argv[c.optind + 1]), 0, false), Found(opts[i].optChar))
  {
    hide Index;
    var a := argv[c.optind];
    assert a[0] == '-' && a[1] == '-';
    assert a[2..] == name + "=" && a[2..][..|a[2..]| - 1] == name;
  }
}
