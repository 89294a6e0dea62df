/** What one call of the option parser answers to an argument: when reading ends, which options are found,
    and what becomes of those that are not in the table or lack their parameter. */
module GetoptLaws {
  import opened Common
  import opened GetoptSpec

  /** An entry of the table, in front of the one that ends it. */
  ghost predicate Entry(opts: seq<Opt>, i: int) {
    0 <= i < |opts| && forall k :: 0 <= k <= i ==> opts[k].optChar != '-'
  }

  /** The first entry that is accepted, or none. */
  lemma {:induction false} IndexMeans(opts: seq<Opt>, accepts: Opt -> bool)
    ensures match Index(opts, accepts)
            case None => forall i :: Entry(opts, i) ==> !accepts(opts[i])
            case Some(j) => Entry(opts, j) && accepts(opts[j]) && forall i :: 0 <= i < j ==> !accepts(opts[i])
  {
    if opts != [] && opts[0].optChar != '-' && !accepts(opts[0]) {
      IndexMeans(opts[1..], accepts);
      forall i ensures Entry(opts, i) && i > 0 <==> Entry(opts[1..], i - 1) {
        if Entry(opts[1..], i - 1) {
          forall k | 0 <= k <= i ensures opts[k].optChar != '-' {
            if k > 0 { assert opts[1..][k - 1] == opts[k]; }
          }
        }
      }
    }
  }

  /** Reading ends at the end of the command line and, unless an argument is being read, at one that is not
      an option: the empty one, one that does not begin with a dash, `-`, and `--`, which is stepped over. */
  lemma Ends(argv: seq<string>, opts: seq<Opt>, c: Cursor)
    requires CursorOk(argv, c)
    ensures Next(argv, opts, c).1 == Eof <==>
      c.optind >= |argv| || (!c.dash && var a := argv[c.optind]; a == "" || a[0] != '-' || a == "-" || a == "--")
    ensures Next(argv, opts, c).1 == Eof ==>
      Next(argv, opts, c).0 == if c.optind < |argv| && argv[c.optind] == "--" then c.(optind := c.optind + 1) else c
  {
    Progress(argv, opts, c);
    hide Index, FindEq, TakeParam;
    if c.optind < |argv| {
      var a := argv[c.optind];
      assert |a| == 2 && a[0] == '-' && a[1] == '-' ==> a == "--";
      assert |a| == 1 && a[0] == '-' ==> a == "-";
      if c.dash || (a != "" && a[0] == '-' && |a| > 1) {
        if a[1] == '-' {
          LongMoves(argv, opts, c);
        } else {
          ShortMoves(argv, opts, if c.dash then c else c.(dash := true, optchr := 1));
        }
      }
    }
  }

  /** Entry `i` is that of the long option in argument `a`. */
  ghost predicate Names(opts: seq<Opt>, i: int, a: string) {
    Entry(opts, i) && opts[i].name.Some? && ("--" + opts[i].name.value == a || "--" + opts[i].name.value + "=" <= a)
  }

  /** Only options of the table are found: the character that is read, or that of an entry with the name of
      the long option. */
  lemma FoundInTable(argv: seq<string>, opts: seq<Opt>, c: Cursor)
    requires CursorOk(argv, c) && Next(argv, opts, c).1.Found?
    ensures c.optind < |argv| && |argv[c.optind]| > 1
    ensures var a, ch := argv[c.optind], Next(argv, opts, c).1.opt;
            if a[1] == '-' then exists i :: Names(opts, i, a) && opts[i].optChar == ch
            else ch == a[if c.dash then c.optchr else 1] && exists i :: Entry(opts, i) && opts[i].optChar == ch
  {
    var a := argv[c.optind];
    if a[1] == '-' {
      FoundLong(argv, opts, c);
    } else {
      IndexMeans(opts, Spelled(a[if c.dash then c.optchr else 1]));
      hide Index, FindEq;
    }
  }

  lemma FoundLong(argv: seq<string>, opts: seq<Opt>, c: Cursor)
    requires c.optind < |argv| && |argv[c.optind]| > 1 && argv[c.optind][0] == argv[c.optind][1] == '-'
    requires NextLong(argv, opts, c).1.Found?
    ensures exists i :: Names(opts, i, argv[c.optind]) && opts[i].optChar == NextLong(argv, opts, c).1.opt
  {
    hide Index, FindEq;
    var a, rest := argv[c.optind], argv[c.optind][2..];
    var eq := FindEq(rest[..|rest| - 1]);
    var name := if eq < |rest| - 1 then rest[..eq] else rest;
    IndexMeans(opts, Called(name));
    var i := Index(opts, Called(name)).value;
    Dashes(a);
    if eq < |rest| - 1 { SignBehind(rest, eq); }
    assert Names(opts, i, a);
  }

  lemma Dashes(a: string)
    requires |a| >= 2 && a[0] == a[1] == '-'
    ensures a == "--" + a[2..]
  {
  }

  lemma SignBehind(rest: string, eq: nat)
    requires eq < |rest| && rest[eq] == '='
    ensures "--" + rest[..eq] + "=" <= "--" + rest
  {
    assert rest == rest[..eq] + "=" + rest[eq + 1..];
    assert "--" + rest == "--" + rest[..eq] + "=" + rest[eq + 1..];
  }

  /** The option at position `p` of its argument is next. */
  ghost predicate At(argv: seq<string>, c: Cursor, p: nat) {
    && c.optind < |argv| && CursorOk(argv, c) && var a := argv[c.optind];
    && 1 <= p < |a| && a[0] == '-' && a[1] != '-' && p == if c.dash then c.optchr else 1
  }

  /** A short option that is not in the table is an error; the rest of its argument is still read. A colon
      is an error and drops the rest. */
  lemma UnknownShort(argv: seq<string>, opts: seq<Opt>, c: Cursor, p: nat)
    requires At(argv, c, p)
    requires argv[c.optind][p] != ':' ==> forall i :: Entry(opts, i) ==> opts[i].optChar != argv[c.optind][p]
    ensures var (c', r) := Next(argv, opts, c);
            && r == Invalid && c'.optarg == c.optarg
            && if argv[c.optind][p] != ':' && p + 1 < |argv[c.optind]|
               then c'.optind == c.optind && c'.dash && c'.optchr == p + 1
               else c'.optind == c.optind + 1 && !c'.dash
  {
    IndexMeans(opts, Spelled(argv[c.optind][p]));
    hide Index;
  }

  /** A short option of the table that lacks its parameter, because the command line ends, is an error. */
  lemma MissingParameter(argv: seq<string>, opts: seq<Opt>, c: Cursor, p: nat, i: nat)
    requires At(argv, c, p) && p + 1 == |argv[c.optind]| && c.optind + 1 == |argv| && argv[c.optind][p] != ':'
    requires Entry(opts, i) && opts[i].optChar == argv[c.optind][p] && opts[i].needParam == 1
    requires forall k :: 0 <= k < i ==> opts[k].optChar != opts[i].optChar
    ensures Next(argv, opts, c) == (Cursor(|argv|, c.optarg, p, false), Invalid)
  {
    IndexMeans(opts, Spelled(argv[c.optind][p]));
    var j := Index(opts, Spelled(argv[c.optind][p]));
    hide Index;
    assert j == Some(i);
  }

  /** The name in a long argument: up to the first sign that has something behind it. */
  lemma LongNotFound(argv: seq<string>, opts: seq<Opt>, c: Cursor, name: string)
    requires c.optind < |argv| && !c.dash && |argv[c.optind]| > 2 && argv[c.optind][0] == argv[c.optind][1] == '-'
    requires var rest := argv[c.optind][2..]; var eq := FindEq(rest[..|rest| - 1]);
             name == if eq < |rest| - 1 then rest[..eq] else rest
    requires Index(opts, Called(name)).None?
    ensures Next(argv, opts, c) == (c.(optind := c.optind + 1), Invalid)
  {
    hide Index, FindEq;
  }

  /** A long option that is not in the table is an error, and the next argument is read. */
  lemma UnknownLong(argv: seq<string>, opts: seq<Opt>, c: Cursor, name: string, value: Option<string>)
    requires c.optind < |argv| && !c.dash && name != "" && FindEq(name) == |name| && value != Some("")
    requires argv[c.optind] == if value.Some? then "--" + name + "=" + value.value else "--" + name
    requires forall i :: Entry(opts, i) ==> opts[i].name != Some(name)
    ensures Next(argv, opts, c) == (c.(optind := c.optind + 1), Invalid)
  {
    IndexMeans(opts, Called(name));
    hide Index, FindEq, Next;
    var a := argv[c.optind];
    if value.Some? { EqualsParts(name, value.value); } else { NameParts(name); }
    assert a[0] == a[..2][0] && a[1] == a[..2][1];
    LongNotFound(argv, opts, c, name);
  }
}
