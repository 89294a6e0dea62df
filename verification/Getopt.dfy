/** `php_getopt` as it is built: static variables, character reads up to the final NUL, and loops over
    the option table; every call is proved to do what GetoptSpec says. */
module Getopt {
  import opened Common
  import opened GetoptSpec

  const NUL := '\0'

  /** `s[i]` of a C string. */
  function Ch(s: string, i: nat): char
    requires i <= |s|
  {
    if i < |s| then s[i] else NUL
  }

  /** `memchr` for '=' between `from` and `to`. */
  method FindEquals(s: string, from: nat, to: nat) returns (pos: Option<nat>)
    requires from <= to <= |s|
    ensures var eq := FindEq(s[from..to]);
            pos == if eq < to - from then Some(from + eq) else None
  {
    var i := from;
    while i < to
      invariant from <= i <= to && FindEq(s[from..to]) == i - from + FindEq(s[i..to])
    {
      if s[i] == '=' {
        return Some(i);
      }
      assert s[i..to][1..] == s[i + 1..to];
      i := i + 1;
    }
    pos := None;
  }

  class Scanner {
    const argv: seq<string>
    const opts: seq<Opt>
    // the caller's variables
    var optind: nat
    var optarg: Option<string>
    // static
    var optchr: nat
    var dash: bool
    var prevOptarg: nat    // the address of the last caller's `optarg`; 0 is NULL
    var optidx: int

    ghost predicate Valid()
      reads this
    {
      ArgsOk(argv) && TableOk(opts) && CursorOk(argv, View())
    }

    ghost function View(): Cursor
      reads this
    {
      Cursor(optind, optarg, optchr, dash)
    }

    constructor (argv: seq<string>, opts: seq<Opt>, optind: nat)
      requires ArgsOk(argv) && TableOk(opts)
      ensures Valid() && View() == Cursor(optind, None, 0, false) && prevOptarg == 0
      ensures this.argv == argv && this.opts == opts
    {
      this.argv, this.opts, this.optind, optarg := argv, opts, optind, None;
      optchr, dash, prevOptarg, optidx := 0, false, 0, -1;
    }

    /** The loop over the table for a long option. */
    method SearchName(name: string)
      requires TableOk(opts)
      modifies this`optidx
      ensures 0 <= optidx < |opts|
      ensures match Index(opts, Called(name)) case Some(i) => optidx == i case None => opts[optidx].optChar == '-'
      ensures opts[optidx].optChar == '-' <==> Index(opts, Called(name)).None?
    {
      optidx := 0;
      ghost var accepts := Called(name);
      SearchStart(opts, accepts);
      hide Searched, Index;
      while opts[optidx].optChar != '-' && opts[optidx].name != Some(name)
        invariant 0 <= optidx < |opts| && Searched(opts, accepts, optidx)
        decreases |opts| - optidx
      {
        SearchOn(opts, accepts, optidx);
        optidx := optidx + 1;
      }
      SearchEnds(opts, accepts, optidx);
    }

    /** The loop over the table for a short option. */
    method SearchChar(ch: char)
      requires TableOk(opts)
      modifies this`optidx
      ensures 0 <= optidx < |opts|
      ensures match Index(opts, Spelled(ch)) case Some(i) => optidx == i case None => opts[optidx].optChar == '-'
      ensures opts[optidx].optChar == '-' <==> Index(opts, Spelled(ch)).None?
    {
      optidx := 0;
      ghost var accepts := Spelled(ch);
      SearchStart(opts, accepts);
      hide Searched, Index;
      while opts[optidx].optChar != '-' && ch != opts[optidx].optChar
        invariant 0 <= optidx < |opts| && Searched(opts, accepts, optidx)
        decreases |opts| - optidx
      {
        SearchOn(opts, accepts, optidx);
        optidx := optidx + 1;
      }
      SearchEnds(opts, accepts, optidx);
    }

    /** The end of `php_getopt` for an option that takes a parameter. */
    method Param(argStart: nat) returns (r: Result)
      requires optind < |argv| && ArgsOk(argv) && argStart <= |argv[optind]| && 0 <= optidx < |opts|
        && opts[optidx].needParam != 0
      modifies this`optind, this`optarg, this`dash
      ensures (View(), r) == TakeParam(argv, old(View()), opts[optidx], old(argv[optind][argStart..]))
    {
      dash := false;
      var a := argv[optind];
      assert argStart < |a| ==> a[argStart] in a && a[argStart] == a[argStart..][0];
      if Ch(a, argStart) == NUL {
        optind := optind + 1;
        if optind == |argv| {
          if opts[optidx].needParam == 1 {
            return Invalid;
          }
        } else if opts[optidx].needParam == 1 {
          optarg := Some(argv[optind]);
          optind := optind + 1;
        }
      } else if Ch(a, argStart) == '=' {
        assert a[argStart..][1..] == a[argStart + 1..];
        optarg := Some(a[argStart + 1..]);
        optind := optind + 1;
      } else {
        optarg := Some(a[argStart..]);
        optind := optind + 1;
      }
      r := Found(opts[optidx].optChar);
    }

    /** An argument that begins with two dashes. */
    method Long() returns (r: Result)
      requires Valid() && optind < |argv| && |argv[optind]| >= 2 && !dash
      modifies this`optind, this`optarg, this`optchr, this`dash, this`optidx
      ensures (View(), r) == NextLong(argv, opts, old(View()))
    {
      hide Index, TakeParam;
      var a := argv[optind];
      var argEnd: nat := |a| - 1;
      assert |a| > 2 ==> a[2] in a;
      if Ch(a, 2) == NUL {
        optind := optind + 1;
        return Eof;
      }
      var argStart := 2;
      ghost var rest := a[2..];
      assert a[2..argEnd] == rest[..|rest| - 1];
      var pos := FindEquals(a, 2, argEnd);
      if pos.Some? {
        argEnd := pos.value - 2;
        argStart := argStart + 1;
      } else {
        argEnd := argEnd - 1;
      }
      var name := a[2..][..argEnd];
      assert name == if pos.Some? then rest[..argEnd] else rest;
      SearchName(name);
      if opts[optidx].optChar == '-' {
        optind := optind + 1;
        return Invalid;
      }
      optchr := 0;
      dash := false;
      argStart := argStart + |name|;
      if opts[optidx].needParam != 0 {
        assert a[argStart..] == if pos.Some? then rest[argEnd + 1..] else "";
        r := Param(argStart);
      } else {
        optind := optind + 1;
        r := Found(opts[optidx].optChar);
      }
    }

    /** One option of a cluster. */
    method Short() returns (r: Result)
      requires Valid() && optind < |argv| && dash && optchr < |argv[optind]|
      modifies this`optind, this`optarg, this`optchr, this`dash, this`optidx
      ensures (View(), r) == NextShort(argv, opts, old(View()))
    {
      hide Index, TakeParam;
      var a := argv[optind];
      if Ch(a, optchr) == ':' {
        dash := false;
        optind := optind + 1;
        return Invalid;
      }
      var argStart := 1 + optchr;
      assert argStart < |a| ==> a[argStart] in a;
      SearchChar(Ch(a, optchr));
      if opts[optidx].optChar == '-' {
        if Ch(a, optchr + 1) == NUL {
          dash := false;
          optind := optind + 1;
        } else {
          optchr := optchr + 1;
        }
        return Invalid;
      }
      if opts[optidx].needParam != 0 {
        r := Param(argStart);
      } else {
        if Ch(a, optchr + 1) == NUL {
          dash := false;
          optind := optind + 1;
        } else {
          optchr := optchr + 1;
        }
        r := Found(opts[optidx].optChar);
      }
    }

    /** `php_getopt`, called with an `optarg` at address `where`; another address than last time makes
        it forget its position. */
    method Getopt(where: nat) returns (r: Result)
      requires Valid() && where > 0
      modifies this`optind, this`optarg, this`optchr, this`dash, this`prevOptarg, this`optidx
      ensures Valid() && prevOptarg == where
      ensures var c := if old(prevOptarg) != 0 && old(prevOptarg) != where 
                       then old(View()).(optchr := 0, dash := false) else old(View());
              (View(), r) == Next(argv, opts, c)
    {
      optidx := -1;
      if prevOptarg != 0 && prevOptarg != where {
        optchr := 0;
        dash := false;
      }
      prevOptarg := where;
      ghost var c := View();
      Progress(argv, opts, c);
      hide NextLong, NextShort;
      if optind >= |argv| {
        return Eof;
      }
      var a := argv[optind];
      assert |a| > 0 ==> a[0] in a;
      assert |a| > 1 ==> a[1] in a;
      if !dash {
        if Ch(a, 0) != '-' {
          return Eof;
        } else if Ch(a, 1) == NUL {
          return Eof;
        }
      }
      if Ch(a, 0) == '-' && Ch(a, 1) == '-' {
        r := Long();
      } else {
        if !dash {
          dash := true;
          optchr := 1;
        }
        r := Short();
      }
    }
  }

  /** The first `n` entries of the table neither end it nor are accepted. */
  ghost predicate Searched(opts: seq<Opt>, accepts: Opt -> bool, n: int) {
    && 0 <= n < |opts| && TableOk(opts[n..])
    && Index(opts, accepts) == match Index(opts[n..], accepts) case None => None case Some(i) => Some(n + i)
  }

  lemma SearchStart(opts: seq<Opt>, accepts: Opt -> bool)
    requires TableOk(opts)
    ensures Searched(opts, accepts, 0)
  {
    assert opts[0..] == opts;
  }

  lemma SearchOn(opts: seq<Opt>, accepts: Opt -> bool, n: nat)
    requires Searched(opts, accepts, n) && opts[n].optChar != '-' && !accepts(opts[n])
    ensures Searched(opts, accepts, n + 1) && n + 1 < |opts|
  {
    var i :| 0 <= i < |opts[n..]| && opts[n..][i].optChar == '-';
    assert i > 0 && opts[n + 1..][i - 1].optChar == '-';
    assert opts[n..][1..] == opts[n + 1..];
  }

  lemma SearchEnds(opts: seq<Opt>, accepts: Opt -> bool, n: nat)
    requires Searched(opts, accepts, n) && (opts[n].optChar == '-' || accepts(opts[n]))
    ensures Index(opts, accepts) == if opts[n].optChar == '-' then None else Some(n)
  {
  }

  /** The driver of the option loop: it ends, and a command line written from a list of options is read
      back. */
  method ReadAll(argv: seq<string>, opts: seq<Opt>, first: nat)
    returns (results: seq<(Result, Option<string>)>, end: nat)
    requires ArgsOk(argv) && TableOk(opts) && first <= |argv|
    ensures (results, end) == Drive(argv, opts, Cursor(first, None, 0, false))
    ensures end >= first
  {
    hide Next;
    var scanner := new Scanner(argv, opts, first);
    results := [];
    ghost var start := scanner.View();
    var r := Invalid;
    assert [] + Drive(argv, opts, start).0 == Drive(argv, opts, start).0;
    while r != Eof
      invariant scanner.Valid() && fresh(scanner) && scanner.argv == argv && scanner.opts == opts
        && scanner.prevOptarg in {0, 1}
      invariant first <= scanner.optind <= |argv|
      invariant if r == Eof then Drive(argv, opts, start) == (results, scanner.optind)
                else var (more, e) := Drive(argv, opts, scanner.View()); Drive(argv, opts, start) == (results + more, e)
      decreases r != Eof, |argv| - scanner.optind, Left(argv, scanner.View())
    {
      ghost var c := scanner.View();
      Progress(argv, opts, c);
      if Next(argv, opts, c).1 != Eof { Decreases(argv, opts, c); }
      r := scanner.Getopt(1);
      if r != Eof {
        ghost var more := Drive(argv, opts, scanner.View()).0;
        assert results + ([(r, scanner.optarg)] + more) == results + [(r, scanner.optarg)] + more;
        results := results + [(r, scanner.optarg)];
      } else {
        assert results + [] == results;
      }
    }
    end := scanner.optind;
  }
}
