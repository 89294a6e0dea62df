/** What the handlers of the output layer are asked, and what becomes of their answers: the commands of a
    run one by one, with the operations as numbers, and what the functions see in a whole run. */
module OutputCalls {
  import opened OutputSpec

  /** A handler has been started exactly when its function has been called. */
  ghost predicate Counted(h: Handler) {
    h.started <==> h.calls > 0
  }

  /** `h` after its function has been asked for operation `op` on `data`, and what it hands on: its output,
      or, when it fails, the data, and it is disabled. */
  function Asked(h: Handler, op: nat, data: string): (Handler, string) {
    var h' := Handler(h.func, h.size, h.flushable, h.removable, "", h.calls + 1, true, h.disabled);
    match h.func(h.calls, op, data)
    case Done(out) => (h', out)
    case Failed => (h'.(disabled := true), data)
  }

  /** The operation as the function sees it: 1 is added at its first call. */
  function First(h: Handler, op: nat): nat {
    if h.calls == 0 then op + 1 else op
  }

  function Push(s: State, h: Handler): State {
    State(s.hs + [h], s.sent)
  }

  /** The handlers below get `out`, if it is not empty. */
  function HandedOn(below: State, out: string): State {
    if out == "" then below else Step(below, Print(out))
  }

  lemma StepStores(h: Handler, input: string)
    requires input == "" || h.size == 0 || |h.buffer| + |input| < h.size
    ensures HandlerStep(h, 0, input) == (h.(buffer := h.buffer + input), NO_DATA, "")
  {
  }

  lemma StepAsks(h: Handler, op: nat, input: string)
    requires Counted(h) && op % 2 == 0 && (op != 0 || (input != "" && 0 < h.size <= |h.buffer| + |input|))
    ensures var (h', status, out) := HandlerStep(h, op, input);
            && (h', out) == Asked(h, First(h, op), h.buffer + input)
            && (status == NO_DATA <==> h.func(h.calls, First(h, op), h.buffer + input) == Done(""))
  {
  }

  lemma PushedTop(s: State, h: Handler)
    ensures Push(s, h).hs != [] && Push(s, h).hs[..|s.hs|] == s.hs && Top(Push(s, h)) == h
  {
  }

  /** Printing. Without a handler the bytes are sent; a disabled handler passes them on; otherwise they are
      stored, unless a chunked buffer becomes full: then the function is asked for operation 0, or 1 at its
      first call, on all that is stored. */
  lemma Prints(below: State, h: Handler, str: string)
    requires Counted(h)
    ensures Step(State([], below.sent), Print(str)) == State([], below.sent + str)
    ensures h.disabled ==> Step(Push(below, h), Print(str)) == Push(Step(below, Print(str)), h)
    ensures !h.disabled && (str == "" || h.size == 0 || |h.buffer| + |str| < h.size) ==>
      Step(Push(below, h), Print(str)) == Push(below, h.(buffer := h.buffer + str))
    ensures !h.disabled && str != "" && 0 < h.size <= |h.buffer| + |str| ==>
      var (h', out) := Asked(h, First(h, 0), h.buffer + str);
      Step(Push(below, h), Print(str)) == Push(HandedOn(below, out), h')
  {
    TopDownOfTop(below.hs, h, 0, str);
    assert below.sent + "" == below.sent;
    if !h.disabled {
      if str == "" || h.size == 0 || |h.buffer| + |str| < h.size {
        StepStores(h, str);
      } else {
        StepAsks(h, 0, str);
        assert h.buffer + str != "" by { assert |h.buffer + str| > 0; }
      }
    }
    hide HandlerStep, TopDown, Asked;
  }

  /** Flushing the active handler. If it may be flushed, its function is asked for operation 4, or 5, on
      what is stored, even when it is disabled. */
  lemma Flushes(below: State, h: Handler)
    requires Counted(h)
    ensures Step(State([], below.sent), FlushTop) == State([], below.sent)
    ensures Step(State([], below.sent), FlushEvery) == State([], below.sent)
    ensures Step(Push(below, h), FlushEvery) == Op(Push(below, h), 4, "")
    ensures !h.flushable ==> Step(Push(below, h), FlushTop) == Push(below, h)
    ensures h.flushable ==>
      var (h', out) := Asked(h, First(h, 4), h.buffer);
      Step(Push(below, h), FlushTop) == Push(HandedOn(below, out), h')
  {
    PushedTop(below, h);
    if h.flushable {
      StepAsks(h, 4, "");
      assert h.buffer + "" == h.buffer;
      hide HandlerStep, TopDown, Asked;
    }
  }

  /** Flushing all handlers, with `input` from above: an enabled handler is asked for operation 4, or 5, on
      what is stored and the input; when it answers with nothing the operation ends. */
  lemma FlushesAll(below: State, h: Handler, input: string)
    requires Counted(h)
    ensures Op(State([], below.sent), 4, input) == State([], below.sent + input)
    ensures h.disabled ==> Op(Push(below, h), 4, input) == Push(Op(below, 4, input), h)
    ensures !h.disabled ==>
      var (h', out) := Asked(h, First(h, 4), h.buffer + input);
      Op(Push(below, h), 4, input)
      == if h.func(h.calls, First(h, 4), h.buffer + input) == Done("") then Push(below, h')
         else Push(Op(below, 4, out), h')
  {
    TopDownOfTop(below.hs, h, 4, input);
    assert below.sent + "" == below.sent;
    if !h.disabled { StepAsks(h, 4, input); }
    hide HandlerStep, TopDown, Asked;
  }

  /** Ending the active handler, if it may be removed or that is forced: an enabled one is asked for
      operation 8, or 9, and what it hands on is written below it, unless it is discarded. */
  lemma Pops(below: State, h: Handler, force: bool)
    requires Counted(h)
    ensures Pop(State([], below.sent), force, false) == State([], below.sent)
    ensures !h.removable && !force ==>
      Pop(Push(below, h), force, false) == Pop(Push(below, h), force, true) == Push(below, h)
    ensures h.removable || force ==>
      Pop(Push(below, h), force, false)
      == if h.disabled then below else HandedOn(below, Asked(h, First(h, 8), h.buffer).1)
    ensures h.removable || force ==> Pop(Push(below, h), force, true) == below
  {
    PushedTop(below, h);
    StepAsks(h, 8, "");
    assert h.buffer + "" == h.buffer;
    hide HandlerStep, TopDown, Asked;
  }

  /** Starting a handler, and ending one or all of them. */
  lemma Ends(below: State, h: Handler)
    ensures Step(below, Begin(h)) == Push(below, h)
    ensures Step(State([], below.sent), End) == Step(State([], below.sent), EndEvery) == State([], below.sent)
    ensures Step(Push(below, h), End) == Pop(Push(below, h), false, false)
    ensures Step(Push(below, h), EndEvery) == Step(Pop(Push(below, h), true, false), EndEvery)
  {
    PushedTop(below, h);
    PopShrinks(Push(below, h));
    hide Pop;
  }

  // ----- whole runs

  /** `f` and `g` answer alike to all that a function is ever asked: operation 1, 5 or 9 at its call number
      0, and 0, 4 or 8 at every later one. */
  ghost predicate Agree(f: Func, g: Func) {
    forall n, op, data :: (n == 0 && op in {1, 5, 9}) || (n > 0 && op in {0, 4, 8}) ==>
      f(n, op, data) == g(n, op, data)
  }

  /** The same handler, but for what its function is never asked. */
  ghost predicate Alike(h: Handler, g: Handler) {
    Counted(h) && g == h.(func := g.func) && Agree(h.func, g.func)
  }

  ghost predicate AllAlike(hs: seq<Handler>, gs: seq<Handler>) {
    |hs| == |gs| && forall i :: 0 <= i < |hs| ==> Alike(hs[i], gs[i])
  }

  lemma StepAlike(h: Handler, g: Handler, op: nat, input: string)
    requires Alike(h, g) && op in {0, 4, 8}
    ensures var (h', status, out) := HandlerStep(h, op, input); var (g', status', out') := HandlerStep(g, op, input);
            Alike(h', g') && status == status' && out == out'
  {
    assert h.func(h.calls, Mode(h, op), h.buffer + input) == g.func(h.calls, Mode(h, op), h.buffer + input);
  }

  lemma {:induction false} TopDownAlike(hs: seq<Handler>, gs: seq<Handler>, op: nat, input: string)
    requires AllAlike(hs, gs) && op in {0, 4}
    ensures AllAlike(TopDown(hs, op, input).0, TopDown(gs, op, input).0)
    ensures TopDown(hs, op, input).1 == TopDown(gs, op, input).1
  {
    hide HandlerStep, Alike;
    if hs != [] {
      var n := |hs| - 1;
      var h, g := hs[n], gs[n];
      assert Alike(h, g) && h.disabled == g.disabled by { AlikeFlags(h, g); }
      StepAlike(h, g, op, input);
      var (_, _, out) := HandlerStep(h, op, input);
      TopDownAlike(hs[..n], gs[..n], op, if h.disabled then input else out);
    }
  }

  lemma AlikeFlags(h: Handler, g: Handler)
    requires Alike(h, g)
    ensures h.disabled == g.disabled && h.flushable == g.flushable && h.removable == g.removable
  {
  }

  lemma FlushAlike(s: State, t: State)
    requires AllAlike(s.hs, t.hs) && s.sent == t.sent
    ensures AllAlike(Flush(s).hs, Flush(t).hs) && Flush(s).sent == Flush(t).sent
  {
    hide HandlerStep, Alike, TopDown;
    if s.hs != [] {
      var n := |s.hs| - 1;
      AlikeFlags(s.hs[n], t.hs[n]);
      StepAlike(s.hs[n], t.hs[n], 4, "");
      TopDownAlike(s.hs[..n], t.hs[..n], 0, HandlerStep(s.hs[n], 4, "").2);
    }
  }

  lemma PopAlike(s: State, t: State, force: bool)
    requires AllAlike(s.hs, t.hs) && s.sent == t.sent
    ensures AllAlike(Pop(s, force, false).hs, Pop(t, force, false).hs)
    ensures Pop(s, force, false).sent == Pop(t, force, false).sent
  {
    hide HandlerStep, Alike, TopDown;
    if s.hs != [] {
      var n := |s.hs| - 1;
      AlikeFlags(s.hs[n], t.hs[n]);
      StepAlike(s.hs[n], t.hs[n], 8, "");
      TopDownAlike(s.hs[..n], t.hs[..n], 0, Final(s.hs[n], 8));
    }
  }

  lemma {:induction false} EndAllAlike(s: State, t: State)
    requires AllAlike(s.hs, t.hs) && s.sent == t.sent
    ensures EndAll(s) == EndAll(t)
    decreases |s.hs|
  {
    hide Pop;
    if s.hs != [] {
      PopShrinks(s);
      PopShrinks(t);
      PopAlike(s, t, true);
      EndAllAlike(Pop(s, true, false), Pop(t, true, false));
    }
  }

  /** The same commands, with handlers that are alike. */
  ghost predicate SameCommands(cs: seq<Command>, ds: seq<Command>) {
    && |cs| == |ds|
    && forall i :: 0 <= i < |cs| ==>
         if !cs[i].Begin? then ds[i] == cs[i]
         else ds[i].Begin? && New(cs[i].handler) && Alike(cs[i].handler, ds[i].handler)
  }

  /** What a run sends and keeps depends on nothing else that its functions could answer: in every run a
      function is asked for an odd operation exactly at its first call, and for 0, 4 or 8 later. */
  lemma {:induction false} RunAsksOnly(cs: seq<Command>, ds: seq<Command>)
    requires SameCommands(cs, ds)
    ensures var s, t := Run(State([], ""), cs), Run(State([], ""), ds); AllAlike(s.hs, t.hs) && s.sent == t.sent
    decreases |cs|
  {
    hide Alike, TopDown, Flush, Pop, EndAll;
    if cs != [] {
      var n := |cs| - 1;
      RunAsksOnly(cs[..n], ds[..n]);
      var s, t := Run(State([], ""), cs[..n]), Run(State([], ""), ds[..n]);
      match cs[n] {
        case Begin(_) =>
        case Print(str) => TopDownAlike(s.hs, t.hs, 0, str);
        case FlushTop => FlushAlike(s, t);
        case FlushEvery => TopDownAlike(s.hs, t.hs, 4, "");
        case End => PopAlike(s, t, false);
        case EndEvery => EndAllAlike(s, t);
      }
    }
  }

  // ----- a handler with a header

  /** A function that puts "H" in front of what it is given with an odd operation. */
  function Heading(n: nat, op: int, data: string): Outcome {
    Done((if op % 2 == 1 then "H" else "") + data)
  }

  ghost predicate Headed(s: State, printed: string, size: nat, removable: bool) {
    && |s.hs| == 1 && Counted(s.hs[0])
    && s.hs[0] == Handler(Heading, size, true, removable, s.hs[0].buffer, s.hs[0].calls, s.hs[0].started, false)
    && if s.hs[0].started then s.sent + s.hs[0].buffer == "H" + printed else s.sent == "" && s.hs[0].buffer == printed
  }

  lemma AskedHeading(h: Handler, op: nat, data: string)
    requires h.func == Heading && Counted(h) && op % 2 == 0
    ensures Asked(h, First(h, op), data)
         == (h.(buffer := "", calls := h.calls + 1, started := true), (if h.started then "" else "H") + data)
    ensures h.func(h.calls, First(h, op), data) == Done((if h.started then "" else "H") + data)
  {
  }

  lemma Handed(sent: string, out: string)
    ensures HandedOn(State([], sent), out) == State([], sent + out)
    ensures Op(State([], sent), 4, out) == State([], sent + out)
  {
    var h := Handler(Heading, 0, true, true, "", 0, false, false);
    Prints(State([], sent), h, out);
    FlushesAll(State([], sent), h, out);
    assert sent + "" == sent;
  }

  /** The handler has been asked on `data`, all that was stored and came in, and its answer has been sent. */
  lemma HeadedAsked(s: State, h: Handler, data: string, printed: string, size: nat, removable: bool, s': State)
    requires Counted(h) && h == Handler(Heading, size, true, removable, h.buffer, h.calls, h.started, false)
    requires if h.started then s.sent + data == "H" + printed else s.sent == "" && data == printed
    requires s' == Push(State([], s.sent + ((if h.started then "" else "H") + data)),
                        h.(buffer := "", calls := h.calls + 1, started := true))
    ensures Headed(s', printed, size, removable)
  {
    assert "" + data == data && s'.sent + "" == s'.sent && "" + ("H" + data) == "H" + data;
  }

  lemma HeadedPrint(s: State, str: string, printed: string, size: nat, removable: bool)
    requires Headed(s, printed, size, removable)
    ensures Headed(Step(s, Print(str)), printed + str, size, removable)
  {
    var h, below := s.hs[0], State([], s.sent);
    assert s == Push(below, h);
    Prints(below, h, str);
    assert s.sent + (h.buffer + str) == s.sent + h.buffer + str && "H" + (printed + str) == "H" + printed + str;
    hide Step, Asked, HandedOn;
    if str != "" && 0 < size <= |h.buffer| + |str| {
      AskedHeading(h, 0, h.buffer + str);
      Handed(s.sent, (if h.started then "" else "H") + (h.buffer + str));
      HeadedAsked(s, h, h.buffer + str, printed + str, size, removable, Step(s, Print(str)));
    }
  }

  /** A flush of a single handler sends what it answers. */
  lemma SentByFlush(sent: string, h: Handler, c: Command)
    requires h.func == Heading && Counted(h) && h.flushable && !h.disabled && (c.FlushTop? || c.FlushEvery?)
    ensures Step(Push(State([], sent), h), c)
         == Push(State([], sent + ((if h.started then "" else "H") + h.buffer)),
                 h.(buffer := "", calls := h.calls + 1, started := true))
  {
    var below, out := State([], sent), (if h.started then "" else "H") + h.buffer;
    Flushes(below, h);
    FlushesAll(below, h, "");
    assert h.buffer + "" == h.buffer;
    AskedHeading(h, 4, h.buffer);
    hide Step, Asked, HandedOn, Op;
    Handed(sent, out);
    assert out == "" ==> sent + out == sent;
  }

  lemma HeadedFlush(s: State, c: Command, printed: string, size: nat, removable: bool)
    requires Headed(s, printed, size, removable) && (c.FlushTop? || c.FlushEvery?)
    ensures Headed(Step(s, c), printed, size, removable)
  {
    var h := s.hs[0];
    assert s == Push(State([], s.sent), h);
    SentByFlush(s.sent, h, c);
    HeadedAsked(s, h, h.buffer, printed, size, removable, Step(s, c));
  }

  /** Whatever is printed and flushed, with or without chunks, "H" is sent once, in front of everything. */
  lemma {:induction false} HeadingOnce(cs: seq<Command>, size: nat, removable: bool)
    requires forall i :: 0 <= i < |cs| ==> cs[i].Print? || cs[i].FlushTop? || cs[i].FlushEvery?
    ensures var s := Run(State([Handler(Heading, size, true, removable, "", 0, false, false)], ""), cs);
            Headed(s, Printed(cs), size, removable) && Step(s, EndEvery) == State([], "H" + Printed(cs))
    decreases |cs|
  {
    hide Headed, Step;
    var start := State([Handler(Heading, size, true, removable, "", 0, false, false)], "");
    if cs == [] {
      HeadedStart(size, removable);
    } else {
      var n := |cs| - 1;
      HeadingOnce(cs[..n], size, removable);
      var s, c := Run(start, cs[..n]), cs[n];
      if c.Print? {
        HeadedPrint(s, c.str, Printed(cs[..n]), size, removable);
      } else {
        HeadedFlush(s, c, Printed(cs[..n]), size, removable);
        assert Printed(cs[..n]) + "" == Printed(cs[..n]);
      }
    }
    HeadedEnd(Run(start, cs), Printed(cs), size, removable);
  }

  lemma HeadedStart(size: nat, removable: bool)
    ensures Headed(State([Handler(Heading, size, true, removable, "", 0, false, false)], ""), "", size, removable)
  {
  }

  lemma HeadedEnd(s: State, printed: string, size: nat, removable: bool)
    requires Headed(s, printed, size, removable)
    ensures Step(s, EndEvery) == State([], "H" + printed)
  {
    var h, below := s.hs[0], State([], s.sent);
    assert s == Push(below, h);
    Ends(below, h);
    Pops(below, h, true);
    AskedHeading(h, 8, h.buffer);
    hide Asked, HandedOn, Pop, Step;
    var out := (if h.started then "" else "H") + h.buffer;
    Handed(s.sent, out);
    Ends(State([], s.sent + out), h);
    assert "" + h.buffer == h.buffer && "" + out == out;
  }
}
