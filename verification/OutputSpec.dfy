/** The output layer as a state machine on values: a stack of buffering handlers and the bytes sent
    to the server interface, with the properties of every run. */
module OutputSpec {

  // handler operations; WRITE is 0
  const WRITE := 0
  const START := 1
  const CLEAN := 2
  const FLUSH := 4
  const FINAL := 8

  /** What a handler function answers: its output, possibly empty, or failure. */
  datatype Outcome = Done(out: string) | Failed

  /** A handler function; it may answer differently at each call and for each operation. */
  type Func = (nat, int, string) -> Outcome

  datatype Handler = Handler(func: Func, size: nat, flushable: bool, removable: bool,
                             buffer: string, calls: nat, started: bool, disabled: bool)

  datatype Status = FAILURE | SUCCESS | NO_DATA

  /** The operation the function sees: START is added at its first call. */
  function Mode(h: Handler, op: nat): nat {
    if h.started || op % 2 == START then op else op + START
  }

  function Answer(h: Handler, op: nat, data: string): Outcome {
    h.func(h.calls, Mode(h, op), data)
  }

  /** `php_output_handler_op`: store the input, or run the function on everything stored. */
  function HandlerStep(h: Handler, op: nat, input: string): (Handler, Status, string) {
    var data := h.buffer + input;
    var full := input != "" && h.size > 0 && |data| >= h.size;
    if op == WRITE && !full then (h.(buffer := data), NO_DATA, "")
    else
      var h' := h.(buffer := "", calls := h.calls + 1, started := true);
      match Answer(h, op, data)
      case Done(out) => if out == "" then (h', NO_DATA, "") else (h', SUCCESS, out)
      case Failed => (h'.(disabled := true), FAILURE, data)
  }

  /** An operation enters at the top and each handler's output is the input of the one below, until
      one of them keeps everything; disabled handlers pass their input along. */
  function TopDown(hs: seq<Handler>, op: nat, input: string): (r: (seq<Handler>, string))
    ensures |r.0| == |hs|
  {
    if hs == [] then ([], input)
    else
      var n := |hs| - 1;
      if hs[n].disabled then
        var (below, out) := TopDown(hs[..n], op, input);
        (below + [hs[n]], out)
      else
        var (h, status, data) := HandlerStep(hs[n], op, input);
        if status == NO_DATA then (hs[..n] + [h], "")
        else
          var (below, out) := TopDown(hs[..n], op, data);
          (below + [h], out)
  }

  /** The stack and the bytes sent. */
  datatype State = State(hs: seq<Handler>, sent: string)

  function Op(s: State, op: nat, str: string): State {
    var (hs, out) := TopDown(s.hs, op, str);
    State(hs, s.sent + out)
  }

  function Write(s: State, str: string): State {
    Op(s, WRITE, str)
  }

  function Top(s: State): Handler
    requires s.hs != []
  {
    s.hs[|s.hs| - 1]
  }

  /** `php_output_flush`: the top handler's output is written to the handlers below it. */
  function Flush(s: State): State {
    if s.hs == [] || !Top(s).flushable then s
    else
      var n := |s.hs| - 1;
      var (h, _, out) := HandlerStep(s.hs[n], FLUSH, "");
      var below := if out == "" then State(s.hs[..n], s.sent) else Write(State(s.hs[..n], s.sent), out);
      State(below.hs + [h], below.sent)
  }

  /** What finalising handler `h` produces; a disabled handler is not run. */
  function Final(h: Handler, op: nat): string {
    if h.disabled then "" else HandlerStep(h, op, "").2
  }

  /** `php_output_stack_pop`: finalise the top handler, pop it, and write its output below. */
  function Pop(s: State, force: bool, discard: bool): State {
    if s.hs == [] || (!force && !Top(s).removable) then s
    else
      var out := Final(Top(s), if discard then FINAL + CLEAN else FINAL);
      var below := State(s.hs[..|s.hs| - 1], s.sent);
      if out == "" || discard then below else Write(below, out)
  }

  function EndAll(s: State): (r: State)
    ensures r.hs == []
    decreases |s.hs|
  {
    if s.hs == [] then s else PopShrinks(s); EndAll(Pop(s, true, false))
  }

  lemma PopShrinks(s: State)
    requires s.hs != []
    ensures |Pop(s, true, false).hs| == |s.hs| - 1
  {
  }

  // ----- conservation

  /** All buffers, from the bottom of the stack to the top. */
  function Buffers(hs: seq<Handler>): string {
    if hs == [] then "" else Buffers(hs[..|hs| - 1]) + hs[|hs| - 1].buffer
  }

  /** Everything written so far: sent, or waiting in a buffer. */
  function Total(s: State): string {
    s.sent + Buffers(s.hs)
  }

  ghost predicate PassOrFail(f: Func) {
    forall n, op, data :: f(n, op, data) == Failed || f(n, op, data) == Done(data)
  }

  /** Handlers whose functions pass their data through or fail, with nothing left in failed ones. */
  ghost predicate Faithful(hs: seq<Handler>) {
    forall i :: 0 <= i < |hs| ==> PassOrFail(hs[i].func) && (hs[i].disabled ==> hs[i].buffer == "")
  }

  lemma StepConserves(h: Handler, op: nat, input: string)
    requires PassOrFail(h.func)
    ensures var (h', status, out) := HandlerStep(h, op, input);
            && h'.func == h.func && out + h'.buffer == h.buffer + input && (out != "" ==> h'.buffer == "")
            && (status != NO_DATA ==> h'.buffer == "") && (status == NO_DATA ==> out == "")
            && (h'.disabled ==> h.disabled || h'.buffer == "")
            && (h.disabled && h.buffer == "" && input == "" ==> h'.buffer == "")
  {
    var data := h.buffer + input;
    assert Answer(h, op, data) == Failed || Answer(h, op, data) == Done(data);
    assert data + "" == data && "" + data == data;
  }

  /** Buffers and faithfulness of a stack, from its top handler and the rest. */
  lemma TopOff(below: seq<Handler>, h: Handler)
    ensures Buffers(below + [h]) == Buffers(below) + h.buffer
    ensures Faithful(below + [h]) <==> Faithful(below) && PassOrFail(h.func) && (h.disabled ==> h.buffer == "")
  {
    var hs := below + [h];
    assert hs[..|below|] == below && hs[|below|] == h;
    assert forall i :: 0 <= i < |below| ==> hs[i] == below[i];
  }

  /** The top handler and what it passes on to the rest. */
  lemma TopDownOfTop(below: seq<Handler>, h: Handler, op: nat, input: string)
    ensures var (h', status, data) := HandlerStep(h, op, input);
            var (below', out) := TopDown(below, op, if h.disabled then input else data);
            TopDown(below + [h], op, input)
            == if !h.disabled && status == NO_DATA then (below + [h'], "")
               else (below' + [if h.disabled then h else h'], out)
  {
    hide HandlerStep;
    assert (below + [h])[..|below|] == below;
  }

  /** The top handler passes `data` on, and the rest conserves it. */
  lemma PassedOn(below: seq<Handler>, below': seq<Handler>, h: Handler, h': Handler, input: string, data: string,
                 out: string)
    requires Faithful(below + [h]) && Faithful(below') && out + Buffers(below') == Buffers(below) + data
    requires PassOrFail(h'.func) && h'.buffer == "" && data == h.buffer + input
    ensures Faithful(below' + [h']) && out + Buffers(below' + [h']) == Buffers(below + [h]) + input
  {
    TopOff(below, h);
    TopOff(below', h');
    hide Buffers, Faithful, PassOrFail;
    assert Buffers(below') + "" == Buffers(below');
    assert Buffers(below) + (h.buffer + input) == (Buffers(below) + h.buffer) + input;
  }

  /** The top handler keeps everything. */
  lemma KeptBack(below: seq<Handler>, h: Handler, h': Handler, input: string)
    requires Faithful(below + [h]) && PassOrFail(h'.func) && (h'.disabled ==> h'.buffer == "")
    requires h'.buffer == h.buffer + input
    ensures Faithful(below + [h']) && "" + Buffers(below + [h']) == Buffers(below + [h]) + input
  {
    TopOff(below, h);
    TopOff(below, h');
    hide Buffers, Faithful, PassOrFail;
    assert Buffers(below) + (h.buffer + input) == (Buffers(below) + h.buffer) + input;
  }

  lemma {:induction false} TopDownConserves(hs: seq<Handler>, op: nat, input: string)
    requires Faithful(hs)
    ensures var (hs', out) := TopDown(hs, op, input);
            Faithful(hs') && out + Buffers(hs') == Buffers(hs) + input
  {
    if hs == [] {
      assert input + "" == "" + input;
    } else {
      var below, h := hs[..|hs| - 1], hs[|hs| - 1];
      assert below + [h] == hs;
      TopOff(below, h);
      StepConserves(h, op, input);
      TopDownOfTop(below, h, op, input);
      hide HandlerStep, TopDown, Buffers, Faithful, PassOrFail;
      var (h', status, data) := HandlerStep(h, op, input);
      if !h.disabled && status == NO_DATA {
        assert "" + h'.buffer == h'.buffer;
        KeptBack(below, h, h', input);
      } else {
        var top, next := if h.disabled then h else h', if h.disabled then input else data;
        assert "" + input == input && data + "" == data;
        TopDownConserves(below, op, next);
        PassedOn(below, TopDown(below, op, next).0, h, top, input, next, TopDown(below, op, next).1);
      }
    }
  }

  lemma OpConserves(s: State, op: nat, str: string)
    requires Faithful(s.hs)
    ensures Faithful(Op(s, op, str).hs) && Total(Op(s, op, str)) == Total(s) + str
  {
    TopDownConserves(s.hs, op, str);
    var (hs', out) := TopDown(s.hs, op, str);
    assert (s.sent + out) + Buffers(hs') == s.sent + (out + Buffers(hs'));
    assert s.sent + (Buffers(s.hs) + str) == (s.sent + Buffers(s.hs)) + str;
  }

  /** Replacing the top handler by `h` and writing `out` below it moves bytes, but loses none. */
  lemma MoveDown(s: State, h: Handler, out: string)
    requires s.hs != [] && Faithful(s.hs) && Faithful([h]) && out + h.buffer == Top(s).buffer
      && (out != "" ==> h.buffer == "")
    ensures var below := Write(State(s.hs[..|s.hs| - 1], s.sent), out);
            Faithful(below.hs + [h]) && Total(State(below.hs + [h], below.sent)) == Total(s)
  {
    var init := State(s.hs[..|s.hs| - 1], s.sent);
    OpConserves(init, WRITE, out);
    var below := Write(init, out);
    hide Write, Buffers, PassOrFail;
    assert [h][0] == h && Faithful([h]);
    TopOff(below.hs, h);
    assert s.hs == init.hs + [Top(s)];
    TopOff(init.hs, Top(s));
    MoveBytes(s.sent, Buffers(init.hs), out, h.buffer, below.sent, Buffers(below.hs));
  }

  lemma MoveBytes(sent: string, b: string, out: string, rest: string, sent': string, b': string)
    requires sent' + b' == sent + b + out
    ensures sent' + (b' + rest) == sent + (b + (out + rest))
  {
    assert sent' + (b' + rest) == (sent' + b') + rest;
    assert sent + b + out + rest == sent + (b + (out + rest));
  }

  lemma FlushConserves(s: State)
    requires Faithful(s.hs)
    ensures Faithful(Flush(s).hs) && Total(Flush(s)) == Total(s)
  {
    if s.hs != [] && Top(s).flushable {
      var n := |s.hs| - 1;
      StepConserves(s.hs[n], FLUSH, "");
      var (h, _, out) := HandlerStep(s.hs[n], FLUSH, "");
      assert s.hs[n].buffer + "" == s.hs[n].buffer;
      if out == "" {
        assert (s.hs[..n] + [h])[..n] == s.hs[..n];
        assert "" + h.buffer == h.buffer;
      } else {
        MoveDown(s, h, out);
      }
    }
  }

  /** A handler that is ended hands out its buffer. */
  lemma FinalConserves(h: Handler)
    requires PassOrFail(h.func) && (h.disabled ==> h.buffer == "")
    ensures Final(h, FINAL) == h.buffer
  {
    StepConserves(h, FINAL, "");
    assert h.buffer + "" == h.buffer && forall out: string :: out + "" == out;
    assert Answer(h, FINAL, h.buffer + "") == Failed || Answer(h, FINAL, h.buffer + "") == Done(h.buffer + "");
  }

  lemma PopConserves(s: State, force: bool)
    requires Faithful(s.hs)
    ensures Faithful(Pop(s, force, false).hs) && Total(Pop(s, force, false)) == Total(s)
  {
    if s.hs != [] && (force || Top(s).removable) {
      var h, below := Top(s), State(s.hs[..|s.hs| - 1], s.sent);
      var out := Final(h, FINAL);
      FinalConserves(h);
      assert s.hs == below.hs + [h];
      TopOff(below.hs, h);
      hide Final, Faithful, PassOrFail;
      OpConserves(below, WRITE, out);
      assert (s.sent + Buffers(below.hs)) + out == s.sent + (Buffers(below.hs) + out);
    }
  }

  lemma {:induction false} EndAllConserves(s: State)
    requires Faithful(s.hs)
    ensures EndAll(s).hs == [] && EndAll(s).sent == Total(s)
    decreases |s.hs|
  {
    if s.hs == [] {
      assert s.sent + "" == s.sent;
    } else {
      PopShrinks(s);
      PopConserves(s, true);
      EndAllConserves(Pop(s, true, false));
    }
  }

  // ----- runs

  datatype Command = Begin(handler: Handler) | Print(str: string) | FlushTop | FlushEvery | End | EndEvery

  function Step(s: State, c: Command): State {
    match c
    case Begin(h) => State(s.hs + [h], s.sent)
    case Print(str) => Write(s, str)
    case FlushTop => Flush(s)
    case FlushEvery => if s.hs == [] then s else Op(s, FLUSH, "")
    case End => Pop(s, false, false)
    case EndEvery => EndAll(s)
  }

  function Run(s: State, cs: seq<Command>): State {
    if cs == [] then s else Step(Run(s, cs[..|cs| - 1]), cs[|cs| - 1])
  }

  function Printed(cs: seq<Command>): string {
    if cs == [] then ""
    else Printed(cs[..|cs| - 1]) + if cs[|cs| - 1].Print? then cs[|cs| - 1].str else ""
  }

  /** A freshly started handler. */
  ghost predicate New(h: Handler) {
    h.buffer == "" && h.calls == 0 && !h.started && !h.disabled
  }

  ghost predicate FaithfulCommands(cs: seq<Command>) {
    forall i :: 0 <= i < |cs| && cs[i].Begin? ==> New(cs[i].handler) && PassOrFail(cs[i].handler.func)
  }

  lemma StepKeepsTotal(s: State, c: Command)
    requires Faithful(s.hs)
    requires c.Begin? ==> New(c.handler) && PassOrFail(c.handler.func)
    ensures Faithful(Step(s, c).hs)
    ensures Total(Step(s, c)) == Total(s) + if c.Print? then c.str else ""
    ensures c.EndEvery? ==> Step(s, c) == State([], Total(s))
  {
    assert Total(s) + "" == Total(s);
    match c {
      case Begin(h) =>
        assert (s.hs + [h])[..|s.hs|] == s.hs;
        assert Buffers(s.hs) + "" == Buffers(s.hs);
      case Print(str) => OpConserves(s, WRITE, str);
      case FlushTop => FlushConserves(s);
      case FlushEvery => OpConserves(s, FLUSH, "");
      case End => PopConserves(s, false);
      case EndEvery =>
        EndAllConserves(s);
        assert EndAll(s).sent + "" == EndAll(s).sent;
    }
  }

  /** In every run with handlers that pass data through or fail at arbitrary calls, the bytes sent
      followed by the buffers from bottom to top are all bytes printed, in order; ending all
      handlers sends them all. */
  lemma {:induction false} RunConserves(cs: seq<Command>)
    requires FaithfulCommands(cs)
    ensures Faithful(Run(State([], ""), cs).hs)
    ensures Total(Run(State([], ""), cs)) == Printed(cs)
    ensures cs != [] && cs[|cs| - 1].EndEvery? ==> Run(State([], ""), cs) == State([], Printed(cs))
    decreases |cs|
  {
    if cs != [] {
      var init, c := cs[..|cs| - 1], cs[|cs| - 1];
      RunConserves(init);
      StepKeepsTotal(Run(State([], ""), init), c);
      assert Printed(init) + "" == Printed(init);
    }
  }

  // ----- failed handlers

  function Insert(hs: seq<Handler>, k: nat, d: Handler): seq<Handler>
    requires k <= |hs|
  {
    hs[..k] + [d] + hs[k..]
  }

  lemma InsertBelowTop(hs: seq<Handler>, k: nat, d: Handler, t: Handler)
    requires k <= |hs|
    ensures Insert(hs + [t], k, d) == Insert(hs, k, d) + [t]
  {
  }

  /** A disabled handler is transparent to operations that pass through the stack: they act as if it
      were not there. */
  lemma {:induction false} DisabledTransparent(hs: seq<Handler>, k: nat, d: Handler, op: nat, input: string)
    requires k <= |hs| && d.disabled
    ensures TopDown(Insert(hs, k, d), op, input) == (Insert(TopDown(hs, op, input).0, k, d), TopDown(hs, op, input).1)
    decreases |hs|
  {
    hide HandlerStep, TopDown;
    var gs := Insert(hs, k, d);
    if k == |hs| {
      assert gs == hs + [d];
      assert Insert(TopDown(hs, op, input).0, k, d) == TopDown(hs, op, input).0 + [d];
      TopDownOfTop(hs, d, op, input);
    } else {
      hide Insert;
      var m, t := |hs| - 1, hs[|hs| - 1];
      assert hs == hs[..m] + [t];
      InsertBelowTop(hs[..m], k, d, t);
      TopDownOfTop(hs[..m], t, op, input);
      TopDownOfTop(Insert(hs[..m], k, d), t, op, input);
      var (t', status, data) := HandlerStep(t, op, input);
      var next := if t.disabled then input else data;
      DisabledTransparent(hs[..m], k, d, op, next);
      InsertBelowTop(TopDown(hs[..m], op, next).0, k, d, if t.disabled then t else t');
      InsertBelowTop(hs[..m], k, d, t');
    }
  }

  // ----- ending unchunked handlers

  ghost predicate NeverFails(f: Func) {
    forall n, op, data :: f(n, op, data).Done?
  }

  ghost predicate Plain(hs: seq<Handler>) {
    forall i :: 0 <= i < |hs| ==> hs[i].size == 0 && !hs[i].disabled && NeverFails(hs[i].func)
  }

  /** f0(b0 + f1(b1 + ... fk(bk + tail))). */
  ghost function Compose(hs: seq<Handler>, tail: string): string
    requires Plain(hs)
  {
    if hs == [] then tail
    else
      var h := hs[|hs| - 1];
      assert Plain(hs[..|hs| - 1]) && NeverFails(h.func);
      Compose(hs[..|hs| - 1], Answer(h, FINAL, h.buffer + tail).out)
  }

  /** `hs` with `out` appended to the top buffer. */
  function Refill(hs: seq<Handler>, out: string): seq<Handler>
    requires hs != []
  {
    var n := |hs| - 1;
    hs[..n] + [hs[n].(buffer := hs[n].buffer + out)]
  }

  lemma PopPlain(s: State)
    requires Plain(s.hs) && s.hs != []
    ensures var n := |s.hs| - 1; var out := Answer(s.hs[n], FINAL, s.hs[n].buffer + "").out;
            Pop(s, true, false) == if n == 0 then State([], s.sent + out) else State(Refill(s.hs[..n], out), s.sent)
  {
    var n := |s.hs| - 1;
    var h, below := s.hs[n], s.hs[..n];
    assert NeverFails(h.func);
    var out := Answer(h, FINAL, h.buffer + "").out;
    assert Final(h, FINAL) == out;
    assert s.sent + "" == s.sent;
    if n > 0 {
      var g := below[n - 1];
      assert !g.disabled && g.size == 0;
      assert g.buffer + "" == g.buffer && out == "" ==> Refill(below, out) == below;
      assert TopDown(below, WRITE, out) == (Refill(below, out), "");
    }
  }

  lemma ComposeRefill(hs: seq<Handler>, out: string)
    requires Plain(hs) && hs != []
    ensures Plain(Refill(hs, out)) && Compose(Refill(hs, out), "") == Compose(hs, out)
  {
    var n := |hs| - 1;
    assert Refill(hs, out)[..n] == hs[..n];
    assert hs[n].buffer + out + "" == hs[n].buffer + out;
    assert NeverFails(hs[n].func);
  }

  /** Ending all unchunked, enabled handlers that do not fail sends the composition of their
      functions, from the top of the stack to the bottom. */
  lemma {:induction false} EndAllComposes(s: State)
    requires Plain(s.hs)
    ensures EndAll(s).hs == [] && EndAll(s).sent == s.sent + Compose(s.hs, "")
    decreases |s.hs|
  {
    hide Pop, Refill;
    if s.hs == [] {
      assert s.sent + "" == s.sent;
    } else {
      var n := |s.hs| - 1;
      assert Plain(s.hs[..n]) && NeverFails(s.hs[n].func);
      var out := Answer(s.hs[n], FINAL, s.hs[n].buffer + "").out;
      PopPlain(s);
      PopShrinks(s);
      if n > 0 {
        ComposeRefill(s.hs[..n], out);
      }
      EndAllComposes(Pop(s, true, false));
    }
  }
}
