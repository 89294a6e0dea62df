/** The output layer as it is built: handler objects on a stack, the pointer to the active one, and
    the passing of context buffers. Every operation is proved to do what OutputSpec says. */
module Output {
  import Spec = OutputSpec

  const ALIGNTO := 0x1000
  const DEFAULT_SIZE := 0x4000

  /** `PHP_OUTPUT_HANDLER_INITBUF_SIZE`. */
  function InitBufSize(s: nat): (r: nat)
    ensures r > s
  {
    if s > 1 then s + ALIGNTO - s % ALIGNTO else DEFAULT_SIZE
  }

  class Handler {
    const func: Spec.Func
    const size: nat
    const flushable: bool
    const removable: bool
    var level: nat
    var buffer: string   // the used part of the buffer
    var capacity: nat
    var calls: nat       // the function's own state: how often it has run
    var started: bool
    var disabled: bool

    constructor (func: Spec.Func, size: nat, flushable: bool, removable: bool)
      ensures View() == Spec.Handler(func, size, flushable, removable, "", 0, false, false)
      ensures |buffer| <= capacity
    {
      this.func, this.size, this.flushable, this.removable := func, size, flushable, removable;
      level, buffer, capacity, calls, started, disabled := 0, "", InitBufSize(size), 0, false, false;
    }

    ghost function View(): Spec.Handler
      reads this
    {
      Spec.Handler(func, size, flushable, removable, buffer, calls, started, disabled)
    }

    /** `php_output_handler_append`: store the input, growing the buffer as needed; false when a
        chunked buffer is full and has to be processed. */
    method Append(input: string) returns (stored: bool)
      requires |buffer| <= capacity
      modifies this`buffer, this`capacity
      ensures |buffer| <= capacity && buffer == old(buffer) + input
      ensures stored <==> !(input != "" && size > 0 && |buffer| >= size)
    {
      stored := true;
      assert buffer + "" == buffer;
      if |input| > 0 {
        if capacity - |buffer| <= |input| {
          var growInt, growBuf := InitBufSize(size), InitBufSize(|input| - (capacity - |buffer|));
          capacity := capacity + if growInt > growBuf then growInt else growBuf;
        }
        buffer := buffer + input;
        if size > 0 && |buffer| >= size {
          stored := false;
        }
      }
    }

    /** `php_output_handler_op`. */
    method Run(op: nat, input: string) returns (status: Spec.Status, out: string)
      requires |buffer| <= capacity
      modifies this`buffer, this`capacity, this`calls, this`started, this`disabled
      ensures |buffer| <= capacity
      ensures (View(), status, out) == Spec.HandlerStep(old(View()), op, input)
    {
      var stored := Append(input);
      if stored && op == Spec.WRITE {
        return Spec.NO_DATA, "";
      }
      var mode := if started || op % 2 == Spec.START then op else op + Spec.START;
      var answer := func(calls, mode, buffer);
      calls, started := calls + 1, true;
      match answer {
        case Failed =>
          status, out, disabled := Spec.FAILURE, buffer, true;
          buffer, capacity := "", 0;
        case Done(data) =>
          status, out := if data == "" then Spec.NO_DATA else Spec.SUCCESS, data;
          buffer := "";
      }
    }
  }

  class Layer {
    var stack: seq<Handler>
    var active: Handler?
    var sent: string

    /** Distinct handlers, each knowing its index. */
    ghost predicate StackOk()
      reads this, stack
    {
      && (forall i, j :: 0 <= i < j < |stack| ==> stack[i] != stack[j])
      && (forall i :: 0 <= i < |stack| ==> stack[i].level == i && |stack[i].buffer| <= stack[i].capacity)
    }

    /** Between calls the active handler is the top of the stack. */
    ghost predicate Valid()
      reads this, stack
    {
      StackOk() && active == if stack == [] then null else stack[|stack| - 1]
    }

    ghost function Views(n: nat): (vs: seq<Spec.Handler>)
      reads this, stack
      requires n <= |stack|
      ensures |vs| == n && forall i :: 0 <= i < n ==> vs[i] == stack[i].View()
    {
      seq(n, i requires 0 <= i < n <= |stack| reads this, stack => stack[i].View())
    }

    ghost function View(): Spec.State
      reads this, stack
    {
      Spec.State(Views(|stack|), sent)
    }

    constructor ()
      ensures Valid() && View() == Spec.State([], "") && stack == []
    {
      stack, active, sent := [], null, "";
    }

    /** `php_output_handler_start`. */
    method Start(h: Handler)
      requires Valid() && h !in stack && |h.buffer| <= h.capacity
      modifies this, h`level
      ensures Valid() && stack == old(stack) + [h]
      ensures View() == Spec.State(old(View()).hs + [old(h.View())], old(sent))
    {
      h.level := |stack|;
      stack := stack + [h];
      active := h;
    }

    /** `php_output_stack_apply_op` for the handler at `i`; `stop` tells the stack walk to end. The
        context's input and output buffers are passed in and out. */
    method ApplyOp(i: nat, op: nat, input: string) returns (stop: bool, rest: string, out: string)
      requires StackOk() && i < |stack|
      modifies stack[i]
      ensures StackOk()
      ensures (stack[i].View(), stop, if i > 0 && !stop then rest else out) == Applied(old(stack[i].View()), op, input)
    {
      var h := stack[i];
      var wasDisabled := h.disabled;
      var status;
      rest, out := input, "";
      if wasDisabled {
        status := Spec.FAILURE;
      } else {
        status, out := h.Run(op, input);
      }
      match status {
        case NO_DATA =>
          return true, rest, out;
        case SUCCESS =>
          if h.level > 0 { rest, out := out, ""; }
          return false, rest, out;
        case FAILURE =>
          if wasDisabled {
            if h.level == 0 { rest, out := "", rest; }
          } else {
            if h.level > 0 { rest, out := out, ""; }
          }
          return false, rest, out;
      }
    }

    /** `php_output_op`: the operation passes through the stack and what comes out is sent. */
    method Op(op: nat, str: string)
      requires StackOk() && (active == null ==> stack == [])
      modifies this`sent, stack
      ensures StackOk() && View() == Spec.Op(old(View()), op, str)
    {
      hide Spec.TopDown, StackOk, Views;
      var out := Pass(op, str);
      Send(out);
    }

    /** The operation passes through the stack. */
    method Pass(op: nat, str: string) returns (out: string)
      requires StackOk() && (active == null ==> stack == [])
      modifies stack
      ensures StackOk() && (Views(|stack|), out) == Spec.TopDown(old(Views(|stack|)), op, str)
    {
      hide Spec.TopDown;
      if active != null && |stack| > 0 {
        if |stack| > 1 {
          out := Walk(op, str);
        } else {
          out := Single(op, str);
        }
      } else {
        NoHandlers(op, str);
        out := str;
      }
    }

    /** What comes out at the bottom goes to the server interface. */
    method Send(out: string)
      requires StackOk()
      modifies this`sent
      ensures StackOk() && sent == old(sent) + out && Views(|stack|) == old(Views(|stack|))
    {
      if |out| > 0 {
        sent := sent + out;
      } else {
        assert sent + out == sent;
      }
    }

    /** A stack of one handler. */
    method Single(op: nat, str: string) returns (out: string)
      requires StackOk() && |stack| == 1
      modifies stack
      ensures StackOk() && (Views(|stack|), out) == Spec.TopDown(old(Views(|stack|)), op, str)
    {
      ghost var before := Views(1);
      OneHandler(before[0], op, str);
      if !stack[0].disabled {
        var status;
        status, out := stack[0].Run(op, str);
      } else {
        out := str;
      }
      assert Views(1) == [stack[0].View()] && before == [before[0]];
    }

    /** The handlers below `i` are as `before`, those from `i` on as `above`. */
    ghost predicate Reached(before: seq<Spec.Handler>, above: seq<Spec.Handler>, i: nat)
      reads this, stack
    {
      && i <= |stack| == |before| && |above| == |stack| - i
      && (forall j :: 0 <= j < i ==> stack[j].View() == before[j])
      && (forall j :: i <= j < |stack| ==> stack[j].View() == above[j - i])
    }

    /** The walk over the stack from the top down. */
    method Walk(op: nat, str: string) returns (out: string)
      requires StackOk() && |stack| > 1
      modifies stack
      ensures StackOk() && (Views(|stack|), out) == Spec.TopDown(old(Views(|stack|)), op, str)
    {
      hide Spec.HandlerStep, Spec.TopDown, Walked, Applied, Reached;
      ghost var before, above: seq<Spec.Handler> := Views(|stack|), [];
      var i, rest, stop := |stack|, str, false;
      out := "";
      WalkStart(before, op, str);
      ReachedNone();
      while i > 0 && !stop
        invariant 0 <= i <= |stack| && StackOk() && (stop ==> i < |stack|)
        invariant Reached(before, above, i)
        invariant Walked(before, op, str, i, if i > 0 && !stop then rest else out, stop, above)
      {
        WalkStep(before, op, str, i, rest, above);
        i := i - 1;
        stop, rest, out := Visit(i, op, rest, before, above);
        above := [stack[i].View()] + above;
      }
      WalkEnd(before, op, str, i, out, stop, above);
      ViewsReached(before, above, i);
    }

    /** One step of the walk; the other handlers stay as they are. */
    method Visit(i: nat, op: nat, input: string, ghost before: seq<Spec.Handler>, ghost above: seq<Spec.Handler>)
      returns (stop: bool, rest: string, out: string)
      requires StackOk() && i < |stack| == |before| && Reached(before, above, i + 1)
      modifies stack[i]
      ensures StackOk() && Reached(before, [stack[i].View()] + above, i)
      ensures (stack[i].View(), stop, if i > 0 && !stop then rest else out) == Applied(before[i], op, input)
    {
      hide Applied;
      stop, rest, out := ApplyOp(i, op, input);
      forall j | 0 <= j < |stack| && j != i ensures stack[j] != stack[i] { }
    }

    lemma ViewsReached(before: seq<Spec.Handler>, above: seq<Spec.Handler>, i: nat)
      requires StackOk() && Reached(before, above, i)
      ensures Views(|stack|) == before[..i] + above
    {
    }

    lemma ReachedNone()
      requires StackOk()
      ensures Reached(Views(|stack|), [], |stack|)
    {
    }

    /** `php_output_write`. */
    method Write(str: string)
      requires StackOk() && (active == null ==> stack == [])
      modifies this`sent, stack
      ensures StackOk() && View() == Spec.Write(old(View()), str)
      ensures old(Valid()) ==> Valid()
    {
      hide Spec.TopDown, Spec.Op, StackOk, Views;
      Op(Spec.WRITE, str);
    }

    lemma ViewsTop(n: nat)
      requires n < |stack|
      ensures Views(n + 1) == Views(n) + [stack[n].View()]
    {
    }

    /** Run the active handler's function with no input. */
    method RunTop(op: nat) returns (status: Spec.Status, out: string)
      requires Valid() && stack != []
      modifies stack[|stack| - 1]
      ensures Valid() && Views(|stack| - 1) == old(Views(|stack| - 1))
      ensures (stack[|stack| - 1].View(), status, out) == Spec.HandlerStep(old(stack[|stack| - 1].View()), op, "")
    {
      hide Spec.HandlerStep;
      status, out := active.Run(op, "");
      assert forall i :: 0 <= i < |stack| - 1 ==> stack[i] != active;
    }

    /** Write `out` to the handlers below the active one, which is off the stack meanwhile. */
    method WriteBelow(out: string)
      requires Valid() && stack != [] && out != ""
      modifies this`sent, this`stack, stack
      ensures Valid() && stack == old(stack) && stack[|stack| - 1].View() == old(stack[|stack| - 1].View())
      ensures Spec.State(Views(|stack| - 1), sent) == Spec.Write(Spec.State(old(Views(|stack| - 1)), old(sent)), out)
    {
      hide Spec.Write, StackOk, Views;
      var h := Shelve();
      Write(out);
      Push(h);
    }

    /** Take the active handler off the stack, but leave it active. */
    method Shelve() returns (h: Handler)
      requires Valid() && stack != []
      modifies this`stack
      ensures StackOk() && stack + [h] == old(stack) && active == old(active) == h && h !in stack
      ensures h.level == |stack| && |h.buffer| <= h.capacity && Views(|stack|) == old(Views(|stack| - 1))
    {
      h := active;
      stack := stack[..|stack| - 1];
    }

    /** `zend_stack_push`. */
    method Push(h: Handler)
      requires StackOk() && h !in stack && h.level == |stack| && |h.buffer| <= h.capacity
      modifies this`stack
      ensures StackOk() && stack == old(stack) + [h] && Views(|stack| - 1) == old(Views(|stack|))
    {
      stack := stack + [h];
    }

    /** `php_output_flush`: the active handler's output is written to the handlers below it. */
    method Flush() returns (ok: bool)
      requires Valid()
      modifies this`sent, this`stack, stack
      ensures Valid() && stack == old(stack)
      ensures View() == Spec.Flush(old(View())) && (ok <==> stack != [] && stack[|stack| - 1].flushable)
    {
      hide Spec.HandlerStep, Spec.Write;
      if active == null || !active.flushable {
        return false;
      }
      ghost var s, n := View(), |stack| - 1;
      assert s.hs[n] == stack[n].View() && s.hs[..n] == Views(n);
      var status, out := RunTop(Spec.FLUSH);
      if out != "" {
        WriteBelow(out);
      }
      ViewsTop(n);
      ok := true;
    }

    /** `php_output_flush_all`. */
    method FlushAll()
      requires Valid()
      modifies this`sent, stack
      ensures Valid() && View() == if old(stack) == [] then old(View()) else Spec.Op(old(View()), Spec.FLUSH, "")
    {
      if active != null {
        Op(Spec.FLUSH, "");
      }
    }

    /** `php_output_stack_pop`. */
    method Pop(force: bool, discard: bool) returns (popped: bool)
      requires Valid()
      modifies this, stack
      ensures Valid() && View() == Spec.Pop(old(View()), force, discard)
      ensures popped <==> old(stack != [] && (force || stack[|stack| - 1].removable))
      ensures stack == if popped then old(stack[..|stack| - 1]) else old(stack)
    {
      hide Spec.HandlerStep, Spec.Write, Spec.Pop;
      PopKept(View(), force, discard);
      var orphan := active;
      if orphan == null || (!force && !orphan.removable) {
        return false;
      }
      ghost var s, n := View(), |stack| - 1;
      assert s.hs[n] == orphan.View() && s.hs[..n] == Views(n);
      var out := "";
      if !orphan.disabled {
        var op := Spec.FINAL;
        if !orphan.started { op := op + Spec.START; }
        if discard { op := op + Spec.CLEAN; }
        SameMode(orphan.View(), if discard then Spec.FINAL + Spec.CLEAN else Spec.FINAL);
        var status;
        status, out := RunTop(op);
      }
      PopIs(s, force, discard, out);
      DropTop();
      if out != "" && !discard {
        Write(out);
      }
      popped := true;
    }

    method DropTop()
      requires Valid() && stack != []
      modifies this`stack, this`active
      ensures Valid() && stack == old(stack[..|stack| - 1]) && View() == Spec.State(old(Views(|stack| - 1)), sent)
    {
      stack := stack[..|stack| - 1];
      active := if stack == [] then null else stack[|stack| - 1];
    }

    /** `php_output_end_all`. */
    method EndAll()
      requires Valid()
      modifies this, stack
      ensures Valid() && stack == [] && View() == Spec.EndAll(old(View()))
    {
      hide Spec.Pop;
      while active != null
        invariant Valid() && Spec.EndAll(View()) == Spec.EndAll(old(View()))
        invariant |stack| <= |old(stack)| && stack == old(stack)[..|stack|]
        decreases |stack|
      {
        Spec.PopShrinks(View());
        var popped := Pop(true, false);
        if !popped { break; }
      }
    }
  }

  lemma NoHandlers(op: nat, str: string)
    ensures Spec.TopDown([], op, str) == ([], str)
  {
  }

  lemma OneHandler(h: Spec.Handler, op: nat, str: string)
    ensures Spec.TopDown([h], op, str)
         == if h.disabled then ([h], str) else ([Spec.HandlerStep(h, op, str).0], Spec.HandlerStep(h, op, str).2)
  {
    assert [h][..0] == [] && [] + [h] == [h];
    var (h', status, data) := Spec.HandlerStep(h, op, str);
    HandlerStepNoData(h, op, str);
    assert [] + [h'] == [h'];
    assert Spec.TopDown([], op, str) == ([], str) && Spec.TopDown([], op, data) == ([], data);
  }

  /** The walk has reached handler `i`: what the whole stack does is what the handlers below `i` do
      with the bytes in transit, and `above` is final. */
  ghost predicate Walked(before: seq<Spec.Handler>, op: nat, str: string, i: nat, transit: string, stop: bool,
                         above: seq<Spec.Handler>) {
    && i <= |before|
    && Spec.TopDown(before, op, str)
       == if stop then (before[..i] + above, transit)
          else (Spec.TopDown(before[..i], op, transit).0 + above, Spec.TopDown(before[..i], op, transit).1)
  }

  /** START in the operation makes no difference: the dispatcher adds it to a first call. */
  lemma SameMode(h: Spec.Handler, op: nat)
    requires op % 2 == 0 && op != Spec.WRITE
    ensures !h.started ==> Spec.HandlerStep(h, op + Spec.START, "") == Spec.HandlerStep(h, op, "")
  {
  }

  lemma PopKept(s: Spec.State, force: bool, discard: bool)
    ensures s.hs == [] || (!force && !Spec.Top(s).removable) ==> Spec.Pop(s, force, discard) == s
  {
  }

  lemma PopIs(s: Spec.State, force: bool, discard: bool, out: string)
    requires s.hs != [] && (force || Spec.Top(s).removable)
    requires var op := if discard then Spec.FINAL + Spec.CLEAN else Spec.FINAL;
             out == if Spec.Top(s).disabled then "" else Spec.HandlerStep(Spec.Top(s), op, "").2
    ensures var below := Spec.State(s.hs[..|s.hs| - 1], s.sent);
            Spec.Pop(s, force, discard) == if out == "" || discard then below else Spec.Write(below, out)
  {
  }

  /** What `php_output_stack_apply_op` does to a handler: its new state, whether the walk ends, and
      the bytes in transit. */
  ghost function Applied(h: Spec.Handler, op: nat, input: string): (Spec.Handler, bool, string) {
    if h.disabled then (h, false, input)
    else
      var (h', status, data) := Spec.HandlerStep(h, op, input);
      (h', status == Spec.NO_DATA, data)
  }

  lemma WalkStart(before: seq<Spec.Handler>, op: nat, str: string)
    ensures Walked(before, op, str, |before|, str, false, [])
  {
    assert before[..|before|] == before;
    assert Spec.TopDown(before, op, str).0 + [] == Spec.TopDown(before, op, str).0;
  }

  lemma WalkEnd(before: seq<Spec.Handler>, op: nat, str: string, i: nat, transit: string, stop: bool,
                above: seq<Spec.Handler>)
    requires Walked(before, op, str, i, transit, stop, above) && (stop || i == 0)
    ensures i <= |before| && Spec.TopDown(before, op, str) == (before[..i] + above, transit)
  {
    if !stop { assert before[..0] == [] && Spec.TopDown([], op, transit) == ([], transit); }
  }

  lemma WalkStep(before: seq<Spec.Handler>, op: nat, str: string, i: nat, transit: string, above: seq<Spec.Handler>)
    requires Walked(before, op, str, i, transit, false, above) && i > 0
    ensures var (h, stop, out) := Applied(before[i - 1], op, transit);
            Walked(before, op, str, i - 1, out, stop, [h] + above)
  {
    hide Spec.HandlerStep;
    var hs, h := before[..i], before[i - 1];
    assert hs[..i - 1] == before[..i - 1] && hs[i - 1] == h;
    var (h', status, data) := Spec.HandlerStep(h, op, transit);
    HandlerStepNoData(h, op, transit);
    if h.disabled {
      var below := Spec.TopDown(before[..i - 1], op, transit).0;
      assert below + [h] + above == below + ([h] + above);
    } else if status == Spec.NO_DATA {
      assert before[..i - 1] + [h'] + above == before[..i - 1] + ([h'] + above);
    } else {
      var below := Spec.TopDown(before[..i - 1], op, data).0;
      assert below + [h'] + above == below + ([h'] + above);
    }
  }

  lemma HandlerStepNoData(h: Spec.Handler, op: nat, input: string)
    ensures Spec.HandlerStep(h, op, input).1 == Spec.NO_DATA ==> Spec.HandlerStep(h, op, input).2 == ""
  {
  }

  // ----- whole runs

  /** One command of a run. */
  method Execute(layer: Layer, c: Spec.Command)
    requires layer.Valid() && (c.Begin? ==> Spec.New(c.handler))
    modifies layer, layer.stack
    ensures layer.Valid() && layer.View() == Spec.Step(old(layer.View()), c)
    ensures forall i :: 0 <= i < |layer.stack| ==> layer.stack[i] in old(layer.stack) || fresh(layer.stack[i])
  {
    hide Spec.Pop, Spec.Flush, Spec.Write, Spec.Op;
    match c {
      case Begin(v) =>
        var h := new Handler(v.func, v.size, v.flushable, v.removable);
        layer.Start(h);
      case Print(str) => layer.Write(str);
      case FlushTop => var _ := layer.Flush();
      case FlushEvery =>
        assert layer.View().hs == [] <==> layer.stack == [];
        layer.FlushAll();
      case End => var _ := layer.Pop(false, false);
      case EndEvery => layer.EndAll();
    }
  }

  /** Any run of commands, ended by ending all handlers: with handlers that pass data through or fail
      at arbitrary calls, exactly the bytes printed arrive, in order. */
  method Session(cs: seq<Spec.Command>) returns (sent: string)
    requires forall i :: 0 <= i < |cs| && cs[i].Begin? ==> Spec.New(cs[i].handler)
    ensures sent == Spec.EndAll(Spec.Run(Spec.State([], ""), cs)).sent
    ensures Spec.FaithfulCommands(cs) ==> sent == Spec.Printed(cs)
  {
    hide Spec.Step, Spec.EndAll, Layer.View, Spec.FaithfulCommands;
    var layer := new Layer();
    var i := 0;
    while i < |cs|
      invariant i <= |cs| && layer.Valid() && fresh(layer)
      invariant fresh(layer.stack)
      invariant layer.View() == Spec.Run(Spec.State([], ""), cs[..i])
    {
      assert cs[..i + 1][..i] == cs[..i];
      Execute(layer, cs[i]);
      i := i + 1;
    }
    assert cs[..i] == cs;
    layer.EndAll();
    sent := layer.sent;
    SentOf(layer);
    if Spec.FaithfulCommands(cs) { SessionConserves(cs); }
  }

  lemma SentOf(layer: Layer)
    ensures layer.View().sent == layer.sent
  {
  }

  lemma SessionConserves(cs: seq<Spec.Command>)
    requires Spec.FaithfulCommands(cs)
    ensures Spec.EndAll(Spec.Run(Spec.State([], ""), cs)).sent == Spec.Printed(cs)
  {
    Spec.RunConserves(cs);
    Spec.EndAllConserves(Spec.Run(Spec.State([], ""), cs));
  }
}
