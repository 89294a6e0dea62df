/** Where the output layer is less than its documentation says: what a disabled handler still does to
    the handlers around it, and when flushing all handlers leaves nothing behind. */
module OutputLaws {
  import opened OutputSpec

  // ----- a disabled handler below the top

  lemma TopOfInsert(hs: seq<Handler>, k: nat, d: Handler)
    requires k < |hs|
    ensures var gs, n := Insert(hs, k, d), |hs| - 1;
            |gs| == n + 2 && gs[n + 1] == hs[n] && gs[..n + 1] == Insert(hs[..n], k, d)
  {
  }

  lemma WriteTransparent(hs: seq<Handler>, sent: string, k: nat, d: Handler, out: string)
    requires k <= |hs| && d.disabled
    ensures |Write(State(hs, sent), out).hs| == |hs|
    ensures var t := Write(State(hs, sent), out);
            Write(State(Insert(hs, k, d), sent), out) == State(Insert(t.hs, k, d), t.sent)
  {
    hide TopDown, Insert;
    DisabledTransparent(hs, k, d, WRITE, out);
  }

  /** Flushing acts as if a disabled handler that is not the active one were not there. */
  lemma FlushTransparent(hs: seq<Handler>, sent: string, k: nat, d: Handler)
    requires k < |hs| && d.disabled
    ensures |Flush(State(hs, sent)).hs| == |hs|
    ensures var t := Flush(State(hs, sent));
            Flush(State(Insert(hs, k, d), sent)) == State(Insert(t.hs, k, d), t.sent)
  {
    hide HandlerStep, Insert, Write;
    var n := |hs| - 1;
    TopOfInsert(hs, k, d);
    var (h, _, out) := HandlerStep(hs[n], FLUSH, "");
    WriteTransparent(hs[..n], sent, k, d, out);
    InsertBelowTop(hs[..n], k, d, h);
    InsertBelowTop(Write(State(hs[..n], sent), out).hs, k, d, h);
  }

  /** So does ending or discarding the active handler. */
  lemma PopTransparent(hs: seq<Handler>, sent: string, k: nat, d: Handler, force: bool, discard: bool)
    requires k < |hs| && d.disabled
    ensures k <= |Pop(State(hs, sent), force, discard).hs|
    ensures var t := Pop(State(hs, sent), force, discard);
            Pop(State(Insert(hs, k, d), sent), force, discard) == State(Insert(t.hs, k, d), t.sent)
  {
    hide Final, Insert, Write;
    var n := |hs| - 1;
    TopOfInsert(hs, k, d);
    WriteTransparent(hs[..n], sent, k, d, Final(hs[n], if discard then FINAL + CLEAN else FINAL));
  }

  /** And ending all handlers, wherever the disabled one is. */
  lemma {:induction false} EndAllTransparent(hs: seq<Handler>, sent: string, k: nat, d: Handler)
    requires k <= |hs| && d.disabled
    ensures EndAll(State(Insert(hs, k, d), sent)) == EndAll(State(hs, sent))
    decreases |hs| - k
  {
    hide Write, HandlerStep;
    var s, g := State(hs, sent), State(Insert(hs, k, d), sent);
    PopShrinks(g);
    if k == |hs| {
      assert Insert(hs, k, d)[..|hs|] == hs;
      assert Pop(g, true, false) == s;
    } else {
      PopShrinks(s);
      PopTransparent(hs, sent, k, d, true, false);
      hide Pop;
      var t := Pop(s, true, false);
      EndAllTransparent(t.hs, t.sent, k, d);
    }
  }

  // ----- a disabled handler on top

  /** Flushing with `d` on top sends the same and leaves the other handlers the same as without it. */
  ghost predicate FlushAsAbsent(hs: seq<Handler>, sent: string, d: Handler) {
    var with, without := Flush(State(hs + [d], sent)), Flush(State(hs, sent));
    with.sent == without.sent && |with.hs| == |hs| + 1 && with.hs[..|hs|] == without.hs
  }

  /** The active handler can be flushed. */
  predicate TopFlushable(hs: seq<Handler>) {
    hs != [] && hs[|hs| - 1].flushable
  }

  predicate TopRemovable(hs: seq<Handler>) {
    hs != [] && hs[|hs| - 1].removable
  }

  /** What the function of `d` answers to a flush; `php_output_flush` does not ask whether it is
      disabled. */
  function FlushAnswer(d: Handler): string {
    if d.flushable then HandlerStep(d, FLUSH, "").2 else ""
  }

  lemma FlushOnTop(hs: seq<Handler>, sent: string, d: Handler)
    ensures var with, out := Flush(State(hs + [d], sent)), FlushAnswer(d);
            && |with.hs| == |hs| + 1
            && State(with.hs[..|hs|], with.sent) == if out == "" then State(hs, sent) else Write(State(hs, sent), out)
  {
    hide HandlerStep;
    assert (hs + [d])[..|hs|] == hs && (hs + [d])[|hs|] == d;
    var out := FlushAnswer(d);
    var below := if out == "" then State(hs, sent) else Write(State(hs, sent), out);
    assert forall h :: (below.hs + [h])[..|hs|] == below.hs;
  }

  lemma FlushTop(hs: seq<Handler>, sent: string)
    ensures Flush(State(hs, sent)) == State(hs, sent) <==> !TopFlushable(hs)
    ensures TopFlushable(hs) ==> Flush(State(hs, sent)).hs != hs
  {
    if TopFlushable(hs) {
      var n := |hs| - 1;
      var (h, _, out) := HandlerStep(hs[n], FLUSH, "");
      assert h.calls == hs[n].calls + 1;
      hide HandlerStep, TopDown;
      var t := Flush(State(hs, sent));
      assert t.hs[n] == h;
    }
  }

  /** Bytes that are written show: in a handler or on the wire. */
  lemma {:induction false} WriteShows(hs: seq<Handler>, out: string)
    requires out != ""
    ensures TopDown(hs, WRITE, out).0 != hs || TopDown(hs, WRITE, out).1 != ""
    decreases |hs|
  {
    if hs != [] {
      var n := |hs| - 1;
      var h := hs[n];
      if h.disabled {
        WriteShows(hs[..n], out);
        var below := TopDown(hs[..n], WRITE, out).0;
        assert (below + [h])[..n] == below;
      } else {
        var h' := HandlerStep(h, WRITE, out).0;
        assert h'.calls == h.calls + 1 || h'.buffer == h.buffer + out;
        assert |h.buffer + out| > |h.buffer|;
        assert TopDown(hs, WRITE, out).0[n] == h';
      }
    }
  }

  /** A disabled handler on top leaves flushing as if it were not there, whatever its function answers,
      exactly when neither it nor the handler below it can be flushed: flushing does not ask whether a
      handler is disabled, and it reaches the active handler only. */
  lemma FlushDisabledTop(hs: seq<Handler>, sent: string, d: Handler)
    requires d.disabled
    ensures (forall f: Func :: FlushAsAbsent(hs, sent, d.(func := f))) <==> !d.flushable && !TopFlushable(hs)
  {
    hide HandlerStep, Flush;
    FlushTop(hs, sent);
    forall f: Func ensures State(hs, sent) == Flush(State(hs, sent)) && !d.flushable ==>
      FlushAsAbsent(hs, sent, d.(func := f)) {
      FlushOnTop(hs, sent, d.(func := f));
    }
    var silent, loud := d.(func := (n, op, data) => Done("")), d.(func := (n, op, data) => Done("X"));
    Silent(d);
    if TopFlushable(hs) {
      FlushOnTop(hs, sent, silent);
      assert !FlushAsAbsent(hs, sent, silent);
    } else if d.flushable {
      FlushOnTop(hs, sent, loud);
      WriteShows(hs, "X");
      hide TopDown;
      assert |sent + TopDown(hs, WRITE, "X").1| == |sent| ==> TopDown(hs, WRITE, "X").1 == "";
      assert !FlushAsAbsent(hs, sent, loud);
    }
  }

  lemma Silent(d: Handler)
    ensures FlushAnswer(d.(func := (n, op, data) => Done(""))) == ""
    ensures d.flushable ==> FlushAnswer(d.(func := (n, op, data) => Done("X"))) == "X"
  {
  }

  /** With a function that passes data through or fails, the disabled handler adds nothing, and all that
      is left of the difference is that it shields the handler below it from being flushed. */
  lemma FlushFailedTop(hs: seq<Handler>, sent: string, d: Handler)
    requires d.disabled && d.buffer == "" && PassOrFail(d.func)
    ensures FlushAsAbsent(hs, sent, d) <==> !TopFlushable(hs)
  {
    StepConserves(d, FLUSH, "");
    hide HandlerStep, Flush;
    assert FlushAnswer(d) == "";
    FlushOnTop(hs, sent, d);
    FlushTop(hs, sent);
  }

  /** A disabled handler whose function still speaks, and one that shields the handler below it. */
  lemma FlushDisabledExample()
    ensures var d := Handler((n, op, data) => Done("X"), 0, true, true, "", 1, true, true);
            Flush(State([d], "")).sent == "X" && Flush(State([], "")).sent == ""
    ensures var h := Handler((n, op, data) => Done(data), 0, true, true, "abc", 1, true, false);
            var d := Handler((n, op, data) => Failed, 0, true, true, "", 1, true, true);
            Flush(State([h], "")).sent == "abc" && Flush(State([h, d], "")).sent == ""
  {
    var x := Handler((n, op, data) => Done("X"), 0, true, true, "", 1, true, true);
    assert [x][..0] == [];
    assert HandlerStep(x, FLUSH, "").2 == "X" && Write(State([], ""), "X").sent == "X";
    var h := Handler((n, op, data) => Done(data), 0, true, true, "abc", 1, true, false);
    assert [h][..0] == [];
    assert HandlerStep(h, FLUSH, "").2 == "abc" && Write(State([], ""), "abc").sent == "abc";
    var d := Handler((n, op, data) => Failed, 0, true, true, "", 1, true, true);
    assert HandlerStep(d, FLUSH, "").2 == "";
  }

  /** Popping with `d` on top leaves the same as without it. */
  ghost predicate PopAsAbsent(hs: seq<Handler>, sent: string, d: Handler, force: bool, discard: bool) {
    var with, without := Pop(State(hs + [d], sent), force, discard), Pop(State(hs, sent), force, discard);
    with.sent == without.sent && |with.hs| >= |hs| && with.hs[..|hs|] == without.hs
  }

  /** A disabled handler on top takes the pop that the handler below it would have got; it makes no
      difference exactly when that handler would have stayed. */
  lemma PopDisabledTop(hs: seq<Handler>, sent: string, d: Handler, force: bool, discard: bool)
    requires d.disabled
    ensures PopAsAbsent(hs, sent, d, force, discard) <==> hs == [] || (!force && !TopRemovable(hs))
  {
    hide HandlerStep;
    assert (hs + [d])[..|hs|] == hs && (hs + [d])[|hs|] == d;
    if hs != [] && (force || TopRemovable(hs)) {
      hide Final;
      WriteTransparent(hs[..|hs| - 1], sent, 0, d,
        Final(Top(State(hs, sent)), if discard then FINAL + CLEAN else FINAL));
    }
  }

  // ----- flushing all handlers

  /** The handler that decides: the topmost enabled one that has bytes or does not fail on none. */
  function Decider(hs: seq<Handler>): (i: int)
    ensures -1 <= i < |hs|
  {
    if hs == [] then -1
    else
      var n := |hs| - 1;
      if !hs[n].disabled && (hs[n].buffer != "" || Answer(hs[n], FLUSH, "").Done?) then n else Decider(hs[..n])
  }

  function TopEnabled(hs: seq<Handler>): (i: int)
    ensures -1 <= i < |hs|
  {
    if hs == [] then -1 else if !hs[|hs| - 1].disabled then |hs| - 1 else TopEnabled(hs[..|hs| - 1])
  }

  /** Bytes on their way down take everything along. */
  lemma {:induction false} BytesSweep(hs: seq<Handler>, data: string)
    requires Faithful(hs) && data != ""
    ensures Buffers(TopDown(hs, FLUSH, data).0) == ""
    decreases |hs|
  {
    if hs != [] {
      var below, h := hs[..|hs| - 1], hs[|hs| - 1];
      assert hs == below + [h];
      TopOff(below, h);
      var (h', status, out) := HandlerStep(h, FLUSH, data);
      assert PassOrFail(h.func) && (h.disabled ==> h.buffer == "");
      assert !h.disabled ==>
        Answer(h, FLUSH, h.buffer + data) == Failed || Answer(h, FLUSH, h.buffer + data) == Done(h.buffer + data);
      assert !h.disabled ==> status != NO_DATA && out == h.buffer + data && h'.buffer == "";
      hide HandlerStep, Buffers, Faithful, PassOrFail;
      var next, top := if h.disabled then data else out, if h.disabled then h else h';
      BytesSweep(below, next);
      TopOff(TopDown(below, FLUSH, next).0, top);
      assert "" + "" == "";
    }
  }

  /** Flushing a whole stack with nothing coming in: what is above the deciding handler is empty and lets the
      operation on; that handler sends its bytes through everything below, or ends the operation. */
  lemma {:induction false} FlushAllStack(hs: seq<Handler>)
    requires Faithful(hs)
    ensures Buffers(TopDown(hs, FLUSH, "").0) == ""
      <==> Buffers(hs) == "" || (Decider(hs) >= 0 && hs[Decider(hs)].buffer != "")
    decreases |hs|
  {
    if hs != [] {
      var below, h := hs[..|hs| - 1], hs[|hs| - 1];
      assert hs == below + [h];
      TopOff(below, h);
      var (h', status, out) := HandlerStep(h, FLUSH, "");
      assert h.buffer + "" == h.buffer;
      assert PassOrFail(h.func) && (h.disabled ==> h.buffer == "");
      assert Answer(h, FLUSH, h.buffer) == Failed || Answer(h, FLUSH, h.buffer) == Done(h.buffer);
      assert !h.disabled ==> h'.buffer == "" && out == h.buffer;
      assert !h.disabled ==> (status == NO_DATA <==> h.buffer == "" && Answer(h, FLUSH, "").Done?);
      hide HandlerStep, Buffers, Faithful, PassOrFail, Answer;
      if h.disabled {
        FlushAllStack(below);
        TopOff(TopDown(below, FLUSH, "").0, h);
      } else if status == NO_DATA {
        TopOff(below, h');
      } else {
        if out == "" { FlushAllStack(below); } else { BytesSweep(below, out); }
        TopOff(TopDown(below, FLUSH, out).0, h');
      }
      assert Buffers(below) + "" == Buffers(below);
      assert forall b: string, c: string :: b + c == "" ==> c == "" by {
        forall b: string, c: string | b + c == "" ensures c == "" { assert |b + c| == |b| + |c|; }
      }
    }
  }

  /** Flushing all handlers leaves nothing in a buffer exactly when there was nothing, or the topmost
      enabled handler that does not just fail on nothing has bytes: the operation ends at the first
      handler that has nothing to pass on. */
  lemma FlushAllEmpties(s: State)
    requires Faithful(s.hs)
    ensures Buffers(Op(s, FLUSH, "").hs) == ""
       <==> Buffers(s.hs) == "" || (Decider(s.hs) >= 0 && s.hs[Decider(s.hs)].buffer != "")
  {
    FlushAllStack(s.hs);
  }

  /** Without failing functions it is the topmost enabled handler that has to have bytes. */
  lemma {:induction false} DeciderIsTopEnabled(hs: seq<Handler>)
    requires forall i :: 0 <= i < |hs| ==> NeverFails(hs[i].func)
    ensures Decider(hs) == TopEnabled(hs)
    decreases |hs|
  {
    if hs != [] {
      assert NeverFails(hs[|hs| - 1].func);
      DeciderIsTopEnabled(hs[..|hs| - 1]);
    }
  }

  /** An empty handler above a full one: flushing all of them sends nothing. */
  lemma FlushAllExample()
    ensures var full := Handler((n, op, data) => Done(data), 0, true, true, "abc", 1, true, false);
            var s := State([full, full.(buffer := "")], "");
            Op(s, FLUSH, "").sent == "" && Op(s, FLUSH, "").hs[0].buffer == "abc"
  {
    var full := Handler((n, op, data) => Done(data), 0, true, true, "abc", 1, true, false);
    var hs := [full, full.(buffer := "")];
    assert hs[..1] == [full];
    assert HandlerStep(hs[1], FLUSH, "").1 == NO_DATA;
    assert TopDown(hs, FLUSH, "") == ([full] + [HandlerStep(hs[1], FLUSH, "").0], "");
  }
}
