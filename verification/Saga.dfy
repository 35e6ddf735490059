/** Sagas (temporal-sdkx/sdkx.go): steps run in order, and the compensations of the
    completed steps run in reverse when one fails; activities are retried. Actions and
    compensations are arbitrary functions of the state of the world. */
module Saga {
  import opened Wrappers

  datatype Outcome<Out> = Done(output: Out) | Failed(error: string)

  datatype Step<!W, !In, !Out> = Step(
    name: string,
    action: (W, In) -> (Outcome<Out>, W),
    compensation: Option<(W, Out) -> (Option<string>, W)>)

  datatype SagaError = SagaError(step: string, error: string, compensationErrors: seq<(string, string)>)

  /** One call made by a run: the action of step i, or its compensation with an output. */
  datatype Call<Out> = Acted(i: nat) | Compensated(i: nat, output: Out)

  // ---------------------------------------------------------------------------
  // What a run does
  // ---------------------------------------------------------------------------

  datatype Progress<W, Out> = Progress(outputs: seq<Out>, world: W, failure: Option<string>)

  /** The first n steps, stopping at the first failure. */
  function Forward<W, In, Out>(steps: seq<Step<W, In, Out>>, input: In, w: W, n: nat): (p: Progress<W, Out>)
    requires n <= |steps|
    ensures |p.outputs| <= n && (p.failure.None? <==> |p.outputs| == n)
  {
    if n == 0 then Progress([], w, None)
    else
      var p := Forward(steps, input, w, n - 1);
      if p.failure.Some? then p
      else
        match steps[n - 1].action(p.world, input)
        case (Done(out), w1) => Progress(p.outputs + [out], w1, None)
        case (Failed(e), w1) => Progress(p.outputs, w1, Some(e))
  }

  datatype Undone<W> = Undone(world: W, errors: seq<(string, string)>)

  /** The compensations of steps n-1 down to 0, each with its own output; an error is kept
      and the others still run. */
  function Undo<W, In, Out>(steps: seq<Step<W, In, Out>>, outputs: seq<Out>, n: nat, w: W): Undone<W>
    requires n <= |outputs| <= |steps|
  {
    if n == 0 then Undone(w, [])
    else
      match steps[n - 1].compensation
      case None => Undo(steps, outputs, n - 1, w)
      case Some(c) =>
        var (e, w1) := c(w, outputs[n - 1]);
        var rest := Undo(steps, outputs, n - 1, w1);
        if e.None? then rest else Undone(rest.world, [(steps[n - 1].name, e.value)] + rest.errors)
  }

  function Acts<Out>(n: nat): seq<Call<Out>> { seq(n, i requires 0 <= i => Acted(i)) }

  /** The calls made while compensating steps n-1 down to 0. */
  function Undos<W, In, Out>(steps: seq<Step<W, In, Out>>, outputs: seq<Out>, n: nat): seq<Call<Out>>
    requires n <= |outputs| <= |steps|
  {
    if n == 0 then []
    else if steps[n - 1].compensation.Some? then
      [Compensated(n - 1, outputs[n - 1])] + Undos(steps, outputs, n - 1)
    else Undos(steps, outputs, n - 1)
  }

  /** The whole run: result, final world and calls. */
  datatype Ran<W, Out> = Ran(result: Option<SagaError>, world: W, calls: seq<Call<Out>>)

  function Spec<W, In, Out>(steps: seq<Step<W, In, Out>>, input: In, w: W): Ran<W, Out> {
    var p := Forward(steps, input, w, |steps|);
    var i := |p.outputs|;
    if p.failure.None? then Ran(None, p.world, Acts(i))
    else
      var u := Undo(steps, p.outputs, i, p.world);
      Ran(Some(SagaError(steps[i].name, p.failure.value, u.errors)), u.world, Acts(i + 1) + Undos(steps, p.outputs, i))
  }

  lemma {:induction false} FailureStays<W, In, Out>(steps: seq<Step<W, In, Out>>, input: In, w: W, m: nat, n: nat)
    requires m <= n <= |steps| && Forward(steps, input, w, m).failure.Some?
    ensures Forward(steps, input, w, n) == Forward(steps, input, w, m)
  {
    if m < n { FailureStays(steps, input, w, m, n - 1); }
  }

  class Saga<W, In, Out> {
    const steps: seq<Step<W, In, Out>>
    var world: W
    /** Every call made so far, oldest first. */
    ghost var calls: seq<Call<Out>>

    constructor (steps0: seq<Step<W, In, Out>>, world0: W)
      ensures steps == steps0 && world == world0 && calls == []
    {
      steps := steps0;
      world := world0;
      calls := [];
    }

    method Run(input: In) returns (result: Option<SagaError>)
      modifies this
      ensures var r := Spec(steps, input, old(world));
              result == r.result && world == r.world && calls == old(calls) + r.calls
    {
      hide Undo, Undos;
      var completed: seq<(Step<W, In, Out>, Out)> := [];
      ghost var w0, outputs: seq<Out> := world, [];
      for i := 0 to |steps|
        invariant |outputs| == i && |completed| == i
        invariant forall j :: 0 <= j < i ==> completed[j] == (steps[j], outputs[j])
        invariant Forward(steps, input, w0, i) == Progress(outputs, world, None)
        invariant calls == old(calls) + Acts(i)
      {
        var step := steps[i];
        var (outcome, w1) := step.action(world, input);
        world := w1;
        calls := calls + [Acted(i)];
        assert calls == old(calls) + Acts(i + 1);
        match outcome
        case Done(out) =>
          completed := completed + [(step, out)];
          outputs := outputs + [out];
        case Failed(e) =>
          FailureStays(steps, input, w0, i + 1, |steps|);
          var compErrs := Compensate(completed, outputs);
          return Some(SagaError(step.name, e, compErrs));
      }
      result := None;
    }

    /** The loop over completed steps, last first. */
    method Compensate(completed: seq<(Step<W, In, Out>, Out)>, ghost outputs: seq<Out>)
      returns (compErrs: seq<(string, string)>)
      requires |completed| == |outputs| <= |steps|
      requires forall j :: 0 <= j < |completed| ==> completed[j] == (steps[j], outputs[j])
      modifies this
      ensures Undone(world, compErrs) == Undo(steps, outputs, |outputs|, old(world))
      ensures calls == old(calls) + Undos(steps, outputs, |outputs|)
    {
      compErrs := [];
      var j := |completed|;
      while j > 0
        invariant 0 <= j <= |completed|
        invariant var u := Undo(steps, outputs, j, world);
                  Undo(steps, outputs, |outputs|, old(world)) == Undone(u.world, compErrs + u.errors)
        invariant calls + Undos(steps, outputs, j) == old(calls) + Undos(steps, outputs, |outputs|)
      {
        j := j - 1;
        ghost var calls0, errs0 := calls, compErrs;
        var (step, output) := completed[j];
        if step.compensation.Some? {
          var (cerr, w1) := step.compensation.value(world, output);
          world := w1;
          calls := calls + [Compensated(j, output)];
          assert calls + Undos(steps, outputs, j) == calls0 + ([Compensated(j, output)] + Undos(steps, outputs, j));
          if cerr.Some? {
            compErrs := compErrs + [(step.name, cerr.value)];
            ghost var rest := Undo(steps, outputs, j, world).errors;
            assert compErrs + rest == errs0 + ([(step.name, cerr.value)] + rest);
          }
        }
      }
    }
  }

  // ---------------------------------------------------------------------------
  // Which calls are made
  // ---------------------------------------------------------------------------

  /** Where a run stops: steps 0..i-1 gave the outputs, each on the world its predecessor
      left, and step i failed. */
  lemma {:induction false} StopsAtFirstFailure<W, In, Out>(steps: seq<Step<W, In, Out>>, input: In, w: W, n: nat)
    requires n <= |steps| && Forward(steps, input, w, n).failure.Some?
    ensures var p := Forward(steps, input, w, n);
            var i := |p.outputs|;
            && i < n
            && Forward(steps, input, w, i).failure.None? && Forward(steps, input, w, i).outputs == p.outputs
            && steps[i].action(Forward(steps, input, w, i).world, input) == (Failed(p.failure.value), p.world)
  {
    if Forward(steps, input, w, n - 1).failure.Some? { StopsAtFirstFailure(steps, input, w, n - 1); }
  }

  ghost predicate Decreasing<Out>(calls: seq<Call<Out>>) {
    forall x, y :: 0 <= x < y < |calls| ==> calls[x].i > calls[y].i
  }

  /** The call that compensates step i. */
  ghost predicate IsUndo<W, In, Out>(steps: seq<Step<W, In, Out>>, outputs: seq<Out>, n: nat, c: Call<Out>)
    requires n <= |outputs| <= |steps|
  {
    c.Compensated? && c.i < n && steps[c.i].compensation.Some? && c.output == outputs[c.i]
  }

  /** Compensation calls: only completed steps that have one, each with its own output, in
      strictly decreasing order (so each once). */
  lemma {:induction false} UndosInReverse<W, In, Out>(steps: seq<Step<W, In, Out>>, outputs: seq<Out>, n: nat)
    requires n <= |outputs| <= |steps|
    ensures forall c <- Undos(steps, outputs, n) :: IsUndo(steps, outputs, n, c)
    ensures Decreasing(Undos(steps, outputs, n))
  {
    if n > 0 {
      UndosInReverse(steps, outputs, n - 1);
      var u, rest := Undos(steps, outputs, n), Undos(steps, outputs, n - 1);
      assert forall c <- rest :: IsUndo(steps, outputs, n - 1, c);
      assert forall x :: 0 <= x < |rest| ==> rest[x] in rest;
    }
  }

  /** ... and all of them. */
  lemma {:induction false} UndosAll<W, In, Out>(steps: seq<Step<W, In, Out>>, outputs: seq<Out>, n: nat, c: Call<Out>)
    requires n <= |outputs| <= |steps| && IsUndo(steps, outputs, n, c)
    ensures c in Undos(steps, outputs, n)
  {
    if c.i < n - 1 {
      UndosAll(steps, outputs, n - 1, c);
    } else {
      assert c == Compensated(n - 1, outputs[n - 1]);
    }
  }

  /** A failed run names the failing step i and calls actions 0..i once each, in order,
      then the compensations of i-1..0 in reverse. */
  lemma FailedRunCalls<W, In, Out>(steps: seq<Step<W, In, Out>>, input: In, w: W)
    requires Spec(steps, input, w).result.Some?
    ensures var r, outputs := Spec(steps, input, w), Forward(steps, input, w, |steps|).outputs;
            var i := |outputs|;
            && i < |steps| && r.result.value.step == steps[i].name
            && |r.calls| >= i + 1 && (forall j :: 0 <= j <= i ==> r.calls[j] == Acted(j))
            && (forall c :: c in r.calls[i + 1..] <==> IsUndo(steps, outputs, i, c))
            && Decreasing(r.calls[i + 1..])
  {
    var r, outputs := Spec(steps, input, w), Forward(steps, input, w, |steps|).outputs;
    var i := |outputs|;
    StopsAtFirstFailure(steps, input, w, |steps|);
    UndosInReverse(steps, outputs, i);
    var u := Undos(steps, outputs, i);
    assert r.calls[i + 1..] == u;
    forall c | IsUndo(steps, outputs, i, c) ensures c in u { UndosAll(steps, outputs, i, c); }
  }

  /** The world a compensation finds: n is the number of completed steps, and those from i
      on have been compensated, last first, each with its own output. */
  function UndoneTo<W, In, Out>(steps: seq<Step<W, In, Out>>, outputs: seq<Out>, n: nat, i: nat, w: W): W
    requires i <= n <= |outputs| <= |steps|
    decreases n - i
  {
    if i == n then w
    else
      var u := UndoneTo(steps, outputs, n, i + 1, w);
      if steps[i].compensation.None? then u else steps[i].compensation.value(u, outputs[i]).1
  }

  /** The error step i's compensation gives there, if it has one and fails. */
  function ErrorOf<W, In, Out>(steps: seq<Step<W, In, Out>>, outputs: seq<Out>, n: nat, i: nat, w: W): Option<string>
    requires i < n <= |outputs| <= |steps|
  {
    if steps[i].compensation.None? then None
    else steps[i].compensation.value(UndoneTo(steps, outputs, n, i + 1, w), outputs[i]).0
  }

  ghost predicate Falling(at: seq<nat>) { forall x, y :: 0 <= x < y < |at| ==> at[x] > at[y] }

  /** Exactly the errors of the failing compensations are reported, each with the name of its
      step, in the order in which they happened; `at` are those steps. */
  lemma {:induction false} UndoReports<W, In, Out>(steps: seq<Step<W, In, Out>>, outputs: seq<Out>, n: nat, i: nat, w: W) returns (at: seq<nat>)
    requires i <= n <= |outputs| <= |steps|
    ensures Falling(at) && forall j: nat :: j in at <==> j < i && ErrorOf(steps, outputs, n, j, w).Some?
    ensures var u := Undo(steps, outputs, i, UndoneTo(steps, outputs, n, i, w));
            && u.world == UndoneTo(steps, outputs, n, 0, w)
            && |u.errors| == |at|
            && forall x :: 0 <= x < |at| ==> at[x] < n && u.errors[x] == (steps[at[x]].name, ErrorOf(steps, outputs, n, at[x], w).value)
  {
    at := [];
    if i > 0 {
      at := UndoReports(steps, outputs, n, i - 1, w);
      assert forall x :: 0 <= x < |at| ==> at[x] in at;
      hide UndoneTo;
      UndoneStep(steps, outputs, n, i - 1, w);
      if ErrorOf(steps, outputs, n, i - 1, w).Some? { at := [i - 1] + at; }
    }
  }

  lemma UndoneStep<W, In, Out>(steps: seq<Step<W, In, Out>>, outputs: seq<Out>, n: nat, i: nat, w: W)
    requires i < n <= |outputs| <= |steps|
    ensures var u := UndoneTo(steps, outputs, n, i + 1, w);
            UndoneTo(steps, outputs, n, i, w) == if steps[i].compensation.None? then u else steps[i].compensation.value(u, outputs[i]).1
  {
  }

  /** A failed run reports the failing step with the error its action gave on the world the
      steps before left, and every compensation that failed with its own error, in order; and
      it leaves the world the compensations left. */
  lemma FailedRunReports<W, In, Out>(steps: seq<Step<W, In, Out>>, input: In, w: W) returns (at: seq<nat>)
    requires Spec(steps, input, w).result.Some?
    ensures var r, p := Spec(steps, input, w), Forward(steps, input, w, |steps|);
            var n, error := |p.outputs|, r.result.value;
            && n < |steps| && error.step == steps[n].name
            && steps[n].action(Forward(steps, input, w, n).world, input) == (Failed(error.error), p.world)
            && r.world == UndoneTo(steps, p.outputs, n, 0, p.world)
            && Falling(at) && (forall j: nat :: j in at <==> j < n && ErrorOf(steps, p.outputs, n, j, p.world).Some?)
            && |error.compensationErrors| == |at|
            && forall x :: 0 <= x < |at| ==>
                 (at[x] < n && error.compensationErrors[x] == (steps[at[x]].name, ErrorOf(steps, p.outputs, n, at[x], p.world).value))
  {
    var p := Forward(steps, input, w, |steps|);
    StopsAtFirstFailure(steps, input, w, |steps|);
    at := UndoReports(steps, p.outputs, |p.outputs|, |p.outputs|, p.world);
  }

  // ---------------------------------------------------------------------------
  // Atomicity, as seen through any view of the world
  // ---------------------------------------------------------------------------

  /** A step that can be undone, for an observer who sees only view(world): a failing
      action changes nothing seen, nor does an action without compensation; a compensation
      run on a world that looks like the one the action left restores what was seen. */
  ghost predicate Undoable<W(!new), In(!new), Out, V>(step: Step<W, In, Out>, view: W -> V) {
    forall w, input ::
      match step.action(w, input)
      case (Failed(_), w1) => view(w1) == view(w)
      case (Done(out), w1) =>
        if step.compensation.None? then view(w1) == view(w)
        else forall u :: view(u) == view(w1) ==> view(step.compensation.value(u, out).1) == view(w)
  }

  lemma {:induction false} UndoRestores<W(!new), In(!new), Out, V>(
      steps: seq<Step<W, In, Out>>, input: In, w: W, outputs: seq<Out>, n: nat, u: W, view: W -> V)
    requires n <= |outputs| <= |steps| && (forall j :: 0 <= j < n ==> Undoable(steps[j], view))
    requires Forward(steps, input, w, n).failure.None? && Forward(steps, input, w, n).outputs == outputs[..n]
    requires view(u) == view(Forward(steps, input, w, n).world)
    ensures view(Undo(steps, outputs, n, u).world) == view(w)
  {
    if n > 0 {
      var p, step := Forward(steps, input, w, n - 1), steps[n - 1];
      assert Undoable(step, view);
      assert p.outputs == outputs[..n - 1] by { assert p.outputs == Forward(steps, input, w, n).outputs[..n - 1]; }
      var (outcome, w1) := step.action(p.world, input);
      assert outcome == Done(outputs[n - 1]);
      if step.compensation.None? {
        UndoRestores(steps, input, w, outputs, n - 1, u, view);
      } else {
        UndoRestores(steps, input, w, outputs, n - 1, step.compensation.value(u, outputs[n - 1]).1, view);
      }
    }
  }

  /** All or nothing: either every step completed, or the world looks as it did at the
      start, whatever errors the compensations reported. */
  lemma Atomic<W(!new), In(!new), Out, V>(steps: seq<Step<W, In, Out>>, input: In, w: W, view: W -> V)
    requires forall j :: 0 <= j < |steps| ==> Undoable(steps[j], view)
    ensures var r := Spec(steps, input, w);
            if r.result.None? then |Forward(steps, input, w, |steps|).outputs| == |steps| && r.calls == Acts(|steps|)
            else view(r.world) == view(w)
  {
    var p := Forward(steps, input, w, |steps|);
    if p.failure.Some? {
      StopsAtFirstFailure(steps, input, w, |steps|);
      var i := |p.outputs|;
      assert Undoable(steps[i], view);
      assert p.outputs[..i] == p.outputs;
      UndoRestores(steps, input, w, p.outputs, i, p.world, view);
    }
  }

  // ---------------------------------------------------------------------------
  // Retries
  // ---------------------------------------------------------------------------

  /** Attempt k (1-based) is reached: all earlier ones failed and no wait was cancelled. */
  predicate Reached<Out>(attempt: nat -> Outcome<Out>, cancelled: nat -> bool, k: nat) {
    forall j :: 1 <= j < k ==> attempt(j).Failed? && !cancelled(j)
  }

  datatype Retried<Out> = Output(output: Out, after: nat) | Cancelled(after: nat) | Exhausted(error: string)

  /** attempt(k) is what call k returns, cancelled(k) whether the context ends in the wait
      after it. */
  method ExecuteActivity<Out>(attempt: nat -> Outcome<Out>, cancelled: nat -> bool, maximumAttempts: int)
    returns (r: Retried<Out>)
    ensures var limit := if maximumAttempts <= 0 then 1 else maximumAttempts;
            match r
            case Output(out, k) => 1 <= k <= limit && Reached(attempt, cancelled, k) && attempt(k) == Done(out)
            case Cancelled(k) => 1 <= k < limit && Reached(attempt, cancelled, k) && attempt(k).Failed? && cancelled(k)
            case Exhausted(e) => Reached(attempt, cancelled, limit) && attempt(limit) == Failed(e)
  {
    var limit := if maximumAttempts <= 0 then 1 else maximumAttempts;
    var n := 1;
    while true
      invariant 1 <= n <= limit && Reached(attempt, cancelled, n)
      decreases limit - n
    {
      var out := attempt(n);
      if out.Done? { return Output(out.output, n); }
      if n == limit { return Exhausted(out.error); }
      if cancelled(n) { return Cancelled(n); }
      n := n + 1;
    }
  }
}
