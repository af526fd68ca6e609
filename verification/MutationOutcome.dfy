/**
 Outcomes of an executed mutation batch (mutation.go): the per-input states a
 batch reports through execution, rollback and commit, and whether they are true.
 */
module MutationOutcome {
  import opened Wrappers
  import opened MutationBatch

  datatype InputOutcome = Unattempted | Applied | RolledBack | Rejected | Unknown

  datatype Durability = DurabilityUnknown | DurabilityPending | DurabilityCommitted

  /**
   What the driver did with one statement. A failure covers an execution error,
   a missing result and an unreadable row count; `rejected` is the classifier's
   verdict, `landed` whether the database kept the statement all the same.
   */
  datatype Execution =
    | Succeeded
    | Failed(rejected: bool, landed: bool)
    | Cancelled
    | Panicked(landed: bool)

  /** How Commit or Rollback ended; a broken one leaves the scope kept or dropped. */
  datatype Finalizing = Clean | Broken(kept: bool)

  datatype Status = Finished | Errored | Panicking

  /** The first statement that did not succeed. */
  function Stop(executions: seq<Execution>): (k: nat)
    ensures k <= |executions|
    ensures forall i :: 0 <= i < k ==> executions[i] == Succeeded
    ensures k < |executions| ==> executions[k] != Succeeded
  {
    if executions == [] || executions[0] != Succeeded then 0
    else
      var k := Stop(executions[1..]);
      assert forall i :: 1 <= i < k + 1 ==> executions[i] == executions[1..][i - 1];
      k + 1
  }

  ghost predicate Runs(ends: seq<nat>, executions: seq<Execution>, n: nat) {
    IsSplit(ends, n) && |executions| == |ends|
  }

  // ---------- the states, statement by statement ----------

  /** Input `i` belongs to statement `b`. */
  ghost predicate Of(ends: seq<nat>, b: nat, i: nat) {
    b < |ends| && (b == 0 || ends[b - 1] <= i) && i < ends[b]
  }

  /** Every statement before `b` succeeded. */
  ghost predicate Reached(executions: seq<Execution>, b: nat)
    requires b <= |executions|
  {
    forall c :: 0 <= c < b ==> executions[c].Succeeded?
  }

  /**
   The state of an input of statement `b`: applied if it and all before it succeeded,
   rejected or unknown if it was the first to fail, as the classifier said, else unattempted.
   */
  ghost predicate PlainState(executions: seq<Execution>, b: nat, state: InputOutcome)
    requires b < |executions|
  {
    && state != RolledBack
    && (state == Applied <==> Reached(executions, b) && executions[b].Succeeded?)
    && (state == Rejected <==> Reached(executions, b) && executions[b].Failed? && executions[b].rejected)
    && (state == Unknown <==> Reached(executions, b) && executions[b].Failed? && !executions[b].rejected)
  }

  /**
   Inside a scope: applied only if everything succeeded and was committed; rolled back
   if it succeeded, something else did not, and the rollback was clean; rejected if it
   was the first to fail, was rejected, and the rollback was clean; unknown if its own
   failure was not rejected, or its scope did not end cleanly.
   */
  ghost predicate ScopedState(executions: seq<Execution>, finalizing: Finalizing, b: nat, state: InputOutcome)
    requires b < |executions|
  {
    var all := Reached(executions, |executions|);
    && (state == Applied <==> finalizing.Clean? && all)
    && (state == RolledBack <==> finalizing.Clean? && !all && Reached(executions, b) && executions[b].Succeeded?)
    && (state == Rejected <==> finalizing.Clean? && Reached(executions, b) && executions[b].Failed? && executions[b].rejected)
    && (state == Unknown <==>
          && Reached(executions, b)
          && if finalizing.Broken? then executions[b].Succeeded? || executions[b].Failed?
             else executions[b].Failed? && !executions[b].rejected)
  }

  /** How the batch ends: all succeeded, or the first that did not panicked, or it did not. */
  ghost predicate EndsWith(executions: seq<Execution>, status: Status) {
    && (status == Finished <==> Reached(executions, |executions|))
    && (status == Panicking <==> exists b :: 0 <= b < |executions| && Reached(executions, b) && executions[b].Panicked?)
  }

  lemma {:induction false} ReachedExactly(executions: seq<Execution>, b: nat)
    requires b <= |executions|
    ensures Reached(executions, b) <==> b <= Stop(executions)
  {
    var k := Stop(executions);
    assert k < |executions| ==> !executions[k].Succeeded?;
  }

  lemma {:induction false} EndsExactly(executions: seq<Execution>)
    ensures EndsWith(executions, StatusOf(executions))
  {
    var k := Stop(executions);
    ReachedExactly(executions, |executions|);
    ReachedExactly(executions, k);
    forall b | 0 <= b < |executions| && Reached(executions, b) && executions[b].Panicked?
      ensures b == k
    {
      ReachedExactly(executions, b);
    }
  }

  /** Where the inputs of a statement lie with respect to the stop. */
  lemma {:induction false} OwnerOf(ends: seq<nat>, n: nat, k: nat, b: nat, i: nat)
    requires IsSplit(ends, n) && k <= |ends| && Of(ends, b, i)
    ensures b < k <==> i < Start(ends, k)
    ensures k < |ends| ==> (b <= k <==> i < ends[k])
  {
    EndsRise(ends, n, b, k);
    if k < |ends| {
      EndsRise(ends, n, b, k + 1);
    }
  }

  lemma {:induction false} EndsRise(ends: seq<nat>, n: nat, b: nat, k: nat)
    requires IsSplit(ends, n) && b < |ends| && k <= |ends|
    ensures b < k ==> ends[b] <= Start(ends, k)
    ensures k <= b ==> Start(ends, k) <= Start(ends, b)
    decreases if b < k then k - b else b - k
  {
    if b + 1 < k {
      EndsRise(ends, n, b, k - 1);
      assert Start(ends, k - 1) < ends[k - 1];
    } else if k < b {
      EndsRise(ends, n, b - 1, k);
      assert Start(ends, b - 1) < ends[b - 1];
    }
  }

  lemma {:induction false} PlainExactly(ends: seq<nat>, executions: seq<Execution>, n: nat, b: nat, i: nat)
    requires Runs(ends, executions, n) && Of(ends, b, i)
    ensures PlainState(executions, b, StateAfter(ends, executions, i))
  {
    var k := Stop(executions);
    OwnerOf(ends, n, k, b, i);
    ReachedExactly(executions, b);
    assert b < k ==> executions[b] == Succeeded;
  }

  lemma {:induction false} ScopedExactly(ends: seq<nat>, executions: seq<Execution>, finalizing: Finalizing, n: nat, b: nat, i: nat)
    requires Runs(ends, executions, n) && Of(ends, b, i)
    ensures ScopedState(executions, finalizing, b, AtomicState(ends, executions, finalizing, i))
  {
    PlainExactly(ends, executions, n, b, i);
    ReachedExactly(executions, |executions|);
    ReachedExactly(executions, b);
    assert Reached(executions, |executions|) ==> executions[b].Succeeded?;
  }

  function StatusOf(executions: seq<Execution>): Status {
    var k := Stop(executions);
    if k == |executions| then Finished else if executions[k].Panicked? then Panicking else Errored
  }

  function FailedState(e: Execution): InputOutcome {
    if e.Failed? then if e.rejected then Rejected else Unknown else Unattempted
  }

  /** Applied up to the statement that stopped, its inputs marked, the rest unattempted. */
  function StateAfter(ends: seq<nat>, executions: seq<Execution>, i: nat): InputOutcome
    requires |executions| == |ends|
  {
    var k := Stop(executions);
    if i < Start(ends, k) then Applied
    else if k < |ends| && i < ends[k] then FailedState(executions[k])
    else Unattempted
  }

  /** Runs the prepared statements in order and overwrites `inputs` as it goes. */
  method ExecPreparedMutationBatches(ends: seq<nat>, executions: seq<Execution>, inputs: array<InputOutcome>)
      returns (status: Status, failedBatch: seq<nat>)
    requires Runs(ends, executions, inputs.Length)
    requires forall i :: 0 <= i < inputs.Length ==> inputs[i] == Unattempted
    modifies inputs
    ensures status == StatusOf(executions) && EndsWith(executions, status)
    ensures forall i :: 0 <= i < inputs.Length ==> inputs[i] == StateAfter(ends, executions, i)
    ensures forall b: nat, i: nat :: Of(ends, b, i) && 0 <= i < inputs.Length ==> PlainState(executions, b, inputs[i])
    ensures forall i: nat :: i in failedBatch <==> exists b: nat :: Of(ends, b, i) && Reached(executions, b) && executions[b].Failed?
    ensures forall j, k :: 0 <= j < k < |failedBatch| ==> failedBatch[j] < failedBatch[k]
  {
    status, failedBatch := ExecBatches(ends, executions, inputs);
    EndsExactly(executions);
    FailedExactly(ends, executions, inputs.Length);
    forall b: nat, i: nat | Of(ends, b, i) && 0 <= i < inputs.Length
      ensures PlainState(executions, b, inputs[i])
    {
      PlainExactly(ends, executions, inputs.Length, b, i);
    }
  }

  /** The inputs of the statement that failed, if one did. */
  function FailedInputs(ends: seq<nat>, executions: seq<Execution>, n: nat): seq<nat>
    requires Runs(ends, executions, n)
  {
    var k := Stop(executions);
    if k < |ends| && executions[k].Failed? then
      assert Start(ends, k) < ends[k];
      Range(Start(ends, k), ends[k])
    else []
  }

  lemma {:induction false} FailedExactly(ends: seq<nat>, executions: seq<Execution>, n: nat)
    requires Runs(ends, executions, n)
    ensures forall i: nat :: i in FailedInputs(ends, executions, n) <==>
                        exists b: nat :: Of(ends, b, i) && Reached(executions, b) && executions[b].Failed?
  {
    var k, failed := Stop(executions), FailedInputs(ends, executions, n);
    ReachedExactly(executions, k);
    forall b: nat, i: nat | Of(ends, b, i) && Reached(executions, b) && executions[b].Failed?
      ensures b == k && i in failed
    {
      ReachedExactly(executions, b);
      assert failed[i - Start(ends, k)] == i;
    }
    forall i: nat | i in failed
      ensures Of(ends, k, i) && executions[k].Failed?
    {
    }
  }

  /** The loop over the prepared statements. */
  method ExecBatches(ends: seq<nat>, executions: seq<Execution>, inputs: array<InputOutcome>)
      returns (status: Status, failedBatch: seq<nat>)
    requires Runs(ends, executions, inputs.Length)
    requires forall i :: 0 <= i < inputs.Length ==> inputs[i] == Unattempted
    modifies inputs
    ensures status == StatusOf(executions) && failedBatch == FailedInputs(ends, executions, inputs.Length)
    ensures forall i :: 0 <= i < inputs.Length ==> inputs[i] == StateAfter(ends, executions, i)
  {
    var batch := 0;
    while batch < |ends|
      invariant 0 <= batch <= Stop(executions) <= |ends| && Start(ends, batch) <= inputs.Length
      invariant forall i :: 0 <= i < inputs.Length ==>
                  inputs[i] == if i < Start(ends, batch) then Applied else Unattempted
    {
      var start, end := Start(ends, batch), ends[batch];
      match executions[batch] {
        case Cancelled =>
          return Errored, [];
        case Panicked(_) =>
          return Panicking, [];
        case Failed(rejected, _) =>
          Overwrite(inputs, start, end, if rejected then Rejected else Unknown);
          return Errored, Range(start, end);
        case Succeeded =>
          Overwrite(inputs, start, end, Applied);
      }
      batch := batch + 1;
    }
    status, failedBatch := Finished, [];
  }

  function Range(first: nat, end: nat): (r: seq<nat>)
    requires first <= end
    ensures |r| == end - first && forall i :: 0 <= i < |r| ==> r[i] == first + i
  {
    seq(end - first, i requires 0 <= i => first + i)
  }

  method Overwrite(inputs: array<InputOutcome>, start: nat, end: nat, state: InputOutcome)
    requires start <= end <= inputs.Length
    modifies inputs
    ensures forall i :: 0 <= i < inputs.Length ==>
              inputs[i] == if start <= i < end then state else old(inputs[i])
  {
    for index := start to end
      invariant forall i :: 0 <= i < inputs.Length ==>
                  inputs[i] == if start <= i < index then state else old(inputs[i])
    {
      inputs[index] := state;
    }
  }

  /** Rewrites the state of every attempted input, or only of the applied ones. */
  method Revise(inputs: array<InputOutcome>, onlyApplied: bool, state: InputOutcome)
    modifies inputs
    ensures forall i :: 0 <= i < inputs.Length ==>
              inputs[i] == if old(inputs[i]) == Applied || (!onlyApplied && old(inputs[i]) != Unattempted)
                           then state else old(inputs[i])
  {
    for index := 0 to inputs.Length
      invariant forall i :: 0 <= i < inputs.Length ==>
                  inputs[i] == if i < index && (old(inputs[i]) == Applied || (!onlyApplied && old(inputs[i]) != Unattempted))
                               then state else old(inputs[i])
    {
      if inputs[index] == Applied || (!onlyApplied && inputs[index] != Unattempted) {
        inputs[index] := state;
      }
    }
  }

  /** The state an atomic batch reports for input `i`. */
  function AtomicState(ends: seq<nat>, executions: seq<Execution>, finalizing: Finalizing, i: nat): InputOutcome
    requires |executions| == |ends|
  {
    var state := StateAfter(ends, executions, i);
    if finalizing.Broken? then if state == Unattempted then state else Unknown
    else if StatusOf(executions) == Finished then state
    else if state == Applied then RolledBack else state
  }

  /** Runs the batch inside a transaction or savepoint and ends that scope. */
  method ExecAtomicMutationBatch(ends: seq<nat>, executions: seq<Execution>, finalizing: Finalizing,
                                 outer: Durability, inputs: array<InputOutcome>)
      returns (status: Status, durability: Durability)
    requires Runs(ends, executions, inputs.Length)
    requires forall i :: 0 <= i < inputs.Length ==> inputs[i] == Unattempted
    modifies inputs
    ensures status == Finished <==> Reached(executions, |executions|) && finalizing == Clean
    ensures status == Panicking <==> exists b :: 0 <= b < |executions| && Reached(executions, b) && executions[b].Panicked?
    ensures forall i :: 0 <= i < inputs.Length ==> inputs[i] == AtomicState(ends, executions, finalizing, i)
    ensures forall b: nat, i: nat :: Of(ends, b, i) && 0 <= i < inputs.Length ==> ScopedState(executions, finalizing, b, inputs[i])
    ensures status == Finished ==> forall i :: 0 <= i < inputs.Length ==> inputs[i] == Applied
    ensures status == Errored ==> forall i :: 0 <= i < inputs.Length ==> inputs[i] != Applied
    ensures durability == if finalizing.Broken? then DurabilityUnknown
                          else if status == Finished then outer else DurabilityPending
  {
    var failedBatch;
    status, failedBatch := ExecPreparedMutationBatches(ends, executions, inputs);
    if finalizing.Broken? {
      Revise(inputs, false, Unknown);
      status := if status == Finished then Errored else status;
      durability := DurabilityUnknown;
    } else if status == Finished {
      durability := outer;
    } else {
      Revise(inputs, true, RolledBack);
      durability := DurabilityPending;
    }
    forall b: nat, i: nat | Of(ends, b, i) && 0 <= i < inputs.Length
      ensures ScopedState(executions, finalizing, b, inputs[i])
    {
      ScopedExactly(ends, executions, finalizing, inputs.Length, b, i);
    }
  }

  // ---------- what the states mean ----------

  /** Applied up to `a`, one failed statement up to `f`, unattempted from there. */
  ghost predicate Shaped(states: seq<InputOutcome>, ends: seq<nat>, a: nat, f: nat) {
    && a <= f <= |states|
    && (forall i :: 0 <= i < a ==> states[i] == Applied)
    && (forall i :: f <= i < |states| ==> states[i] == Unattempted)
    && (a < f ==>
          && (exists k {:trigger Start(ends, k)} :: 0 <= k < |ends| && a == Start(ends, k) && f == ends[k])
          && (states[a] == Rejected || states[a] == Unknown)
          && forall i :: a <= i < f ==> states[i] == states[a])
  }

  lemma {:induction false} OutcomeShape(ends: seq<nat>, executions: seq<Execution>, states: seq<InputOutcome>)
    requires Runs(ends, executions, |states|)
    requires forall i :: 0 <= i < |states| ==> states[i] == StateAfter(ends, executions, i)
    ensures exists a, f :: Shaped(states, ends, a, f)
  {
    var k := Stop(executions);
    assert k == 0 || Start(ends, k - 1) < ends[k - 1];
    if k < |ends| && executions[k].Failed? {
      assert Start(ends, k) < ends[k];
      assert Shaped(states, ends, Start(ends, k), ends[k]);
    } else {
      assert k == |ends| ==> Start(ends, k) == |states|;
      assert Shaped(states, ends, Start(ends, k), Start(ends, k));
    }
  }

  /** A rejection is never reported for a statement the database kept. */
  ghost predicate Honest(executions: seq<Execution>) {
    forall k :: 0 <= k < |executions| && executions[k].Failed? && executions[k].rejected ==> !executions[k].landed
  }

  /** Whether the statement of input `i` took effect inside the scope it ran in. */
  predicate Landed(ends: seq<nat>, executions: seq<Execution>, i: nat)
    requires |executions| == |ends|
  {
    var k := Stop(executions);
    || i < Start(ends, k)
    || (k < |ends| && i < ends[k] &&
        match executions[k] case Failed(_, landed) => landed case Panicked(landed) => landed case _ => false)
  }

  /** Whether it survives the end of an atomic batch's scope. */
  predicate Kept(ends: seq<nat>, executions: seq<Execution>, finalizing: Finalizing, i: nat)
    requires |executions| == |ends|
  {
    && Landed(ends, executions, i)
    && match finalizing case Clean => StatusOf(executions) == Finished case Broken(kept) => kept
  }

  predicate Claims(state: InputOutcome, effect: bool) {
    match state
    case Applied => effect
    case Unknown => true
    case _ => !effect
  }

  /**
   A batch that returns tells the truth: Applied inputs took effect; unattempted,
   rejected and rolled-back ones did not; only Unknown claims nothing.
   */
  lemma {:induction false} OutcomesTrue(ends: seq<nat>, executions: seq<Execution>, finalizing: Finalizing, n: nat, i: nat)
    requires Runs(ends, executions, n) && i < n && Honest(executions)
    requires StatusOf(executions) != Panicking
    ensures Claims(StateAfter(ends, executions, i), Landed(ends, executions, i))
    ensures Claims(AtomicState(ends, executions, finalizing, i), Kept(ends, executions, finalizing, i))
  {
    var k := Stop(executions);
    assert k < |ends| ==> Start(ends, k) < ends[k];
  }
}
