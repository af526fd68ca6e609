/**
 The life of one result (executor.go, rows.go, db.go): an iterator over rows that
 its consumer may stop at any point, a Finish that completes the rows, and the
 one-token guard a transaction holds while its rows are open.
 */
module RowLifecycle {
  import opened Wrappers

  datatype Cardinality = Many | AtMostOne | ExactlyOne

  datatype Error =
    | ErrBusy | ErrQuery | ErrNilRows | ErrColumns | ErrMismatch | ErrDecode
    | ErrIteration | ErrClose | ErrNoRows | ErrMultipleRows

  datatype Fetch<R> = Decodes(value: R) | Undecodable

  /** Everything the driver does with one statement. */
  datatype Script<R> = Script(
    queryFails: bool, nilRows: bool, columnsFail: bool, mismatch: bool,
    rows: seq<Fetch<R>>, iterationFails: bool, closeFails: bool)

  /** One call of the consumer: a row, or the errors joined into one. */
  datatype Yield<R> = Row(value: R) | Failure(errors: set<Error>)

  /** executorBusy: a channel that holds at most one token. */
  class Busy {
    var held: bool

    constructor ()
      ensures !held
    {
      held := false;
    }

    method Acquire() returns (ok: bool)
      modifies this
      ensures ok == !old(held) && held
    {
      ok := !held;
      held := true;
    }

    method Release()
      requires held
      modifies this
      ensures !held
    {
      held := false;
    }
  }

  /** ownedRows inside exclusiveRows; `busy` is null outside a transaction. */
  class OwnedRows<R> {
    const script: Script<R>
    const busy: Busy?
    var at: nat
    var exhausted: bool
    var closed: bool
    var completed: bool
    var released: bool
    var errors: set<Error>
    var rowsRead: nat
    var finishCalls: nat
    var completions: nat

    /** Open rows hold the token; finished ones have given it back. */
    ghost predicate Valid()
      reads this, busy
    {
      && at <= |script.rows|
      && completed == released && completions == (if completed then 1 else 0)
      && (completed ==> closed)
      && (exhausted ==> closed && at == |script.rows|)
      && (!completed ==> closed == exhausted)
      && (busy != null && !released ==> busy.held)
      && errors == (if exhausted && script.iterationFails then {ErrIteration} else {})
                   + (if closed && script.closeFails then {ErrClose} else {})
    }

    constructor (script: Script<R>, busy: Busy?)
      requires busy != null ==> busy.held
      ensures Valid() && !completed && !exhausted && at == 0 && rowsRead == 0 && finishCalls == 0
      ensures this.script == script && this.busy == busy
    {
      this.script, this.busy := script, busy;
      at, exhausted, closed, completed, released := 0, false, false, false, false;
      errors, rowsRead, finishCalls, completions := {}, 0, 0, 0;
    }

    method Next() returns (more: bool)
      requires Valid() && !completed && !exhausted
      modifies this`at, this`exhausted, this`closed, this`errors
      ensures Valid() && more == (old(at) < |script.rows|)
      ensures more ==> at == old(at) + 1 && !exhausted
      ensures !more ==> at == old(at) && exhausted
    {
      more := at < |script.rows|;
      if more {
        at := at + 1;
      } else {
        exhausted, closed := true, true;
        errors := errors + (if script.iterationFails then {ErrIteration} else {})
                         + (if script.closeFails then {ErrClose} else {});
      }
    }

    method RecordRow()
      modifies this`rowsRead
      ensures rowsRead == old(rowsRead) + if completed then 0 else 1
    {
      if !completed {
        rowsRead := rowsRead + 1;
      }
    }

    /**
     The first call completes the rows and frees the token; a later one changes
     nothing and hands its own argument back.
     */
    method Finish(err: set<Error>) returns (result: set<Error>)
      requires Valid()
      modifies this`closed, this`completed, this`released, this`errors, this`finishCalls, this`completions, busy
      ensures Valid() && completed && finishCalls == old(finishCalls) + 1
      ensures !old(completed) && busy != null ==> !busy.held
      ensures !old(completed) ==> errors == EndErrors(script, exhausted)
      ensures old(completed) ==> errors == old(errors) && (busy != null ==> busy.held == old(busy.held))
      ensures result == if old(completed) then err else err + errors
    {
      finishCalls := finishCalls + 1;
      if completed {
        return err;
      }
      completed, completions := true, completions + 1;
      if !closed {
        closed := true;
        errors := errors + if script.closeFails then {ErrClose} else {};
      }
      result := err + errors;
      if !released {
        released := true;
        if busy != null {
          busy.Release();
        }
      }
    }
  }

  function EndErrors<R>(script: Script<R>, exhausted: bool): set<Error> {
    (if exhausted && script.iterationFails then {ErrIteration} else {})
    + (if script.closeFails then {ErrClose} else {})
  }

  /**
   Two calls of Finish: the second returns what the first computed exactly when
   its caller passes that very error in again.
   */
  method FinishTwice<R>(rows: OwnedRows<R>, err1: set<Error>, err2: set<Error>) returns (first: set<Error>, second: set<Error>)
    requires rows.Valid() && !rows.completed
    modifies rows, rows.busy
    ensures rows.Valid() && rows.completed && first == err1 + EndErrors(rows.script, old(rows.exhausted)) && second == err2
    ensures second == first <==> err2 == err1 + EndErrors(rows.script, old(rows.exhausted))
  {
    first := rows.Finish(err1);
    second := rows.Finish(err2);
  }

  /** A decoder failure finished and then deferred: the second Finish reports success. */
  method FinishForgets() returns (first: set<Error>, second: set<Error>)
    ensures first == {ErrDecode} && second == {} && second != first
  {
    var rows := new OwnedRows<int>(Script(false, false, false, false, [Undecodable], false, false), null);
    var more := rows.Next();
    first, second := FinishTwice(rows, {ErrDecode}, {});
    assert ErrDecode in first;
  }

  /** queryGuarded: takes the token for a result, and gives it back when there is none. */
  method QueryGuarded<R>(busy: Busy?, script: Script<R>) returns (rows: OwnedRows?<R>, errors: set<Error>)
    modifies busy
    ensures rows != null ==> fresh(rows) && rows.Valid() && !rows.completed && !rows.exhausted && rows.at == 0
    ensures rows != null ==> rows.rowsRead == rows.finishCalls == 0 && rows.script == script && rows.busy == busy && errors == {}
    ensures rows == null && busy != null ==> busy.held == old(busy.held)
    ensures rows == null <==> script.queryFails || script.nilRows || (busy != null && old(busy.held))
    ensures rows == null ==> errors == if busy != null && old(busy.held) then {ErrBusy}
                                       else if script.queryFails then {ErrQuery} else {ErrNilRows}
  {
    rows, errors := null, {};
    if busy != null {
      var acquired := busy.Acquire();
      if !acquired {
        return null, {ErrBusy};
      }
    }
    if script.queryFails || script.nilRows {
      if busy != null {
        busy.Release();
      }
      return null, if script.queryFails then {ErrQuery} else {ErrNilRows};
    }
    rows := new OwnedRows(script, busy);
  }

  // ---------- what a consumer that never stops would see ----------

  /** How many rows decode before the first one that does not. */
  function Decodable<R>(rows: seq<Fetch<R>>): (n: nat)
    ensures n <= |rows|
    ensures forall i :: 0 <= i < n ==> rows[i].Decodes?
    ensures n < |rows| ==> rows[n].Undecodable?
  {
    if rows == [] || rows[0].Undecodable? then 0
    else
      var n := Decodable(rows[1..]);
      assert forall i :: 1 <= i < n + 1 ==> rows[i] == rows[1..][i - 1];
      n + 1
  }

  function Values<R>(rows: seq<Fetch<R>>, n: nat): (r: seq<Yield<R>>)
    requires n <= Decodable(rows)
    ensures |r| == n && forall i :: 0 <= i < n ==> r[i] == Row(rows[i].value)
  {
    if n == 0 then [] else Values(rows, n - 1) + [Row(rows[n - 1].value)]
  }

  function Failing<R>(errors: set<Error>): seq<Yield<R>> {
    if errors == {} then [] else [Failure(errors)]
  }

  /** How a sequence of many rows ends. */
  function ManyTail<R>(script: Script<R>): seq<Yield<R>> {
    if Decodable(script.rows) < |script.rows| then [Failure({ErrDecode} + EndErrors(script, false))]
    else Failing(EndErrors(script, true))
  }

  /** The yields under a policy that allows at most one row. */
  function SingleYields<R>(script: Script<R>, policy: Cardinality): seq<Yield<R>> {
    var rows, close := script.rows, EndErrors(script, false);
    if Decodable(rows) < |rows| && Decodable(rows) < 2 then [Failure({ErrDecode} + close)]
    else if |rows| >= 2 then [Failure({ErrMultipleRows} + close)]
    else if script.iterationFails then [Failure(EndErrors(script, true))]
    else if rows == [] then
      if policy == ExactlyOne then [Failure({ErrNoRows} + close)] else Failing(close)
    else Values(rows, 1) + Failing(close)
  }

  /** The yields of an opened result, were the consumer to take them all. */
  function Yields<R>(script: Script<R>, policy: Cardinality): seq<Yield<R>> {
    if script.columnsFail then [Failure({ErrColumns} + EndErrors(script, false))]
    else if script.mismatch then [Failure({ErrMismatch} + EndErrors(script, false))]
    else if policy == Many then Values(script.rows, Decodable(script.rows)) + ManyTail(script)
    else SingleYields(script, policy)
  }

  /** What reaches a consumer whose call number `stopAt` reports false. */
  function Taken<R>(stream: seq<Yield<R>>, stopAt: nat): seq<Yield<R>> {
    if |stream| <= stopAt then stream else stream[..stopAt + 1]
  }

  // ---------- what the yields mean, in terms of the script ----------

  ghost predicate AllDecode<R>(rows: seq<Fetch<R>>) { forall i :: 0 <= i < |rows| ==> rows[i].Decodes? }

  /** A number of rows the policy lets through. */
  predicate Allows(policy: Cardinality, n: nat) {
    match policy
    case Many => true
    case AtMostOne => n <= 1
    case ExactlyOne => n == 1
  }

  /** The driver did nothing wrong. */
  ghost predicate Faultless<R>(script: Script<R>) {
    && !script.columnsFail && !script.mismatch && !script.iterationFails && !script.closeFails
    && AllDecode(script.rows)
  }

  /** A row that does not decode is met: among all of them, or among the two a single-row policy reads. */
  ghost predicate MeetsUndecodable<R>(rows: seq<Fetch<R>>, policy: Cardinality) {
    exists i :: 0 <= i < |rows| && (policy == Many || i < 2) && rows[i].Undecodable?
  }

  /** The result was read to its end. */
  ghost predicate ReadOut<R>(rows: seq<Fetch<R>>, policy: Cardinality) {
    AllDecode(rows) && (policy == Many || |rows| <= 1)
  }

  /** Each error stands in a failure exactly for its own fault, with the columns checked before any row. */
  ghost predicate Explains<R>(script: Script<R>, policy: Cardinality, errors: set<Error>) {
    var opened_ := !script.columnsFail && !script.mismatch;
    && (ErrColumns in errors <==> script.columnsFail)
    && (ErrMismatch in errors <==> !script.columnsFail && script.mismatch)
    && (ErrDecode in errors <==> opened_ && MeetsUndecodable(script.rows, policy))
    && (ErrMultipleRows in errors <==>
          opened_ && policy != Many && |script.rows| >= 2 && script.rows[0].Decodes? && script.rows[1].Decodes?)
    && (ErrIteration in errors <==> opened_ && ReadOut(script.rows, policy) && script.iterationFails)
    && (ErrNoRows in errors <==> opened_ && policy == ExactlyOne && script.rows == [] && !script.iterationFails)
    && (ErrClose in errors <==> script.closeFails)
    && ErrBusy !in errors && ErrQuery !in errors && ErrNilRows !in errors
  }

  lemma {:induction false} DecodableExactly<R>(rows: seq<Fetch<R>>)
    ensures AllDecode(rows) <==> Decodable(rows) == |rows|
    ensures MeetsUndecodable(rows, Many) <==> Decodable(rows) < |rows|
    ensures forall policy :: policy != Many ==> (MeetsUndecodable(rows, policy) <==> Decodable(rows) < |rows| && Decodable(rows) < 2)
  {
    var n := Decodable(rows);
    if n < |rows| {
      assert rows[n].Undecodable?;
    }
  }

  lemma {:induction false} ManyExplains<R>(script: Script<R>, i: nat)
    requires !script.columnsFail && !script.mismatch && i < |ManyTail(script)|
    ensures ManyTail(script)[i].Failure? && Explains(script, Many, ManyTail(script)[i].errors)
  {
    DecodableExactly(script.rows);
  }

  lemma {:induction false} SingleExplains<R>(script: Script<R>, policy: Cardinality, i: nat)
    requires !script.columnsFail && !script.mismatch && policy != Many
    requires i < |SingleYields(script, policy)| && SingleYields(script, policy)[i].Failure?
    ensures Explains(script, policy, SingleYields(script, policy)[i].errors)
  {
    DecodableExactly(script.rows);
  }

  /** Every failure explains itself. */
  lemma {:induction false} FailuresExplain<R>(script: Script<R>, policy: Cardinality, i: nat)
    requires i < |Yields(script, policy)| && Yields(script, policy)[i].Failure?
    ensures Explains(script, policy, Yields(script, policy)[i].errors)
  {
    if !script.columnsFail && !script.mismatch {
      if policy == Many {
        ManyExplains(script, i - Decodable(script.rows));
      } else {
        SingleExplains(script, policy, i);
      }
    }
  }

  /** Every row shown is the row of the result at that place. */
  lemma {:induction false} RowsInPlace<R>(script: Script<R>, policy: Cardinality, i: nat)
    requires i < |Yields(script, policy)| && Yields(script, policy)[i].Row?
    ensures i < |script.rows| && script.rows[i].Decodes? && Yields(script, policy)[i].value == script.rows[i].value
  {
  }

  /**
   A sequence carries no failure exactly when the driver did nothing wrong and the
   policy allows that many rows; then it shows all of them and nothing else.
   */
  lemma {:induction false} CleanExactly<R>(script: Script<R>, policy: Cardinality)
    ensures (forall i :: 0 <= i < |Yields(script, policy)| ==> Yields(script, policy)[i].Row?)
            <==> Faultless(script) && Allows(policy, |script.rows|)
    ensures Faultless(script) && Allows(policy, |script.rows|) ==> |Yields(script, policy)| == |script.rows|
  {
    DecodableExactly(script.rows);
    var all := Yields(script, policy);
    if !(Faultless(script) && Allows(policy, |script.rows|)) {
      assert all != [] && all[|all| - 1].Failure?;
    }
  }

  /** The same of what reaches a consumer. */
  lemma {:induction false} YieldsMean<R>(script: Script<R>, policy: Cardinality, stopAt: nat)
    ensures var log := Taken(Yields(script, policy), stopAt);
            && (Faultless(script) && Allows(policy, |script.rows|) ==>
                  |log| == (if |script.rows| <= stopAt then |script.rows| else stopAt + 1)
                  && forall i :: 0 <= i < |log| ==> log[i].Row?)
            && (|log| <= stopAt && (forall i :: 0 <= i < |log| ==> log[i].Row?) ==>
                  Faultless(script) && Allows(policy, |script.rows|))
            && (forall i :: 0 <= i < |log| && log[i].Failure? ==> Explains(script, policy, log[i].errors))
            && forall i :: 0 <= i < |log| && log[i].Row? ==>
                 i < |script.rows| && script.rows[i].Decodes? && log[i].value == script.rows[i].value
  {
    var all, log := Yields(script, policy), Taken(Yields(script, policy), stopAt);
    CleanExactly(script, policy);
    assert log <= all && (|log| <= stopAt ==> log == all);
    forall i | 0 <= i < |log|
      ensures log[i].Failure? ==> Explains(script, policy, log[i].errors)
      ensures log[i].Row? ==> i < |script.rows| && script.rows[i].Decodes? && log[i].value == script.rows[i].value
    {
      assert log[i] == all[i];
      if all[i].Failure? {
        FailuresExplain(script, policy, i);
      } else {
        RowsInPlace(script, policy, i);
      }
    }
  }

  /**
   The iterator body. `stopAt` is the consumer call that reports false, if the
   sequence gets that far; `rows` is the result that was opened, if any.
   */
  method Iterate<R>(busy: Busy?, script: Script<R>, policy: Cardinality, stopAt: nat)
      returns (log: seq<Yield<R>>, rows: OwnedRows?<R>)
    modifies busy
    ensures rows != null ==> fresh(rows) && rows.Valid() && rows.completed && rows.closed
    ensures rows != null ==> rows.finishCalls == rows.completions == 1 && rows.script == script
    ensures busy != null ==> busy.held == old(busy.held)
    ensures rows != null ==> log == Taken(Yields(script, policy), stopAt)
    ensures rows != null && (script.columnsFail || script.mismatch) ==> rows.rowsRead == 0
    ensures rows != null && !script.columnsFail && !script.mismatch ==>
              rows.rowsRead == if policy == Many then Shown(log) else if script.rows != [] && script.rows[0].Decodes? then 1 else 0
    ensures rows != null && Faultless(script) && Allows(policy, |script.rows|) ==>
              |log| == (if |script.rows| <= stopAt then |script.rows| else stopAt + 1) && forall i :: 0 <= i < |log| ==> log[i].Row?
    ensures rows != null && |log| <= stopAt && (forall i :: 0 <= i < |log| ==> log[i].Row?) ==>
              Faultless(script) && Allows(policy, |script.rows|)
    ensures rows != null ==> forall i :: 0 <= i < |log| && log[i].Failure? ==> Explains(script, policy, log[i].errors)
    ensures rows != null ==> forall i :: 0 <= i < |log| && log[i].Row? ==>
              i < |script.rows| && script.rows[i].Decodes? && log[i].value == script.rows[i].value
    ensures rows == null ==> log == [Failure(if busy != null && old(busy.held) then {ErrBusy}
                                            else if script.queryFails then {ErrQuery} else {ErrNilRows})]
    ensures rows == null <==> script.queryFails || script.nilRows || (busy != null && old(busy.held))
  {
    YieldsMean(script, policy, stopAt);
    var errors;
    rows, errors := QueryGuarded(busy, script);
    if rows == null {
      return [Failure(errors)], null;
    }
    if script.columnsFail || script.mismatch {
      var finished := rows.Finish(if script.columnsFail then {ErrColumns} else {ErrMismatch});
      return [Failure(finished)], rows;
    }
    if policy == Many {
      log := IterateMany(rows, stopAt);
    } else {
      log := IterateSingle(rows, policy, stopAt);
    }
  }

  ghost predicate Fresh<R>(rows: OwnedRows<R>)
    reads rows, rows.busy
  {
    && rows.Valid() && !rows.completed && !rows.exhausted && rows.at == 0 && rows.finishCalls == rows.rowsRead == 0
    && !rows.script.columnsFail && !rows.script.mismatch
  }

  ghost predicate Reading<R>(rows: OwnedRows<R>)
    reads rows, rows.busy
  {
    rows.Valid() && !rows.completed && !rows.exhausted && rows.finishCalls == 0
  }

  ghost predicate Over<R>(rows: OwnedRows<R>)
    reads rows, rows.busy
  {
    rows.Valid() && rows.completed && rows.finishCalls == 1 && (rows.busy != null ==> !rows.busy.held)
  }

  /** Reads on: the next row, or None once the result is exhausted. */
  method Fetched<R>(rows: OwnedRows<R>) returns (r: Option<Fetch<R>>)
    requires Reading(rows)
    modifies rows`at, rows`exhausted, rows`closed, rows`errors
    ensures rows.Valid() && !rows.completed && rows.finishCalls == 0 && rows.exhausted == r.None?
    ensures r.Some? ==> rows.at == old(rows.at) + 1 <= |rows.script.rows| && r.value == rows.script.rows[old(rows.at)]
    ensures r.None? ==> rows.at == old(rows.at) == |rows.script.rows|
  {
    var more := rows.Next();
    r := if more then Some(rows.script.rows[rows.at - 1]) else None;
  }

  /** The one call of Finish on every way out of the iterator. */
  method Conclude<R>(rows: OwnedRows<R>, err: set<Error>) returns (result: set<Error>)
    requires rows.Valid() && !rows.completed && rows.finishCalls == 0
    modifies rows, rows.busy
    ensures Over(rows) && result == err + EndErrors(rows.script, old(rows.exhausted)) && rows.at == old(rows.at)
    ensures rows.rowsRead == old(rows.rowsRead)
  {
    result := rows.Finish(err);
  }

  /** Hands over every row as it decodes, until the result or the consumer's patience ends. */
  method HandRows<R>(rows: OwnedRows<R>, stopAt: nat) returns (log: seq<Yield<R>>, failed: bool)
    requires Fresh(rows)
    modifies rows, rows.busy
    ensures rows.Valid() && !rows.completed && rows.finishCalls == 0
    ensures |log| <= Decodable(rows.script.rows) && log == Values(rows.script.rows, |log|) && rows.rowsRead == |log|
    ensures failed ==> !rows.exhausted && |log| == Decodable(rows.script.rows) < |rows.script.rows| && |log| <= stopAt
    ensures !failed && !rows.exhausted ==> |log| == stopAt + 1
    ensures !failed && rows.exhausted ==> |log| == |rows.script.rows| && |log| <= stopAt
  {
    var script := rows.script;
    log, failed := [], false;
    while true
      invariant Reading(rows) && rows.at <= Decodable(script.rows) && rows.at <= stopAt
      invariant log == Values(script.rows, rows.at) && rows.rowsRead == rows.at
      decreases |script.rows| - rows.at
    {
      var fetched := Fetched(rows);
      if fetched.None? {
        return;
      }
      if fetched.value.Undecodable? {
        return log, true;
      }
      rows.RecordRow();
      log := log + [Row(fetched.value.value)];
      if |log| == stopAt + 1 {
        return;
      }
    }
  }

  /** Rows as they decode, then the one error the result ended with, if any. */
  method IterateMany<R>(rows: OwnedRows<R>, stopAt: nat) returns (log: seq<Yield<R>>)
    requires Fresh(rows)
    modifies rows, rows.busy
    ensures Over(rows)
    ensures log == Taken(Yields(rows.script, Many), stopAt)
    ensures rows.rowsRead == Shown(log)
  {
    var script := rows.script;
    var failed;
    log, failed := HandRows(rows, stopAt);
    AllShown(log);
    var stopped := !failed && !rows.exhausted;
    var cause := if failed then {ErrDecode} else if rows.exhausted && script.iterationFails then {ErrIteration} else {};
    var finished := Conclude(rows, cause);
    if stopped {
      TakenPrefix(script, |log|, stopAt);
      return;
    }
    if finished != {} {
      ShownFailure(log, finished);
      log := log + [Failure(finished)];
    }
    TakenWhole(Yields(script, Many), stopAt);
  }

  /** How many rows the consumer was shown. */
  function Shown<R>(log: seq<Yield<R>>): nat {
    if log == [] then 0 else Shown(log[..|log| - 1]) + if log[|log| - 1].Row? then 1 else 0
  }

  lemma {:induction false} AllShown<R>(log: seq<Yield<R>>)
    requires forall i :: 0 <= i < |log| ==> log[i].Row?
    ensures Shown(log) == |log|
  {
    if log != [] {
      AllShown(log[..|log| - 1]);
    }
  }

  lemma {:induction false} ShownFailure<R>(log: seq<Yield<R>>, errors: set<Error>)
    ensures Shown(log + [Failure(errors)]) == Shown(log)
  {
    assert (log + [Failure(errors)])[..|log|] == log;
  }

  lemma {:induction false} TakenWhole<R>(stream: seq<Yield<R>>, stopAt: nat)
    requires |stream| <= stopAt + 1
    ensures Taken(stream, stopAt) == stream
  {
  }

  lemma {:induction false} TakenPrefix<R>(script: Script<R>, n: nat, stopAt: nat)
    requires n == stopAt + 1 <= Decodable(script.rows) && !script.columnsFail && !script.mismatch
    ensures Taken(Yields(script, Many), stopAt) == Values(script.rows, n)
  {
    var all := Yields(script, Many);
    assert forall i :: 0 <= i < n ==> all[i] == Values(script.rows, n)[i];
  }

  /** Reads to the end, holding the row back; fails on a row that does not decode and on a second row. */
  method HoldRow<R>(rows: OwnedRows<R>, ghost policy: Cardinality) returns (held: Option<R>, failure: Option<set<Error>>)
    requires Fresh(rows) && policy != Many
    modifies rows, rows.busy
    ensures failure.Some? ==> Over(rows) && SingleYields(rows.script, policy) == [Failure(failure.value)]
    ensures failure.None? ==> rows.Valid() && !rows.completed && rows.exhausted && rows.finishCalls == 0
    ensures failure.None? ==> Decodable(rows.script.rows) == |rows.script.rows| <= 1
    ensures rows.rowsRead == if rows.script.rows != [] && rows.script.rows[0].Decodes? then 1 else 0
    ensures failure.None? ==> held == if rows.script.rows == [] then None else Some(rows.script.rows[0].value)
  {
    var script := rows.script;
    held := None;
    while true
      invariant Reading(rows) && rows.at <= Decodable(script.rows) && rows.at <= 1 && rows.rowsRead == rows.at
      invariant held == if rows.at == 0 then None else Some(script.rows[0].value)
      decreases |script.rows| - rows.at
    {
      var fetched := Fetched(rows);
      if fetched.None? {
        return held, None;
      }
      if fetched.value.Undecodable? {
        var finished := Conclude(rows, {ErrDecode});
        return held, Some(finished);
      }
      if held.Some? {
        var finished := Conclude(rows, {ErrMultipleRows});
        return held, Some(finished);
      }
      rows.RecordRow();
      held := Some(fetched.value.value);
    }
  }

  /** The row is held back until a second read shows it is the only one. */
  method IterateSingle<R>(rows: OwnedRows<R>, policy: Cardinality, stopAt: nat) returns (log: seq<Yield<R>>)
    requires Fresh(rows) && policy != Many
    modifies rows, rows.busy
    ensures Over(rows)
    ensures log == Taken(Yields(rows.script, policy), stopAt)
    ensures rows.rowsRead == if rows.script.rows != [] && rows.script.rows[0].Decodes? then 1 else 0
  {
    var script := rows.script;
    var held, failure := HoldRow(rows, policy);
    if failure.Some? {
      return [Failure(failure.value)];
    }
    if script.iterationFails {
      var finished := Conclude(rows, {ErrIteration});
      return [Failure(finished)];
    }
    if policy == ExactlyOne && held.None? {
      var finished := Conclude(rows, {ErrNoRows});
      return [Failure(finished)];
    }
    log := [];
    if held.Some? {
      log := [Row(held.value)];
      if stopAt == 0 {
        var ignored := Conclude(rows, {});
        return;
      }
    }
    var finished := Conclude(rows, {});
    if finished != {} {
      log := log + [Failure(finished)];
    }
  }

  // ---------- what every consumer can rely on ----------

  function RowsOf<R>(stream: seq<Yield<R>>): seq<R> {
    if stream == [] then []
    else
      var last := stream[|stream| - 1];
      RowsOf(stream[..|stream| - 1]) + if last.Row? then [last.value] else []
  }

  /**
   Wherever the consumer stops: no call after the one that reported false, an
   error only as the last call, and under a single-row policy at most one row,
   none of them before ErrMultipleRows.
   */
  lemma {:induction false} SequenceShape<R>(script: Script<R>, policy: Cardinality, stopAt: nat, i: nat)
    requires i < |Taken(Yields(script, policy), stopAt)|
    ensures var log := Taken(Yields(script, policy), stopAt);
            && i <= stopAt
            && (log[i].Failure? ==> i == |log| - 1)
            && (policy != Many ==> i <= 1 && (i == 1 ==> log[0].Row? && log[1].Failure?))
            && (policy != Many && log[i].Failure? && ErrMultipleRows in log[i].errors ==> i == 0)
  {
    var log := Taken(Yields(script, policy), stopAt);
    assert log <= Yields(script, policy);
  }

  lemma {:induction false} RowsOfValues<R>(rows: seq<Fetch<R>>, n: nat, tail: seq<Yield<R>>)
    requires n <= Decodable(rows) && |tail| <= 1 && (tail != [] ==> tail[0].Failure?)
    ensures |RowsOf(Values(rows, n) + tail)| == n
    ensures forall i :: 0 <= i < n ==> RowsOf(Values(rows, n) + tail)[i] == rows[i].value
    decreases n, |tail|
  {
    var all := Values(rows, n) + tail;
    if tail != [] {
      assert all[..|all| - 1] == Values(rows, n) + [];
      RowsOfValues(rows, n, []);
    } else if n > 0 {
      assert all == Values(rows, n) && all[..n - 1] == Values(rows, n - 1) + [];
      RowsOfValues(rows, n - 1, []);
    }
  }

  ghost predicate Clean<R>(stream: seq<Yield<R>>) {
    forall i :: 0 <= i < |stream| ==> stream[i].Row?
  }

  /** `stream` shows exactly the rows of the result, in order. */
  ghost predicate Shows<R>(stream: seq<Yield<R>>, rows: seq<Fetch<R>>) {
    && Decodable(rows) == |rows| == |RowsOf(stream)|
    && forall i :: 0 <= i < |rows| ==> RowsOf(stream)[i] == rows[i].value
  }

  /** A sequence that ends without an error has shown the whole result, of a size its policy allows. */
  lemma {:induction false} NothingLost<R>(script: Script<R>, policy: Cardinality)
    ensures Clean(Yields(script, policy)) ==> Shows(Yields(script, policy), script.rows)
    ensures Clean(Yields(script, policy)) && policy != Many ==> |script.rows| <= 1
    ensures Clean(Yields(script, policy)) && policy == ExactlyOne ==> |script.rows| == 1
  {
    if !script.columnsFail && !script.mismatch {
      if policy == Many {
        ManyComplete(script);
      } else {
        SingleComplete(script, policy);
      }
    } else {
      assert Yields(script, policy)[0].Failure?;
    }
  }

  lemma {:induction false} ManyComplete<R>(script: Script<R>)
    ensures var all := Values(script.rows, Decodable(script.rows)) + ManyTail(script);
            Clean(all) ==> Shows(all, script.rows)
  {
    var rows, tail := script.rows, ManyTail(script);
    var all := Values(rows, Decodable(rows)) + tail;
    if tail == [] {
      RowsOfValues(rows, Decodable(rows), tail);
    } else {
      assert all[|all| - 1].Failure?;
    }
  }

  lemma {:induction false} SingleComplete<R>(script: Script<R>, policy: Cardinality)
    ensures var all := SingleYields(script, policy);
            Clean(all) ==> Shows(all, script.rows) && |script.rows| <= 1 && (policy == ExactlyOne ==> |script.rows| == 1)
  {
    var rows, all := script.rows, SingleYields(script, policy);
    if |rows| <= 1 && Decodable(rows) == |rows| && all == Values(rows, |rows|) {
      assert all == Values(rows, |rows|) + [];
      RowsOfValues(rows, |rows|, []);
    } else {
      assert all[|all| - 1].Failure?;
    }
  }
}
