/**
 Nested transaction scopes (scope.go, atomic.go, db.go): a transaction on the
 outside, savepoints inside it, each ended by how its callback returned.
 */
module Scopes {
  import opened Wrappers

  datatype Outcome = ReturnedNil | ReturnedError | Panicked

  /**
   What a callback does: run a statement, open a savepoint and never finalize it,
   or run a nested scope whose own callback returns with `outcome`.
   */
  datatype Action<S> =
    | Run(statement: S)
    | Leak
    | Nested(body: seq<Action<S>>, outcome: Outcome)

  /** The statements whose every enclosing scope returned nil, in order. */
  function Kept<S>(actions: seq<Action<S>>): seq<S> {
    if actions == [] then []
    else
      var rest := Kept(actions[1..]);
      match actions[0]
      case Run(s) => [s] + rest
      case Leak => rest
      case Nested(body, outcome) => if outcome == ReturnedNil then Kept(body) + rest else rest
  }

  /** A statement and how the scopes around it returned, outermost first. */
  datatype Traced<S> = Traced(statement: S, scopes: seq<Outcome>)

  /** Every statement of a callback, in order, under the scopes it runs in. */
  function Trace<S>(actions: seq<Action<S>>, scopes: seq<Outcome>): seq<Traced<S>> {
    if actions == [] then []
    else
      var rest := Trace(actions[1..], scopes);
      match actions[0]
      case Run(s) => [Traced(s, scopes)] + rest
      case Leak => rest
      case Nested(body, outcome) => Trace(body, scopes + [outcome]) + rest
  }

  /** No scope around the statement returned anything but nil. */
  predicate Survives<S>(t: Traced<S>) { forall i :: 0 <= i < |t.scopes| ==> t.scopes[i] == ReturnedNil }

  function Surviving<S>(trace: seq<Traced<S>>): seq<S> {
    if trace == [] then [] else (if Survives(trace[0]) then [trace[0].statement] else []) + Surviving(trace[1..])
  }

  lemma {:induction false} SurvivingAppend<S>(a: seq<Traced<S>>, b: seq<Traced<S>>)
    ensures Surviving(a + b) == Surviving(a) + Surviving(b)
  {
    if a == [] {
      assert a + b == b;
    } else {
      assert (a + b)[1..] == a[1..] + b;
      SurvivingAppend(a[1..], b);
    }
  }

  ghost predicate AllNil(scopes: seq<Outcome>) { forall i :: 0 <= i < |scopes| ==> scopes[i] == ReturnedNil }

  lemma {:induction false} TraceSurvives<S>(actions: seq<Action<S>>, scopes: seq<Outcome>)
    ensures Surviving(Trace(actions, scopes)) == if AllNil(scopes) then Kept(actions) else []
    decreases actions
  {
    if actions != [] {
      var rest := Trace(actions[1..], scopes);
      TraceSurvives(actions[1..], scopes);
      match actions[0] {
        case Run(s) =>
          assert ([Traced(s, scopes)] + rest)[1..] == rest;
        case Leak =>
        case Nested(body, outcome) =>
          var inner := scopes + [outcome];
          assert AllNil(inner) <==> AllNil(scopes) && outcome == ReturnedNil by {
            assert inner[|scopes|] == outcome && forall i :: 0 <= i < |scopes| ==> inner[i] == scopes[i];
          }
          TraceSurvives(body, inner);
          SurvivingAppend(Trace(body, inner), rest);
      }
    }
  }

  /** What is kept are the statements under no scope that failed, in order. */
  lemma {:induction false} KeptExactly<S>(actions: seq<Action<S>>)
    ensures Kept(actions) == Surviving(Trace(actions, []))
  {
    TraceSurvives(actions, []);
  }

  function Replay<D, S>(step: (D, S) -> D, data: D, statements: seq<S>): D {
    if statements == [] then data else Replay(step, step(data, statements[0]), statements[1..])
  }

  lemma {:induction false} ReplayAppend<D, S>(step: (D, S) -> D, data: D, a: seq<S>, b: seq<S>)
    ensures Replay(step, data, a + b) == Replay(step, Replay(step, data, a), b)
  {
    if a == [] {
      assert a + b == b;
    } else {
      assert (a + b)[1..] == a[1..] + b;
      ReplayAppend(step, step(data, a[0]), a[1..], b);
    }
  }

  datatype Savepoint<D> = Savepoint(name: nat, snapshot: D)

  /** The newest savepoint of a name, the one ROLLBACK TO and RELEASE act on. */
  function Find<D>(savepoints: seq<Savepoint<D>>, name: nat): (r: Option<nat>)
    ensures r.Some? ==> r.value < |savepoints| && savepoints[r.value].name == name
    ensures r.Some? ==> forall i :: r.value < i < |savepoints| ==> savepoints[i].name != name
    ensures r.None? ==> forall i :: 0 <= i < |savepoints| ==> savepoints[i].name != name
  {
    if savepoints == [] then None
    else
      var last := |savepoints| - 1;
      if savepoints[last].name == name then Some(last) else Find(savepoints[..last], name)
  }

  /** One database connection: what is committed, and the transaction in progress. */
  class Connection<D, S> {
    const step: (D, S) -> D
    var committed: D
    var data: D
    var savepoints: seq<Savepoint<D>>
    var lastName: nat

    ghost predicate Valid()
      reads this
    {
      forall i :: 0 <= i < |savepoints| ==> savepoints[i].name <= lastName
    }

    constructor (step: (D, S) -> D, initial: D)
      ensures Valid() && this.step == step && committed == initial && savepoints == []
    {
      this.step := step;
      committed, data, savepoints, lastName := initial, initial, [], 0;
    }

    // ----- what the engine does -----

    method ExecStatement(s: S)
      modifies this`data
      ensures data == step(old(data), s)
    {
      data := step(data, s);
    }

    method SetSavepoint(name: nat)
      modifies this`savepoints
      ensures savepoints == old(savepoints) + [Savepoint(name, data)]
    {
      savepoints := savepoints + [Savepoint(name, data)];
    }

    method RollbackTo(name: nat) returns (ok: bool)
      modifies this`data, this`savepoints
      ensures ok <==> Find(old(savepoints), name).Some?
      ensures ok ==> var at := Find(old(savepoints), name).value;
                     data == old(savepoints)[at].snapshot && savepoints == old(savepoints)[..at + 1]
      ensures !ok ==> data == old(data) && savepoints == old(savepoints)
    {
      var at := Find(savepoints, name);
      ok := at.Some?;
      if ok {
        data, savepoints := savepoints[at.value].snapshot, savepoints[..at.value + 1];
      }
    }

    method Release(name: nat) returns (ok: bool)
      modifies this`savepoints
      ensures ok <==> Find(old(savepoints), name).Some?
      ensures savepoints == if ok then old(savepoints)[..Find(old(savepoints), name).value] else old(savepoints)
    {
      var at := Find(savepoints, name);
      ok := at.Some?;
      if ok {
        savepoints := savepoints[..at.value];
      }
    }

    // ----- the scopes -----

    method NewSavepointName() returns (name: nat)
      requires Valid()
      modifies this`lastName
      ensures Valid() && name == lastName == old(lastName) + 1
    {
      lastName := lastName + 1;
      name := lastName;
    }

    /** Runs a callback's actions; savepoints it leaks pile up on top of those it found. */
    method RunCallback(actions: seq<Action<S>>)
      requires Valid()
      modifies this`data, this`savepoints, this`lastName
      ensures Valid() && lastName >= old(lastName)
      ensures data == Replay(step, old(data), Kept(actions))
      ensures old(savepoints) <= savepoints
      ensures forall i :: |old(savepoints)| <= i < |savepoints| ==> savepoints[i].name > old(lastName)
      decreases actions, 0
    {
      if actions == [] {
        return;
      }
      match actions[0] {
        case Run(s) =>
          ExecStatement(s);
        case Leak =>
          var name := NewSavepointName();
          SetSavepoint(name);
        case Nested(body, outcome) =>
          var ok := WithinSavepoint(body, outcome);
          ReplayAppend(step, old(data), if outcome == ReturnedNil then Kept(body) else [], Kept(actions[1..]));
      }
      RunCallback(actions[1..]);
    }

    /**
     A nested scope: its statements stay exactly when its callback returned nil,
     its finalizer always finds its savepoint, and the savepoint stack is left
     exactly as found, whatever the callback leaked.
     */
    method WithinSavepoint(body: seq<Action<S>>, outcome: Outcome) returns (ok: bool)
      requires Valid()
      modifies this`data, this`savepoints, this`lastName
      ensures ok && Valid() && lastName > old(lastName)
      ensures savepoints == old(savepoints)
      ensures data == Replay(step, old(data), if outcome == ReturnedNil then Kept(body) else [])
      decreases body, 1
    {
      var name := NewSavepointName();
      SetSavepoint(name);
      ghost var opened_ := savepoints;
      RunCallback(body);
      OwnSavepoint(opened_, savepoints, name);
      if outcome == ReturnedNil {
        ok := Release(name);
      } else {
        var rolledBack := RollbackTo(name);
        assert savepoints == opened_;
        var released := Release(name);
        ok := rolledBack && released;
      }
    }

    /** An outermost scope: the committed data gains exactly the kept statements. */
    method Within(body: seq<Action<S>>, outcome: Outcome)
      requires Valid() && savepoints == []
      modifies this
      ensures Valid() && savepoints == []
      ensures committed == Replay(step, old(committed), if outcome == ReturnedNil then Kept(body) else [])
    {
      data := committed;
      RunCallback(body);
      if outcome == ReturnedNil {
        committed := data;
      }
      savepoints := [];
    }
  }

  lemma {:induction false} OwnSavepoint<D>(found: seq<Savepoint<D>>, now: seq<Savepoint<D>>, name: nat)
    requires found != [] && found <= now && found[|found| - 1].name == name
    requires forall i :: |found| <= i < |now| ==> now[i].name > name
    ensures Find(now, name) == Some(|found| - 1)
    ensures now[..|found|] == found && now[..|found| - 1] == found[..|found| - 1]
  {
    assert now[|found| - 1] == found[|found| - 1];
  }
}
