/**
 Apply and revert as steps over a history table (migrate/apply.go, revert.go):
 every answer of the database is arbitrary, so a run may fail at any source,
 history write or commit, and a failed write may have landed all the same.
 */
module MigrationRun {
  import opened Wrappers
  import opened MigrationPlan

  datatype Dialect = PostgreSQL | MySQL | SQLite

  /** The engine's answer to one source; AlreadyDone is an error MySQL tolerates. */
  datatype Answer = Success | AlreadyDone | Failure

  /** What the database says to one request: a refused write or commit may still have landed. */
  datatype Reply = Fine | Tolerable | Refused(landed: bool)

  /** A tolerable reply is one only MySQL gets away with. */
  predicate IsFault(dialect: Dialect, r: Reply) { r.Refused? || (r.Tolerable? && dialect != MySQL) }

  /** How many of the first `n` replies are faults. */
  ghost function Faults(dialect: Dialect, replies: nat -> Reply, n: nat): nat {
    if n == 0 then 0 else Faults(dialect, replies, n - 1) + if IsFault(dialect, replies(n - 1)) then 1 else 0
  }

  /** The end of a history write or a commit; a lost one may still have landed. */
  datatype Write = Done | Lost(landed: bool)

  /** What was sent to the database, in order. */
  datatype Event =
    | Source(m: Migration, index: nat, answer: Answer)
    | Record(m: Migration)
    | Reverse(m: Migration, index: nat, answer: Answer)
    | Forget(m: Migration)

  predicate Accepted(dialect: Dialect, a: Answer) {
    a == Success || (a == AlreadyDone && dialect == MySQL)
  }

  function SourceCount(m: Migration, reverse: bool): nat { if reverse then m.down else m.sources }

  /** `events` are the sources of `m` in one direction, in order, the first ones of them if not all. */
  ghost predicate Block(dialect: Dialect, events: seq<Event>, m: Migration, reverse: bool) {
    forall k :: 0 <= k < |events| ==>
      && (if reverse then events[k].Reverse? else events[k].Source?)
      && events[k].m == m && events[k].index == k && Accepted(dialect, events[k].answer)
  }

  /** The log ends with every source of `m` in one direction, each one accepted. */
  ghost predicate Complete(dialect: Dialect, log: seq<Event>, m: Migration, reverse: bool) {
    && SourceCount(m, reverse) <= |log|
    && Block(dialect, log[|log| - SourceCount(m, reverse)..], m, reverse)
  }

  /** Every history write directly follows the complete run of sources it stands for. */
  ghost predicate Justified(dialect: Dialect, log: seq<Event>) {
    forall p :: 0 <= p < |log| && (log[p].Record? || log[p].Forget?) ==>
      Complete(dialect, log[..p], log[p].m, log[p].Forget?)
  }

  lemma {:induction false} JustifiedAppend(dialect: Dialect, log: seq<Event>, e: Event)
    requires Justified(dialect, log)
    requires e.Record? || e.Forget? ==> Complete(dialect, log, e.m, e.Forget?)
    ensures Justified(dialect, log + [e])
  {
    var longer := log + [e];
    forall p | 0 <= p < |longer| && (longer[p].Record? || longer[p].Forget?)
      ensures Complete(dialect, longer[..p], longer[p].m, longer[p].Forget?)
    {
      assert longer[..p] == log[..p];
      assert log[..|log|] == log;
    }
  }

  predicate IsWrite(e: Event) { e.Record? || e.Forget? }

  /** The history left by those writes of the log whose positions are in `landed`. */
  ghost function Effects(start: History, log: seq<Event>, landed: set<nat>): History {
    if log == [] then start
    else
      var before, last := Effects(start, log[..|log| - 1], landed), |log| - 1;
      if last in landed && IsWrite(log[last]) then After(before, log[last]) else before
  }

  /** The history is what some of the writes of the log, in their order, made of the one at the start. */
  ghost predicate Accounted(history: History, start: History, log: seq<Event>, landed: set<nat>) {
    && history == Effects(start, log, landed)
    && forall p :: p in landed ==> p < |log|
  }

  /** Sending statements that have not landed changes nothing. */
  lemma {:induction false} AccountedGrows(history: History, start: History, log: seq<Event>, longer: seq<Event>, landed: set<nat>)
    requires Accounted(history, start, log, landed) && log <= longer
    ensures Accounted(history, start, longer, landed)
  {
    var n := |longer| - 1;
    if |log| <= n {
      AccountedGrows(history, start, log, longer[..n], landed);
      assert n !in landed by {
        assert forall p :: p in landed ==> p < |log|;
      }
    } else {
      assert longer == log;
    }
  }

  /** A write that lands takes effect after all the writes before it. */
  lemma {:induction false} AccountedLands(history: History, start: History, log: seq<Event>, e: Event, landed: set<nat>)
    requires Accounted(history, start, log, landed) && IsWrite(e)
    ensures Accounted(After(history, e), start, log + [e], landed + {|log|})
  {
    var longer := log + [e];
    assert longer[..|log|] == log;
    EffectsBelow(start, log, landed, landed + {|log|});
  }

  /** Positions beyond the log change nothing. */
  lemma {:induction false} EffectsBelow(start: History, log: seq<Event>, landed: set<nat>, more: set<nat>)
    requires forall p :: 0 <= p < |log| ==> (p in landed <==> p in more)
    ensures Effects(start, log, landed) == Effects(start, log, more)
  {
    if log != [] {
      EffectsBelow(start, log[..|log| - 1], landed, more);
    }
  }

  /**
   Whatever the history records beyond what it held at the start goes back to its
   last landed write for that ID: a Record, sent right after every source of that
   very migration had succeeded or been tolerated.
   */
  lemma {:induction false} RecordedAfterSources(dialect: Dialect, start: History, log: seq<Event>, landed: set<nat>, id: string)
      returns (p: nat)
    requires Justified(dialect, log) && id in Effects(start, log, landed) && id !in start
    ensures p < |log| && p in landed && log[p].Record? && log[p].m.id == id
    ensures Effects(start, log, landed)[id] == log[p].m.checksum
    ensures Complete(dialect, log[..p], log[p].m, false)
    ensures forall q :: p < q < |log| && q in landed && IsWrite(log[q]) ==> log[q].m.id != id
  {
    var n := |log| - 1;
    if n in landed && IsWrite(log[n]) && log[n].m.id == id {
      p := n;
    } else {
      JustifiedPrefix(dialect, log, n);
      p := RecordedAfterSources(dialect, start, log[..n], landed, id);
      assert log[..n][..p] == log[..p] && log[..n][p] == log[p];
    }
  }

  lemma {:induction false} JustifiedPrefix(dialect: Dialect, log: seq<Event>, n: nat)
    requires Justified(dialect, log) && n <= |log|
    ensures Justified(dialect, log[..n])
  {
    forall q | 0 <= q < n && IsWrite(log[..n][q])
      ensures Complete(dialect, log[..n][..q], log[..n][q].m, log[..n][q].Forget?)
    {
      assert log[..n][..q] == log[..q];
    }
  }

  lemma {:induction false} ForgetLast(ms: seq<Migration>, h: nat)
    requires Sorted(ms) && 0 < h <= |ms|
    ensures HistoryOf(ms, h) - {ms[h - 1].id} == HistoryOf(ms, h - 1)
  {
    HistoryOfEntries(ms, h - 1);
    assert ms[h - 1].id !in HistoryOf(ms, h - 1);
  }

  /** The migration of `event` is not recorded yet, or recorded as it was supplied. */
  ghost predicate Due(history: History, event: Event) {
    if event.Forget? then event.m.id in history && history[event.m.id] == event.m.checksum else event.m.id !in history
  }

  /** The target resolves, and everything newer than it carries reverse sources. */
  predicate Reversible(ms: seq<Migration>, h: nat, target: RevertTarget)
    requires Sorted(ms) && h <= |ms|
  {
    AfterRevert(ms, h, target).Some? && forall i :: AfterRevert(ms, h, target).value <= i < h ==> ms[i].down > 0
  }

  /** How a run over `selected` can end once `n` of its steps are in the history. */
  ghost predicate Ran(dialect: Dialect, selected: seq<Migration>, completed: seq<Migration>, ok: bool, n: nat) {
    && completed <= selected && |completed| <= n <= |selected|
    && (ok ==> n == |selected| == |completed|)
    && (!ok && dialect != SQLite ==> n <= |completed| + 1)
    && (!ok && dialect == SQLite ==> completed == [] && (n == 0 || n == |selected|))
  }

  ghost function Members(ms: seq<Migration>): set<Migration> { set m | m in ms }

  /** Every statement sent belongs to a known migration. */
  ghost predicate Named(log: seq<Event>, known: set<Migration>) {
    forall p :: 0 <= p < |log| ==> log[p].m in known
  }

  /** From the first `h` to the first `n`: all of them, or up to the named one if that lies ahead. */
  ghost predicate AppliedUpTo(ms: seq<Migration>, h: nat, target: ApplyTarget, n: nat) {
    && h <= n <= |ms| && (target.AllPending? ==> n == |ms|)
    && (target.ApplyThrough? ==> (n > h ==> ms[n - 1].id == target.id) && exists i :: 0 <= i < n && ms[i].id == target.id)
  }

  /** From the first `h` back to the first `n`, the named one or `Steps` fewer, over reversible migrations. */
  ghost predicate RevertedTo(ms: seq<Migration>, h: nat, target: RevertTarget, n: nat) {
    && n <= h <= |ms| && !target.NoTarget? && (forall i :: n <= i < h ==> ms[i].down > 0)
    && (target.Through? ==> 0 < n && ms[n - 1].id == target.id) && (target.Steps? ==> 0 < target.n == h - n)
  }

  /** No target, one that is not applied or out of range, or something newer than it without reverse sources. */
  ghost predicate CannotRevert(ms: seq<Migration>, h: nat, target: RevertTarget)
    requires h <= |ms|
  {
    || target.NoTarget? || (target.Steps? && !(1 <= target.n <= h))
    || (target.Through? && forall i :: 0 <= i < h ==> ms[i].id != target.id)
    || exists i :: 0 <= i < h && ms[i].down == 0 && (target.Steps? ==> h - target.n <= i)
                   && (target.Through? ==> forall k :: i <= k < h ==> ms[k].id != target.id)
  }

  lemma {:induction false} ApplyReaches(ms: seq<Migration>, h: nat, target: ApplyTarget)
    requires Sorted(ms) && h <= |ms|
    ensures var n := AfterApply(ms, h, target);
            if n.Some? then AppliedUpTo(ms, h, target, n.value)
            else target.ApplyThrough? && forall i :: 0 <= i < |ms| ==> ms[i].id != target.id
  {
  }

  lemma {:induction false} RevertReaches(ms: seq<Migration>, h: nat, target: RevertTarget)
    requires Sorted(ms) && h <= |ms|
    ensures Reversible(ms, h, target) ==> RevertedTo(ms, h, target, AfterRevert(ms, h, target).value)
    ensures !Reversible(ms, h, target) ==> CannotRevert(ms, h, target)
  {
    if target.Through? && AfterRevert(ms, h, target).None? {
      assert forall i :: 0 <= i < h ==> ms[..h][i] == ms[i];
    }
  }

  class Database {
    const dialect: Dialect
    var history: History
    var log: seq<Event>
    ghost const start: History
    ghost var landed: set<nat>
    /** Everything the database will ever reply; `asked` of it was used. */
    const replies: nat -> Reply
    var asked: nat
    /** How many of the replies used were faults. */
    ghost var faults: nat
    /** The migrations the callers so far supplied. */
    ghost var known: set<Migration>

    ghost predicate Valid()
      reads this
    {
      Justified(dialect, log) && Accounted(history, start, log, landed) && Named(log, known)
      && faults == Faults(dialect, replies, asked)
    }

    constructor (dialect: Dialect, replies: nat -> Reply, history: History)
      ensures Valid() && this.dialect == dialect && this.replies == replies && asked == 0 && this.history == start == history && log == [] && known == {}
    {
      this.dialect, this.replies, this.asked := dialect, replies, 0;
      this.history := history;
      this.log := [];
      this.start := history;
      this.landed, this.faults, this.known := {}, 0, {};
    }

    /** The next reply. */
    method Ask() returns (r: Reply)
      requires faults == Faults(dialect, replies, asked)
      modifies this`faults, this`asked
      ensures r == replies(old(asked)) && asked == old(asked) + 1
      ensures faults == Faults(dialect, replies, asked) == old(faults) + if IsFault(dialect, r) then 1 else 0
    {
      r := replies(asked);
      faults := faults + if IsFault(dialect, r) then 1 else 0;
      asked := asked + 1;
    }

    /** The reply to a request that succeeds or fails. */
    method Confirm() returns (ok: bool)
      requires Valid()
      modifies this`faults, this`asked
      ensures Valid() && asked == old(asked) + 1 && ok == !IsFault(dialect, replies(old(asked)))
      ensures faults == old(faults) + if ok then 0 else 1
    {
      var r := Ask();
      ok := !r.Refused? && (r.Fine? || dialect == MySQL);
    }

    /** The reply to a history write or a commit. */
    method ConfirmWrite() returns (w: Write)
      requires Valid()
      modifies this`faults, this`asked
      ensures Valid() && asked == old(asked) + 1 && (w.Done? <==> !IsFault(dialect, replies(old(asked))))
      ensures faults == old(faults) + if w.Done? then 0 else 1
    {
      var r := Ask();
      w := if r.Refused? then Lost(r.landed) else if r.Tolerable? && dialect != MySQL then Lost(false) else Done;
    }

    /** Sends the sources of one direction until one of them is refused. */
    method RunSources(m: Migration, reverse: bool) returns (ok: bool)
      requires Valid() && m in known
      modifies this`log, this`faults, this`asked
      ensures Valid() && old(log) <= log && faults == old(faults) + if ok then 0 else 1
      ensures ok ==> Complete(dialect, log, m, reverse)
    {
      var first := |log|;
      for index := 0 to SourceCount(m, reverse)
        invariant Valid() && old(log) <= log && |log| == first + index && faults == old(faults)
        invariant Block(dialect, log[first..], m, reverse)
      {
        var reply := Ask();
        var answer := match reply case Fine => Success case Tolerable => AlreadyDone case Refused(_) => Failure;
        var event := if reverse then Reverse(m, index, answer) else Source(m, index, answer);
        JustifiedAppend(dialect, log, event);
        AccountedGrows(history, start, log, log + [event], landed);
        assert (log + [event])[first..] == log[first..] + [event];
        log := log + [event];
        if !Accepted(dialect, answer) {
          return false;
        }
      }
      ok := true;
    }

    /** Sends the history write for `m`; its effect depends on the surrounding transaction. */
    method WriteHistory(event: Event) returns (w: Write)
      requires Valid() && IsWrite(event)
      requires Complete(dialect, log, event.m, event.Forget?) && event.m in known
      modifies this`log, this`faults, this`asked
      ensures Valid() && log == old(log) + [event] && faults == old(faults) + if w.Done? then 0 else 1
    {
      w := ConfirmWrite();
      JustifiedAppend(dialect, log, event);
      AccountedGrows(history, start, log, log + [event], landed);
      log := log + [event];
    }

    /** Makes the last history write of the log visible in the history table. */
    method Land()
      requires Valid() && log != [] && IsWrite(log[|log| - 1])
      requires Accounted(history, start, log[..|log| - 1], landed)
      modifies this`history, this`landed
      ensures Valid()
      ensures history == After(old(history), log[|log| - 1])
    {
      ghost var last := |log| - 1;
      AccountedLands(history, start, log[..last], log[last], landed);
      assert log == log[..last] + [log[last]];
      history := After(history, log[|log| - 1]);
      landed := landed + {last};
    }

    /**
     One migration on PostgreSQL or MySQL, in the direction of `event`. A failed
     step leaves the history as it was or exactly one step further, and on the
     history its selection was made from it fails only when the database does.
     */
    method Step(event: Event) returns (completed: seq<Migration>, ok: bool)
      requires Valid() && dialect != SQLite
      requires IsWrite(event) && event.m in known
      modifies this`log, this`history, this`landed, this`faults, this`asked
      ensures Valid() && faults >= old(faults)
      ensures ok ==> history == After(old(history), event)
      ensures Due(old(history), event) ==> (if ok then completed == [event.m] && faults == old(faults) else faults > old(faults))
      ensures !ok ==> completed == []
      ensures history == old(history) || history == After(old(history), event)
    {
      var m := event.m;
      completed, ok := [], false;
      if !m.nontransactional {
        var begun := Confirm();
        if !begun {
          return;
        }
        if dialect == MySQL {
          var read := Confirm();
          if !read {
            return;
          }
          if event.Record? && m.id in history {
            ok := history[m.id] == m.checksum;
            return;
          }
          if event.Forget? && (m.id !in history || history[m.id] != m.checksum) {
            return;
          }
        }
      }
      completed, ok := Carry(event);
    }

    /** The sources of a step, its history write and its commit. */
    method Carry(event: Event) returns (completed: seq<Migration>, ok: bool)
      requires Valid() && dialect != SQLite && IsWrite(event) && event.m in known
      modifies this`log, this`history, this`landed, this`faults, this`asked
      ensures Valid() && (if ok then completed == [event.m] && faults == old(faults) else completed == [] && faults > old(faults))
      ensures ok ==> history == After(old(history), event)
      ensures history == old(history) || history == After(old(history), event)
    {
      var m := event.m;
      completed, ok := [], false;
      var ran := RunSources(m, event.Forget?);
      if !ran {
        return;
      }
      var write := WriteHistory(event);
      assert log[..|log| - 1] + [event] == log;
      if write.Lost? {
        // A lost write outside a transaction, or after MySQL committed DDL implicitly, may have landed.
        if write.landed && (m.nontransactional || dialect == MySQL) {
          Land();
        }
        return;
      }
      if m.nontransactional {
        Land();
        return [m], true;
      }
      var commit := ConfirmWrite();
      if commit.Done? {
        Land();
        return [m], true;
      }
      if commit.landed {
        Land();
      }
    }

    /** The loop of applyPostgreSQL, applyMySQL and their reverse forms. */
    method RunEach(selected: seq<Migration>, reverse: bool) returns (completed: seq<Migration>, ok: bool, ghost n: nat)
      requires Valid() && dialect != SQLite && Ready(history, selected, reverse) && Members(selected) <= known
      modifies this`log, this`history, this`landed, this`faults, this`asked
      ensures Valid() && n <= |selected| && history == Replay(old(history), selected, reverse, n)
      ensures ok ==> n == |selected| && completed == selected && faults == old(faults)
      ensures !ok ==> completed <= selected && |completed| <= n <= |completed| + 1 && faults > old(faults)
    {
      completed, n := [], 0;
      for index := 0 to |selected|
        invariant Valid() && n == index && completed == selected[..index] && faults == old(faults)
        invariant history == Replay(old(history), selected, reverse, index)
        invariant Ready(history, selected[index..], reverse)
      {
        var event := EventFor(selected[index], reverse);
        assert selected[index] in Members(selected);
        assert selected[index..][0] == selected[index];
        assert Due(history, event);
        var applied, stepped := Step(event);
        if !stepped {
          if history == After(Replay(old(history), selected, reverse, index), event) {
            n := index + 1;
          }
          return completed, false, n;
        }
        completed := completed + applied;
        n := index + 1;
        ReadyNext(Replay(old(history), selected, reverse, index), selected[index..], reverse);
        assert selected[index..][1..] == selected[index + 1..];
      }
      ok := true;
    }

    /** One migration inside a transaction whose writes so far made `working` of the history. */
    method SendStep(event: Event, ghost working: History, ghost written: set<nat>) returns (ok: bool, ghost more: set<nat>)
      requires Valid() && IsWrite(event) && Accounted(working, start, log, written) && event.m in known
      modifies this`log, this`faults, this`asked
      ensures Valid() && faults == old(faults) + if ok then 0 else 1
      ensures ok ==> Accounted(After(working, event), start, log, more)
    {
      ghost var before := log;
      more := written;
      ok := RunSources(event.m, event.Forget?);
      if !ok {
        return;
      }
      AccountedGrows(working, start, before, log, written);
      AccountedLands(working, start, log, event, written);
      more := written + {|log|};
      var write := WriteHistory(event);
      ok := write.Done?;
    }

    /** The single transaction of applySQLite and revertSQLite: all or nothing. */
    method RunTogether(selected: seq<Migration>, reverse: bool) returns (completed: seq<Migration>, ok: bool, ghost n: nat)
      requires Valid() && Members(selected) <= known
      modifies this`log, this`history, this`landed, this`faults, this`asked
      ensures Valid() && (n == 0 || n == |selected|) && history == Replay(old(history), selected, reverse, n)
      ensures if ok then n == |selected| && completed == selected && faults == old(faults)
              else completed == [] && faults > old(faults)
    {
      completed, ok, n := [], false, 0;
      var begun := Confirm();
      if !begun {
        return;
      }
      var working := history;
      ghost var written: set<nat> := landed;
      for index := 0 to |selected|
        invariant Valid() && history == old(history) && faults == old(faults)
        invariant working == Replay(old(history), selected, reverse, index)
        invariant Accounted(working, start, log, written)
      {
        var event := EventFor(selected[index], reverse);
        assert selected[index] in Members(selected);
        var sent;
        sent, written := SendStep(event, working, written);
        if !sent {
          return;
        }
        working := After(working, event);
      }
      var commit := ConfirmWrite();
      if commit.Done? || commit.landed {
        history, landed, n := working, written, |selected|;
      }
      if commit.Done? {
        completed, ok := selected, true;
      }
    }

    method RunSelected(selected: seq<Migration>, reverse: bool) returns (completed: seq<Migration>, ok: bool, ghost n: nat)
      requires Valid() && Ready(history, selected, reverse) && Members(selected) <= known
      modifies this`log, this`history, this`landed, this`faults, this`asked
      ensures if ok then faults == old(faults) else faults > old(faults)
      ensures Valid() && Ran(dialect, selected, completed, ok, n) && history == Replay(old(history), selected, reverse, n)
    {
      if dialect == SQLite {
        completed, ok, n := RunTogether(selected, reverse);
      } else {
        completed, ok, n := RunEach(selected, reverse);
      }
    }

    /**
     Applies pending migrations up to `target`. Whatever fails, the history goes
     from the prefix of length `h` to a prefix of length `h2`; success means the
     target was reached, and `completed` never names a migration not recorded.
     */
    method Apply(ms: seq<Migration>, target: ApplyTarget, ghost h: nat)
        returns (completed: seq<Migration>, err: bool, ghost h2: nat)
      requires Valid() && Sorted(ms) && h <= |ms| && history == HistoryOf(ms, h)
      modifies this`log, this`history, this`landed, this`faults, this`asked, this`known
      ensures known == old(known) + Members(ms)
      ensures Valid() && h <= h2 <= |ms| && history == HistoryOf(ms, h2)
      ensures completed <= ms[h..h2]
      ensures !err ==> AfterApply(ms, h, target) == Some(h2) && completed == ms[h..h2]
      ensures err && h2 != h ==> AfterApply(ms, h, target).Some? && h2 <= AfterApply(ms, h, target).value
      ensures err && dialect != SQLite ==> h2 - h <= |completed| + 1
      ensures faults >= old(faults)
      ensures faults == old(faults) ==> (err <==> AfterApply(ms, h, target).None?)
      ensures faults == old(faults) && err ==> target.ApplyThrough? && forall i :: 0 <= i < |ms| ==> ms[i].id != target.id
      ensures !err ==> AppliedUpTo(ms, h, target, h2)
    {
      ApplyReaches(ms, h, target);
      completed, err, h2 := [], true, h;
      known := known + Members(ms);
      var readable := Confirm();
      if !readable {
        return;
      }
      var selected := SelectAppliesFrom(history, ms, target, h);
      if selected.None? {
        return;
      }
      var ok;
      completed, ok, h2 := ApplySelected(ms, target, h, selected.value);
      var unlocked := Confirm();
      err := !ok || !unlocked;
    }

    method ApplySelected(ms: seq<Migration>, target: ApplyTarget, ghost h: nat, selected: seq<Migration>)
        returns (completed: seq<Migration>, ok: bool, ghost h2: nat)
      requires Valid() && Sorted(ms) && h <= |ms| && history == HistoryOf(ms, h) && AfterApply(ms, h, target).Some?
      requires selected == Slice(ms, h, ApplyLimit(ms, target).value) && Ready(history, selected, false) && Members(selected) <= known
      modifies this`log, this`history, this`landed, this`faults, this`asked
      ensures Valid() && h <= h2 <= AfterApply(ms, h, target).value && history == HistoryOf(ms, h2)
      ensures completed <= ms[h..h2] && (dialect != SQLite ==> h2 - h <= |completed| + 1)
      ensures if ok then faults == old(faults) else faults > old(faults)
      ensures ok ==> AfterApply(ms, h, target) == Some(h2) && completed == ms[h..h2]
    {
      ghost var n;
      completed, ok, n := RunSelected(selected, false);
      Applied(dialect, ms, h, target, completed, ok, n);
      h2 := h + n;
    }

    /** Reverts to `target`; the mirror image of Apply. */
    method Revert(ms: seq<Migration>, target: RevertTarget, ghost h: nat)
        returns (completed: seq<Migration>, err: bool, ghost h2: nat)
      requires Valid() && Sorted(ms) && h <= |ms| && history == HistoryOf(ms, h)
      modifies this`log, this`history, this`landed, this`faults, this`asked, this`known
      ensures known == old(known) + Members(ms)
      ensures Valid() && h2 <= h && history == HistoryOf(ms, h2)
      ensures completed <= Newest(ms, h, h - h2)
      ensures !err ==> Reversible(ms, h, target) && AfterRevert(ms, h, target) == Some(h2) && completed == Newest(ms, h, h - h2)
      ensures err && h2 != h ==> AfterRevert(ms, h, target).Some? && AfterRevert(ms, h, target).value <= h2
      ensures err && dialect != SQLite ==> h - h2 <= |completed| + 1
      ensures faults >= old(faults)
      ensures faults == old(faults) ==> (err <==> !Reversible(ms, h, target))
      ensures !err ==> RevertedTo(ms, h, target, h2)
      ensures err && faults == old(faults) ==> CannotRevert(ms, h, target)
    {
      RevertReaches(ms, h, target);
      completed, err, h2 := RevertRun(ms, target, h);
    }

    /** The selection, the run and the unlocking. */
    method RevertRun(ms: seq<Migration>, target: RevertTarget, ghost h: nat)
        returns (completed: seq<Migration>, err: bool, ghost h2: nat)
      requires Valid() && Sorted(ms) && h <= |ms| && history == HistoryOf(ms, h)
      modifies this`log, this`history, this`landed, this`faults, this`asked, this`known
      ensures known == old(known) + Members(ms)
      ensures Valid() && h2 <= h && history == HistoryOf(ms, h2)
      ensures completed <= Newest(ms, h, h - h2)
      ensures !err ==> Reversible(ms, h, target) && AfterRevert(ms, h, target) == Some(h2) && completed == Newest(ms, h, h - h2)
      ensures err && h2 != h ==> AfterRevert(ms, h, target).Some? && AfterRevert(ms, h, target).value <= h2
      ensures err && dialect != SQLite ==> h - h2 <= |completed| + 1
      ensures faults >= old(faults)
      ensures faults == old(faults) ==> (err <==> !Reversible(ms, h, target))
    {
      completed, err, h2 := [], true, h;
      known := known + Members(ms);
      var readable := Confirm();
      if !readable {
        return;
      }
      var selected;
      ghost var count;
      selected, count := SelectRevertsFrom(history, ms, target, h);
      if selected.None? {
        return;
      }
      var ok;
      completed, ok, h2 := RevertSelected(ms, h, count, selected.value);
      var unlocked := Confirm();
      err := !ok || !unlocked;
    }

    method RevertSelected(ms: seq<Migration>, ghost h: nat, ghost count: nat, selected: seq<Migration>)
        returns (completed: seq<Migration>, ok: bool, ghost h2: nat)
      requires Valid() && Sorted(ms) && count <= h <= |ms| && history == HistoryOf(ms, h)
      requires selected == Newest(ms, h, count) && Ready(history, selected, true) && Members(selected) <= known
      modifies this`log, this`history, this`landed, this`faults, this`asked
      ensures Valid() && h - count <= h2 <= h && history == HistoryOf(ms, h2)
      ensures completed <= Newest(ms, h, h - h2) && (dialect != SQLite ==> h - h2 <= |completed| + 1)
      ensures if ok then faults == old(faults) else faults > old(faults)
      ensures ok ==> h2 == h - count && completed == Newest(ms, h, h - h2)
    {
      ghost var n;
      completed, ok, n := RunSelected(selected, true);
      Reverted(dialect, ms, h, count, completed, ok, n);
      h2 := h - n;
    }
  }

  // ---------- selections replayed over prefixes ----------

  lemma {:induction false} SelectedMembers(ms: seq<Migration>, h: nat, selected: seq<Migration>)
    requires exists limit :: 0 <= limit <= |ms| && selected == Slice(ms, h, limit)
    ensures Members(selected) <= Members(ms)
  {
  }

  lemma {:induction false} NewestMembers(ms: seq<Migration>, h: nat, count: nat)
    requires count <= h <= |ms|
    ensures Members(Newest(ms, h, count)) <= Members(ms)
  {
    if count > 0 {
      NewestMembers(ms, h, count - 1);
    }
  }

  lemma {:induction false} SlicePrefix(ms: seq<Migration>, h: nat, limit: nat, n: nat, completed: seq<Migration>)
    requires h <= |ms| && limit <= |ms| && n <= |Slice(ms, h, limit)|
    requires completed <= Slice(ms, h, limit) && |completed| <= n
    ensures h + n <= |ms| && completed <= ms[h..h + n]
    ensures |completed| == n ==> completed == ms[h..h + n]
  {
    if n > 0 {
      assert Slice(ms, h, limit)[..n] == ms[h..h + n];
    }
  }

  lemma {:induction false} ReadyApply(ms: seq<Migration>, h: nat, limit: nat)
    requires Sorted(ms) && h <= |ms| && limit <= |ms|
    ensures Ready(HistoryOf(ms, h), Slice(ms, h, limit), false)
  {
    HistoryOfEntries(ms, h);
    var selected := Slice(ms, h, limit);
    forall i, j | 0 <= i < j < |selected|
      ensures selected[i].id != selected[j].id
    {
      LessTotal(ms[h + i].id, ms[h + j].id);
    }
  }

  lemma {:induction false} ReplayApply(ms: seq<Migration>, h: nat, limit: nat, n: nat)
    requires h <= |ms| && limit <= |ms| && n <= |Slice(ms, h, limit)|
    ensures h + n <= |ms| && Replay(HistoryOf(ms, h), Slice(ms, h, limit), false, n) == HistoryOf(ms, h + n)
  {
    if n > 0 {
      ReplayApply(ms, h, limit, n - 1);
    }
  }

  /** SelectApplies on a history known to be the prefix of length `h`. */
  method SelectAppliesFrom(history: History, ms: seq<Migration>, target: ApplyTarget, ghost h: nat)
      returns (r: Option<seq<Migration>>)
    requires Sorted(ms) && h <= |ms| && history == HistoryOf(ms, h)
    ensures r.Some? <==> AfterApply(ms, h, target).Some?
    ensures r.Some? ==> r.value == Slice(ms, h, ApplyLimit(ms, target).value) && Ready(history, r.value, false)
    ensures r.Some? ==> Members(r.value) <= Members(ms)
  {
    assert IsPrefix(history, ms);
    r := SelectApplies(history, ms, target);
    if r.Some? {
      ReadyApply(ms, h, ApplyLimit(ms, target).value);
      SelectedMembers(ms, h, r.value);
    }
  }

  lemma {:induction false} Applied(dialect: Dialect, ms: seq<Migration>, h: nat, target: ApplyTarget, completed: seq<Migration>, ok: bool, n: nat)
    requires Sorted(ms) && h <= |ms| && AfterApply(ms, h, target).Some?
    requires Ran(dialect, Slice(ms, h, ApplyLimit(ms, target).value), completed, ok, n)
    ensures h + n <= AfterApply(ms, h, target).value && completed <= ms[h..h + n]
    ensures Replay(HistoryOf(ms, h), Slice(ms, h, ApplyLimit(ms, target).value), false, n) == HistoryOf(ms, h + n)
    ensures ok ==> AfterApply(ms, h, target) == Some(h + n) && completed == ms[h..h + n]
  {
    var limit := ApplyLimit(ms, target).value;
    ReplayApply(ms, h, limit, n);
    SlicePrefix(ms, h, limit, n, completed);
    assert h + |Slice(ms, h, limit)| == Max(h, limit);
  }

  lemma {:induction false} Reverted(dialect: Dialect, ms: seq<Migration>, h: nat, count: nat, completed: seq<Migration>, ok: bool, n: nat)
    requires Sorted(ms) && count <= h <= |ms| && Ran(dialect, Newest(ms, h, count), completed, ok, n)
    ensures n <= count && completed <= Newest(ms, h, n)
    ensures Replay(HistoryOf(ms, h), Newest(ms, h, count), true, n) == HistoryOf(ms, h - n)
    ensures ok ==> n == count && completed == Newest(ms, h, n)
  {
    ReplayRevert(ms, h, count, n);
    NewestPrefix(ms, h, count, n);
    assert ok ==> Newest(ms, h, count)[..n] == Newest(ms, h, count);
  }

  /** On a prefix history a revert target resolves against that prefix and no other. */
  lemma {:induction false} RevertsFromPrefix(ms: seq<Migration>, h: nat, target: RevertTarget)
    requires Sorted(ms) && h <= |ms|
    ensures RevertsFrom(HistoryOf(ms, h), ms, target, h) <==> Reversible(ms, h, target)
    ensures forall g: nat :: RevertsFrom(HistoryOf(ms, h), ms, target, g) ==> g == h
  {
    PrefixExactly(HistoryOf(ms, h), ms, h);
    forall g: nat | g != h
      ensures !RecordsFirst(HistoryOf(ms, h), ms, g)
    {
      RecordsFirstUnique(HistoryOf(ms, h), ms, h, g);
    }
  }

  /** SelectReverts on a history known to be the prefix of length `h`. */
  method SelectRevertsFrom(history: History, ms: seq<Migration>, target: RevertTarget, ghost h: nat)
      returns (r: Option<seq<Migration>>, ghost count: nat)
    requires Sorted(ms) && h <= |ms| && history == HistoryOf(ms, h)
    ensures r.Some? <==> Reversible(ms, h, target)
    ensures r.Some? ==> count <= h && AfterRevert(ms, h, target) == Some(h - count)
    ensures r.Some? ==> r.value == Newest(ms, h, count) && Ready(history, r.value, true) && Members(r.value) <= Members(ms)
  {
    RevertsFromPrefix(ms, h, target);
    count := 0;
    r := SelectReverts(history, ms, target);
    if r.Some? {
      count := h - AfterRevert(ms, h, target).value;
      ReadyRevert(ms, h, count);
      NewestMembers(ms, h, count);
    }
  }

  lemma {:induction false} NewestAt(ms: seq<Migration>, h: nat, count: nat)
    requires count <= h <= |ms|
    ensures forall i :: 0 <= i < count ==> Newest(ms, h, count)[i] == ms[h - 1 - i]
  {
    if count > 0 {
      NewestAt(ms, h, count - 1);
    }
  }

  lemma {:induction false} NewestPrefix(ms: seq<Migration>, h: nat, count: nat, n: nat)
    requires n <= count <= h <= |ms|
    ensures Newest(ms, h, n) == Newest(ms, h, count)[..n]
  {
    NewestAt(ms, h, count);
    NewestAt(ms, h, n);
  }

  lemma {:induction false} ReadyRevert(ms: seq<Migration>, h: nat, count: nat)
    requires Sorted(ms) && count <= h <= |ms|
    ensures Ready(HistoryOf(ms, h), Newest(ms, h, count), true)
  {
    HistoryOfEntries(ms, h);
    NewestAt(ms, h, count);
    var selected := Newest(ms, h, count);
    forall i, j | 0 <= i < j < count
      ensures selected[i].id != selected[j].id
    {
      LessTotal(ms[h - 1 - j].id, ms[h - 1 - i].id);
    }
  }

  lemma {:induction false} ReplayRevert(ms: seq<Migration>, h: nat, count: nat, n: nat)
    requires Sorted(ms) && count <= h <= |ms| && n <= |Newest(ms, h, count)|
    ensures n <= count && Replay(HistoryOf(ms, h), Newest(ms, h, count), true, n) == HistoryOf(ms, h - n)
  {
    NewestAt(ms, h, count);
    if n > 0 {
      ReplayRevert(ms, h, count, n - 1);
      ForgetLast(ms, h - n + 1);
    }
  }

  // ---------- whole sequences of calls ----------

  datatype Call = CallApply(up: ApplyTarget) | CallRevert(back: RevertTarget)

  /**
   However many calls run and wherever they fail, the history stays a
   checksum-matching prefix and every record in it is one a complete run of
   accepted sources led up to.
   */
  method RunCalls(db: Database, ms: seq<Migration>, calls: seq<Call>)
    requires db.Valid() && Sorted(ms) && IsPrefix(db.history, ms)
    modifies db
    ensures db.Valid() && IsPrefix(db.history, ms) && db.known <= old(db.known) + Members(ms)
  {
    ghost var h :| 0 <= h <= |ms| && db.history == HistoryOf(ms, h);
    for i := 0 to |calls|
      invariant db.Valid() && 0 <= h <= |ms| && db.history == HistoryOf(ms, h)
      invariant db.known <= old(db.known) + Members(ms)
    {
      var completed, err;
      match calls[i] {
        case CallApply(target) => completed, err, h := db.Apply(ms, target, h);
        case CallRevert(target) => completed, err, h := db.Revert(ms, target, h);
      }
    }
  }

  function EventFor(m: Migration, reverse: bool): Event { if reverse then Forget(m) else Record(m) }

  function After(history: History, event: Event): History
    requires IsWrite(event)
  {
    if event.Record? then history[event.m.id := event.m.checksum] else history - {event.m.id}
  }

  /** The history once the first `n` selected migrations are recorded, or forgotten. */
  function Replay(history: History, selected: seq<Migration>, reverse: bool, n: nat): History
    requires n <= |selected|
  {
    if n == 0 then history else After(Replay(history, selected, reverse, n - 1), EventFor(selected[n - 1], reverse))
  }

  /** What a selection guarantees about the history it was made from. */
  ghost predicate Ready(history: History, selected: seq<Migration>, reverse: bool) {
    && (forall i, j :: 0 <= i < j < |selected| ==> selected[i].id != selected[j].id)
    && forall i :: 0 <= i < |selected| ==>
         if reverse then selected[i].id in history && history[selected[i].id] == selected[i].checksum
         else selected[i].id !in history
  }

  lemma {:induction false} ReadyNext(history: History, selected: seq<Migration>, reverse: bool)
    requires Ready(history, selected, reverse) && selected != []
    ensures Ready(After(history, EventFor(selected[0], reverse)), selected[1..], reverse)
  {
  }

  /** A caller that reverts as many steps as an apply completed finds the history it started from. */
  method ApplyThenRevert(db: Database, ms: seq<Migration>, target: ApplyTarget) returns (restored: bool)
    requires db.Valid() && Sorted(ms) && IsPrefix(db.history, ms)
    modifies db
    ensures db.Valid() && IsPrefix(db.history, ms)
    ensures restored ==> db.history == old(db.history)
    ensures db.faults == old(db.faults) && (forall i :: 0 <= i < |ms| ==> ms[i].down > 0) ==> db.history == old(db.history)
  {
    ghost var h :| 0 <= h <= |ms| && db.history == HistoryOf(ms, h);
    ghost var h1;
    var completed, err;
    completed, err, h1 := db.Apply(ms, target, h);
    if err || completed == [] {
      return false;
    }
    err := RevertSteps(db, ms, h1, |completed|);
    restored := !err;
  }

  /** Steps(n) from a history of at least n. */
  method RevertSteps(db: Database, ms: seq<Migration>, ghost h: nat, n: nat) returns (err: bool)
    requires db.Valid() && Sorted(ms) && 0 < n <= h <= |ms| && db.history == HistoryOf(ms, h)
    modifies db
    ensures db.Valid() && IsPrefix(db.history, ms) && db.faults >= old(db.faults)
    ensures !err ==> db.history == HistoryOf(ms, h - n)
    ensures err && (forall i :: 0 <= i < |ms| ==> ms[i].down > 0) ==> db.faults > old(db.faults)
  {
    var reverted;
    ghost var h2;
    reverted, err, h2 := db.Revert(ms, Steps(n), h);
  }

  /**
   ApplyThrough(x), then Through(y): with reverse sources present and without a
   database failure, the history ends at y, which is where ApplyThrough(y) would
   have ended if and only if the history did not start out past y.
   */
  method ApplyThroughThenThrough(db: Database, ms: seq<Migration>, ghost h: nat, x: nat, y: nat)
    requires db.Valid() && Sorted(ms) && h <= |ms| && db.history == HistoryOf(ms, h)
    requires x < |ms| && y < Max(h, x + 1) && forall i :: 0 <= i < |ms| ==> ms[i].down > 0
    modifies db
    ensures db.Valid() && IsPrefix(db.history, ms)
    ensures db.faults == old(db.faults) ==>
              && db.history == HistoryOf(ms, y + 1)
              && AfterApply(ms, h, ApplyThrough(ms[y].id)).Some?
              && (db.history == HistoryOf(ms, AfterApply(ms, h, ApplyThrough(ms[y].id)).value) <==> h <= y + 1)
  {
    ApplyThenThrough(ms, h, x, y);
    ghost var h1;
    var err;
    err, h1 := ApplyNamed(db, ms, h, x);
    if err {
      return;
    }
    RevertThrough(db, ms, h1, y);
    if h > y + 1 {
      HistoryOfInjective(ms, y + 1, h);
    }
  }

  /** ApplyThrough(x) from any prefix. */
  method ApplyNamed(db: Database, ms: seq<Migration>, ghost h: nat, x: nat) returns (err: bool, ghost h1: nat)
    requires db.Valid() && Sorted(ms) && h <= |ms| && db.history == HistoryOf(ms, h) && x < |ms|
    modifies db
    ensures db.Valid() && h1 <= |ms| && db.history == HistoryOf(ms, h1) && db.faults >= old(db.faults)
    ensures !err ==> h1 == Max(h, x + 1)
    ensures err ==> db.faults > old(db.faults)
  {
    PositionInPrefix(ms, |ms|, ms[x].id, x);
    var completed;
    completed, err, h1 := db.Apply(ms, ApplyThrough(ms[x].id), h);
  }

  /** Through(y) from a history that reaches y. */
  method RevertThrough(db: Database, ms: seq<Migration>, ghost h: nat, y: nat)
    requires db.Valid() && Sorted(ms) && y < h <= |ms| && db.history == HistoryOf(ms, h)
    requires forall i :: 0 <= i < |ms| ==> ms[i].down > 0
    modifies db
    ensures db.Valid() && IsPrefix(db.history, ms) && db.faults >= old(db.faults)
    ensures db.faults == old(db.faults) ==> db.history == HistoryOf(ms, y + 1)
  {
    PositionInPrefix(ms, h, ms[y].id, y);
    ghost var h2;
    var completed, err;
    completed, err, h2 := db.Revert(ms, Through(ms[y].id), h);
  }

  // ---------- from what was supplied ----------

  /**
   Right before position `p` the log holds `n` statements of the migration `id`, one
   way, numbered from zero; each succeeded, or reported on MySQL that it was done already.
   */
  ghost predicate SentBefore(dialect: Dialect, log: seq<Event>, p: nat, id: string, n: nat, reverse: bool) {
    && n <= p <= |log|
    && forall k :: p - n <= k < p ==>
         && (if reverse then log[k].Reverse? else log[k].Source?) && log[k].m.id == id && log[k].index == k - (p - n)
         && (log[k].answer == Success || (log[k].answer == AlreadyDone && dialect == MySQL))
  }

  /** The supplied migration was recorded under its hash, right after all of its statements. */
  ghost predicate RecordedFrom(dialect: Dialect, history: History, log: seq<Event>, landed: set<nat>, hash: Hash, s: Supplied) {
    && s.id in history && history[s.id] == hash(s.mode, s.statements)
    && exists p :: 0 <= p < |log| && p in landed && log[p].Record? && log[p].m.id == s.id
                   && SentBefore(dialect, log, p, s.id, |s.statements|, false)
  }

  lemma {:induction false} CompleteIsSent(dialect: Dialect, log: seq<Event>, p: nat, m: Migration, reverse: bool)
    requires p <= |log| && Complete(dialect, log[..p], m, reverse)
    ensures SentBefore(dialect, log, p, m.id, if reverse then m.down else m.sources, reverse)
  {
    var n := SourceCount(m, reverse);
    var block := log[..p][p - n..];
    forall k | p - n <= k < p
      ensures && (if reverse then log[k].Reverse? else log[k].Source?) && log[k].m.id == m.id && log[k].index == k - (p - n)
              && (log[k].answer == Success || (log[k].answer == AlreadyDone && dialect == MySQL))
    {
      assert block[k - (p - n)] == log[k];
    }
  }

  /** The one migration with the ID of a supplied one is the supplied one. */
  lemma {:induction false} TheSupplied(hash: Hash, s: Supplied, ms: seq<Migration>, m: Migration)
    requires Sorted(ms) && Kept(hash, s, ms) && m in ms && m.id == s.id
    ensures m.sources == |s.statements| && m.down == |s.down| && m.checksum == hash(s.mode, s.statements)
  {
    var k :| 0 <= k < |ms| && ms[k].id == s.id && ms[k].sources == |s.statements| && ms[k].down == |s.down|
             && ms[k].nontransactional == (s.mode == "nontransactional") && ms[k].checksum == hash(s.mode, s.statements);
    var j :| 0 <= j < |ms| && ms[j] == m;
    SortedDistinct(ms, j, k);
  }

  /**
   Supplied migrations, run through any sequence of calls from an empty history: what
   is recorded is exactly right, and nothing is forgotten before its reverse statements.
   */
  method MigrateSupplied(db: Database, hash: Hash, supplied: seq<Supplied>, calls: seq<Call>) returns (ok: bool)
    requires db.Valid() && db.history == db.start == map[] && db.log == [] && db.known == {}
    modifies db
    ensures db.Valid() && (!ok ==> db.history == map[] && db.log == [])
    ensures ok <==> Preparable(supplied, |supplied|)
    ensures forall s :: s in supplied && s.id in db.history ==>
              RecordedFrom(db.dialect, db.history, db.log, db.landed, hash, s)
    ensures forall s, p :: s in supplied && 0 <= p < |db.log| && db.log[p].Forget? && db.log[p].m.id == s.id ==>
              SentBefore(db.dialect, db.log, p, s.id, |s.down|, true)
  {
    var ms := PrepareMigrations(hash, supplied);
    if ms.None? {
      return false;
    }
    ok := true;
    assert db.history == HistoryOf(ms.value, 0);
    RunCalls(db, ms.value, calls);
    forall s | s in supplied
      ensures s.id in db.history ==> RecordedFrom(db.dialect, db.history, db.log, db.landed, hash, s)
      ensures forall p :: 0 <= p < |db.log| && db.log[p].Forget? && db.log[p].m.id == s.id ==>
                SentBefore(db.dialect, db.log, p, s.id, |s.down|, true)
    {
      var i :| 0 <= i < |supplied| && supplied[i] == s;
      assert Kept(hash, supplied[i], ms.value);
      if s.id in db.history {
        RecordedSupplied(db.dialect, db.start, db.log, db.landed, hash, s, ms.value);
      }
      forall p | 0 <= p < |db.log| && db.log[p].Forget? && db.log[p].m.id == s.id
        ensures SentBefore(db.dialect, db.log, p, s.id, |s.down|, true)
      {
        TheSupplied(hash, s, ms.value, db.log[p].m);
        CompleteIsSent(db.dialect, db.log, p, db.log[p].m, true);
      }
    }
  }

  lemma {:induction false} RecordedSupplied(dialect: Dialect, start: History, log: seq<Event>, landed: set<nat>, hash: Hash, s: Supplied, ms: seq<Migration>)
    requires Justified(dialect, log) && Named(log, Members(ms)) && start == map[] && s.id in Effects(start, log, landed)
    requires Sorted(ms) && Kept(hash, s, ms)
    ensures RecordedFrom(dialect, Effects(start, log, landed), log, landed, hash, s)
  {
    var p := RecordedAfterSources(dialect, start, log, landed, s.id);
    TheSupplied(hash, s, ms, log[p].m);
    CompleteIsSent(dialect, log, p, log[p].m, false);
  }
}
