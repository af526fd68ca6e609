/**
 Keyset pages over a table that may change between requests (page.go): the
 limit+1 read, the page it yields, and what a whole run of pages amounts to.
 */
module Paging {
  import opened Wrappers
  import opened ThreeValued
  import opened Keyset

  /** `key` is what the page keys extract; the cursor encodes exactly that. */
  datatype Row = Row(key: seq<Cell>, payload: int)

  type Cursor = Option<seq<Cell>>

  datatype Page = Page(values: seq<Row>, next: Cursor, hasMore: bool)

  /** The unique suffix of a page spec: no two rows of a table share a key. */
  ghost predicate Keyed(keys: seq<PageKey>, table: set<Row>) {
    && ValidSpec(keys)
    && (forall r :: r in table ==> Fits(keys, r.key))
    && (forall r, s :: r in table && s in table && r.key == s.key ==> r == s)
  }

  predicate After(keys: seq<PageKey>, cursor: Cursor, key: seq<Cell>)
    requires |key| == |keys| && (cursor.Some? ==> |cursor.value| == |keys|)
  {
    cursor.None? || Before(keys, cursor.value, key)
  }

  ghost predicate Arity(keys: seq<PageKey>, rows: seq<Row>) {
    forall i :: 0 <= i < |rows| ==> |rows[i].key| == |keys|
  }

  ghost predicate Sorted(keys: seq<PageKey>, rows: seq<Row>)
    requires Arity(keys, rows)
  {
    forall i, j :: 0 <= i < j < |rows| ==> Before(keys, rows[i].key, rows[j].key)
  }

  // ---------- the page request ----------

  const MAX_INT: int := 0x7fff_ffff_ffff_ffff

  datatype PagePolicy = PagePolicy(defaultLimit: int, maxLimit: int) {
    /** The zero policy stands for the default one. */
    function OrDefault(): PagePolicy { if this == PagePolicy(0, 0) then PagePolicy(50, 1000) else this }

    /** A default of at least one, no greater than a maximum that one more row still fits an int. */
    predicate Valid() { 1 <= defaultLimit <= maxLimit < MAX_INT }
  }

  /** The number of rows a request asks for, or None when policy refuses it. */
  function EffectiveLimit(policy: PagePolicy, requested: int): (r: Option<nat>)
    ensures r.Some? ==> 1 <= r.value && r.value + 1 <= MAX_INT
    ensures r.Some? && requested != 0 ==> r.value == requested
    ensures r.Some? && requested == 0 ==> r.value == policy.OrDefault().defaultLimit
    ensures r.Some? <==> policy.OrDefault().Valid() && 0 <= requested <= policy.OrDefault().maxLimit
    ensures policy == PagePolicy(0, 0) ==> r == if requested == 0 then Some(50) else if 0 < requested <= 1000 then Some(requested) else None
    ensures policy != PagePolicy(0, 0) ==>
              (r.Some? <==> 1 <= policy.defaultLimit <= policy.maxLimit <= MAX_INT - 1 && 0 <= requested <= policy.maxLimit)
    ensures policy != PagePolicy(0, 0) && requested == 0 && r.Some? ==> r.value == policy.defaultLimit
  {
    var p := policy.OrDefault();
    if p.defaultLimit < 1 || p.maxLimit < p.defaultLimit || p.maxLimit > MAX_INT - 1 then None else
    var limit := if requested == 0 then p.defaultLimit else requested;
    if limit < 0 || limit > p.maxLimit then None else Some(limit)
  }

  // ---------- one page ----------

  predicate Selects(outcome: KeysetOutcome, row: Row) {
    match outcome
    case NoPredicate => true
    case Selected(e) => Eval(e, row.key) == True
    case Impossible => false
    case InvalidCursor => false
  }

  /** ORDER BY the keys, LIMIT n, over the rows the predicate is TRUE for. */
  ghost predicate IsAnswer(keys: seq<PageKey>, table: set<Row>, outcome: KeysetOutcome, n: nat, answer: seq<Row>) {
    && Arity(keys, answer)
    && (forall r :: r in table ==> |r.key| == |keys|)
    && Sorted(keys, answer)
    && |answer| <= n
    && (forall i :: 0 <= i < |answer| ==> answer[i] in table && Selects(outcome, answer[i]))
    && (forall r :: r in table && Selects(outcome, r) && r !in answer ==>
          |answer| == n && forall i :: 0 <= i < n ==> Before(keys, answer[i].key, r.key))
  }

  lemma {:induction false} LeastRow(keys: seq<PageKey>, table: set<Row>, rows: set<Row>) returns (least: Row)
    requires Keyed(keys, table) && rows != {} && rows <= table
    ensures IsLeast(keys, table, rows, least)
    decreases |rows|
  {
    var first :| first in rows;
    var rest := rows - {first};
    if rest == {} {
      assert rows == {first};
      return first;
    }
    least := LeastRow(keys, table, rest);
    BeforeTotal(keys, first.key, least.key);
    if !Before(keys, least.key, first.key) {
      forall r | r in rest && r != least
        ensures Before(keys, first.key, r.key)
      {
        BeforeTransitive(keys, first.key, least.key, r.key);
      }
      least := first;
    }
  }

  /** The engine: reads the least remaining selected row, up to n times. */
  method Execute(keys: seq<PageKey>, table: set<Row>, outcome: KeysetOutcome, n: nat) returns (answer: seq<Row>)
    requires Keyed(keys, table)
    ensures IsAnswer(keys, table, outcome, n, answer)
  {
    var rest := set r | r in table && Selects(outcome, r);
    answer := [];
    while rest != {} && |answer| < n
      invariant |answer| <= n && Reading(keys, table, outcome, rest, answer)
      decreases |rest|
    {
      ghost var witness_ := LeastRow(keys, table, rest);
      var least :| IsLeast(keys, table, rest, least);
      ReadingStep(keys, table, outcome, rest, answer, least);
      rest := rest - {least};
      answer := answer + [least];
    }
  }

  predicate IsLeast(keys: seq<PageKey>, table: set<Row>, rows: set<Row>, least: Row)
    requires rows <= table && forall r :: r in table ==> |r.key| == |keys|
  {
    least in rows && forall r :: r in rows && r != least ==> Before(keys, least.key, r.key)
  }

  /** `answer` lists the least of the selected rows in order; `rest` are the others. */
  ghost predicate Reading(keys: seq<PageKey>, table: set<Row>, outcome: KeysetOutcome, rest: set<Row>, answer: seq<Row>) {
    && rest <= table && (forall r :: r in table ==> |r.key| == |keys|)
    && (forall r :: r in rest ==> Selects(outcome, r))
    && (forall i :: 0 <= i < |answer| ==> answer[i] in table && Selects(outcome, answer[i]))
    && Arity(keys, answer) && Sorted(keys, answer)
    && (forall i, r :: 0 <= i < |answer| && r in rest ==> Before(keys, answer[i].key, r.key))
    && forall r :: r in table && Selects(outcome, r) ==> r in rest || r in answer
  }

  lemma {:induction false} ReadingStep(keys: seq<PageKey>, table: set<Row>, outcome: KeysetOutcome, rest: set<Row>, answer: seq<Row>, least: Row)
    requires Reading(keys, table, outcome, rest, answer) && IsLeast(keys, table, rest, least)
    ensures Reading(keys, table, outcome, rest - {least}, answer + [least])
  {
    var next := answer + [least];
    forall r | r in table && Selects(outcome, r)
      ensures r in rest - {least} || r in next
    {
      assert r in rest || r in answer;
      assert next[|answer|] == least;
    }
  }

  /** `page` holds the first `limit` rows of `table` after `cursor`, and says whether more follow. */
  ghost predicate IsPage(keys: seq<PageKey>, table: set<Row>, cursor: Cursor, limit: nat, page: Page)
    requires cursor.Some? ==> |cursor.value| == |keys|
  {
    && Arity(keys, page.values)
    && (forall r :: r in table ==> |r.key| == |keys|)
    && Sorted(keys, page.values)
    && |page.values| <= limit
    && (forall i :: 0 <= i < |page.values| ==>
          page.values[i] in table && After(keys, cursor, page.values[i].key))
    && (page.hasMore ==>
          && |page.values| == limit > 0
          && page.next == Some(page.values[limit - 1].key)
          && exists r :: r in table && Before(keys, page.values[limit - 1].key, r.key))
    && (!page.hasMore ==> page.next == None)
    && (forall r :: r in table && After(keys, cursor, r.key) && r !in page.values ==>
          page.hasMore && Before(keys, page.values[limit - 1].key, r.key))
  }

  /** Reads the rows of one prepared page and keeps at most `limit` of them. */
  method ConsumePreparedPage(rows: seq<Row>, limit: nat) returns (page: Page)
    requires 1 <= limit
    ensures page.values == rows[..if |rows| <= limit then |rows| else limit]
    ensures page.hasMore <==> |rows| > limit
    ensures page.next == if page.hasMore then Some(rows[limit - 1].key) else None
  {
    var values: seq<Row> := [];
    var hasMore := false;
    var i := 0;
    while i < |rows| && !hasMore
      invariant 0 <= i <= |rows|
      invariant !hasMore ==> i <= limit && values == rows[..i]
      invariant hasMore ==> |rows| > limit && values == rows[..limit]
      decreases |rows| - i, !hasMore
    {
      if |values| < limit {
        values := values + [rows[i]];
        i := i + 1;
      } else {
        hasMore := true;
      }
    }
    var next: Cursor := None;
    if hasMore {
      next := Some(values[|values| - 1].key);
    }
    page := Page(values, next, hasMore);
  }

  /** One page of a table, from the cursor a previous page returned. */
  method PageAfter(keys: seq<PageKey>, table: set<Row>, cursor: Cursor, limit: nat) returns (page: Page)
    requires Keyed(keys, table) && 1 <= limit
    requires cursor.Some? ==> Fits(keys, cursor.value)
    ensures IsPage(keys, table, cursor, limit, page)
  {
    var outcome := KeysetPredicate(keys, cursor);
    if outcome == Impossible {
      return Page([], None, false);
    }
    var rows := Execute(keys, table, outcome, limit + 1);
    page := ConsumePreparedPage(rows, limit);
    AnswerIsPage(keys, table, cursor, outcome, limit, rows, page);
  }

  /** The limit+1 read, cut to `limit`, is a page. */
  lemma {:induction false} AnswerIsPage(keys: seq<PageKey>, table: set<Row>, cursor: Cursor, outcome: KeysetOutcome, limit: nat, rows: seq<Row>, page: Page)
    requires 1 <= limit && (cursor.Some? ==> |cursor.value| == |keys|) && IsAnswer(keys, table, outcome, limit + 1, rows)
    requires forall r :: r in table ==> (Selects(outcome, r) <==> After(keys, cursor, r.key))
    requires page.values == rows[..if |rows| <= limit then |rows| else limit] && (page.hasMore <==> |rows| > limit)
    requires page.next == if page.hasMore then Some(rows[limit - 1].key) else None
    ensures IsPage(keys, table, cursor, limit, page)
  {
    if page.hasMore {
      assert rows[limit] in table && Before(keys, rows[limit - 1].key, rows[limit].key);
    }
    forall r | r in table && After(keys, cursor, r.key) && r !in page.values
      ensures page.hasMore && Before(keys, page.values[limit - 1].key, r.key)
    {
      var kept := |page.values|;
      assert rows == page.values + rows[kept..];
      if r in rows {
        assert r in rows[kept..];
      }
    }
  }

  // ---------- a run of pages ----------

  /** One request of a run: the table it met, its limit and the page it got. */
  datatype Request = Request(table: set<Row>, limit: nat, page: Page)

  function CursorOf(run: seq<Request>, i: nat): Cursor
    requires i <= |run|
  {
    if i == 0 then None else run[i - 1].page.next
  }

  /** Request `i` follows the Next cursor of the page before it. */
  ghost predicate Follows(keys: seq<PageKey>, run: seq<Request>, i: nat)
    requires i < |run|
  {
    && Keyed(keys, run[i].table)
    && (i > 0 ==> run[i - 1].page.hasMore)
    && (CursorOf(run, i).Some? ==> |CursorOf(run, i).value| == |keys|)
    && IsPage(keys, run[i].table, CursorOf(run, i), run[i].limit, run[i].page)
  }

  ghost predicate IsRun(keys: seq<PageKey>, run: seq<Request>) {
    forall i :: 0 <= i < |run| ==> Follows(keys, run, i)
  }

  function Returned(run: seq<Request>, n: nat): seq<Row>
    requires n <= |run|
  {
    if n == 0 then [] else Returned(run, n - 1) + run[n - 1].page.values
  }

  /**
   Whatever happens to the table between the pages, the returned keys strictly
   increase over the whole run, so no key is returned twice.
   */
  lemma {:induction false} RunIncreasing(keys: seq<PageKey>, run: seq<Request>, n: nat)
    requires IsRun(keys, run) && n <= |run|
    ensures Arity(keys, Returned(run, n)) && Sorted(keys, Returned(run, n))
    ensures n > 0 && run[n - 1].page.hasMore ==>
              Returned(run, n) != [] && CursorOf(run, n) == Some(Returned(run, n)[|Returned(run, n)| - 1].key)
  {
    if n > 0 {
      RunIncreasing(keys, run, n - 1);
      assert Follows(keys, run, n - 1);
      assert n > 1 ==> run[n - 2].page.hasMore;
      assert CursorOf(run, n - 1) == if n == 1 then None else run[n - 2].page.next;
      PageAppends(keys, Returned(run, n - 1), run[n - 1], CursorOf(run, n - 1));
      assert Returned(run, n) == Returned(run, n - 1) + run[n - 1].page.values;
    }
  }

  /** A page read from the last key returned so far continues the order. */
  lemma {:induction false} PageAppends(keys: seq<PageKey>, sofar: seq<Row>, request: Request, cursor: Cursor)
    requires Arity(keys, sofar) && Sorted(keys, sofar) && (cursor.Some? ==> |cursor.value| == |keys|)
    requires cursor == if sofar == [] then None else Some(sofar[|sofar| - 1].key)
    requires IsPage(keys, request.table, cursor, request.limit, request.page)
    ensures var all := sofar + request.page.values;
            && Arity(keys, all) && Sorted(keys, all)
            && (request.page.hasMore ==> all != [] && request.page.next == Some(all[|all| - 1].key))
  {
    var values := request.page.values;
    if sofar != [] {
      forall j | 0 <= j < |values|
        ensures Before(keys, sofar[|sofar| - 1].key, values[j].key)
      {
        assert After(keys, cursor, values[j].key);
      }
    }
    AppendBehind(keys, sofar, values);
    if request.page.hasMore {
      assert (sofar + values)[|sofar + values| - 1] == values[|values| - 1];
    }
  }

  lemma {:induction false} AppendBehind(keys: seq<PageKey>, a: seq<Row>, b: seq<Row>)
    requires Arity(keys, a) && Sorted(keys, a) && Arity(keys, b) && Sorted(keys, b)
    requires a != [] ==> forall j :: 0 <= j < |b| ==> Before(keys, a[|a| - 1].key, b[j].key)
    ensures Arity(keys, a + b) && Sorted(keys, a + b)
  {
    forall i, j | 0 <= i < |a| && 0 <= j < |b|
      ensures Before(keys, a[i].key, b[j].key)
    {
      if i < |a| - 1 {
        BeforeTransitive(keys, a[i].key, a[|a| - 1].key, b[j].key);
      }
    }
    AppendSorted(keys, a, b);
  }

  lemma {:induction false} AppendSorted(keys: seq<PageKey>, a: seq<Row>, b: seq<Row>)
    requires Arity(keys, a) && Sorted(keys, a) && Arity(keys, b) && Sorted(keys, b)
    requires forall i, j :: 0 <= i < |a| && 0 <= j < |b| ==> Before(keys, a[i].key, b[j].key)
    ensures Arity(keys, a + b) && Sorted(keys, a + b)
  {
  }

  lemma {:induction false} AppendAfterLast(keys: seq<PageKey>, rows: seq<Row>, r: Row)
    requires Arity(keys, rows) && Sorted(keys, rows) && |r.key| == |keys| && rows != []
    requires Before(keys, rows[|rows| - 1].key, r.key)
    ensures Arity(keys, rows + [r]) && Sorted(keys, rows + [r])
  {
    forall i | 0 <= i < |rows| - 1
      ensures Before(keys, rows[i].key, r.key)
    {
      BeforeTransitive(keys, rows[i].key, rows[|rows| - 1].key, r.key);
    }
  }

  /** Some row has the key, whatever its other columns. */
  ghost predicate HoldsKey(table: set<Row>, key: seq<Cell>) { exists r :: r in table && r.key == key }

  ghost predicate ReturnsKey(rows: seq<Row>, key: seq<Cell>) { exists i :: 0 <= i < |rows| && rows[i].key == key }

  /** A row that every table of the run holds, updated or not, is returned or lies after the cursor reached. */
  lemma {:induction false} RowPending(keys: seq<PageKey>, run: seq<Request>, n: nat, key: seq<Cell>)
    requires IsRun(keys, run) && n <= |run|
    requires forall i :: 0 <= i < n ==> HoldsKey(run[i].table, key)
    requires |key| == |keys|
    ensures ReturnsKey(Returned(run, n), key) || (n > 0 ==> run[n - 1].page.hasMore)
    ensures CursorOf(run, n).Some? ==> |CursorOf(run, n).value| == |keys|
    ensures ReturnsKey(Returned(run, n), key) || After(keys, CursorOf(run, n), key)
  {
    if n > 0 {
      RowPending(keys, run, n - 1, key);
      assert Follows(keys, run, n - 1) && HoldsKey(run[n - 1].table, key);
      var r :| r in run[n - 1].table && r.key == key;
      KeyReturned(run, n, r);
    }
  }

  /** What a page or an earlier one returned, the run has returned. */
  lemma {:induction false} KeyReturned(run: seq<Request>, n: nat, r: Row)
    requires 0 < n <= |run|
    ensures r in run[n - 1].page.values ==> ReturnsKey(Returned(run, n), r.key)
    ensures ReturnsKey(Returned(run, n - 1), r.key) ==> ReturnsKey(Returned(run, n), r.key)
  {
    var before, values := Returned(run, n - 1), run[n - 1].page.values;
    if r in values {
      var i :| 0 <= i < |values| && values[i] == r;
      assert Returned(run, n)[|before| + i] == r;
    }
    if ReturnsKey(before, r.key) {
      var i :| 0 <= i < |before| && before[i].key == r.key;
      assert Returned(run, n)[i] == before[i];
    }
  }

  /** A run that ended has returned every row present throughout it, even one updated in between. */
  lemma {:induction false} FinishedRunComplete(keys: seq<PageKey>, run: seq<Request>, key: seq<Cell>)
    requires IsRun(keys, run) && run != [] && !run[|run| - 1].page.hasMore
    requires forall i :: 0 <= i < |run| ==> HoldsKey(run[i].table, key)
    ensures ReturnsKey(Returned(run, |run|), key)
  {
    assert Follows(keys, run, 0) && HoldsKey(run[0].table, key);
    RowPending(keys, run, |run|, key);
  }

  /** Over an unchanging table a finished run is the table, sorted. */
  lemma {:induction false} StaticRunSorted(keys: seq<PageKey>, run: seq<Request>, table: set<Row>)
    requires IsRun(keys, run) && run != [] && !run[|run| - 1].page.hasMore
    requires forall i :: 0 <= i < |run| ==> run[i].table == table
    ensures Arity(keys, Returned(run, |run|)) && Sorted(keys, Returned(run, |run|))
    ensures forall r :: r in Returned(run, |run|) <==> r in table
  {
    RunIncreasing(keys, run, |run|);
    ReturnedFrom(keys, run, |run|, table);
    forall r | r in table
      ensures r in Returned(run, |run|)
    {
      assert Follows(keys, run, 0);
      FinishedRunComplete(keys, run, r.key);
      var i :| 0 <= i < |Returned(run, |run|)| && Returned(run, |run|)[i].key == r.key;
      assert Returned(run, |run|)[i] in table;
    }
  }

  lemma {:induction false} ReturnedFrom(keys: seq<PageKey>, run: seq<Request>, n: nat, table: set<Row>)
    requires IsRun(keys, run) && n <= |run|
    requires forall i :: 0 <= i < |run| ==> run[i].table == table
    ensures forall r :: r in Returned(run, n) ==> r in table
    ensures (forall i :: 0 <= i < n ==> run[i].page.hasMore) ==> |Returned(run, n)| >= n
  {
    if n > 0 {
      ReturnedFrom(keys, run, n - 1, table);
      assert Follows(keys, run, n - 1);
      assert forall i :: 0 <= i < n ==> run[i].table == table;
    }
  }

  lemma {:induction false} DistinctFits(keys: seq<PageKey>, rows: seq<Row>, table: set<Row>)
    requires Arity(keys, rows) && Sorted(keys, rows)
    requires forall r :: r in rows ==> r in table
    ensures |rows| <= |table|
  {
    if rows != [] {
      var n := |rows| - 1;
      var last := rows[n];
      forall i | 0 <= i < n
        ensures rows[i] != last
      {
        BeforeIrreflexive(keys, last.key);
      }
      assert last in rows;
      assert forall r :: r in rows[..n] ==> r in rows;
      DistinctFits(keys, rows[..n], table - {last});
    }
  }

  /** Over an unchanging table a run cannot go on: it ends within one request per row. */
  lemma {:induction false} StaticRunTerminates(keys: seq<PageKey>, run: seq<Request>, table: set<Row>)
    requires IsRun(keys, run) && |run| >= 2
    requires forall i :: 0 <= i < |run| ==> run[i].table == table
    ensures |run| <= |table|
    ensures |run| == |table| ==> !run[|run| - 1].page.hasMore
  {
    var n := |run| - 1;
    assert Follows(keys, run, n);
    PrefixRun(keys, run, n);
    UnfinishedBound(keys, run[..n], table);
    if run[n].page.hasMore {
      UnfinishedBound(keys, run, table);
    }
  }

  lemma {:induction false} PrefixRun(keys: seq<PageKey>, run: seq<Request>, n: nat)
    requires IsRun(keys, run) && n <= |run|
    ensures IsRun(keys, run[..n])
  {
    forall i | 0 <= i < n
      ensures Follows(keys, run[..n], i)
    {
      assert Follows(keys, run, i);
      assert CursorOf(run[..n], i) == CursorOf(run, i);
    }
  }

  lemma {:induction false} MoreToRead(keys: seq<PageKey>, run: seq<Request>, n: nat) returns (more: Row)
    requires IsRun(keys, run) && 0 < n <= |run| && run[n - 1].page.hasMore
    ensures more in run[n - 1].table && |more.key| == |keys|
    ensures CursorOf(run, n).Some? && |CursorOf(run, n).value| == |keys|
    ensures Before(keys, CursorOf(run, n).value, more.key)
  {
    assert Follows(keys, run, n - 1);
    var page := run[n - 1].page;
    more :| more in run[n - 1].table && Before(keys, page.values[|page.values| - 1].key, more.key);
  }

  /** An unfinished run has returned fewer rows than the table holds. */
  lemma {:induction false} UnfinishedBound(keys: seq<PageKey>, run: seq<Request>, table: set<Row>)
    requires IsRun(keys, run) && run != [] && run[|run| - 1].page.hasMore
    requires forall i :: 0 <= i < |run| ==> run[i].table == table
    ensures |run| < |table|
  {
    var n := |run|;
    var more := MoreToRead(keys, run, n);
    forall i | 0 <= i < n
      ensures run[i].page.hasMore
    {
      assert i + 1 < n ==> Follows(keys, run, i + 1);
    }
    RunIncreasing(keys, run, n);
    ReturnedFrom(keys, run, n, table);
    var rows := Returned(run, n);
    AppendAfterLast(keys, rows, more);
    DistinctFits(keys, rows + [more], table);
  }
}
