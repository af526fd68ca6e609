/**
 Per-parent limits (query_composition.go, graph.go): row_number() over the key
 columns in an inner query, and an outer filter on it. Rows are listed in the
 window's ORDER BY, which graphUniqueOrder makes a total order of the rows.
 */
module PartitionLimit {
  import opened Wrappers
  import opened ThreeValued
  import opened GraphMembership

  /** The rows whose key is one of `keys`: what a membership predicate selects. */
  function Matching(cols: seq<nat>, rows: seq<Row>, keys: set<Tuple>): seq<Row> {
    if rows == [] then []
    else
      var last := rows[|rows| - 1];
      Matching(cols, rows[..|rows| - 1], keys) +
      if KeyOf(cols, last).Some? && KeyOf(cols, last).value in keys then [last] else []
  }

  /** PARTITION BY groups rows by the cells of the key columns, NULLs together. */
  function Partition(cols: seq<nat>, row: Row): seq<Cell> {
    seq(|cols|, i requires 0 <= i < |cols| => CellAt(row, cols[i]))
  }

  function CountIn(cols: seq<nat>, rows: seq<Row>, partition: seq<Cell>): nat {
    if rows == [] then 0
    else CountIn(cols, rows[..|rows| - 1], partition) + if Partition(cols, rows[|rows| - 1]) == partition then 1 else 0
  }

  /** The rows whose row_number() within their partition is at most `limit`; zero means no limit. */
  function TopOf(cols: seq<nat>, rows: seq<Row>, limit: nat): seq<Row> {
    if limit == 0 || rows == [] then rows
    else
      var before, last := rows[..|rows| - 1], rows[|rows| - 1];
      TopOf(cols, before, limit) + if CountIn(cols, before, Partition(cols, last)) + 1 <= limit then [last] else []
  }

  /** The first `limit` rows; zero means all. */
  function First(rows: seq<Row>, limit: nat): (r: seq<Row>)
    ensures r <= rows && (limit > 0 ==> |r| <= limit)
    ensures |r| < |rows| ==> |r| == limit
  {
    if limit == 0 || |rows| <= limit then rows else rows[..limit]
  }

  lemma {:induction false} PartitionIsKey(cols: seq<nat>, a: Row, b: Row)
    requires KeyOf(cols, a).Some?
    ensures Partition(cols, a) == Partition(cols, b) <==> KeyOf(cols, a) == KeyOf(cols, b)
  {
    var pa, pb := Partition(cols, a), Partition(cols, b);
    KeyOfCells(cols, a);
    KeyOfCells(cols, b);
    if KeyOf(cols, a) == KeyOf(cols, b) {
      assert forall i :: 0 <= i < |cols| ==> pa[i] == pb[i];
    }
    if pa == pb {
      assert forall i :: 0 <= i < |cols| ==> CellAt(b, cols[i]) == pb[i] && CellAt(a, cols[i]) == pa[i];
      assert KeyOf(cols, b).Some?;
      assert KeyOf(cols, a).value == KeyOf(cols, b).value;
    }
  }

  lemma {:induction false} CountSurvives(cols: seq<nat>, rows: seq<Row>, keys: set<Tuple>, r: Row)
    requires KeyOf(cols, r).Some? && KeyOf(cols, r).value in keys
    ensures CountIn(cols, Matching(cols, rows, keys), Partition(cols, r)) == CountIn(cols, rows, Partition(cols, r))
  {
    if rows != [] {
      var before, last := rows[..|rows| - 1], rows[|rows| - 1];
      CountSurvives(cols, before, keys, r);
      PartitionIsKey(cols, r, last);
      var kept := Matching(cols, before, keys);
      assert (kept + [last])[..|kept|] == kept;
      assert kept + [] == kept;
    }
  }

  lemma {:induction false} MatchingSnoc(cols: seq<nat>, rows: seq<Row>, r: Row, keys: set<Tuple>)
    ensures Matching(cols, rows + [r], keys)
            == Matching(cols, rows, keys) + if KeyOf(cols, r).Some? && KeyOf(cols, r).value in keys then [r] else []
  {
    assert (rows + [r])[..|rows|] == rows;
  }

  lemma {:induction false} TopOfSnoc(cols: seq<nat>, rows: seq<Row>, r: Row, limit: nat)
    requires limit > 0
    ensures TopOf(cols, rows + [r], limit)
            == TopOf(cols, rows, limit) + if CountIn(cols, rows, Partition(cols, r)) + 1 <= limit then [r] else []
  {
    assert (rows + [r])[..|rows|] == rows;
  }

  /**
   Restricting to a batch's keys inside the window query selects what limiting
   every partition first and filtering afterwards selects.
   */
  lemma {:induction false} LimitCommutes(cols: seq<nat>, rows: seq<Row>, keys: set<Tuple>, limit: nat)
    ensures TopOf(cols, Matching(cols, rows, keys), limit) == Matching(cols, TopOf(cols, rows, limit), keys)
  {
    if rows != [] && limit > 0 {
      var before, last := rows[..|rows| - 1], rows[|rows| - 1];
      LimitCommutes(cols, before, keys, limit);
      var kept, top := Matching(cols, before, keys), TopOf(cols, before, limit);
      if KeyOf(cols, last).Some? && KeyOf(cols, last).value in keys {
        CountSurvives(cols, before, keys, last);
        TopOfSnoc(cols, kept, last, limit);
      } else {
        assert Matching(cols, rows, keys) == kept;
      }
      MatchingSnoc(cols, top, last, keys);
      assert top + [] == top;
    }
  }

  lemma {:induction false} CountOfOneKey(cols: seq<nat>, rows: seq<Row>, key: Tuple, r: Row)
    requires KeyOf(cols, r) == Some(key)
    ensures CountIn(cols, rows, Partition(cols, r)) == |Matching(cols, rows, {key})|
  {
    if rows != [] {
      var before, last := rows[..|rows| - 1], rows[|rows| - 1];
      CountOfOneKey(cols, before, key, r);
      PartitionIsKey(cols, r, last);
    }
  }

  /** For a single key the limited rows are the first ones the unlimited query would return. */
  lemma {:induction false} LimitIsFirst(cols: seq<nat>, rows: seq<Row>, key: Tuple, limit: nat)
    ensures Matching(cols, TopOf(cols, rows, limit), {key}) == First(Matching(cols, rows, {key}), limit)
  {
    if rows != [] && limit > 0 {
      var before, last := rows[..|rows| - 1], rows[|rows| - 1];
      LimitIsFirst(cols, before, key, limit);
      var top := TopOf(cols, before, limit);
      MatchingSnoc(cols, top, last, {key});
      if KeyOf(cols, last) == Some(key) {
        CountOfOneKey(cols, before, key, last);
      }
      assert top + [] == top;
      assert Matching(cols, before, {key}) + [] == Matching(cols, before, {key});
    }
  }

  /** A has-one edge reads with limit two, which is enough to see whether there is more than one row. */
  lemma {:induction false} HasOneLimit(cols: seq<nat>, rows: seq<Row>, key: Tuple)
    ensures |Matching(cols, TopOf(cols, rows, 2), {key})| > 1 <==> |Matching(cols, rows, {key})| > 1
    ensures |Matching(cols, rows, {key})| <= 1 ==>
              Matching(cols, TopOf(cols, rows, 2), {key}) == Matching(cols, rows, {key})
  {
    LimitIsFirst(cols, rows, key, 2);
  }

  lemma {:induction false} MatchingTwice(cols: seq<nat>, rows: seq<Row>, keys: set<Tuple>, key: Tuple)
    requires key in keys
    ensures Matching(cols, Matching(cols, rows, keys), {key}) == Matching(cols, rows, {key})
  {
    if rows != [] {
      var before, last := rows[..|rows| - 1], rows[|rows| - 1];
      MatchingTwice(cols, before, keys, key);
      MatchingSnoc(cols, Matching(cols, before, keys), last, {key});
      assert Matching(cols, before, keys) + [] == Matching(cols, before, keys);
    }
  }

  /**
   The rows a batched, limited statement returns for one of its keys are the rows
   a statement for that key alone would return.
   */
  lemma {:induction false} BatchServesKey(cols: seq<nat>, rows: seq<Row>, keys: set<Tuple>, key: Tuple, limit: nat)
    requires key in keys
    ensures Matching(cols, TopOf(cols, Matching(cols, rows, keys), limit), {key})
            == First(Matching(cols, rows, {key}), limit)
    ensures TopOf(cols, Matching(cols, rows, {key}), limit) == First(Matching(cols, rows, {key}), limit)
  {
    LimitIsFirst(cols, Matching(cols, rows, keys), key, limit);
    MatchingTwice(cols, rows, keys, key);
    LimitCommutes(cols, rows, {key}, limit);
    LimitIsFirst(cols, rows, key, limit);
  }
}
