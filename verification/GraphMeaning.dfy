/**
 What one query per parent comes to, row by row (graph_execute.go): which rows a
 parent gets, in which order, and which parents fail their edge. Everything here is
 said of positions in the rows a query returns unrestricted.
 */
module GraphMeaning {
  import opened Wrappers
  import opened ThreeValued
  import opened GraphMembership
  import opened PartitionLimit
  import opened GraphEdge

  ghost predicate Ascending(at: seq<nat>, bound: nat) {
    && (forall j :: 0 <= j < |at| ==> at[j] < bound)
    && forall i, j :: 0 <= i < j < |at| ==> at[i] < at[j]
  }

  /** `at` lists, in order, exactly the positions whose row has the key. */
  ghost predicate Positions(cols: seq<nat>, rows: seq<Row>, key: Tuple, at: seq<nat>) {
    Ascending(at, |rows|) && forall i :: 0 <= i < |rows| ==> (KeyOf(cols, rows[i]) == Some(key) <==> i in at)
  }

  /** `picked` are the rows at the positions `at`. */
  ghost predicate Picked(rows: seq<Row>, at: seq<nat>, picked: seq<Row>) {
    |picked| == |at| && forall j :: 0 <= j < |at| ==> at[j] < |rows| && picked[j] == rows[at[j]]
  }

  lemma {:induction false} PositionsSnoc(cols: seq<nat>, rows: seq<Row>, r: Row, key: Tuple, at: seq<nat>)
    requires Positions(cols, rows, key, at)
    ensures Positions(cols, rows + [r], key, if KeyOf(cols, r) == Some(key) then at + [|rows|] else at)
  {
    var more := if KeyOf(cols, r) == Some(key) then at + [|rows|] else at;
    forall i | 0 <= i < |rows + [r]|
      ensures KeyOf(cols, (rows + [r])[i]) == Some(key) <==> i in more
    {
      if i < |rows| {
        assert (rows + [r])[i] == rows[i];
      } else {
        assert i !in at;
      }
    }
  }

  lemma {:induction false} PickedSnoc(rows: seq<Row>, r: Row, at: seq<nat>, picked: seq<Row>)
    requires Picked(rows, at, picked)
    ensures Picked(rows + [r], at, picked) && Picked(rows + [r], at + [|rows|], picked + [r])
  {
  }

  /** The rows of one key, by position. */
  lemma {:induction false} MatchingIs(cols: seq<nat>, rows: seq<Row>, key: Tuple) returns (at: seq<nat>)
    ensures Positions(cols, rows, key, at) && Picked(rows, at, Matching(cols, rows, {key}))
  {
    if rows == [] {
      return [];
    }
    var before, last := rows[..|rows| - 1], rows[|rows| - 1];
    at := MatchingIs(cols, before, key);
    assert rows == before + [last];
    PositionsSnoc(cols, before, last, key, at);
    PickedSnoc(before, last, at, Matching(cols, before, {key}));
    MatchingSnoc(cols, before, last, {key});
    if KeyOf(cols, last) == Some(key) {
      at := at + [|before|];
    } else {
      assert Matching(cols, before, {key}) + [] == Matching(cols, before, {key});
    }
  }

  /** A statement for one key returns its rows in order, and the first `limit` of them when there is a limit. */
  lemma {:induction false} RowsForIs(q: KeyedQuery, limit: nat, key: Tuple) returns (at: seq<nat>)
    ensures Positions(q.cols, q.rows, key, at)
    ensures |RowsFor(q, limit, key)| == if limit > 0 && limit < |at| then limit else |at|
    ensures forall j :: 0 <= j < |RowsFor(q, limit, key)| ==> RowsFor(q, limit, key)[j] == q.rows[at[j]]
  {
    at := MatchingIs(q.cols, q.rows, key);
  }

  /** No two rows have the key. */
  ghost predicate Single(cols: seq<nat>, rows: seq<Row>, key: Tuple) {
    forall i, j :: 0 <= i < j < |rows| ==> !(KeyOf(cols, rows[i]) == Some(key) && KeyOf(cols, rows[j]) == Some(key))
  }

  lemma {:induction false} CountOf(cols: seq<nat>, rows: seq<Row>, key: Tuple)
    ensures |Matching(cols, rows, {key})| > 0 <==> HasKey(cols, rows, key)
    ensures |Matching(cols, rows, {key})| <= 1 <==> Single(cols, rows, key)
  {
    var at := MatchingIs(cols, rows, key);
    if |at| > 0 {
      assert at[0] in at && KeyOf(cols, rows[at[0]]) == Some(key);
    }
    if HasKey(cols, rows, key) {
      var i :| 0 <= i < |rows| && KeyOf(cols, rows[i]) == Some(key);
      assert i in at;
    }
    if |at| > 1 {
      assert at[0] in at && at[1] in at;
      assert !Single(cols, rows, key);
    }
    if !Single(cols, rows, key) {
      var i, j :| 0 <= i < j < |rows| && KeyOf(cols, rows[i]) == Some(key) && KeyOf(cols, rows[j]) == Some(key);
      assert i in at && j in at;
    }
  }

  /** A has-many edge never fails; a has-one edge fails exactly for a parent with two rows. */
  lemma {:induction false} DirectFails(e: EdgeSpec, row: Row)
    requires !e.ManyThrough?
    ensures !EdgeOk(e, row) <==> e.HasOne? && KeyOf(e.parent, row).Some?
                                 && !Single(e.children.cols, e.children.rows, KeyOf(e.parent, row).value)
  {
    if KeyOf(e.parent, row).Some? {
      CountOf(e.children.cols, e.children.rows, KeyOf(e.parent, row).value);
    }
  }

  /** The junction row names a target with exactly one row, or with none if the target query filters. */
  ghost predicate Resolves(e: EdgeSpec, link: Row)
    requires e.ManyThrough?
  {
    var t := KeyOf(e.target, link);
    && t.Some? && Single(e.children.cols, e.children.rows, t.value)
    && (HasKey(e.children.cols, e.children.rows, t.value) || e.hasPredicates)
  }

  /** A many-through edge fails exactly for a parent with a junction row that does not resolve. */
  lemma {:induction false} ThroughFails(e: EdgeSpec, row: Row)
    requires e.ManyThrough?
    ensures !EdgeOk(e, row) <==>
              KeyOf(e.parent, row).Some? &&
              var links := RowsFor(e.junction, e.limit, KeyOf(e.parent, row).value);
              exists n :: 0 <= n < |links| && !Resolves(e, links[n])
  {
    if KeyOf(e.parent, row).Some? {
      LinksExactly(e, RowsFor(e.junction, e.limit, KeyOf(e.parent, row).value));
    }
  }

  lemma {:induction false} LinksExactly(e: EdgeSpec, links: seq<Row>)
    requires e.ManyThrough?
    ensures LinksOk(e, links) <==> forall n :: 0 <= n < |links| ==> Resolves(e, links[n])
  {
    var targets := DistinctKeys(e.target, links);
    forall t: Tuple
      ensures TargetFound(e.children, t, e.hasPredicates) <==>
                Single(e.children.cols, e.children.rows, t) && (HasKey(e.children.cols, e.children.rows, t) || e.hasPredicates)
      ensures t in targets <==> HasKey(e.target, links, t)
    {
      CountOf(e.children.cols, e.children.rows, t);
      DistinctMembers(e.target, links, t);
    }
    if LinksOk(e, links) {
      forall n | 0 <= n < |links|
        ensures Resolves(e, links[n])
      {
        TargetListed(e, links, n);
      }
    }
    if forall n :: 0 <= n < |links| ==> Resolves(e, links[n]) {
      forall i | 0 <= i < |targets|
        ensures TargetFound(e.children, targets[i], e.hasPredicates)
      {
        assert targets[i] in targets && HasKey(e.target, links, targets[i]);
        var n :| 0 <= n < |links| && KeyOf(e.target, links[n]) == Some(targets[i]);
        assert Resolves(e, links[n]);
      }
    }
  }

  lemma {:induction false} TargetListed(e: EdgeSpec, links: seq<Row>, n: nat)
    requires e.ManyThrough? && n < |links| && LinksOk(e, links)
    ensures KeyOf(e.target, links[n]).Some? && TargetFound(e.children, KeyOf(e.target, links[n]).value, e.hasPredicates)
  {
    var t := KeyOf(e.target, links[n]).value;
    assert HasKey(e.target, links, t);
    DistinctMembers(e.target, links, t);
    var targets := DistinctKeys(e.target, links);
    var i :| 0 <= i < |targets| && targets[i] == t;
    assert TargetFound(e.children, targets[i], e.hasPredicates);
  }

  /** Targets stand in the order in which junction rows first name them: more rows only add at the end. */
  lemma {:induction false} FirstNamed(cols: seq<nat>, rows: seq<Row>, n: nat)
    requires n <= |rows|
    ensures DistinctKeys(cols, rows[..n]) <= DistinctKeys(cols, rows)
    decreases |rows| - n
  {
    if n < |rows| {
      FirstNamed(cols, rows, n + 1);
      assert rows[..n + 1][..n] == rows[..n];
    } else {
      assert rows[..n] == rows;
    }
  }

  /** `at` lists the positions of the targets that have a row, and `found` their rows. */
  ghost predicate Found(q: KeyedQuery, targets: seq<Tuple>, at: seq<nat>, found: seq<Row>) {
    && Ascending(at, |targets|) && |found| == |at|
    && (forall i :: 0 <= i < |targets| ==> (i in at <==> HasKey(q.cols, q.rows, targets[i])))
    && forall j :: 0 <= j < |at| ==> KeyOf(q.cols, found[j]) == Some(targets[at[j]]) && found[j] in q.rows
  }

  ghost predicate AllAtMostOneRow(q: KeyedQuery, targets: seq<Tuple>) {
    forall i :: 0 <= i < |targets| ==> AtMostOneRow(q, targets[i])
  }

  ghost predicate AtMostOneRow(q: KeyedQuery, t: Tuple) { |Matching(q.cols, q.rows, {t})| <= 1 }

  lemma {:induction false} FoundSnoc(q: KeyedQuery, targets: seq<Tuple>, t: Tuple, at: seq<nat>, found: seq<Row>)
    requires Found(q, targets, at, found)
    ensures !HasKey(q.cols, q.rows, t) ==> Found(q, targets + [t], at, found)
    ensures forall r :: r in q.rows && KeyOf(q.cols, r) == Some(t) && HasKey(q.cols, q.rows, t) ==>
              Found(q, targets + [t], at + [|targets|], found + [r])
  {
    var more := targets + [t];
    assert forall i :: 0 <= i < |targets| ==> more[i] == targets[i];
    assert |targets| !in at;
  }

  /** The rows looked up are those of the targets that have one, in target order. */
  lemma {:induction false} LookupIs(q: KeyedQuery, targets: seq<Tuple>) returns (at: seq<nat>)
    requires AllAtMostOneRow(q, targets)
    ensures Found(q, targets, at, Lookup(q, targets))
  {
    if targets == [] {
      return [];
    }
    var before, t := targets[..|targets| - 1], targets[|targets| - 1];
    AllButLast(q, targets);
    at := LookupIs(q, before);
    at := LookupStep(q, before, t, at);
    assert before + [t] == targets;
  }

  lemma {:induction false} AllButLast(q: KeyedQuery, targets: seq<Tuple>)
    requires targets != [] && AllAtMostOneRow(q, targets)
    ensures AllAtMostOneRow(q, targets[..|targets| - 1]) && AtMostOneRow(q, targets[|targets| - 1])
  {
    var before := targets[..|targets| - 1];
    forall i | 0 <= i < |before|
      ensures AtMostOneRow(q, before[i])
    {
      assert before[i] == targets[i];
    }
  }

  lemma {:induction false} LookupStep(q: KeyedQuery, targets: seq<Tuple>, t: Tuple, at: seq<nat>) returns (more: seq<nat>)
    requires Found(q, targets, at, Lookup(q, targets)) && AtMostOneRow(q, t)
    ensures Found(q, targets + [t], more, Lookup(q, targets + [t]))
  {
    var own := OwnRow(q, t);
    LookupEnds(q, targets, t);
    FoundStep(q, targets, t, at, Lookup(q, targets), own);
    more := if own == [] then at else at + [|targets|];
  }

  lemma {:induction false} LookupEnds(q: KeyedQuery, targets: seq<Tuple>, t: Tuple)
    ensures Lookup(q, targets + [t]) == Lookup(q, targets) + Matching(q.cols, q.rows, {t})
  {
    assert (targets + [t])[..|targets|] == targets;
  }

  lemma {:induction false} FoundStep(q: KeyedQuery, targets: seq<Tuple>, t: Tuple, at: seq<nat>, found: seq<Row>, own: seq<Row>)
    requires Found(q, targets, at, found) && |own| <= 1 && (own != [] <==> HasKey(q.cols, q.rows, t))
    requires own != [] ==> own == [own[0]] && own[0] in q.rows && KeyOf(q.cols, own[0]) == Some(t)
    ensures Found(q, targets + [t], if own == [] then at else at + [|targets|], found + own)
  {
    FoundSnoc(q, targets, t, at, found);
    if own == [] {
      assert found + own == found;
    }
  }

  /** The rows of a target no two rows share: the one that has it, or none. */
  lemma {:induction false} OwnRow(q: KeyedQuery, t: Tuple) returns (own: seq<Row>)
    requires AtMostOneRow(q, t)
    ensures own == Matching(q.cols, q.rows, {t}) && |own| <= 1 && (own != [] <==> HasKey(q.cols, q.rows, t))
    ensures own != [] ==> own == [own[0]] && own[0] in q.rows && KeyOf(q.cols, own[0]) == Some(t)
  {
    own := Matching(q.cols, q.rows, {t});
    CountOf(q.cols, q.rows, t);
    var at := MatchingIs(q.cols, q.rows, t);
    if own != [] {
      assert at[0] in at && own[0] == q.rows[at[0]];
    }
  }

  // ---------- what a parent gets ----------

  function RowsAtFirst(rows: seq<Row>, at: seq<nat>, n: nat): (r: seq<Row>)
    requires n <= |at| && Ascending(at, |rows|)
    ensures |r| == n && forall j :: 0 <= j < n ==> r[j] == rows[at[j]]
  {
    seq(n, j requires 0 <= j < n => rows[at[j]])
  }

  /**
   A has-many or has-one parent gets the rows that have its key, the first `limit` of
   them under a limit: in their order where that is settled, else in some order.
   */
  lemma {:induction false} DirectLoads(e: EdgeSpec, row: Row, children: seq<Row>) returns (at: seq<nat>)
    requires !e.ManyThrough? && KeyOf(e.parent, row).Some? && MayLoad(e, row, children)
    ensures Positions(e.children.cols, e.children.rows, KeyOf(e.parent, row).value, at)
    ensures var n := if e.HasMany? && 0 < e.limit < |at| then e.limit else |at|;
            var rows := RowsAtFirst(e.children.rows, at, n);
            multiset(children) == multiset(rows) && (Determined(e) ==> children == rows)
  {
    var limit := if e.HasMany? then e.limit else 0;
    at := RowsForIs(e.children, limit, KeyOf(e.parent, row).value);
    var n := if e.HasMany? && 0 < e.limit < |at| then e.limit else |at|;
    assert RowsFor(e.children, limit, KeyOf(e.parent, row).value) == RowsAtFirst(e.children.rows, at, n);
  }

  /** A many-through parent gets, for its junction rows in the order they came, the row of each target that has one. */
  lemma {:induction false} ThroughLoads(e: EdgeSpec, row: Row, children: seq<Row>) returns (links: seq<Row>, at: seq<nat>)
    requires e.ManyThrough? && KeyOf(e.parent, row).Some? && EdgeOk(e, row) && MayLoad(e, row, children)
    ensures multiset(links) == multiset(RowsFor(e.junction, e.limit, KeyOf(e.parent, row).value))
    ensures Determined(e) ==> links == RowsFor(e.junction, e.limit, KeyOf(e.parent, row).value)
    ensures Found(e.children, DistinctKeys(e.target, links), at, children)
  {
    var all := RowsFor(e.junction, e.limit, KeyOf(e.parent, row).value);
    links :| Returns(e.junction, e.limit, all, links) && children == Lookup(e.children, DistinctKeys(e.target, links));
    LinksOkAnyOrder(e, all, links);
    LinksExactly(e, links);
    TargetsSingle(e, links);
    at := LookupIs(e.children, DistinctKeys(e.target, links));
  }

  lemma {:induction false} TargetsSingle(e: EdgeSpec, links: seq<Row>)
    requires e.ManyThrough? && forall n :: 0 <= n < |links| ==> Resolves(e, links[n])
    ensures AllAtMostOneRow(e.children, DistinctKeys(e.target, links))
  {
    var targets := DistinctKeys(e.target, links);
    forall i | 0 <= i < |targets|
      ensures AtMostOneRow(e.children, targets[i])
    {
      CountOf(e.children.cols, e.children.rows, targets[i]);
      DistinctMembers(e.target, links, targets[i]);
      assert targets[i] in targets && HasKey(e.target, links, targets[i]);
      var n :| 0 <= n < |links| && KeyOf(e.target, links[n]) == Some(targets[i]);
      assert Resolves(e, links[n]);
    }
  }
}
