/**
 One edge of a graph plan (graph_execute.go): its parents' keys are deduplicated
 and sent in batches under the bind budget, and the rows that come back are
 regrouped per parent. The specification asks one query per parent.
 */
module GraphEdge {
  import opened Wrappers
  import Sequences
  import opened ThreeValued
  import opened GraphMembership
  import opened PartitionLimit

  /**
   A query the loader restricts by keys: the columns of its key, the rows it
   returns unrestricted, whether its ORDER BY settles their order, and the binds
   it carries on its own. The rows of a limited query are listed in the order its
   window numbers them.
   */
  datatype KeyedQuery = KeyedQuery(cols: seq<nat>, rows: seq<Row>, ordered: bool, fixed: nat)

  datatype EdgeSpec =
    | HasMany(parent: seq<nat>, children: KeyedQuery, limit: nat, budget: nat)
    | HasOne(parent: seq<nat>, children: KeyedQuery, budget: nat)
    | ManyThrough(parent: seq<nat>, junction: KeyedQuery, limit: nat, target: seq<nat>,
                  children: KeyedQuery, hasPredicates: bool, budget: nat)

  // ---------- one query per parent ----------

  /** The rows one statement for one key returns. */
  function RowsFor(q: KeyedQuery, limit: nat, key: Tuple): seq<Row> {
    First(Matching(q.cols, q.rows, {key}), limit)
  }

  /** A per-parent limit is an outer select without an ORDER BY, so it leaves the order open. */
  predicate Ordered(q: KeyedQuery, limit: nat) { q.ordered && limit == 0 }

  /** `rows` are the rows of `all`, in their order if the query settles one. */
  predicate Returns(q: KeyedQuery, limit: nat, all: seq<Row>, rows: seq<Row>) {
    if Ordered(q, limit) then rows == all else multiset(rows) == multiset(all)
  }

  function AddDistinct(s: seq<Tuple>, t: Tuple): seq<Tuple> { if t in s then s else s + [t] }

  /** The distinct keys of `rows`, in the order they first occur. */
  function DistinctKeys(cols: seq<nat>, rows: seq<Row>): seq<Tuple> {
    if rows == [] then []
    else
      var before, key := DistinctKeys(cols, rows[..|rows| - 1]), KeyOf(cols, rows[|rows| - 1]);
      if key.None? then before else AddDistinct(before, key.value)
  }

  /** Each target looked up in the target query; missing ones leave nothing. */
  function Lookup(q: KeyedQuery, targets: seq<Tuple>): seq<Row> {
    if targets == [] then []
    else Lookup(q, targets[..|targets| - 1]) + Matching(q.cols, q.rows, {targets[|targets| - 1]})
  }

  predicate AllKeyed(cols: seq<nat>, rows: seq<Row>) {
    forall i :: 0 <= i < |rows| ==> KeyOf(cols, rows[i]).Some?
  }

  /** A target is found at most once, and exactly once unless the target query filters. */
  predicate TargetFound(q: KeyedQuery, t: Tuple, hasPredicates: bool) {
    var found := |Matching(q.cols, q.rows, {t})|;
    found == 1 || (found == 0 && hasPredicates)
  }

  predicate TargetsFound(q: KeyedQuery, targets: seq<Tuple>, hasPredicates: bool) {
    forall i :: 0 <= i < |targets| ==> TargetFound(q, targets[i], hasPredicates)
  }

  /** Every junction row has a target, and every target is found. */
  predicate LinksOk(e: EdgeSpec, links: seq<Row>)
    requires e.ManyThrough?
  {
    AllKeyed(e.target, links) && TargetsFound(e.children, DistinctKeys(e.target, links), e.hasPredicates)
  }

  /** Whether the edge loads for one parent. */
  predicate EdgeOk(e: EdgeSpec, row: Row) {
    var key := KeyOf(e.parent, row);
    key.None? ||
    match e
    case HasMany(_, _, _, _) => true
    case HasOne(_, q, _) => |Matching(q.cols, q.rows, {key.value})| <= 1
    case ManyThrough(_, j, limit, _, _, _, _) => LinksOk(e, RowsFor(j, limit, key.value))
  }

  /** The child rows of one parent; a NULL key has none. */
  function ChildRows(e: EdgeSpec, row: Row): seq<Row> {
    var key := KeyOf(e.parent, row);
    if key.None? then [] else
    match e
    case HasMany(_, q, limit, _) => RowsFor(q, limit, key.value)
    case HasOne(_, q, _) => RowsFor(q, 0, key.value)
    case ManyThrough(_, j, limit, target, q, _, _) => Lookup(q, DistinctKeys(target, RowsFor(j, limit, key.value)))
  }

  /** What one query per parent, with an engine free to order what no ORDER BY settles, may load for a parent. */
  ghost predicate MayLoad(e: EdgeSpec, row: Row, children: seq<Row>) {
    var key := KeyOf(e.parent, row);
    if key.None? then children == [] else
    match e
    case HasMany(_, q, limit, _) => Returns(q, limit, RowsFor(q, limit, key.value), children)
    case HasOne(_, q, _) => children == RowsFor(q, 0, key.value)
    case ManyThrough(_, j, limit, target, q, _, _) =>
      exists links :: Returns(j, limit, RowsFor(j, limit, key.value), links) && children == Lookup(q, DistinctKeys(target, links))
  }

  /** The order of the edge's child rows is settled. */
  predicate Determined(e: EdgeSpec) {
    match e
    case HasMany(_, q, limit, _) => Ordered(q, limit)
    case HasOne(_, _, _) => true
    case ManyThrough(_, j, limit, _, _, _, _) => Ordered(j, limit)
  }

  lemma {:induction false} DeterminedLoads(e: EdgeSpec, row: Row, children: seq<Row>)
    requires Determined(e)
    ensures MayLoad(e, row, children) <==> children == ChildRows(e, row)
  {
    if e.ManyThrough? && KeyOf(e.parent, row).Some? {
      var links := RowsFor(e.junction, e.limit, KeyOf(e.parent, row).value);
      assert Returns(e.junction, e.limit, links, links);
    }
  }

  // ---------- the order of rows does not matter to what an edge loads ----------

  lemma {:induction false} DistinctMembers(cols: seq<nat>, rows: seq<Row>, t: Tuple)
    ensures t in DistinctKeys(cols, rows) <==> HasKey(cols, rows, t)
  {
    if rows != [] {
      var n := |rows| - 1;
      DistinctMembers(cols, rows[..n], t);
      HasKeyLast(cols, rows, t);
    }
  }

  /** Some row has the key `t`. */
  ghost predicate HasKey(cols: seq<nat>, rows: seq<Row>, t: Tuple) {
    exists i :: 0 <= i < |rows| && KeyOf(cols, rows[i]) == Some(t)
  }

  lemma {:induction false} HasKeyLast(cols: seq<nat>, rows: seq<Row>, t: Tuple)
    requires rows != []
    ensures HasKey(cols, rows, t) <==> HasKey(cols, rows[..|rows| - 1], t) || KeyOf(cols, rows[|rows| - 1]) == Some(t)
  {
    var n := |rows| - 1;
    if HasKey(cols, rows[..n], t) {
      var i :| 0 <= i < n && KeyOf(cols, rows[..n][i]) == Some(t);
      assert rows[i] == rows[..n][i];
    }
    if HasKey(cols, rows, t) && KeyOf(cols, rows[n]) != Some(t) {
      var i :| 0 <= i < |rows| && KeyOf(cols, rows[i]) == Some(t);
      assert rows[..n][i] == rows[i];
    }
  }

  lemma {:induction false} HasKeyMoves(cols: seq<nat>, a: seq<Row>, b: seq<Row>, t: Tuple)
    requires multiset(a) == multiset(b) && HasKey(cols, a, t)
    ensures HasKey(cols, b, t)
  {
    var i :| 0 <= i < |a| && KeyOf(cols, a[i]) == Some(t);
    var k := Sequences.IndexIn(a, b, i);
  }

  lemma {:induction false} DistinctKeysDistinct(cols: seq<nat>, rows: seq<Row>)
    ensures Distinct(DistinctKeys(cols, rows))
  {
    if rows != [] {
      DistinctKeysDistinct(cols, rows[..|rows| - 1]);
    }
  }

  function Without(s: seq<Tuple>, i: nat): (r: seq<Tuple>)
    requires i < |s|
  {
    s[..i] + s[i + 1..]
  }

  lemma {:induction false} LookupAppend(q: KeyedQuery, a: seq<Tuple>, b: seq<Tuple>)
    ensures Lookup(q, a + b) == Lookup(q, a) + Lookup(q, b)
  {
    if b == [] {
      assert a + b == a;
    } else {
      var n := |b| - 1;
      assert (a + b)[..|a| + n] == a + b[..n];
      LookupAppend(q, a, b[..n]);
    }
  }

  lemma {:induction false} LookupOne(q: KeyedQuery, t: Tuple)
    ensures Lookup(q, [t]) == Matching(q.cols, q.rows, {t})
  {
    assert [t][..0] == [];
  }

  /** Looking up one target less leaves out exactly its rows. */
  lemma {:induction false} LookupWithout(q: KeyedQuery, targets: seq<Tuple>, i: nat)
    requires i < |targets|
    ensures multiset(Lookup(q, targets)) == multiset(Lookup(q, Without(targets, i))) + multiset(Matching(q.cols, q.rows, {targets[i]}))
  {
    var head, t, tail := targets[..i], targets[i], targets[i + 1..];
    assert targets == head + [t] + tail;
    LookupAppend(q, head + [t], tail);
    LookupAppend(q, head, [t]);
    LookupAppend(q, head, tail);
    LookupOne(q, t);
    Sequences.LeaveOut(Lookup(q, head), Matching(q.cols, q.rows, {t}), Lookup(q, tail));
  }

  /** Distinct targets in any order look up the same rows. */
  lemma {:induction false} LookupAnyOrder(q: KeyedQuery, a: seq<Tuple>, b: seq<Tuple>)
    requires Distinct(a) && Distinct(b) && forall t :: t in a <==> t in b
    ensures multiset(Lookup(q, a)) == multiset(Lookup(q, b))
    decreases |a|
  {
    if a == [] {
      Sequences.FirstMember(b);
    } else {
      var n := |a| - 1;
      assert a[n] in b;
      var i :| 0 <= i < |b| && b[i] == a[n];
      SameWithout(a, b, i);
      LookupAnyOrder(q, a[..n], Without(b, i));
      LookupWithout(q, b, i);
      LookupWithout(q, a, n);
      assert Without(a, n) == a[..n];
    }
  }

  lemma {:induction false} SameWithout(a: seq<Tuple>, b: seq<Tuple>, i: nat)
    requires Distinct(a) && Distinct(b) && (forall t :: t in a <==> t in b)
    requires a != [] && i < |b| && b[i] == a[|a| - 1]
    ensures Distinct(a[..|a| - 1]) && Distinct(Without(b, i))
    ensures forall t :: t in a[..|a| - 1] <==> t in Without(b, i)
  {
    var n, rest := |a| - 1, Without(b, i);
    assert forall k :: 0 <= k < |rest| ==> rest[k] == if k < i then b[k] else b[k + 1];
    forall t
      ensures t in a[..n] <==> t in a && t != a[n]
      ensures t in rest <==> t in b && t != b[i]
    {
      LeavesOut(a, n, t);
      LeavesOut(b, i, t);
      assert Without(a, n) == a[..n];
    }
  }

  lemma {:induction false} LeavesOut(s: seq<Tuple>, i: nat, t: Tuple)
    requires Distinct(s) && i < |s|
    ensures t in Without(s, i) <==> t in s && t != s[i]
  {
    var rest := Without(s, i);
    if t in s && t != s[i] {
      var k :| 0 <= k < |s| && s[k] == t;
      assert rest[if k < i then k else k - 1] == t;
    }
    if t in rest {
      var k :| 0 <= k < |rest| && rest[k] == t;
      assert t == s[if k < i then k else k + 1];
    }
  }

  lemma {:induction false} LinksAnyOrder(cols: seq<nat>, a: seq<Row>, b: seq<Row>)
    requires multiset(a) == multiset(b)
    ensures forall t :: t in DistinctKeys(cols, a) <==> t in DistinctKeys(cols, b)
  {
    forall t
      ensures t in DistinctKeys(cols, a) <==> t in DistinctKeys(cols, b)
    {
      DistinctMembers(cols, a, t);
      DistinctMembers(cols, b, t);
      if HasKey(cols, a, t) {
        HasKeyMoves(cols, a, b, t);
      }
      if HasKey(cols, b, t) {
        HasKeyMoves(cols, b, a, t);
      }
    }
  }

  /** Whatever order an engine chooses, an edge loads the same rows. */
  lemma {:induction false} MayLoadRows(e: EdgeSpec, row: Row, children: seq<Row>)
    requires MayLoad(e, row, children)
    ensures multiset(children) == multiset(ChildRows(e, row))
  {
    if e.ManyThrough? && KeyOf(e.parent, row).Some? {
      var all := RowsFor(e.junction, e.limit, KeyOf(e.parent, row).value);
      var links :| Returns(e.junction, e.limit, all, links) && children == Lookup(e.children, DistinctKeys(e.target, links));
      LinksAnyOrder(e.target, links, all);
      DistinctKeysDistinct(e.target, links);
      DistinctKeysDistinct(e.target, all);
      LookupAnyOrder(e.children, DistinctKeys(e.target, links), DistinctKeys(e.target, all));
    }
  }

  /** And it fails for the same parents. */
  lemma {:induction false} LinksOkAnyOrder(e: EdgeSpec, all: seq<Row>, links: seq<Row>)
    requires e.ManyThrough? && Returns(e.junction, e.limit, all, links)
    ensures LinksOk(e, links) <==> LinksOk(e, all)
  {
    LinksAnyOrder(e.target, links, all);
    KeyedAnyOrder(e.target, links, all);
    KeyedAnyOrder(e.target, all, links);
    FoundAnyOrder(e, DistinctKeys(e.target, links), DistinctKeys(e.target, all));
    FoundAnyOrder(e, DistinctKeys(e.target, all), DistinctKeys(e.target, links));
  }

  lemma {:induction false} KeyedAnyOrder(cols: seq<nat>, a: seq<Row>, b: seq<Row>)
    requires multiset(a) == multiset(b)
    ensures AllKeyed(cols, a) ==> AllKeyed(cols, b)
  {
    forall i | 0 <= i < |b| && AllKeyed(cols, a)
      ensures KeyOf(cols, b[i]).Some?
    {
      var k := Sequences.IndexIn(b, a, i);
    }
  }

  lemma {:induction false} FoundAnyOrder(e: EdgeSpec, a: seq<Tuple>, b: seq<Tuple>)
    requires e.ManyThrough? && forall t :: t in b ==> t in a
    ensures TargetsFound(e.children, a, e.hasPredicates) ==> TargetsFound(e.children, b, e.hasPredicates)
  {
    forall i | 0 <= i < |b| && TargetsFound(e.children, a, e.hasPredicates)
      ensures TargetFound(e.children, b[i], e.hasPredicates)
    {
      assert b[i] in a;
      var k :| 0 <= k < |a| && a[k] == b[i];
      assert TargetFound(e.children, a[k], e.hasPredicates);
    }
  }

  // ---------- validation ----------

  predicate QueryAccepted(q: KeyedQuery, budget: nat) {
    q.cols != [] && BudgetAccepts(budget, q.fixed, |q.cols|)
  }

  /** validateGraphEdge and validateManyThroughEdge, as far as the budget goes. */
  predicate EdgeAccepted(e: EdgeSpec) {
    match e
    case HasMany(parent, q, _, budget) => QueryAccepted(q, budget) && |parent| == |q.cols|
    case HasOne(parent, q, budget) => QueryAccepted(q, budget) && |parent| == |q.cols|
    case ManyThrough(parent, j, _, target, q, _, budget) =>
      QueryAccepted(j, budget) && QueryAccepted(q, budget) && |parent| == |j.cols| && |target| == |q.cols|
  }

  /**
   Acceptance in numbers: every query the edge sends has key columns and room for
   its own binds and one key, and the keys compared with each other are as wide.
   */
  lemma {:induction false} AcceptedExactly(e: EdgeSpec)
    ensures EdgeAccepted(e) <==>
              && 0 < |e.children.cols| && e.children.fixed + |e.children.cols| <= e.budget
              && (!e.ManyThrough? ==> |e.parent| == |e.children.cols|)
              && (e.ManyThrough? ==>
                    && 0 < |e.junction.cols| && e.junction.fixed + |e.junction.cols| <= e.budget
                    && |e.parent| == |e.junction.cols| && |e.target| == |e.children.cols|)
  {
  }

  // ---------- executing statements ----------

  function Selected(rows: seq<Row>, membership: Expr): seq<Row> {
    if rows == [] then []
    else Selected(rows[..|rows| - 1], membership) +
         if Eval(membership, rows[|rows| - 1]) == True then [rows[|rows| - 1]] else []
  }

  /** What the statement selects: the membership restricts the rows the window numbers. */
  function Answer(q: KeyedQuery, limit: nat, membership: Expr): seq<Row> {
    TopOf(q.cols, Selected(q.rows, membership), limit)
  }

  /** The engine: any order of the selected rows that the query leaves open. */
  method Execute(q: KeyedQuery, limit: nat, membership: Expr) returns (rows: seq<Row>)
    ensures Returns(q, limit, Answer(q, limit, membership), rows)
  {
    rows := *;
    if !Returns(q, limit, Answer(q, limit, membership), rows) {
      rows := Answer(q, limit, membership);
    }
  }

  function KeySet(tuples: seq<Tuple>): set<Tuple> { set t | t in tuples }

  lemma {:induction false} SelectedMatches(cols: seq<nat>, rows: seq<Row>, membership: Expr, tuples: seq<Tuple>)
    requires forall row: Row :: Eval(membership, row) == True <==> exists t :: t in tuples && KeyOf(cols, row) == Some(t)
    ensures Selected(rows, membership) == Matching(cols, rows, KeySet(tuples))
  {
    if rows != [] {
      var last := rows[|rows| - 1];
      SelectedMatches(cols, rows[..|rows| - 1], membership, tuples);
      assert Eval(membership, last) == True <==> KeyOf(cols, last).Some? && KeyOf(cols, last).value in KeySet(tuples);
    }
  }

  lemma {:induction false} MatchingAppend(cols: seq<nat>, a: seq<Row>, b: seq<Row>, keys: set<Tuple>)
    ensures Matching(cols, a + b, keys) == Matching(cols, a, keys) + Matching(cols, b, keys)
  {
    if b == [] {
      assert a + b == a;
    } else {
      var n := |b| - 1;
      assert a + b == a + b[..n] + [b[n]] && b == b[..n] + [b[n]];
      MatchingAppend(cols, a, b[..n], keys);
      MatchingSnoc(cols, a + b[..n], b[n], keys);
      MatchingSnoc(cols, b[..n], b[n], keys);
    }
  }

  lemma {:induction false} MatchingNone(cols: seq<nat>, rows: seq<Row>, key: Tuple)
    requires forall i :: 0 <= i < |rows| ==> KeyOf(cols, rows[i]) != Some(key)
    ensures Matching(cols, rows, {key}) == []
  {
    if rows != [] {
      MatchingNone(cols, rows[..|rows| - 1], key);
    }
  }

  lemma {:induction false} MatchingMembers(cols: seq<nat>, rows: seq<Row>, keys: set<Tuple>)
    ensures forall i :: 0 <= i < |Matching(cols, rows, keys)| ==>
              KeyOf(cols, Matching(cols, rows, keys)[i]).Some? && KeyOf(cols, Matching(cols, rows, keys)[i]).value in keys
  {
    if rows != [] {
      MatchingMembers(cols, rows[..|rows| - 1], keys);
    }
  }

  lemma {:induction false} TopMembers(cols: seq<nat>, rows: seq<Row>, limit: nat)
    ensures forall i :: 0 <= i < |TopOf(cols, rows, limit)| ==> TopOf(cols, rows, limit)[i] in rows
  {
    if limit > 0 && rows != [] {
      TopMembers(cols, rows[..|rows| - 1], limit);
      assert forall r :: r in rows[..|rows| - 1] ==> r in rows;
    }
  }

  /** `seen` holds, for every key in `keys`, the rows a statement for it alone may return, and no others. */
  ghost predicate Serves(q: KeyedQuery, limit: nat, seen: seq<Row>, keys: set<Tuple>) {
    && AllRequested(q.cols, seen, keys)
    && forall k :: k in keys ==> Returns(q, limit, RowsFor(q, limit, k), Matching(q.cols, seen, {k}))
  }

  ghost predicate Requested(cols: seq<nat>, row: Row, keys: set<Tuple>) {
    KeyOf(cols, row).Some? && KeyOf(cols, row).value in keys
  }

  ghost predicate AllRequested(cols: seq<nat>, rows: seq<Row>, keys: set<Tuple>) {
    forall i :: 0 <= i < |rows| ==> Requested(cols, rows[i], keys)
  }

  /** How often a row matches does not depend on the order of the rows. */
  lemma {:induction false} MatchingCount(cols: seq<nat>, rows: seq<Row>, keys: set<Tuple>, r: Row)
    ensures multiset(Matching(cols, rows, keys))[r] == if Requested(cols, r, keys) then multiset(rows)[r] else 0
  {
    if rows != [] {
      var before, last := rows[..|rows| - 1], rows[|rows| - 1];
      MatchingCount(cols, before, keys, r);
      MatchingSnoc(cols, before, last, keys);
      assert rows == before + [last];
      Sequences.CountSnoc(before, last, r);
      Sequences.CountSnoc(Matching(cols, before, keys), last, r);
    }
  }

  lemma {:induction false} MatchingAnyOrder(cols: seq<nat>, a: seq<Row>, b: seq<Row>, keys: set<Tuple>)
    requires multiset(a) == multiset(b)
    ensures multiset(Matching(cols, a, keys)) == multiset(Matching(cols, b, keys))
  {
    forall r: Row
      ensures multiset(Matching(cols, a, keys))[r] == multiset(Matching(cols, b, keys))[r]
    {
      MatchingCount(cols, a, keys, r);
      MatchingCount(cols, b, keys, r);
    }
  }

  lemma {:induction false} AnswerRequested(q: KeyedQuery, limit: nat, membership: Expr, tuples: seq<Tuple>, rows: seq<Row>)
    requires Selected(q.rows, membership) == Matching(q.cols, q.rows, KeySet(tuples))
    requires Returns(q, limit, Answer(q, limit, membership), rows)
    ensures AllRequested(q.cols, rows, KeySet(tuples))
  {
    var matching := Matching(q.cols, q.rows, KeySet(tuples));
    MatchingMembers(q.cols, q.rows, KeySet(tuples));
    TopMembers(q.cols, matching, limit);
    forall i | 0 <= i < |rows|
      ensures Requested(q.cols, rows[i], KeySet(tuples))
    {
      var k := Sequences.IndexIn(rows, Answer(q, limit, membership), i);
      assert rows[i] in matching;
    }
  }

  lemma {:induction false} BatchServes(q: KeyedQuery, limit: nat, membership: Expr, tuples: seq<Tuple>, rows: seq<Row>)
    requires forall row: Row ::
               Eval(membership, row) == True <==> exists t :: t in tuples && KeyOf(q.cols, row) == Some(t)
    requires Returns(q, limit, Answer(q, limit, membership), rows)
    ensures Serves(q, limit, rows, KeySet(tuples))
  {
    var keys := KeySet(tuples);
    SelectedMatches(q.cols, q.rows, membership, tuples);
    AnswerRequested(q, limit, membership, tuples, rows);
    forall k | k in keys
      ensures Returns(q, limit, RowsFor(q, limit, k), Matching(q.cols, rows, {k}))
    {
      BatchServesKey(q.cols, q.rows, keys, k, limit);
      MatchingAnyOrder(q.cols, rows, Answer(q, limit, membership), {k});
    }
  }

  lemma {:induction false} ServesBoth(q: KeyedQuery, limit: nat, a: seq<Row>, b: seq<Row>, keys: set<Tuple>, more: set<Tuple>)
    requires Serves(q, limit, a, keys) && Serves(q, limit, b, more) && keys !! more
    ensures Serves(q, limit, a + b, keys + more)
  {
    forall k | k in keys + more
      ensures Returns(q, limit, RowsFor(q, limit, k), Matching(q.cols, a + b, {k}))
    {
      MatchingAppend(q.cols, a, b, {k});
      if k in keys {
        assert forall i :: 0 <= i < |b| ==> Requested(q.cols, b[i], more);
        MatchingNone(q.cols, b, k);
      } else {
        assert forall i :: 0 <= i < |a| ==> Requested(q.cols, a[i], keys);
        MatchingNone(q.cols, a, k);
      }
    }
  }

  ghost predicate Distinct(tuples: seq<Tuple>) {
    forall i, j :: 0 <= i < j < |tuples| ==> tuples[i] != tuples[j]
  }

  /** The statements sent carry at least one key each, stay within the budget, and bind every key once, in order. */
  ghost predicate SentWithin(q: KeyedQuery, budget: nat, tuples: seq<Tuple>, sent: seq<Expr>) {
    BindsAll(sent) == Flatten(tuples) && forall i :: 0 <= i < |sent| ==> FitsBudget(q, budget, sent[i])
  }

  ghost predicate FitsBudget(q: KeyedQuery, budget: nat, membership: Expr) {
    0 < |Binds(membership)| && q.fixed + |Binds(membership)| <= budget
  }

  lemma {:induction false} BindsAllSnoc(sent: seq<Expr>, e: Expr)
    ensures BindsAll(sent + [e]) == BindsAll(sent) + Binds(e)
  {
    if sent == [] {
      assert sent + [e] == [e] && [e][1..] == [];
    } else {
      assert (sent + [e])[1..] == sent[1..] + [e];
      BindsAllSnoc(sent[1..], e);
    }
  }

  lemma {:induction false} FlattenAppend(a: seq<Tuple>, b: seq<Tuple>)
    ensures Flatten(a + b) == Flatten(a) + Flatten(b)
  {
    if a == [] {
      assert a + b == b;
    } else {
      assert (a + b)[1..] == a[1..] + b;
      FlattenAppend(a[1..], b);
    }
  }

  lemma {:induction false} SentStep(q: KeyedQuery, budget: nat, tuples: seq<Tuple>, start: nat, end: nat, sent: seq<Expr>, membership: Expr)
    requires QueryAccepted(q, budget) && start < end <= |tuples| && end - start <= BatchSize(budget, q.fixed, |q.cols|)
    requires forall i :: 0 <= i < |tuples| ==> |tuples[i]| == |q.cols|
    requires SentWithin(q, budget, tuples[..start], sent) && Binds(membership) == Flatten(tuples[start..end])
    ensures SentWithin(q, budget, tuples[..end], sent + [membership])
  {
    var batch := tuples[start..end];
    BatchWithinBudget(budget, q.fixed, q.cols, batch, membership);
    assert batch == [batch[0]] + batch[1..] && Flatten(batch) == batch[0] + Flatten(batch[1..]);
    BindsAllSnoc(sent, membership);
    assert tuples[..end] == tuples[..start] + batch;
    FlattenAppend(tuples[..start], batch);
  }

  /**
   Sends the keys in batches as large as the budget allows. Every statement stays
   within the budget, and the rows that come back serve every key.
   */
  method RunBatches(q: KeyedQuery, limit: nat, budget: nat, tuples: seq<Tuple>) returns (seen: seq<Row>, sent: seq<Expr>)
    requires QueryAccepted(q, budget) && Distinct(tuples)
    requires forall i :: 0 <= i < |tuples| ==> |tuples[i]| == |q.cols|
    ensures Serves(q, limit, seen, KeySet(tuples))
    ensures SentWithin(q, budget, tuples, sent)
  {
    seen, sent := [], [];
    var batchSize := BatchSize(budget, q.fixed, |q.cols|);
    var start := 0;
    while start < |tuples|
      invariant 0 <= start <= |tuples|
      invariant Serves(q, limit, seen, KeySet(tuples[..start])) && SentWithin(q, budget, tuples[..start], sent)
    {
      var end := if start + batchSize > |tuples| then |tuples| else start + batchSize;
      var batch := tuples[start..end];
      var membership := BuildGraphMembership(q.cols, batch);
      SentStep(q, budget, tuples, start, end, sent, membership.value);
      var rows := Execute(q, limit, membership.value);
      BatchServes(q, limit, membership.value, batch, rows);
      BatchKeys(tuples, start, end);
      ServesBoth(q, limit, seen, rows, KeySet(tuples[..start]), KeySet(batch));
      seen, sent := seen + rows, sent + [membership.value];
      start := end;
    }
    assert tuples[..|tuples|] == tuples;
  }

  lemma {:induction false} BatchKeys(tuples: seq<Tuple>, start: nat, end: nat)
    requires start <= end <= |tuples| && Distinct(tuples)
    ensures KeySet(tuples[..end]) == KeySet(tuples[..start]) + KeySet(tuples[start..end])
    ensures KeySet(tuples[..start]) !! KeySet(tuples[start..end])
  {
    assert tuples[..end] == tuples[..start] + tuples[start..end];
    forall t | t in tuples[..start]
      ensures t !in tuples[start..end]
    {
      var i :| 0 <= i < start && tuples[i] == t;
    }
  }

  // ---------- has-many and has-one ----------

  /** The distinct keys of the parents; parents without a key are passed over. */
  method CollectKeys(cols: seq<nat>, parents: seq<Row>) returns (tuples: seq<Tuple>)
    ensures tuples == DistinctKeys(cols, parents)
    ensures Distinct(tuples) && forall i :: 0 <= i < |tuples| ==> |tuples[i]| == |cols|
    ensures forall t :: t in tuples <==> HasKey(cols, parents, t)
  {
    tuples := [];
    var groups: set<Tuple> := {};
    for i := 0 to |parents|
      invariant tuples == DistinctKeys(cols, parents[..i]) && groups == KeySet(tuples)
    {
      assert parents[..i + 1][..i] == parents[..i];
      var tuple := KeyOf(cols, parents[i]);
      if tuple.None? {
        continue;
      }
      if tuple.value !in groups {
        tuples := tuples + [tuple.value];
      }
      groups := groups + {tuple.value};
    }
    assert parents[..|parents|] == parents;
    DistinctKeysAre(cols, parents);
  }

  lemma {:induction false} DistinctKeysAre(cols: seq<nat>, rows: seq<Row>)
    ensures Distinct(DistinctKeys(cols, rows))
    ensures forall i :: 0 <= i < |DistinctKeys(cols, rows)| ==> |DistinctKeys(cols, rows)[i]| == |cols|
    ensures forall t :: t in DistinctKeys(cols, rows) <==> HasKey(cols, rows, t)
  {
    DistinctKeysDistinct(cols, rows);
    var keys := DistinctKeys(cols, rows);
    forall t
      ensures t in keys <==> HasKey(cols, rows, t)
      ensures t in keys ==> |t| == |cols|
    {
      DistinctMembers(cols, rows, t);
    }
    forall i | 0 <= i < |keys|
      ensures |keys[i]| == |cols|
    {
      assert keys[i] in keys;
    }
  }

  ghost predicate Grouped(cols: seq<nat>, rows: seq<Row>, keys: set<Tuple>, loaded: map<Tuple, seq<Row>>) {
    loaded.Keys == keys && forall k :: k in keys ==> loaded[k] == Matching(cols, rows, {k})
  }

  lemma {:induction false} GroupedSnoc(cols: seq<nat>, rows: seq<Row>, r: Row, keys: set<Tuple>, loaded: map<Tuple, seq<Row>>)
    requires Grouped(cols, rows, keys, loaded) && Requested(cols, r, keys)
    ensures var key := KeyOf(cols, r).value;
            Grouped(cols, rows + [r], keys, loaded[key := loaded[key] + [r]])
  {
    var key := KeyOf(cols, r).value;
    forall k | k in keys
      ensures loaded[key := loaded[key] + [r]][k] == Matching(cols, rows + [r], {k})
    {
      MatchingSnoc(cols, rows, r, {k});
    }
  }

  /** Regroups returned rows by key; refuses a row whose key is absent or was not requested. */
  method GroupRows(cols: seq<nat>, seen: seq<Row>, keys: set<Tuple>) returns (r: Option<map<Tuple, seq<Row>>>)
    ensures r.Some? <==> AllRequested(cols, seen, keys)
    ensures r.Some? ==> Grouped(cols, seen, keys, r.value)
  {
    var loaded: map<Tuple, seq<Row>> := map k | k in keys :: [];
    for i := 0 to |seen|
      invariant GroupedTo(cols, seen, i, keys, loaded)
    {
      var tuple := KeyOf(cols, seen[i]);
      if tuple.None? || tuple.value !in keys {
        assert !Requested(cols, seen[i], keys);
        return None;
      }
      GroupedStep(cols, seen, i, keys, loaded);
      loaded := loaded[tuple.value := loaded[tuple.value] + [seen[i]]];
    }
    assert seen[..|seen|] == seen;
    return Some(loaded);
  }

  /** The first `n` rows were asked for, and `loaded` groups them. */
  ghost predicate GroupedTo(cols: seq<nat>, seen: seq<Row>, n: nat, keys: set<Tuple>, loaded: map<Tuple, seq<Row>>) {
    n <= |seen| && AllRequested(cols, seen[..n], keys) && Grouped(cols, seen[..n], keys, loaded)
  }

  lemma {:induction false} GroupedStep(cols: seq<nat>, seen: seq<Row>, n: nat, keys: set<Tuple>, loaded: map<Tuple, seq<Row>>)
    requires n < |seen| && GroupedTo(cols, seen, n, keys, loaded) && Requested(cols, seen[n], keys)
    ensures var key := KeyOf(cols, seen[n]).value;
            key in loaded && GroupedTo(cols, seen, n + 1, keys, loaded[key := loaded[key] + [seen[n]]])
  {
    assert seen[..n + 1] == seen[..n] + [seen[n]];
    GroupedSnoc(cols, seen[..n], seen[n], keys, loaded);
  }

  /** One statement per key, answered by batches: the rows of every key. */
  method LoadKeys(q: KeyedQuery, limit: nat, budget: nat, tuples: seq<Tuple>)
      returns (loaded: map<Tuple, seq<Row>>, sent: seq<Expr>)
    requires QueryAccepted(q, budget) && Distinct(tuples)
    requires forall i :: 0 <= i < |tuples| ==> |tuples[i]| == |q.cols|
    ensures loaded.Keys == KeySet(tuples)
    ensures forall k :: k in KeySet(tuples) ==> Returns(q, limit, RowsFor(q, limit, k), loaded[k])
    ensures SentWithin(q, budget, tuples, sent)
  {
    var seen;
    seen, sent := RunBatches(q, limit, budget, tuples);
    var grouped := GroupRows(q.cols, seen, KeySet(tuples));
    loaded := grouped.value;
  }

  /** At most one row is in order, whatever the order. */
  lemma {:induction false} OneRow(a: seq<Row>, b: seq<Row>)
    requires multiset(a) == multiset(b)
    ensures |a| == |b| && (|a| <= 1 ==> a == b)
  {
    assert |multiset(a)| == |a| && |multiset(b)| == |b|;
    if |a| == 1 {
      assert a[0] in multiset(b);
    }
  }

  /** Reading with the edge's own limit decides a parent the way the specification does. */
  lemma {:induction false} DirectParent(e: EdgeSpec, row: Row, rows: seq<Row>)
    requires !e.ManyThrough? && KeyOf(e.parent, row).Some?
    requires var limit := if e.HasOne? then 2 else e.limit;
             Returns(e.children, limit, RowsFor(e.children, limit, KeyOf(e.parent, row).value), rows)
    ensures EdgeOk(e, row) <==> !(e.HasOne? && |rows| > 1)
    ensures EdgeOk(e, row) ==> MayLoad(e, row, rows)
  {
    if e.HasOne? {
      OneRow(rows, RowsFor(e.children, 2, KeyOf(e.parent, row).value));
    }
  }

  /**
   What an edge hands a parent: the values to attach, and the work that goes on
   below them, each piece with the position of its value and the row to go on from.
   */
  datatype Children = Children(values: seq<Row>, work: seq<(nat, Row)>)

  /** Every value is worked on below, under its own position and from its own row. */
  ghost predicate Numbered(work: seq<(nat, Row)>, values: seq<Row>) {
    |work| <= |values| && forall j :: 0 <= j < |work| ==> work[j] == (j, values[j])
  }

  ghost predicate Loads(e: EdgeSpec, row: Row, c: Children) {
    EdgeOk(e, row) && MayLoad(e, row, c.values) && Numbered(c.work, c.values) && |c.work| == |c.values|
  }

  /** What loading an edge for `parents` amounts to: one query per parent. */
  ghost predicate EdgeLoaded(e: EdgeSpec, parents: seq<Row>, children: seq<Children>) {
    |children| == |parents| && forall i :: 0 <= i < |parents| ==> Loads(e, parents[i], children[i])
  }

  ghost predicate EdgeFails(e: EdgeSpec, parents: seq<Row>) {
    exists i :: 0 <= i < |parents| && !EdgeOk(e, parents[i])
  }

  lemma {:induction false} EdgeLoadedSnoc(e: EdgeSpec, parents: seq<Row>, i: nat, children: seq<Children>, c: Children)
    requires i < |parents| && EdgeLoaded(e, parents[..i], children) && Loads(e, parents[i], c)
    ensures EdgeLoaded(e, parents[..i + 1], children + [c])
  {
    var shorter, longer, more := parents[..i], parents[..i + 1], children + [c];
    forall k | 0 <= k < |longer|
      ensures Loads(e, longer[k], more[k])
    {
      if k < i {
        assert longer[k] == shorter[k] && more[k] == children[k];
        assert Loads(e, shorter[k], children[k]);
      }
    }
  }

  /** A statement an edge sent: which of its queries, and with which membership. */
  datatype Statement = Statement(query: KeyedQuery, membership: Expr)

  /** The statement is one of the edge's queries, for at least one key, and within the edge's budget. */
  ghost predicate SentFor(e: EdgeSpec, s: Statement) {
    && (s.query == e.children || (e.ManyThrough? && s.query == e.junction))
    && FitsBudget(s.query, e.budget, s.membership)
  }

  ghost predicate AllSentFor(e: EdgeSpec, sent: seq<Statement>) {
    forall i :: 0 <= i < |sent| ==> SentFor(e, sent[i])
  }

  function Statements(q: KeyedQuery, sent: seq<Expr>): (r: seq<Statement>)
    ensures |r| == |sent| && forall i :: 0 <= i < |sent| ==> r[i] == Statement(q, sent[i])
  {
    seq(|sent|, i requires 0 <= i < |sent| => Statement(q, sent[i]))
  }

  function NumberAll(rows: seq<Row>): (work: seq<(nat, Row)>)
    ensures |work| == |rows| && Numbered(work, rows)
  {
    seq(|rows|, j requires 0 <= j < |rows| => (j, rows[j]))
  }

  /** The children of one parent, or None when a has-one parent has several. */
  method DirectChildren(e: EdgeSpec, row: Row, loaded: map<Tuple, seq<Row>>) returns (r: Option<Children>)
    requires !e.ManyThrough? && (KeyOf(e.parent, row).Some? ==> KeyOf(e.parent, row).value in loaded)
    requires var limit := if e.HasOne? then 2 else e.limit;
             forall k :: k in loaded ==> Returns(e.children, limit, RowsFor(e.children, limit, k), loaded[k])
    ensures r.Some? <==> EdgeOk(e, row)
    ensures r.Some? ==> Loads(e, row, r.value)
  {
    var key := KeyOf(e.parent, row);
    if key.None? {
      return Some(Children([], []));
    }
    var rows := loaded[key.value];
    DirectParent(e, row, rows);
    if e.HasOne? && |rows| > 1 {
      return None;
    }
    return Some(Children(rows, NumberAll(rows)));
  }

  /** The children of every parent, in batches. */
  method LoadDirect(e: EdgeSpec, parents: seq<Row>) returns (r: Option<seq<Children>>, sent: seq<Statement>)
    requires !e.ManyThrough? && EdgeAccepted(e)
    ensures if r.Some? then EdgeLoaded(e, parents, r.value) else EdgeFails(e, parents)
    ensures AllSentFor(e, sent)
  {
    var tuples := CollectKeys(e.parent, parents);
    var loaded, memberships := LoadKeys(e.children, if e.HasOne? then 2 else e.limit, e.budget, tuples);
    sent := Statements(e.children, memberships);
    var children: seq<Children> := [];
    for i := 0 to |parents|
      invariant EdgeLoaded(e, parents[..i], children)
    {
      assert KeyOf(e.parent, parents[i]).Some? ==> HasKey(e.parent, parents, KeyOf(e.parent, parents[i]).value);
      var c := DirectChildren(e, parents[i], loaded);
      if c.None? {
        return None, sent;
      }
      EdgeLoadedSnoc(e, parents, i, children, c.value);
      children := children + [c.value];
    }
    assert parents[..|parents|] == parents;
    r := Some(children);
  }
}
