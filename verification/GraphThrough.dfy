/**
 Many-through edges (graph_execute.go): the junction rows of all parents, their
 distinct targets, the target rows, and the two parallel passes that hand every
 parent its own.
 */
module GraphThrough {
  import opened Wrappers
  import Sequences
  import opened ThreeValued
  import opened GraphMembership
  import opened PartitionLimit
  import opened GraphEdge

  lemma {:induction false} MatchingIncludes(cols: seq<nat>, rows: seq<Row>, i: nat)
    requires i < |rows| && KeyOf(cols, rows[i]).Some?
    ensures rows[i] in Matching(cols, rows, {KeyOf(cols, rows[i]).value})
  {
    if i < |rows| - 1 {
      MatchingIncludes(cols, rows[..|rows| - 1], i);
    }
  }

  lemma {:induction false} DistinctKeysSnoc(cols: seq<nat>, rows: seq<Row>, r: Row)
    requires KeyOf(cols, r).Some?
    ensures DistinctKeys(cols, rows + [r]) == AddDistinct(DistinctKeys(cols, rows), KeyOf(cols, r).value)
  {
    assert (rows + [r])[..|rows|] == rows;
  }

  // ---------- junction rows ----------

  /** The targets of every parent key, and all targets, both in first-occurrence order. */
  datatype Links = Links(byParent: map<Tuple, seq<Tuple>>, order: seq<Tuple>)

  ghost predicate LinksOf(cols: seq<nat>, target: seq<nat>, rows: seq<Row>, keys: set<Tuple>, links: Links) {
    && links.byParent.Keys == keys
    && (forall k :: k in keys ==> KeyLinks(cols, target, rows, links.byParent, k))
    && links.order == DistinctKeys(target, rows)
  }

  /** The distinct targets of the key's own rows. */
  ghost predicate KeyLinks(cols: seq<nat>, target: seq<nat>, rows: seq<Row>, byParent: map<Tuple, seq<Tuple>>, k: Tuple) {
    k in byParent && byParent[k] == DistinctKeys(target, Matching(cols, rows, {k}))
  }

  function AddLink(links: Links, parent: Tuple, t: Tuple): Links
    requires parent in links.byParent
  {
    Links(links.byParent[parent := AddDistinct(links.byParent[parent], t)], AddDistinct(links.order, t))
  }

  lemma {:induction false} LinksSnoc(cols: seq<nat>, target: seq<nat>, rows: seq<Row>, r: Row, keys: set<Tuple>, links: Links)
    requires LinksOf(cols, target, rows, keys, links) && Requested(cols, r, keys) && KeyOf(target, r).Some?
    ensures LinksOf(cols, target, rows + [r], keys, AddLink(links, KeyOf(cols, r).value, KeyOf(target, r).value))
  {
    DistinctKeysSnoc(target, rows, r);
    var grown := AddLink(links, KeyOf(cols, r).value, KeyOf(target, r).value);
    forall k | k in keys
      ensures KeyLinks(cols, target, rows + [r], grown.byParent, k)
    {
      assert KeyLinks(cols, target, rows, links.byParent, k);
      KeyLinksSnoc(cols, target, rows, r, k);
    }
  }

  lemma {:induction false} KeyLinksSnoc(cols: seq<nat>, target: seq<nat>, rows: seq<Row>, r: Row, k: Tuple)
    requires KeyOf(cols, r).Some? && KeyOf(target, r).Some?
    ensures var before := DistinctKeys(target, Matching(cols, rows, {k}));
            DistinctKeys(target, Matching(cols, rows + [r], {k}))
            == if k == KeyOf(cols, r).value then AddDistinct(before, KeyOf(target, r).value) else before
  {
    MatchingSnoc(cols, rows, r, {k});
    if k == KeyOf(cols, r).value {
      DistinctKeysSnoc(target, Matching(cols, rows, {k}), r);
    } else {
      assert Matching(cols, rows, {k}) + [] == Matching(cols, rows, {k});
    }
  }

  /** A junction row names a requested parent and a target. */
  ghost predicate LinkRow(cols: seq<nat>, target: seq<nat>, r: Row, keys: set<Tuple>) {
    Requested(cols, r, keys) && KeyOf(target, r).Some?
  }

  /** One junction row: checked, then linked unless its parent already has the target. */
  function NextLinks(cols: seq<nat>, target: seq<nat>, row: Row, links: Links): Option<Links> {
    var parentTuple, targetTuple := KeyOf(cols, row), KeyOf(target, row);
    if parentTuple.None? || parentTuple.value !in links.byParent || targetTuple.None? then None
    else Some(AddLink(links, parentTuple.value, targetTuple.value))
  }

  lemma {:induction false} NextLinksOf(cols: seq<nat>, target: seq<nat>, seen: seq<Row>, i: nat, keys: set<Tuple>, links: Links)
    requires i < |seen| && LinksOf(cols, target, seen[..i], keys, links)
    ensures NextLinks(cols, target, seen[i], links).Some? <==> LinkRow(cols, target, seen[i], keys)
    ensures NextLinks(cols, target, seen[i], links).Some? ==>
              LinksOf(cols, target, seen[..i + 1], keys, NextLinks(cols, target, seen[i], links).value)
  {
    if LinkRow(cols, target, seen[i], keys) {
      assert seen[..i + 1] == seen[..i] + [seen[i]];
      LinksSnoc(cols, target, seen[..i], seen[i], keys, links);
    }
  }

  ghost predicate LinkRows(cols: seq<nat>, target: seq<nat>, rows: seq<Row>, keys: set<Tuple>) {
    forall i {:trigger LinkRow(cols, target, rows[i], keys)} :: 0 <= i < |rows| ==> LinkRow(cols, target, rows[i], keys)
  }

  /** The first `n` rows are junction rows, and `links` holds what they link. */
  ghost predicate Linked(cols: seq<nat>, target: seq<nat>, seen: seq<Row>, n: nat, keys: set<Tuple>, links: Links) {
    && n <= |seen| && LinksOf(cols, target, seen[..n], keys, links)
    && forall i {:trigger LinkRow(cols, target, seen[i], keys)} :: 0 <= i < n ==> LinkRow(cols, target, seen[i], keys)
  }

  lemma {:induction false} LinkedStart(cols: seq<nat>, target: seq<nat>, seen: seq<Row>, keys: set<Tuple>)
    ensures Linked(cols, target, seen, 0, keys, NoLinks(keys))
  {
    NoLinksOf(cols, target, keys);
    assert seen[..0] == [];
  }

  lemma {:induction false} LinkedStep(cols: seq<nat>, target: seq<nat>, seen: seq<Row>, n: nat, keys: set<Tuple>, links: Links)
    requires n < |seen| && Linked(cols, target, seen, n, keys, links)
    ensures var next := NextLinks(cols, target, seen[n], links);
            if next.Some? then Linked(cols, target, seen, n + 1, keys, next.value) else !LinkRows(cols, target, seen, keys)
  {
    NextLinksOf(cols, target, seen, n, keys, links);
  }

  lemma {:induction false} LinkedEnd(cols: seq<nat>, target: seq<nat>, seen: seq<Row>, keys: set<Tuple>, links: Links)
    requires Linked(cols, target, seen, |seen|, keys, links)
    ensures LinkRows(cols, target, seen, keys) && LinksOf(cols, target, seen, keys, links)
  {
    assert seen[..|seen|] == seen;
  }

  /** Links every parent key to its targets; refuses a row without a requested parent or without a target. */
  method CollectLinks(cols: seq<nat>, target: seq<nat>, seen: seq<Row>, keys: set<Tuple>) returns (r: Option<Links>)
    ensures r.Some? <==> LinkRows(cols, target, seen, keys)
    ensures r.Some? ==> LinksOf(cols, target, seen, keys, r.value)
  {
    var links := NoLinks(keys);
    LinkedStart(cols, target, seen, keys);
    for i := 0 to |seen|
      invariant Linked(cols, target, seen, i, keys, links)
    {
      LinkedStep(cols, target, seen, i, keys, links);
      var next := NextLinks(cols, target, seen[i], links);
      if next.None? {
        return None;
      }
      links := next.value;
    }
    LinkedEnd(cols, target, seen, keys, links);
    return Some(links);
  }

  function NoLinks(keys: set<Tuple>): Links { Links(map k | k in keys :: [], []) }

  lemma {:induction false} NoLinksOf(cols: seq<nat>, target: seq<nat>, keys: set<Tuple>)
    ensures LinksOf(cols, target, [], keys, NoLinks(keys))
  {
  }

  // ---------- target rows ----------

  /** `index` holds the one row of every key that has one; no key has several. */
  ghost predicate Indexed(cols: seq<nat>, rows: seq<Row>, keys: set<Tuple>, index: map<Tuple, Row>) {
    forall k :: k in keys ==> Matching(cols, rows, {k}) == if k in index then [index[k]] else []
  }

  lemma {:induction false} IndexedSnoc(cols: seq<nat>, rows: seq<Row>, r: Row, keys: set<Tuple>, index: map<Tuple, Row>)
    requires Indexed(cols, rows, keys, index) && Requested(cols, r, keys) && KeyOf(cols, r).value !in index
    ensures Indexed(cols, rows + [r], keys, index[KeyOf(cols, r).value := r])
  {
    forall k | k in keys
      ensures Matching(cols, rows + [r], {k})
              == if k in index[KeyOf(cols, r).value := r] then [index[KeyOf(cols, r).value := r][k]] else []
    {
      MatchingSnoc(cols, rows, r, {k});
    }
  }

  lemma {:induction false} MatchingGrows(cols: seq<nat>, rows: seq<Row>, n: nat, key: Tuple)
    requires n <= |rows|
    ensures |Matching(cols, rows[..n], {key})| <= |Matching(cols, rows, {key})|
  {
    assert rows == rows[..n] + rows[n..];
    MatchingAppend(cols, rows[..n], rows[n..], {key});
  }

  /** Some key has several rows. */
  ghost predicate Doubled(cols: seq<nat>, seen: seq<Row>, keys: set<Tuple>) {
    exists k :: k in keys && |Matching(cols, seen, {k})| > 1
  }

  /** The first `n` rows were asked for, one per key, and `index` holds them. */
  ghost predicate IndexedTo(cols: seq<nat>, seen: seq<Row>, n: nat, keys: set<Tuple>, index: map<Tuple, Row>) {
    n <= |seen| && AllRequested(cols, seen[..n], keys) && Indexed(cols, seen[..n], keys, index)
  }

  lemma {:induction false} IndexedStep(cols: seq<nat>, seen: seq<Row>, n: nat, keys: set<Tuple>, index: map<Tuple, Row>)
    requires n < |seen| && IndexedTo(cols, seen, n, keys, index) && Requested(cols, seen[n], keys)
    requires KeyOf(cols, seen[n]).value !in index
    ensures IndexedTo(cols, seen, n + 1, keys, index[KeyOf(cols, seen[n]).value := seen[n]])
  {
    assert seen[..n + 1] == seen[..n] + [seen[n]];
    IndexedSnoc(cols, seen[..n], seen[n], keys, index);
  }

  lemma {:induction false} IndexedTwice(cols: seq<nat>, seen: seq<Row>, n: nat, keys: set<Tuple>, index: map<Tuple, Row>)
    requires n < |seen| && IndexedTo(cols, seen, n, keys, index) && Requested(cols, seen[n], keys)
    requires KeyOf(cols, seen[n]).value in index
    ensures Doubled(cols, seen, keys)
  {
    var key := KeyOf(cols, seen[n]).value;
    assert seen[..n + 1] == seen[..n] + [seen[n]];
    MatchingSnoc(cols, seen[..n], seen[n], {key});
    MatchingGrows(cols, seen, n + 1, key);
  }

  lemma {:induction false} IndexedEnd(cols: seq<nat>, seen: seq<Row>, keys: set<Tuple>, index: map<Tuple, Row>)
    requires IndexedTo(cols, seen, |seen|, keys, index)
    ensures AllRequested(cols, seen, keys) && Indexed(cols, seen, keys, index) && !Doubled(cols, seen, keys)
  {
    assert seen[..|seen|] == seen;
  }

  /** Indexes target rows by key; refuses a row nobody asked for and a second row for one key. */
  method IndexTargets(cols: seq<nat>, seen: seq<Row>, keys: set<Tuple>) returns (r: Option<map<Tuple, Row>>)
    ensures r.None? <==> !AllRequested(cols, seen, keys) || Doubled(cols, seen, keys)
    ensures r.Some? ==> Indexed(cols, seen, keys, r.value)
  {
    var targets: map<Tuple, Row> := map[];
    for i := 0 to |seen|
      invariant IndexedTo(cols, seen, i, keys, targets)
    {
      var tuple := KeyOf(cols, seen[i]);
      if tuple.None? || tuple.value !in keys {
        assert !Requested(cols, seen[i], keys);
        return None;
      }
      if tuple.value in targets {
        IndexedTwice(cols, seen, i, keys, targets);
        return None;
      }
      IndexedStep(cols, seen, i, keys, targets);
      targets := targets[tuple.value := seen[i]];
    }
    IndexedEnd(cols, seen, keys, targets);
    return Some(targets);
  }

  // ---------- one parent ----------

  ghost predicate LookedUp(q: KeyedQuery, targets: seq<Tuple>, index: map<Tuple, Row>) {
    forall i :: 0 <= i < |targets| ==> LookedUpOne(q, targets[i], index)
  }

  ghost predicate LookedUpOne(q: KeyedQuery, t: Tuple, index: map<Tuple, Row>) {
    Matching(q.cols, q.rows, {t}) == if t in index then [index[t]] else []
  }

  lemma {:induction false} LookupNext(q: KeyedQuery, targets: seq<Tuple>, n: nat, index: map<Tuple, Row>)
    requires n < |targets| && LookedUp(q, targets, index)
    ensures Lookup(q, targets[..n + 1])
            == Lookup(q, targets[..n]) + if targets[n] in index then [index[targets[n]]] else []
  {
    assert targets[..n + 1][..n] == targets[..n];
    assert LookedUpOne(q, targets[n], index);
  }

  ghost predicate Present(targets: seq<Tuple>, n: nat, index: map<Tuple, Row>, hasPredicates: bool)
    requires n <= |targets|
  {
    hasPredicates || forall i :: 0 <= i < n ==> targets[i] in index
  }

  lemma {:induction false} FoundExactly(q: KeyedQuery, targets: seq<Tuple>, index: map<Tuple, Row>, hasPredicates: bool)
    requires LookedUp(q, targets, index)
    ensures TargetsFound(q, targets, hasPredicates) <==> Present(targets, |targets|, index, hasPredicates)
  {
    forall i | 0 <= i < |targets|
      ensures TargetFound(q, targets[i], hasPredicates) <==> hasPredicates || targets[i] in index
    {
      assert LookedUpOne(q, targets[i], index);
    }
    if TargetsFound(q, targets, hasPredicates) {
      assert forall i :: 0 <= i < |targets| ==> TargetFound(q, targets[i], hasPredicates);
    }
  }

  /** The first pass: the values to attach, or None when a target is missing and may not be. */
  method FindTargets(q: KeyedQuery, targets: seq<Tuple>, index: map<Tuple, Row>, hasPredicates: bool)
      returns (r: Option<seq<Row>>)
    requires LookedUp(q, targets, index)
    ensures r.Some? <==> TargetsFound(q, targets, hasPredicates)
    ensures r.Some? ==> r.value == Lookup(q, targets)
  {
    var values: seq<Row> := [];
    FoundExactly(q, targets, index, hasPredicates);
    for i := 0 to |targets|
      invariant FoundTo(q, targets, i, index, hasPredicates, values)
    {
      FoundStep(q, targets, i, index, hasPredicates, values);
      if targets[i] !in index {
        if !hasPredicates {
          return None;
        }
        continue;
      }
      values := values + [index[targets[i]]];
    }
    assert targets[..|targets|] == targets;
    return Some(values);
  }

  /** The first `n` targets were found or may be missing, and `values` are their rows. */
  ghost predicate FoundTo(q: KeyedQuery, targets: seq<Tuple>, n: nat, index: map<Tuple, Row>, hasPredicates: bool, values: seq<Row>) {
    n <= |targets| && values == Lookup(q, targets[..n]) && Present(targets, n, index, hasPredicates)
  }

  lemma {:induction false} FoundStep(q: KeyedQuery, targets: seq<Tuple>, n: nat, index: map<Tuple, Row>, hasPredicates: bool, values: seq<Row>)
    requires LookedUp(q, targets, index) && n < |targets| && FoundTo(q, targets, n, index, hasPredicates, values)
    ensures targets[n] in index ==> FoundTo(q, targets, n + 1, index, hasPredicates, values + [index[targets[n]]])
    ensures targets[n] !in index && hasPredicates ==> FoundTo(q, targets, n + 1, index, hasPredicates, values)
    ensures targets[n] !in index && !hasPredicates ==> !Present(targets, |targets|, index, hasPredicates)
  {
    LookupNext(q, targets, n, index);
    assert values + [] == values;
  }

  /**
   The second pass: the work that continues below the attached values. It walks
   the same targets with its own index into what was attached; that index stays
   in bounds, and every row meets the value the first pass made of it.
   */
  method ContinueBelow(q: KeyedQuery, targets: seq<Tuple>, index: map<Tuple, Row>, attached: seq<Row>)
      returns (work: seq<(nat, Row)>)
    requires LookedUp(q, targets, index) && attached == Lookup(q, targets)
    ensures |work| == |attached| && Numbered(work, attached)
  {
    work := [];
    var attachedIndex := 0;
    for i := 0 to |targets|
      invariant attachedIndex == |work| && Worked(q, targets, i, attached, work)
    {
      WorkedStep(q, targets, index, i, attached, work);
      if targets[i] !in index {
        continue;
      }
      work := work + [(attachedIndex, index[targets[i]])];
      attachedIndex := attachedIndex + 1;
    }
    assert targets[..|targets|] == targets;
  }

  /** There is work for each of the first `n` targets that was found. */
  ghost predicate Worked(q: KeyedQuery, targets: seq<Tuple>, n: nat, attached: seq<Row>, work: seq<(nat, Row)>) {
    n <= |targets| && |work| == FoundBefore(q, targets, n) && Numbered(work, attached)
  }

  lemma {:induction false} WorkedStep(q: KeyedQuery, targets: seq<Tuple>, index: map<Tuple, Row>, n: nat, attached: seq<Row>, work: seq<(nat, Row)>)
    requires LookedUp(q, targets, index) && attached == Lookup(q, targets) && n < |targets| && Worked(q, targets, n, attached, work)
    ensures Worked(q, targets, n + 1, attached,
                   if targets[n] in index then work + [(|work|, index[targets[n]])] else work)
  {
    AttachedNext(q, targets, index, n);
    if targets[n] in index {
      NumberedSnoc(work, attached, index[targets[n]]);
    }
  }

  lemma {:induction false} NumberedSnoc(work: seq<(nat, Row)>, attached: seq<Row>, row: Row)
    requires Numbered(work, attached) && |work| < |attached| && attached[|work|] == row
    ensures Numbered(work + [(|work|, row)], attached)
  {
  }

  /** How many of the first `n` targets were found. */
  ghost function FoundBefore(q: KeyedQuery, targets: seq<Tuple>, n: nat): nat
    requires n <= |targets|
  {
    |Lookup(q, targets[..n])|
  }

  /** A target that was found is attached right after those of the targets before it. */
  lemma {:induction false} AttachedNext(q: KeyedQuery, targets: seq<Tuple>, index: map<Tuple, Row>, n: nat)
    requires n < |targets| && LookedUp(q, targets, index)
    ensures var before, after := FoundBefore(q, targets, n), FoundBefore(q, targets, n + 1);
            && after <= |Lookup(q, targets)|
            && after == (if targets[n] in index then before + 1 else before)
            && (targets[n] in index ==> Lookup(q, targets)[before] == index[targets[n]])
  {
    LookupNext(q, targets, n, index);
    LookupPrefix(q, targets, n + 1);
    assert targets[n] in index ==> Lookup(q, targets[..n + 1])[|Lookup(q, targets[..n])|] == index[targets[n]];
  }

  lemma {:induction false} LookupPrefix(q: KeyedQuery, targets: seq<Tuple>, n: nat)
    requires n <= |targets|
    ensures Lookup(q, targets[..n]) <= Lookup(q, targets)
    decreases |targets| - n
  {
    if n < |targets| {
      LookupPrefix(q, targets, n + 1);
      assert targets[..n + 1][..n] == targets[..n];
    } else {
      assert targets[..n] == targets;
    }
  }

  // ---------- the whole edge ----------

  lemma {:induction false} MatchingFrom(cols: seq<nat>, rows: seq<Row>, keys: set<Tuple>)
    ensures forall r :: r in Matching(cols, rows, keys) ==> r in rows
  {
    if rows != [] {
      MatchingFrom(cols, rows[..|rows| - 1], keys);
    }
  }

  /** The keys are those of the parents, and `seen` answers all of them. */
  ghost predicate Answered(e: EdgeSpec, parents: seq<Row>, keys: set<Tuple>, seen: seq<Row>)
    requires e.ManyThrough?
  {
    && (forall k :: k in keys <==> HasKey(e.parent, parents, k))
    && Serves(e.junction, e.limit, seen, keys)
  }

  lemma {:induction false} LinkOfParent(e: EdgeSpec, parents: seq<Row>, keys: set<Tuple>, seen: seq<Row>, i: nat) returns (p: nat)
    requires e.ManyThrough? && Answered(e, parents, keys, seen) && i < |seen|
    ensures p < |parents| && KeyOf(e.parent, parents[p]).Some?
    ensures seen[i] in RowsFor(e.junction, e.limit, KeyOf(e.parent, parents[p]).value)
  {
    assert Requested(e.junction.cols, seen[i], keys);
    var k := KeyOf(e.junction.cols, seen[i]).value;
    MatchingIncludes(e.junction.cols, seen, i);
    var own := Matching(e.junction.cols, seen, {k});
    assert Returns(e.junction, e.limit, RowsFor(e.junction, e.limit, k), own);
    var n :| 0 <= n < |own| && own[n] == seen[i];
    var m := Sequences.IndexIn(own, RowsFor(e.junction, e.limit, k), n);
    assert HasKey(e.parent, parents, k);
    p :| 0 <= p < |parents| && KeyOf(e.parent, parents[p]) == Some(k);
  }

  /** A junction row without a target fails the edge for the parent it belongs to. */
  lemma {:induction false} LinkMissing(e: EdgeSpec, parents: seq<Row>, keys: set<Tuple>, seen: seq<Row>)
    requires e.ManyThrough? && Answered(e, parents, keys, seen)
    requires !LinkRows(e.junction.cols, e.target, seen, keys)
    ensures EdgeFails(e, parents)
  {
    var i :| 0 <= i < |seen| && !LinkRow(e.junction.cols, e.target, seen[i], keys);
    assert Requested(e.junction.cols, seen[i], keys);
    var p := LinkOfParent(e, parents, keys, seen, i);
    var links := RowsFor(e.junction, e.limit, KeyOf(e.parent, parents[p]).value);
    var n :| 0 <= n < |links| && links[n] == seen[i];
    LinkUnkeyed(e, links, n);
    assert !EdgeOk(e, parents[p]);
  }

  lemma {:induction false} LinkUnkeyed(e: EdgeSpec, links: seq<Row>, n: nat)
    requires e.ManyThrough? && n < |links| && KeyOf(e.target, links[n]).None?
    ensures !LinksOk(e, links)
  {
  }

  /** A target with several rows fails the edge for every parent linked to it. */
  lemma {:induction false} TargetDoubled(e: EdgeSpec, parents: seq<Row>, keys: set<Tuple>, seen: seq<Row>, t: Tuple)
    requires e.ManyThrough? && Answered(e, parents, keys, seen)
    requires t in DistinctKeys(e.target, seen) && |Matching(e.children.cols, e.children.rows, {t})| > 1
    ensures EdgeFails(e, parents)
  {
    DistinctMembers(e.target, seen, t);
    var i :| 0 <= i < |seen| && KeyOf(e.target, seen[i]) == Some(t);
    var p := LinkOfParent(e, parents, keys, seen, i);
    var links := RowsFor(e.junction, e.limit, KeyOf(e.parent, parents[p]).value);
    var n :| 0 <= n < |links| && links[n] == seen[i];
    LinkDoubled(e, links, n, t);
    assert !EdgeOk(e, parents[p]);
  }

  lemma {:induction false} LinkDoubled(e: EdgeSpec, links: seq<Row>, n: nat, t: Tuple)
    requires e.ManyThrough? && n < |links| && KeyOf(e.target, links[n]) == Some(t)
    requires |Matching(e.children.cols, e.children.rows, {t})| > 1
    ensures !LinksOk(e, links)
  {
    assert HasKey(e.target, links, t);
    DistinctMembers(e.target, links, t);
    var targets := DistinctKeys(e.target, links);
    var m :| 0 <= m < |targets| && targets[m] == t;
    assert !TargetFound(e.children, targets[m], e.hasPredicates);
  }

  /** `own` are junction rows of the key, all with targets, which `byParent` lists and `index` knows. */
  ghost predicate LinksFor(e: EdgeSpec, k: Tuple, own: seq<Row>, byParent: map<Tuple, seq<Tuple>>, index: map<Tuple, Row>)
    requires e.ManyThrough?
  {
    && Returns(e.junction, e.limit, RowsFor(e.junction, e.limit, k), own) && AllKeyed(e.target, own)
    && k in byParent && byParent[k] == DistinctKeys(e.target, own) && LookedUp(e.children, byParent[k], index)
  }

  /** What the two rounds of statements established, for one parent key. */
  lemma {:induction false} LinksOfKey(e: EdgeSpec, parents: seq<Row>, keys: set<Tuple>, seen: seq<Row>, links: Links, rows: seq<Row>,
                   index: map<Tuple, Row>, k: Tuple)
    requires e.ManyThrough? && Answered(e, parents, keys, seen) && k in keys
    requires LinkRows(e.junction.cols, e.target, seen, keys)
    requires LinksOf(e.junction.cols, e.target, seen, keys, links)
    requires Serves(e.children, 0, rows, KeySet(links.order)) && Indexed(e.children.cols, rows, KeySet(links.order), index)
    ensures LinksFor(e, k, Matching(e.junction.cols, seen, {k}), links.byParent, index)
  {
    var own := Matching(e.junction.cols, seen, {k});
    MatchingFrom(e.junction.cols, seen, {k});
    forall i | 0 <= i < |own|
      ensures KeyOf(e.target, own[i]).Some?
    {
      assert own[i] in seen;
      var n :| 0 <= n < |seen| && seen[n] == own[i];
      assert LinkRow(e.junction.cols, e.target, seen[n], keys);
    }
    assert KeyLinks(e.junction.cols, e.target, seen, links.byParent, k);
    var targets := links.byParent[k];
    forall m | 0 <= m < |targets|
      ensures LookedUpOne(e.children, targets[m], index)
    {
      TargetKnown(e.target, own, seen, targets[m]);
      KnownTarget(e, rows, KeySet(links.order), index, targets[m]);
    }
  }

  /** The one row of a target is the one its own statement finds. */
  lemma {:induction false} KnownTarget(e: EdgeSpec, rows: seq<Row>, keys: set<Tuple>, index: map<Tuple, Row>, t: Tuple)
    requires Serves(e.children, 0, rows, keys) && Indexed(e.children.cols, rows, keys, index) && t in keys
    ensures LookedUpOne(e.children, t, index)
  {
    var own := Matching(e.children.cols, rows, {t});
    assert Returns(e.children, 0, RowsFor(e.children, 0, t), own);
    OneRow(own, Matching(e.children.cols, e.children.rows, {t}));
  }

  lemma {:induction false} TargetKnown(cols: seq<nat>, own: seq<Row>, seen: seq<Row>, t: Tuple)
    requires forall r :: r in own ==> r in seen
    requires t in DistinctKeys(cols, own)
    ensures t in DistinctKeys(cols, seen)
  {
    DistinctKeysAre(cols, own);
    DistinctKeysAre(cols, seen);
    assert HasKey(cols, own, t);
    var i :| 0 <= i < |own| && KeyOf(cols, own[i]) == Some(t);
    assert own[i] in seen;
    var n :| 0 <= n < |seen| && seen[n] == own[i];
    assert HasKey(cols, seen, t);
  }

  /** What junction rows in any order say about a parent is what the specification says. */
  lemma {:induction false} ThroughParent(e: EdgeSpec, row: Row, own: seq<Row>, values: seq<Row>)
    requires e.ManyThrough? && KeyOf(e.parent, row).Some? && AllKeyed(e.target, own)
    requires Returns(e.junction, e.limit, RowsFor(e.junction, e.limit, KeyOf(e.parent, row).value), own)
    ensures EdgeOk(e, row) <==> TargetsFound(e.children, DistinctKeys(e.target, own), e.hasPredicates)
    ensures values == Lookup(e.children, DistinctKeys(e.target, own)) ==> MayLoad(e, row, values)
  {
    LinksOkAnyOrder(e, RowsFor(e.junction, e.limit, KeyOf(e.parent, row).value), own);
  }

  /** The children of one parent, once junction and target rows are in: `own` are its junction rows. */
  method ThroughChildren(e: EdgeSpec, row: Row, ghost own: seq<Row>, byParent: map<Tuple, seq<Tuple>>, index: map<Tuple, Row>)
      returns (r: Option<Children>)
    requires e.ManyThrough?
    requires KeyOf(e.parent, row).Some? ==> LinksFor(e, KeyOf(e.parent, row).value, own, byParent, index)
    ensures r.Some? <==> EdgeOk(e, row)
    ensures r.Some? ==> Loads(e, row, r.value)
  {
    var key := KeyOf(e.parent, row);
    if key.None? {
      return Some(Children([], []));
    }
    var targets := byParent[key.value];
    var values := FindTargets(e.children, targets, index, e.hasPredicates);
    if values.None? {
      ThroughParent(e, row, own, []);
      return None;
    }
    ThroughParent(e, row, own, values.value);
    var work := ContinueBelow(e.children, targets, index, values.value);
    return Some(Children(values.value, work));
  }

  /**
   Gives every parent its distinct junction targets, looked up in the target query,
   in the order its junction rows came back; or fails when one parent alone would.
   */
  method LoadThrough(e: EdgeSpec, parents: seq<Row>) returns (r: Option<seq<Children>>, sent: seq<Statement>)
    requires e.ManyThrough? && EdgeAccepted(e)
    ensures if r.Some? then EdgeLoaded(e, parents, r.value) else EdgeFails(e, parents)
    ensures AllSentFor(e, sent)
  {
    var tuples := CollectKeys(e.parent, parents);
    var keys := KeySet(tuples);
    var seen, first := RunBatches(e.junction, e.limit, e.budget, tuples);
    sent := Statements(e.junction, first);
    assert Answered(e, parents, keys, seen);
    var links := CollectLinks(e.junction.cols, e.target, seen, keys);
    if links.None? {
      LinkMissing(e, parents, keys, seen);
      return None, sent;
    }
    var second;
    r, second := LoadTargets(e, parents, keys, seen, links.value);
    sent := sent + second;
  }

  /** The second round: the rows of all targets, handed out to the parents. */
  method LoadTargets(e: EdgeSpec, parents: seq<Row>, ghost keys: set<Tuple>, ghost seen: seq<Row>, links: Links)
      returns (r: Option<seq<Children>>, sent: seq<Statement>)
    requires e.ManyThrough? && EdgeAccepted(e) && Answered(e, parents, keys, seen)
    requires LinkRows(e.junction.cols, e.target, seen, keys)
    requires LinksOf(e.junction.cols, e.target, seen, keys, links)
    ensures if r.Some? then EdgeLoaded(e, parents, r.value) else EdgeFails(e, parents)
    ensures AllSentFor(e, sent)
  {
    DistinctKeysAre(e.target, seen);
    var rows, memberships := RunBatches(e.children, 0, e.budget, links.order);
    sent := Statements(e.children, memberships);
    var index := IndexTargets(e.children.cols, rows, KeySet(links.order));
    if index.None? {
      SecondRow(e, parents, keys, seen, links, rows);
      return None, sent;
    }
    r := HandOut(e, parents, keys, seen, links, rows, index.value);
  }

  lemma {:induction false} SecondRow(e: EdgeSpec, parents: seq<Row>, keys: set<Tuple>, seen: seq<Row>, links: Links, rows: seq<Row>)
    requires e.ManyThrough? && Answered(e, parents, keys, seen) && links.order == DistinctKeys(e.target, seen)
    requires Serves(e.children, 0, rows, KeySet(links.order)) && Doubled(e.children.cols, rows, KeySet(links.order))
    ensures EdgeFails(e, parents)
  {
    var t :| t in KeySet(links.order) && |Matching(e.children.cols, rows, {t})| > 1;
    assert Returns(e.children, 0, RowsFor(e.children, 0, t), Matching(e.children.cols, rows, {t}));
    OneRow(Matching(e.children.cols, rows, {t}), Matching(e.children.cols, e.children.rows, {t}));
    TargetDoubled(e, parents, keys, seen, t);
  }

  method HandOut(e: EdgeSpec, parents: seq<Row>, ghost keys: set<Tuple>, ghost seen: seq<Row>, links: Links,
                 ghost rows: seq<Row>, index: map<Tuple, Row>) returns (r: Option<seq<Children>>)
    requires e.ManyThrough? && Answered(e, parents, keys, seen)
    requires LinkRows(e.junction.cols, e.target, seen, keys)
    requires LinksOf(e.junction.cols, e.target, seen, keys, links)
    requires Serves(e.children, 0, rows, KeySet(links.order)) && Indexed(e.children.cols, rows, KeySet(links.order), index)
    ensures if r.Some? then EdgeLoaded(e, parents, r.value) else EdgeFails(e, parents)
  {
    var children: seq<Children> := [];
    for i := 0 to |parents|
      invariant EdgeLoaded(e, parents[..i], children)
    {
      ghost var own: seq<Row> := [];
      if KeyOf(e.parent, parents[i]).Some? {
        ghost var k := KeyOf(e.parent, parents[i]).value;
        assert HasKey(e.parent, parents, k);
        own := Matching(e.junction.cols, seen, {k});
        LinksOfKey(e, parents, keys, seen, links, rows, index, k);
      }
      var c := ThroughChildren(e, parents[i], own, links.byParent, index);
      if c.None? {
        return None;
      }
      EdgeLoadedSnoc(e, parents, i, children, c.value);
      children := children + [c.value];
    }
    assert parents[..|parents|] == parents;
    return Some(children);
  }

  /** executeGraphEdge: the children of every parent of one edge, and the statements that fetched them. */
  method LoadEdge(e: EdgeSpec, parents: seq<Row>) returns (r: Option<seq<Children>>, sent: seq<Statement>)
    requires EdgeAccepted(e)
    ensures if r.Some? then EdgeLoaded(e, parents, r.value) else EdgeFails(e, parents)
    ensures AllSentFor(e, sent)
  {
    if e.ManyThrough? {
      r, sent := LoadThrough(e, parents);
    } else {
      r, sent := LoadDirect(e, parents);
    }
  }
}
