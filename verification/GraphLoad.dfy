/**
 The graph loader (graph_execute.go): a plan is validated, then expanded level by
 level with one batched load per edge, and the attach callbacks run last, deepest
 first.
 */
module GraphLoad {
  import opened Wrappers
  import opened ThreeValued
  import opened GraphMembership
  import opened GraphEdge
  import opened GraphThrough
  import opened GraphSpec
  import Sequences
  import V = GraphValidate

  // ---------- the expansion ----------

  /** A value being built: where a work item keeps its row. Children are copies with cells of their own. */
  datatype Cell = Cell(node: nat, row: Row, depth: nat)

  /** An attach callback: copies the values of the `kids` cells into the parent cell. */
  datatype Deferred = Deferred(parent: nat, edge: nat, kids: seq<nat>, depth: nat)

  ghost predicate CellsOk(rank: map<nat, nat>, cells: seq<Cell>) {
    forall c :: 0 <= c < |cells| ==> cells[c].node in rank
  }

  /** `d` attaches to its parent exactly the child rows of one of its edges. */
  ghost predicate Attaches(plan: Plan, cells: seq<Cell>, d: Deferred) {
    && d.parent < |cells| && cells[d.parent].node < |plan.nodes| && d.edge in plan.nodes[cells[d.parent].node]
    && d.edge < |plan.edges| && d.depth == cells[d.parent].depth
    && EdgeOk(plan.edges[d.edge].spec, cells[d.parent].row)
    && KidsOf(plan.edges[d.edge], cells, cells[d.parent], d.kids)
  }

  function RowsAt(cells: seq<Cell>, kids: seq<nat>): (r: seq<Row>)
    requires forall j :: 0 <= j < |kids| ==> kids[j] < |cells|
    ensures |r| == |kids| && forall j :: 0 <= j < |kids| ==> r[j] == cells[kids[j]].row
  {
    seq(|kids|, j requires 0 <= j < |kids| => cells[kids[j]].row)
  }

  /** The kids are cells of the child node, one level down. */
  ghost predicate KidsBelow(edge: PlanEdge, cells: seq<Cell>, depth: nat, kids: seq<nat>) {
    forall j :: 0 <= j < |kids| ==>
      kids[j] < |cells| && cells[kids[j]].node == edge.child && cells[kids[j]].depth == depth + 1
  }

  /** And their rows are what one query for the parent may return. */
  ghost predicate KidsOf(edge: PlanEdge, cells: seq<Cell>, parent: Cell, kids: seq<nat>) {
    KidsBelow(edge, cells, parent.depth, kids) && MayLoad(edge.spec, parent.row, RowsAt(cells, kids))
  }

  ghost predicate AllAttach(plan: Plan, cells: seq<Cell>, deferred: seq<Deferred>) {
    forall i :: 0 <= i < |deferred| ==> Attaches(plan, cells, deferred[i])
  }

  ghost predicate Has(deferred: seq<Deferred>, c: nat, e: nat) {
    exists i :: 0 <= i < |deferred| && deferred[i].parent == c && deferred[i].edge == e
  }

  /** Every edge of the cell has its callback. */
  ghost predicate Covered(plan: Plan, cells: seq<Cell>, deferred: seq<Deferred>, c: nat)
    requires c < |cells|
  {
    cells[c].node < |plan.nodes| && forall e :: e in plan.nodes[cells[c].node] ==> Has(deferred, c, e)
  }

  lemma {:induction false} AttachesGrows(plan: Plan, cells: seq<Cell>, more: seq<Cell>, d: Deferred)
    requires Attaches(plan, cells, d) && cells <= more
    ensures Attaches(plan, more, d)
  {
    assert more[d.parent] == cells[d.parent];
    assert forall j :: 0 <= j < |d.kids| ==> more[d.kids[j]] == cells[d.kids[j]];
    assert RowsAt(more, d.kids) == RowsAt(cells, d.kids);
  }

  lemma {:induction false} AllAttachGrows(plan: Plan, cells: seq<Cell>, more: seq<Cell>, deferred: seq<Deferred>)
    requires AllAttach(plan, cells, deferred) && cells <= more
    ensures AllAttach(plan, more, deferred)
  {
    forall i | 0 <= i < |deferred|
      ensures Attaches(plan, more, deferred[i])
    {
      AttachesGrows(plan, cells, more, deferred[i]);
    }
  }

  lemma {:induction false} HasGrows(deferred: seq<Deferred>, more: seq<Deferred>, c: nat, e: nat)
    requires Has(deferred, c, e) && deferred <= more
    ensures Has(more, c, e)
  {
    var i :| 0 <= i < |deferred| && deferred[i].parent == c && deferred[i].edge == e;
    assert more[i] == deferred[i];
  }

  function NewCells(child: nat, rows: seq<Row>, depth: nat): (r: seq<Cell>)
    ensures |r| == |rows| && forall j :: 0 <= j < |rows| ==> r[j] == Cell(child, rows[j], depth)
  {
    seq(|rows|, j requires 0 <= j < |rows| => Cell(child, rows[j], depth))
  }

  function Fresh(first: nat, n: nat): (r: seq<nat>)
    ensures |r| == n && forall j :: 0 <= j < n ==> r[j] == first + j
  {
    seq(n, j requires 0 <= j => first + j)
  }

  /** The callback for one parent's children, and the expansion with their fresh cells. */
  function CallbackFor(x: Expansion, e: nat, parent: nat, rows: seq<Row>): Deferred
    requires parent < |x.cells|
  {
    Deferred(parent, e, Fresh(|x.cells|, |rows|), x.cells[parent].depth)
  }

  function Attached(x: Expansion, e: nat, child: nat, parent: nat, rows: seq<Row>): Expansion
    requires parent < |x.cells|
  {
    Expansion(x.cells + NewCells(child, rows, x.cells[parent].depth + 1), x.deferred + [CallbackFor(x, e, parent, rows)])
  }

  /** The state of the expansion between two edges. */
  datatype Expansion = Expansion(cells: seq<Cell>, deferred: seq<Deferred>)

  /**
   One parent's children: fresh cells for the values, the callback that attaches
   them, and the work below, each piece at the cell of the value it belongs to.
   */
  method AttachChildren(x: Expansion, e: nat, child: nat, parent: nat, c: Children)
      returns (y: Expansion, next: seq<nat>)
    requires parent < |x.cells| && Numbered(c.work, c.values) && |c.work| == |c.values|
    ensures y == Attached(x, e, child, parent, c.values) && next == Fresh(|x.cells|, |c.values|)
  {
    var depth := x.cells[parent].depth;
    var added: seq<Cell> := [];
    var attached: seq<nat> := [];
    for j := 0 to |c.values|
      invariant added == NewCells(child, c.values, depth + 1)[..j] && attached == Fresh(|x.cells|, |c.values|)[..j]
    {
      attached := attached + [|x.cells| + j];
      added := added + [Cell(child, c.values[j], depth + 1)];
    }
    assert added == NewCells(child, c.values, depth + 1) && attached == Fresh(|x.cells|, |c.values|);
    next := [];
    for j := 0 to |c.work|
      invariant next == attached[..j]
    {
      next := next + [attached[c.work[j].0]];
    }
    y := Expansion(x.cells + added, x.deferred + [Deferred(parent, e, attached, depth)]);
  }

  lemma {:induction false} FreshAttaches(plan: Plan, e: nat, parent: nat, cells: seq<Cell>, rows: seq<Row>)
    requires parent < |cells| && cells[parent].node < |plan.nodes| && e in plan.nodes[cells[parent].node] && e < |plan.edges|
    requires EdgeOk(plan.edges[e].spec, cells[parent].row) && MayLoad(plan.edges[e].spec, cells[parent].row, rows)
    ensures var more := cells + NewCells(plan.edges[e].child, rows, cells[parent].depth + 1);
            Attaches(plan, more, Deferred(parent, e, Fresh(|cells|, |rows|), cells[parent].depth))
  {
    FreshKidsOf(cells, plan.edges[e], cells[parent], rows);
    var more := cells + NewCells(plan.edges[e].child, rows, cells[parent].depth + 1);
    AttachesMore(plan, cells, more, Deferred(parent, e, Fresh(|cells|, |rows|), cells[parent].depth));
  }

  lemma {:induction false} AttachesMore(plan: Plan, cells: seq<Cell>, more: seq<Cell>, d: Deferred)
    requires cells <= more && d.parent < |cells| && cells[d.parent].node < |plan.nodes| && d.edge < |plan.edges|
    requires d.edge in plan.nodes[cells[d.parent].node] && d.depth == cells[d.parent].depth
    requires EdgeOk(plan.edges[d.edge].spec, cells[d.parent].row) && KidsOf(plan.edges[d.edge], more, cells[d.parent], d.kids)
    ensures Attaches(plan, more, d)
  {
    assert more[d.parent] == cells[d.parent];
  }

  lemma {:induction false} FreshKidsOf(cells: seq<Cell>, edge: PlanEdge, parent: Cell, rows: seq<Row>)
    requires MayLoad(edge.spec, parent.row, rows)
    ensures KidsOf(edge, cells + NewCells(edge.child, rows, parent.depth + 1), parent, Fresh(|cells|, |rows|))
  {
    FreshKids(cells, edge, rows, parent.depth);
    FreshRows(cells, edge.child, rows, parent.depth + 1);
  }

  lemma {:induction false} FreshKid(cells: seq<Cell>, child: nat, rows: seq<Row>, depth: nat, j: nat)
    requires j < |rows|
    ensures Fresh(|cells|, |rows|)[j] == |cells| + j
    ensures (cells + NewCells(child, rows, depth))[|cells| + j] == Cell(child, rows[j], depth)
  {
    assert (cells + NewCells(child, rows, depth))[|cells| + j] == NewCells(child, rows, depth)[j];
  }

  lemma {:induction false} FreshKids(cells: seq<Cell>, edge: PlanEdge, rows: seq<Row>, depth: nat)
    ensures KidsBelow(edge, cells + NewCells(edge.child, rows, depth + 1), depth, Fresh(|cells|, |rows|))
  {
    var more, kids := cells + NewCells(edge.child, rows, depth + 1), Fresh(|cells|, |rows|);
    forall j | 0 <= j < |kids|
      ensures kids[j] < |more| && more[kids[j]].node == edge.child && more[kids[j]].depth == depth + 1
    {
      FreshKid(cells, edge.child, rows, depth + 1, j);
    }
  }

  lemma {:induction false} FreshRows(cells: seq<Cell>, child: nat, rows: seq<Row>, depth: nat)
    ensures forall j :: 0 <= j < |rows| ==> Fresh(|cells|, |rows|)[j] < |cells + NewCells(child, rows, depth)|
    ensures RowsAt(cells + NewCells(child, rows, depth), Fresh(|cells|, |rows|)) == rows
  {
    var more, kids := cells + NewCells(child, rows, depth), Fresh(|cells|, |rows|);
    var found := RowsAt(more, kids);
    forall j | 0 <= j < |rows|
      ensures found[j] == rows[j]
    {
      FreshKid(cells, child, rows, depth, j);
    }
  }

  /** Nothing is to blame: the recursive loader succeeds for every cell. */
  ghost predicate AllLoad(plan: Plan, rank: map<nat, nat>, cells: seq<Cell>)
    requires Ranked(plan, rank) && CellsOk(rank, cells)
  {
    forall c :: 0 <= c < |cells| ==> LoadsOk(plan, rank, cells[c].node, cells[c].row)
  }

  /** All callbacks are well formed; unless some root is to blame, every cell loads. */
  ghost predicate ExpansionOk(plan: Plan, rank: map<nat, nat>, x: Expansion, blame: bool)
    requires Ranked(plan, rank)
  {
    CellsOk(rank, x.cells) && AllAttach(plan, x.cells, x.deferred) && (blame || AllLoad(plan, rank, x.cells))
  }

  ghost predicate Extends(x: Expansion, y: Expansion) { x.cells <= y.cells && x.deferred <= y.deferred }

  /** The cell `parent` has the edge `e`, and one query for it may return `rows`. */
  ghost predicate Yields(plan: Plan, cells: seq<Cell>, parent: nat, e: nat, rows: seq<Row>) {
    && parent < |cells| && cells[parent].node < |plan.nodes| && e in plan.nodes[cells[parent].node] && e < |plan.edges|
    && EdgeOk(plan.edges[e].spec, cells[parent].row) && MayLoad(plan.edges[e].spec, cells[parent].row, rows)
  }

  /** Adding one parent's children keeps the expansion well formed. */
  lemma {:induction false} AttachOk(plan: Plan, rank: map<nat, nat>, x: Expansion, blame: bool, e: nat, parent: nat, rows: seq<Row>)
    requires Ranked(plan, rank) && ExpansionOk(plan, rank, x, blame) && Yields(plan, x.cells, parent, e, rows)
    ensures ExpansionOk(plan, rank, Attached(x, e, plan.edges[e].child, parent, rows), blame)
  {
    AttachCallbacks(plan, x, e, parent, rows);
    AttachRanks(plan, rank, x, e, parent, rows);
    if !blame {
      AttachLoads(plan, rank, x, e, parent, rows);
    }
  }

  lemma {:induction false} AttachCallbacks(plan: Plan, x: Expansion, e: nat, parent: nat, rows: seq<Row>)
    requires AllAttach(plan, x.cells, x.deferred) && Yields(plan, x.cells, parent, e, rows)
    ensures var y := Attached(x, e, plan.edges[e].child, parent, rows); AllAttach(plan, y.cells, y.deferred)
  {
    var y := Attached(x, e, plan.edges[e].child, parent, rows);
    FreshAttaches(plan, e, parent, x.cells, rows);
    AllAttachGrows(plan, x.cells, y.cells, x.deferred);
  }

  lemma {:induction false} AttachRanks(plan: Plan, rank: map<nat, nat>, x: Expansion, e: nat, parent: nat, rows: seq<Row>)
    requires Ranked(plan, rank) && CellsOk(rank, x.cells) && Yields(plan, x.cells, parent, e, rows)
    ensures plan.edges[e].child in rank && CellsOk(rank, Attached(x, e, plan.edges[e].child, parent, rows).cells)
  {
    assert RankedNode(plan, rank, x.cells[parent].node);
  }

  lemma {:induction false} AttachLoads(plan: Plan, rank: map<nat, nat>, x: Expansion, e: nat, parent: nat, rows: seq<Row>)
    requires Ranked(plan, rank) && CellsOk(rank, x.cells) && AllLoad(plan, rank, x.cells) && Yields(plan, x.cells, parent, e, rows)
    requires CellsOk(rank, Attached(x, e, plan.edges[e].child, parent, rows).cells)
    ensures AllLoad(plan, rank, Attached(x, e, plan.edges[e].child, parent, rows).cells)
  {
    var y := Attached(x, e, plan.edges[e].child, parent, rows);
    var above := x.cells[parent];
    assert LoadsOk(plan, rank, above.node, above.row);
    forall c | 0 <= c < |y.cells|
      ensures LoadsOk(plan, rank, y.cells[c].node, y.cells[c].row)
    {
      if c < |x.cells| {
        assert y.cells[c] == x.cells[c];
      } else {
        assert y.cells[c] == Cell(plan.edges[e].child, rows[c - |x.cells|], above.depth + 1);
        ChildLoads(plan, rank, above.node, above.row, e, rows, c - |x.cells|);
      }
    }
  }

  /** A row that loads has child rows that load. */
  lemma {:induction false} ChildLoads(plan: Plan, rank: map<nat, nat>, v: nat, row: Row, e: nat, rows: seq<Row>, j: nat)
    requires Ranked(plan, rank) && v in rank && v < |plan.nodes| && e in plan.nodes[v] && LoadsOk(plan, rank, v, row)
    requires e < |plan.edges| && MayLoad(plan.edges[e].spec, row, rows) && j < |rows|
    ensures plan.edges[e].child in rank && LoadsOk(plan, rank, plan.edges[e].child, rows[j])
  {
    assert RankedNode(plan, rank, v);
    MayLoadRows(plan.edges[e].spec, row, rows);
    var k := Sequences.IndexIn(rows, ChildRows(plan.edges[e].spec, row), j);
    assert rows[j] in ChildRows(plan.edges[e].spec, row);
  }

  // ---------- one level ----------

  datatype EdgeWork = EdgeWork(edge: nat, parents: seq<nat>)

  ghost predicate InQueue(plan: Plan, cells: seq<Cell>, queue: seq<nat>) {
    forall i :: 0 <= i < |queue| ==> queue[i] < |cells| && cells[queue[i]].node < |plan.nodes|
  }

  /** Every parent listed under an edge is a queued cell that has the edge. */
  ghost predicate WorksOk(plan: Plan, cells: seq<Cell>, works: seq<EdgeWork>) {
    forall w, i :: 0 <= w < |works| && 0 <= i < |works[w].parents| ==>
      var c := works[w].parents[i];
      c < |cells| && cells[c].node < |plan.nodes| && works[w].edge in plan.nodes[cells[c].node]
  }

  ghost predicate Listed(works: seq<EdgeWork>, c: nat, e: nat) {
    exists w :: 0 <= w < |works| && works[w].edge == e && c in works[w].parents
  }

  ghost predicate FromQueue(works: seq<EdgeWork>, queue: seq<nat>) {
    forall w :: 0 <= w < |works| ==>
      works[w].parents != [] && forall i :: 0 <= i < |works[w].parents| ==> works[w].parents[i] in queue
  }

  /** `c` once for every time `e` is among the edges. */
  function Copies(edges: seq<nat>, e: nat, c: nat): seq<nat> {
    if edges == [] then [] else Copies(edges[..|edges| - 1], e, c) + if edges[|edges| - 1] == e then [c] else []
  }

  /** The parents of an edge, in queue order: every queued cell, as often as its node lists the edge. */
  function ParentsOf(plan: Plan, cells: seq<Cell>, queue: seq<nat>, e: nat): seq<nat>
    requires InQueue(plan, cells, queue)
  {
    if queue == [] then [] else
    var n := |queue| - 1;
    ParentsOf(plan, cells, queue[..n], e) + Copies(plan.nodes[cells[queue[n]].node], e, queue[n])
  }

  lemma {:induction false} CopiesCount(edges: seq<nat>, e: nat, c: nat)
    ensures |Copies(edges, e, c)| == multiset(edges)[e]
  {
    if edges != [] {
      var before, last := edges[..|edges| - 1], edges[|edges| - 1];
      CopiesCount(before, e, c);
      assert edges == before + [last];
      Sequences.CountSnoc(before, last, e);
    }
  }

  lemma {:induction false} CopiesAre(edges: seq<nat>, e: nat, c: nat)
    ensures forall k :: k in Copies(edges, e, c) ==> k == c
    ensures Copies(edges, e, c) != [] <==> e in edges
  {
    if edges != [] {
      var n := |edges| - 1;
      CopiesAre(edges[..n], e, c);
      assert edges == edges[..n] + [edges[n]];
    }
  }

  lemma {:induction false} ParentsAre(plan: Plan, cells: seq<Cell>, queue: seq<nat>, e: nat, c: nat)
    requires InQueue(plan, cells, queue)
    ensures c in ParentsOf(plan, cells, queue, e) <==> c in queue && e in plan.nodes[cells[c].node]
  {
    if queue != [] {
      var n := |queue| - 1;
      ParentsAre(plan, cells, queue[..n], e, c);
      var copies := Copies(plan.nodes[cells[queue[n]].node], e, queue[n]);
      CopiesAre(plan.nodes[cells[queue[n]].node], e, queue[n]);
      assert queue == queue[..n] + [queue[n]];
      assert e in plan.nodes[cells[queue[n]].node] ==> copies[0] in copies;
    }
  }

  /** Adds a queued cell under one of its edges. */
  function AddWork(works: seq<EdgeWork>, positions: map<nat, nat>, c: nat, e: nat): (seq<EdgeWork>, map<nat, nat>)
    requires e in positions ==> positions[e] < |works|
  {
    if e in positions then
      var w := works[positions[e]];
      (works[positions[e] := EdgeWork(w.edge, w.parents + [c])], positions)
    else (works + [EdgeWork(e, [c])], positions[e := |works|])
  }

  ghost predicate Positioned(works: seq<EdgeWork>, positions: map<nat, nat>) {
    && (forall e :: e in positions ==> positions[e] < |works| && works[positions[e]].edge == e)
    && forall w :: 0 <= w < |works| ==> works[w].edge in positions && positions[works[w].edge] == w
  }

  /** The parents listed for `e` so far, none if it has no entry. */
  ghost function ListedFor(works: seq<EdgeWork>, positions: map<nat, nat>, e: nat): seq<nat>
    requires Positioned(works, positions)
  {
    if e in positions then works[positions[e]].parents else []
  }

  ghost predicate NoneEmpty(works: seq<EdgeWork>) { forall w :: 0 <= w < |works| ==> works[w].parents != [] }

  lemma {:induction false} AddWorkOk(works: seq<EdgeWork>, positions: map<nat, nat>, c: nat, e: nat)
    requires Positioned(works, positions)
    ensures var (more, at) := AddWork(works, positions, c, e); Positioned(more, at) && (NoneEmpty(works) ==> NoneEmpty(more))
  {
  }

  lemma {:induction false} AddWorkLists(works: seq<EdgeWork>, positions: map<nat, nat>, c: nat, e: nat, f: nat)
    requires Positioned(works, positions)
    ensures var (more, at) := AddWork(works, positions, c, e);
            Positioned(more, at) && ListedFor(more, at, f) == ListedFor(works, positions, f) + if f == e then [c] else []
  {
    AddWorkOk(works, positions, c, e);
  }

  /** `f` lists its parents among the first `i` cells of the queue, and the next cell for the first `j` of its edges. */
  ghost predicate Lists(plan: Plan, cells: seq<Cell>, queue: seq<nat>, i: nat, j: nat, listed: seq<nat>, f: nat)
    requires InQueue(plan, cells, queue) && i < |queue| && j <= |plan.nodes[cells[queue[i]].node]|
  {
    listed == ParentsOf(plan, cells, queue[..i], f) + Copies(plan.nodes[cells[queue[i]].node][..j], f, queue[i])
  }

  lemma {:induction false} ListsNext(plan: Plan, cells: seq<Cell>, queue: seq<nat>, i: nat, j: nat, listed: seq<nat>, f: nat)
    requires InQueue(plan, cells, queue) && i < |queue| && j < |plan.nodes[cells[queue[i]].node]|
    requires Lists(plan, cells, queue, i, j, listed, f)
    ensures Lists(plan, cells, queue, i, j + 1, listed + if f == plan.nodes[cells[queue[i]].node][j] then [queue[i]] else [], f)
  {
    var edges := plan.nodes[cells[queue[i]].node];
    assert edges[..j + 1][..j] == edges[..j];
  }

  /** Every edge lists the parents it has so far; no entry is empty. */
  ghost predicate Planned(plan: Plan, cells: seq<Cell>, queue: seq<nat>, i: nat, j: nat, works: seq<EdgeWork>, positions: map<nat, nat>)
    requires InQueue(plan, cells, queue) && i < |queue| && j <= |plan.nodes[cells[queue[i]].node]|
  {
    && Positioned(works, positions) && NoneEmpty(works)
    && forall f :: Lists(plan, cells, queue, i, j, ListedFor(works, positions, f), f)
  }

  lemma {:induction false} PlannedStep(plan: Plan, cells: seq<Cell>, queue: seq<nat>, i: nat, j: nat, works: seq<EdgeWork>, positions: map<nat, nat>)
    requires InQueue(plan, cells, queue) && i < |queue| && j < |plan.nodes[cells[queue[i]].node]|
    requires Planned(plan, cells, queue, i, j, works, positions)
    ensures var (more, at) := AddWork(works, positions, queue[i], plan.nodes[cells[queue[i]].node][j]);
            Planned(plan, cells, queue, i, j + 1, more, at)
  {
    var e, c := plan.nodes[cells[queue[i]].node][j], queue[i];
    var (more, at) := AddWork(works, positions, c, e);
    AddWorkOk(works, positions, c, e);
    forall f
      ensures Lists(plan, cells, queue, i, j + 1, ListedFor(more, at, f), f)
    {
      AddWorkLists(works, positions, c, e, f);
      ListsNext(plan, cells, queue, i, j, ListedFor(works, positions, f), f);
    }
  }

  /** The first `i` cells of the queue are listed; no entry is empty. */
  ghost predicate PlannedTo(plan: Plan, cells: seq<Cell>, queue: seq<nat>, i: nat, works: seq<EdgeWork>, positions: map<nat, nat>)
    requires InQueue(plan, cells, queue) && i <= |queue|
  {
    && Positioned(works, positions) && NoneEmpty(works)
    && forall f :: ListedFor(works, positions, f) == ParentsOf(plan, cells, queue[..i], f)
  }

  lemma {:induction false} PlannedFrom(plan: Plan, cells: seq<Cell>, queue: seq<nat>, i: nat, works: seq<EdgeWork>, positions: map<nat, nat>)
    requires InQueue(plan, cells, queue) && i < |queue| && PlannedTo(plan, cells, queue, i, works, positions)
    ensures Planned(plan, cells, queue, i, 0, works, positions)
  {
    assert plan.nodes[cells[queue[i]].node][..0] == [];
    forall f
      ensures Lists(plan, cells, queue, i, 0, ListedFor(works, positions, f), f)
    {
      assert ListedFor(works, positions, f) == ParentsOf(plan, cells, queue[..i], f);
    }
  }

  lemma {:induction false} PlannedNext(plan: Plan, cells: seq<Cell>, queue: seq<nat>, i: nat, works: seq<EdgeWork>, positions: map<nat, nat>)
    requires InQueue(plan, cells, queue) && i < |queue|
    requires Planned(plan, cells, queue, i, |plan.nodes[cells[queue[i]].node]|, works, positions)
    ensures PlannedTo(plan, cells, queue, i + 1, works, positions)
  {
    var edges := plan.nodes[cells[queue[i]].node];
    assert edges[..|edges|] == edges && queue[..i + 1][..i] == queue[..i];
    forall f
      ensures ListedFor(works, positions, f) == ParentsOf(plan, cells, queue[..i + 1], f)
    {
      assert Lists(plan, cells, queue, i, |edges|, ListedFor(works, positions, f), f);
    }
  }

  /** Groups the queued cells by edge: every edge once, its parents in queue order. */
  method PlanEdges(plan: Plan, cells: seq<Cell>, queue: seq<nat>) returns (works: seq<EdgeWork>)
    requires InQueue(plan, cells, queue)
    ensures forall v, w :: 0 <= v < w < |works| ==> works[v].edge != works[w].edge
    ensures forall w :: 0 <= w < |works| ==>
              works[w].parents != [] && works[w].parents == ParentsOf(plan, cells, queue, works[w].edge)
    ensures forall e :: ParentsOf(plan, cells, queue, e) != [] ==> exists w :: 0 <= w < |works| && works[w].edge == e
  {
    works := [];
    var positions: map<nat, nat> := map[];
    for i := 0 to |queue|
      invariant PlannedTo(plan, cells, queue, i, works, positions)
    {
      PlannedFrom(plan, cells, queue, i, works, positions);
      var edges := plan.nodes[cells[queue[i]].node];
      for j := 0 to |edges|
        invariant Planned(plan, cells, queue, i, j, works, positions)
      {
        PlannedStep(plan, cells, queue, i, j, works, positions);
        var (more, at) := AddWork(works, positions, queue[i], edges[j]);
        works, positions := more, at;
      }
      PlannedNext(plan, cells, queue, i, works, positions);
    }
    assert queue[..|queue|] == queue;
    EntriesListed(plan, cells, queue, works, positions);
  }

  lemma {:induction false} EntriesListed(plan: Plan, cells: seq<Cell>, queue: seq<nat>, works: seq<EdgeWork>, positions: map<nat, nat>)
    requires InQueue(plan, cells, queue) && Positioned(works, positions)
    requires forall f :: ListedFor(works, positions, f) == ParentsOf(plan, cells, queue, f)
    ensures forall w :: 0 <= w < |works| ==> works[w].parents == ParentsOf(plan, cells, queue, works[w].edge)
    ensures forall e :: ParentsOf(plan, cells, queue, e) != [] ==> exists w :: 0 <= w < |works| && works[w].edge == e
  {
    forall w | 0 <= w < |works|
      ensures works[w].parents == ParentsOf(plan, cells, queue, works[w].edge)
    {
      assert ListedFor(works, positions, works[w].edge) == works[w].parents;
    }
    forall e | ParentsOf(plan, cells, queue, e) != []
      ensures exists w :: 0 <= w < |works| && works[w].edge == e
    {
      assert ListedFor(works, positions, e) != [];
    }
  }

  /** So every parent listed is a queued cell that has the edge, and every edge of a queued cell lists it. */
  lemma {:induction false} PlannedWorks(plan: Plan, cells: seq<Cell>, queue: seq<nat>, works: seq<EdgeWork>)
    requires InQueue(plan, cells, queue)
    requires forall w :: 0 <= w < |works| ==>
               works[w].parents != [] && works[w].parents == ParentsOf(plan, cells, queue, works[w].edge)
    requires forall e :: ParentsOf(plan, cells, queue, e) != [] ==> exists w :: 0 <= w < |works| && works[w].edge == e
    ensures WorksOk(plan, cells, works) && FromQueue(works, queue)
    ensures forall i, e :: 0 <= i < |queue| && e in plan.nodes[cells[queue[i]].node] ==> Listed(works, queue[i], e)
  {
    forall w, i | 0 <= w < |works| && 0 <= i < |works[w].parents|
      ensures var c := works[w].parents[i];
              c in queue && c < |cells| && cells[c].node < |plan.nodes| && works[w].edge in plan.nodes[cells[c].node]
    {
      ParentsAre(plan, cells, queue, works[w].edge, works[w].parents[i]);
    }
    forall i, e | 0 <= i < |queue| && e in plan.nodes[cells[queue[i]].node]
      ensures Listed(works, queue[i], e)
    {
      ParentsAre(plan, cells, queue, e, queue[i]);
      var w :| 0 <= w < |works| && works[w].edge == e;
    }
  }

  /** `y` adds to `x` the cells in `next`, all of them of node `child`. */
  ghost predicate Grown(x: Expansion, y: Expansion, next: seq<nat>, child: nat) {
    && Extends(x, y)
    && (forall c :: c in next <==> |x.cells| <= c < |y.cells|)
    && forall c :: |x.cells| <= c < |y.cells| ==> y.cells[c].node == child
  }

  lemma {:induction false} GrownStep(x: Expansion, y: Expansion, next: seq<nat>, e: nat, child: nat, parent: nat, rows: seq<Row>)
    requires Grown(x, y, next, child) && parent < |y.cells|
    ensures Grown(x, Attached(y, e, child, parent, rows), next + Fresh(|y.cells|, |rows|), child)
  {
    var z, kids := Attached(y, e, child, parent, rows), Fresh(|y.cells|, |rows|);
    forall c | |y.cells| <= c < |z.cells|
      ensures c in kids && z.cells[c].node == child
    {
      assert kids[c - |y.cells|] == c;
    }
    assert forall c :: c in kids ==> |y.cells| <= c < |z.cells|;
    assert forall c :: c in next + kids <==> c in next || c in kids;
  }

  ghost predicate HasAll(deferred: seq<Deferred>, parents: seq<nat>, n: nat, e: nat)
    requires n <= |parents|
  {
    forall k :: 0 <= k < n ==> Has(deferred, parents[k], e)
  }

  lemma {:induction false} HasAllStep(deferred: seq<Deferred>, parents: seq<nat>, n: nat, e: nat, d: Deferred)
    requires n < |parents| && HasAll(deferred, parents, n, e) && Has(deferred + [d], parents[n], e)
    ensures HasAll(deferred + [d], parents, n + 1, e)
  {
    forall k | 0 <= k < n
      ensures Has(deferred + [d], parents[k], e)
    {
      HasGrows(deferred, deferred + [d], parents[k], e);
    }
  }

  /** Cells that have the edge, and the children one query per parent may give them. */
  ghost predicate Served(plan: Plan, cells: seq<Cell>, e: nat, parents: seq<nat>, loaded: seq<Children>)
    requires e < |plan.edges|
  {
    && |loaded| == |parents|
    && forall i :: 0 <= i < |parents| ==> ServedOne(plan, cells, e, parents[i], loaded[i])
  }

  ghost predicate ServedOne(plan: Plan, cells: seq<Cell>, e: nat, parent: nat, c: Children)
    requires e < |plan.edges|
  {
    Yields(plan, cells, parent, e, c.values) && Numbered(c.work, c.values) && |c.work| == |c.values|
  }

  method AttachAll(plan: Plan, ghost rank: map<nat, nat>, x: Expansion, ghost blame: bool, e: nat, parents: seq<nat>,
                   loaded: seq<Children>) returns (y: Expansion, next: seq<nat>)
    requires Ranked(plan, rank) && ExpansionOk(plan, rank, x, blame)
    requires e < |plan.edges| && Served(plan, x.cells, e, parents, loaded)
    ensures Grown(x, y, next, plan.edges[e].child) && ExpansionOk(plan, rank, y, blame)
    ensures HasAll(y.deferred, parents, |parents|, e)
  {
    y, next := x, [];
    for i := 0 to |parents|
      invariant AttachedSome(plan, rank, x, y, next, blame, e, parents, i)
    {
      AttachStep(plan, rank, x, y, next, blame, e, parents, i, loaded);
      var kids;
      y, kids := AttachChildren(y, e, plan.edges[e].child, parents[i], loaded[i]);
      next := next + kids;
    }
  }

  /** The children of the first `n` parents are attached. */
  ghost predicate AttachedSome(plan: Plan, rank: map<nat, nat>, x: Expansion, y: Expansion, next: seq<nat>, blame: bool,
                               e: nat, parents: seq<nat>, n: nat)
    requires Ranked(plan, rank) && e < |plan.edges| && n <= |parents|
  {
    && Grown(x, y, next, plan.edges[e].child) && ExpansionOk(plan, rank, y, blame)
    && HasAll(y.deferred, parents, n, e)
  }

  lemma {:induction false} AttachStep(plan: Plan, rank: map<nat, nat>, x: Expansion, y: Expansion, next: seq<nat>, blame: bool,
                   e: nat, parents: seq<nat>, i: nat, loaded: seq<Children>)
    requires Ranked(plan, rank) && e < |plan.edges| && i < |parents| && Served(plan, x.cells, e, parents, loaded)
    requires AttachedSome(plan, rank, x, y, next, blame, e, parents, i)
    ensures parents[i] < |y.cells| && Numbered(loaded[i].work, loaded[i].values) && |loaded[i].work| == |loaded[i].values|
    ensures AttachedSome(plan, rank, x, Attached(y, e, plan.edges[e].child, parents[i], loaded[i].values),
                         next + Fresh(|y.cells|, |loaded[i].values|), blame, e, parents, i + 1)
  {
    assert ServedOne(plan, x.cells, e, parents[i], loaded[i]);
    var p, child, rows := parents[i], plan.edges[e].child, loaded[i].values;
    assert y.cells[p] == x.cells[p] && Yields(plan, y.cells, p, e, rows);
    assert ExpansionOk(plan, rank, Attached(y, e, child, p, rows), blame) by {
      AttachOk(plan, rank, y, blame, e, p, rows);
    }
    assert Grown(x, Attached(y, e, child, p, rows), next + Fresh(|y.cells|, |rows|), child) by {
      GrownStep(x, y, next, e, child, p, rows);
    }
    assert HasAll(Attached(y, e, child, p, rows).deferred, parents, i + 1, e) by {
      assert (y.deferred + [CallbackFor(y, e, p, rows)])[|y.deferred|] == CallbackFor(y, e, p, rows);
      HasAllStep(y.deferred, parents, i, e, CallbackFor(y, e, p, rows));
    }
  }

  /** A statement of the load, and the edge it was sent for. */
  datatype Executed = Executed(edge: nat, statement: Statement)

  /** Every statement was sent for an edge of the plan, for at least one key, and within that edge's budget. */
  ghost predicate AllWithin(plan: Plan, sent: seq<Executed>) {
    forall i :: 0 <= i < |sent| ==>
      sent[i].edge < |plan.edges| && SentFor(plan.edges[sent[i].edge].spec, sent[i].statement)
  }

  function ExecutedFor(e: nat, statements: seq<Statement>): (r: seq<Executed>)
    ensures |r| == |statements| && forall i :: 0 <= i < |r| ==> r[i] == Executed(e, statements[i])
  {
    seq(|statements|, i requires 0 <= i < |statements| => Executed(e, statements[i]))
  }

  /** Loads one edge for all of its parents and attaches what came back. */
  method ExecuteEdge(plan: Plan, ghost rank: map<nat, nat>, x: Expansion, ghost blame: bool, work: EdgeWork)
      returns (ok: bool, y: Expansion, next: seq<nat>, sent: seq<Executed>)
    requires Ranked(plan, rank) && ExpansionOk(plan, rank, x, blame) && WorksOk(plan, x.cells, [work])
    requires work.edge < |plan.edges| && EdgeAccepted(plan.edges[work.edge].spec)
    ensures !ok ==> blame
    ensures ok ==> Grown(x, y, next, plan.edges[work.edge].child) && ExpansionOk(plan, rank, y, blame)
    ensures ok ==> HasAll(y.deferred, work.parents, |work.parents|, work.edge)
    ensures AllWithin(plan, sent)
  {
    var e, parents := work.edge, work.parents;
    ParentsOk(plan, x.cells, work);
    var rows := seq(|parents|, i requires 0 <= i < |parents| => x.cells[parents[i]].row);
    var loaded, statements := LoadEdge(plan.edges[e].spec, rows);
    sent := ExecutedFor(e, statements);
    if loaded.None? {
      EdgeBlames(plan, rank, x, blame, work, rows);
      return false, x, [], sent;
    }
    ServedFrom(plan, x.cells, work, rows, loaded.value);
    ok := true;
    y, next := AttachAll(plan, rank, x, blame, e, parents, loaded.value);
  }

  lemma {:induction false} ServedFrom(plan: Plan, cells: seq<Cell>, work: EdgeWork, rows: seq<Row>, loaded: seq<Children>)
    requires WorksOk(plan, cells, [work]) && work.edge < |plan.edges| && |rows| == |work.parents|
    requires forall i :: 0 <= i < |rows| ==> work.parents[i] < |cells| && rows[i] == cells[work.parents[i]].row
    requires EdgeLoaded(plan.edges[work.edge].spec, rows, loaded)
    ensures Served(plan, cells, work.edge, work.parents, loaded)
  {
    ParentsOk(plan, cells, work);
    forall i | 0 <= i < |rows|
      ensures ServedOne(plan, cells, work.edge, work.parents[i], loaded[i])
    {
      assert Loads(plan.edges[work.edge].spec, rows[i], loaded[i]);
    }
  }

  /** An edge that fails for one of its parents fails the recursive loader too. */
  lemma {:induction false} EdgeBlames(plan: Plan, rank: map<nat, nat>, x: Expansion, blame: bool, work: EdgeWork, rows: seq<Row>)
    requires Ranked(plan, rank) && ExpansionOk(plan, rank, x, blame) && WorksOk(plan, x.cells, [work])
    requires work.edge < |plan.edges| && |rows| == |work.parents| && EdgeFails(plan.edges[work.edge].spec, rows)
    requires forall i :: 0 <= i < |rows| ==> work.parents[i] < |x.cells| && rows[i] == x.cells[work.parents[i]].row
    ensures blame
  {
    ParentsOk(plan, x.cells, work);
    var i :| 0 <= i < |rows| && !EdgeOk(plan.edges[work.edge].spec, rows[i]);
    var c := x.cells[work.parents[i]];
    assert RankedNode(plan, rank, c.node);
    assert !LoadsOk(plan, rank, c.node, c.row);
  }

  lemma {:induction false} ParentsOk(plan: Plan, cells: seq<Cell>, work: EdgeWork)
    requires WorksOk(plan, cells, [work])
    ensures forall i :: 0 <= i < |work.parents| ==>
              work.parents[i] < |cells| && cells[work.parents[i]].node < |plan.nodes|
              && work.edge in plan.nodes[cells[work.parents[i]].node]
  {
    assert [work][0] == work;
  }

  // ---------- all levels ----------

  /** Every cell outside the queue has the callbacks of all of its edges. */
  ghost predicate CoveredBut(plan: Plan, x: Expansion, queue: seq<nat>) {
    forall c :: 0 <= c < |x.cells| && c !in queue ==> Covered(plan, x.cells, x.deferred, c)
  }

  /** Queued cells are of nodes ranked below `bound`. */
  ghost predicate QueueBelow(rank: map<nat, nat>, cells: seq<Cell>, queue: seq<nat>, bound: nat) {
    forall i :: 0 <= i < |queue| ==> queue[i] < |cells| && cells[queue[i]].node in rank && rank[cells[queue[i]].node] < bound
  }

  lemma {:induction false} CoveredGrows(plan: Plan, x: Expansion, y: Expansion, c: nat)
    requires Extends(x, y) && c < |x.cells| && Covered(plan, x.cells, x.deferred, c)
    ensures Covered(plan, y.cells, y.deferred, c)
  {
    assert y.cells[c] == x.cells[c];
    forall e | e in plan.nodes[x.cells[c].node]
      ensures Has(y.deferred, c, e)
    {
      HasGrows(x.deferred, y.deferred, c, e);
    }
  }

  lemma {:induction false} WorksGrow(plan: Plan, cells: seq<Cell>, more: seq<Cell>, works: seq<EdgeWork>, w: nat)
    requires WorksOk(plan, cells, works) && cells <= more && w < |works|
    ensures WorksOk(plan, more, [works[w]])
  {
    forall i | 0 <= i < |works[w].parents|
      ensures more[works[w].parents[i]] == cells[works[w].parents[i]]
    {
      assert works[w].parents[i] < |cells|;
    }
  }

  /** `y` comes from `x` by executing the first `n` works of a level: their parents are served, `next` is new. */
  ghost predicate LevelPart(plan: Plan, rank: map<nat, nat>, x: Expansion, y: Expansion, works: seq<EdgeWork>, n: nat,
                            next: seq<nat>, bound: nat)
    requires n <= |works|
  {
    && Extends(x, y)
    && (forall c :: |x.cells| <= c < |y.cells| ==> c in next)
    && QueueBelow(rank, y.cells, next, bound)
    && forall w, i :: 0 <= w < n && 0 <= i < |works[w].parents| ==> Has(y.deferred, works[w].parents[i], works[w].edge)
  }

  lemma {:induction false} LevelStep(plan: Plan, rank: map<nat, nat>, x: Expansion, y: Expansion, z: Expansion, works: seq<EdgeWork>, n: nat,
                  next: seq<nat>, more: seq<nat>, bound: nat)
    requires n < |works| && works[n].edge < |plan.edges| && LevelPart(plan, rank, x, y, works, n, next, bound)
    requires Grown(y, z, more, plan.edges[works[n].edge].child) && HasAll(z.deferred, works[n].parents, |works[n].parents|, works[n].edge)
    requires plan.edges[works[n].edge].child in rank && rank[plan.edges[works[n].edge].child] < bound
    ensures LevelPart(plan, rank, x, z, works, n + 1, next + more, bound)
  {
    forall w, i | 0 <= w < n && 0 <= i < |works[w].parents|
      ensures Has(z.deferred, works[w].parents[i], works[w].edge)
    {
      HasGrows(y.deferred, z.deferred, works[w].parents[i], works[w].edge);
    }
    forall c | |x.cells| <= c < |z.cells|
      ensures c in next + more
    {
      assert c in next || c in more;
    }
    forall i | 0 <= i < |next + more|
      ensures (next + more)[i] < |z.cells| && z.cells[(next + more)[i]].node in rank && rank[z.cells[(next + more)[i]].node] < bound
    {
      if i < |next| {
        assert z.cells[next[i]] == y.cells[next[i]];
      } else {
        assert more[i - |next|] in more;
      }
    }
  }

  /** All edges of one level; the cells they add make up the next one. */
  method ExpandLevel(plan: Plan, ghost rank: map<nat, nat>, x: Expansion, ghost blame: bool, queue: seq<nat>, ghost bound: nat)
      returns (ok: bool, y: Expansion, next: seq<nat>, sent: seq<Executed>)
    requires Ranked(plan, rank) && ExpansionOk(plan, rank, x, blame)
    requires CoveredBut(plan, x, queue) && QueueBelow(rank, x.cells, queue, bound + 1)
    ensures !ok ==> blame
    ensures ok ==> Extends(x, y) && ExpansionOk(plan, rank, y, blame)
    ensures ok ==> CoveredBut(plan, y, next) && QueueBelow(rank, y.cells, next, bound)
    ensures AllWithin(plan, sent)
  {
    QueueOk(plan, rank, x.cells, queue, bound);
    var works := PlanEdges(plan, x.cells, queue);
    PlannedWorks(plan, x.cells, queue, works);
    y, next, sent := x, [], [];
    for w := 0 to |works|
      invariant ExpansionOk(plan, rank, y, blame) && LevelPart(plan, rank, x, y, works, w, next, bound)
      invariant AllWithin(plan, sent)
    {
      WorkRanked(plan, rank, x.cells, queue, works, w, bound);
      WorksGrow(plan, x.cells, y.cells, works, w);
      var done, z, more, statements := ExecuteEdge(plan, rank, y, blame, works[w]);
      sent := sent + statements;
      if !done {
        return false, y, next, sent;
      }
      LevelStep(plan, rank, x, y, z, works, w, next, more, bound);
      y, next := z, next + more;
    }
    LevelDone(plan, rank, x, y, works, queue, next, bound);
    ok := true;
  }

  lemma {:induction false} QueueOk(plan: Plan, rank: map<nat, nat>, cells: seq<Cell>, queue: seq<nat>, bound: nat)
    requires Ranked(plan, rank) && QueueBelow(rank, cells, queue, bound + 1)
    ensures InQueue(plan, cells, queue)
  {
    forall i | 0 <= i < |queue|
      ensures queue[i] < |cells| && cells[queue[i]].node < |plan.nodes|
    {
      assert RankedNode(plan, rank, cells[queue[i]].node);
    }
  }

  lemma {:induction false} WorkRanked(plan: Plan, rank: map<nat, nat>, cells: seq<Cell>, queue: seq<nat>, works: seq<EdgeWork>, w: nat, bound: nat)
    requires Ranked(plan, rank) && QueueBelow(rank, cells, queue, bound + 1)
    requires w < |works| && WorksOk(plan, cells, works) && FromQueue(works, queue)
    ensures works[w].edge < |plan.edges| && EdgeAccepted(plan.edges[works[w].edge].spec)
    ensures plan.edges[works[w].edge].child in rank && rank[plan.edges[works[w].edge].child] < bound
  {
    var c := works[w].parents[0];
    assert c in queue && works[w].edge in plan.nodes[cells[c].node];
    var i :| 0 <= i < |queue| && queue[i] == c;
    assert RankedNode(plan, rank, cells[c].node);
  }

  lemma {:induction false} LevelDone(plan: Plan, rank: map<nat, nat>, x: Expansion, y: Expansion, works: seq<EdgeWork>, queue: seq<nat>,
                  next: seq<nat>, bound: nat)
    requires LevelPart(plan, rank, x, y, works, |works|, next, bound)
    requires CoveredBut(plan, x, queue) && InQueue(plan, x.cells, queue)
    requires forall i, e :: 0 <= i < |queue| && e in plan.nodes[x.cells[queue[i]].node] ==> Listed(works, queue[i], e)
    ensures CoveredBut(plan, y, next)
  {
    forall c | 0 <= c < |y.cells| && c !in next
      ensures Covered(plan, y.cells, y.deferred, c)
    {
      assert c < |x.cells| && y.cells[c] == x.cells[c];
      if c in queue {
        var i :| 0 <= i < |queue| && queue[i] == c;
        forall e | e in plan.nodes[x.cells[c].node]
          ensures Has(y.deferred, c, e)
        {
          assert Listed(works, queue[i], e);
          var w :| 0 <= w < |works| && works[w].edge == e && c in works[w].parents;
          var k :| 0 <= k < |works[w].parents| && works[w].parents[k] == c;
        }
      } else {
        CoveredGrows(plan, x, y, c);
      }
    }
  }

  /** Some root row fails the recursive loader. */
  ghost predicate SomeRootFails(plan: Plan, rank: map<nat, nat>, root: nat, rootRows: seq<Row>)
    requires Ranked(plan, rank) && root in rank
  {
    exists i :: 0 <= i < |rootRows| && !LoadsOk(plan, rank, root, rootRows[i])
  }

  /** At the start every cell is a root, and in the queue. */
  lemma {:induction false} RootsQueued(plan: Plan, rank: map<nat, nat>, root: nat, rootRows: seq<Row>)
    requires Ranked(plan, rank) && root in rank
    ensures var x := Expansion(NewCells(root, rootRows, 0), []);
            && ExpansionOk(plan, rank, x, SomeRootFails(plan, rank, root, rootRows))
            && CoveredBut(plan, x, Fresh(0, |rootRows|))
            && QueueBelow(rank, x.cells, Fresh(0, |rootRows|), rank[root] + 1)
  {
    var x, queue := Expansion(NewCells(root, rootRows, 0), []), Fresh(0, |rootRows|);
    forall c | 0 <= c < |x.cells|
      ensures c in queue
    {
      assert queue[c] == c;
    }
  }

  /** Expands level after level until no cell is left in the queue. */
  method ExpandRoots(plan: Plan, ghost rank: map<nat, nat>, root: nat, rootRows: seq<Row>)
      returns (ok: bool, x: Expansion, sent: seq<Executed>)
    requires Ranked(plan, rank) && root in rank
    ensures AllWithin(plan, sent)
    ensures ok <==> !SomeRootFails(plan, rank, root, rootRows)
    ensures ok ==> ExpansionOk(plan, rank, x, false) && CoveredBut(plan, x, [])
    ensures ok ==> NewCells(root, rootRows, 0) <= x.cells
  {
    ghost var blame := SomeRootFails(plan, rank, root, rootRows);
    x := Expansion(NewCells(root, rootRows, 0), []);
    var queue: seq<nat> := Fresh(0, |rootRows|);
    ghost var bound: nat := rank[root] + 1;
    sent := [];
    RootsQueued(plan, rank, root, rootRows);
    while |queue| > 0
      invariant ExpansionOk(plan, rank, x, blame) && CoveredBut(plan, x, queue)
      invariant QueueBelow(rank, x.cells, queue, bound) && NewCells(root, rootRows, 0) <= x.cells
      invariant AllWithin(plan, sent)
      decreases bound
    {
      assert queue[0] < |x.cells|;
      var y, next, statements;
      ok, y, next, statements := ExpandLevel(plan, rank, x, blame, queue, bound - 1);
      sent := sent + statements;
      if !ok {
        return;
      }
      x, queue, bound := y, next, bound - 1;
    }
    ok := true;
    forall i | 0 <= i < |rootRows|
      ensures LoadsOk(plan, rank, root, rootRows[i])
    {
      assert x.cells[i] == NewCells(root, rootRows, 0)[i];
      CellLoads(plan, rank, x, blame, i);
    }
  }

  /** When every cell has its callbacks, every cell loads. */
  lemma {:induction false} CellLoads(plan: Plan, rank: map<nat, nat>, x: Expansion, blame: bool, c: nat)
    requires Ranked(plan, rank) && ExpansionOk(plan, rank, x, blame) && CoveredBut(plan, x, []) && c < |x.cells|
    ensures LoadsOk(plan, rank, x.cells[c].node, x.cells[c].row)
    decreases rank[x.cells[c].node]
  {
    var v, row := x.cells[c].node, x.cells[c].row;
    assert RankedNode(plan, rank, v) && Covered(plan, x.cells, x.deferred, c);
    forall e | e in plan.nodes[v]
      ensures EdgeOk(plan.edges[e].spec, row)
      ensures forall r :: r in ChildRows(plan.edges[e].spec, row) ==> LoadsOk(plan, rank, plan.edges[e].child, r)
    {
      assert Has(x.deferred, c, e);
      var i :| 0 <= i < |x.deferred| && x.deferred[i].parent == c && x.deferred[i].edge == e;
      var d := x.deferred[i];
      assert Attaches(plan, x.cells, d);
      forall r | r in ChildRows(plan.edges[e].spec, row)
        ensures LoadsOk(plan, rank, plan.edges[e].child, r)
      {
        var kid := KidFor(plan, x.cells, d, r);
        CellLoads(plan, rank, x, blame, kid);
      }
    }
  }

  /** Every child row of the parent has a kid that holds it. */
  lemma {:induction false} KidFor(plan: Plan, cells: seq<Cell>, d: Deferred, r: Row) returns (kid: nat)
    requires Attaches(plan, cells, d) && r in ChildRows(plan.edges[d.edge].spec, cells[d.parent].row)
    ensures kid < |cells| && cells[kid].node == plan.edges[d.edge].child && cells[kid].row == r
  {
    var rows, all := RowsAt(cells, d.kids), ChildRows(plan.edges[d.edge].spec, cells[d.parent].row);
    MayLoadRows(plan.edges[d.edge].spec, cells[d.parent].row, rows);
    var j :| 0 <= j < |all| && all[j] == r;
    var k := Sequences.IndexIn(all, rows, j);
    kid := d.kids[k];
  }

  // ---------- the callbacks ----------

  ghost predicate DeepestFirst(s: seq<Deferred>) {
    forall i, j :: 0 <= i < j < |s| ==> s[i].depth >= s[j].depth
  }

  /** The callbacks of one depth, in order. */
  function AtDepth(s: seq<Deferred>, depth: nat): seq<Deferred> {
    if s == [] then [] else AtDepth(s[..|s| - 1], depth) + if s[|s| - 1].depth == depth then [s[|s| - 1]] else []
  }

  lemma {:induction false} AtDepthAppend(a: seq<Deferred>, b: seq<Deferred>, depth: nat)
    ensures AtDepth(a + b, depth) == AtDepth(a, depth) + AtDepth(b, depth)
  {
    if b == [] {
      assert a + b == a;
    } else {
      var n := |b| - 1;
      AtDepthAppend(a, b[..n], depth);
      assert (a + b)[..|a| + n] == a + b[..n];
    }
  }

  lemma {:induction false} AtDepthNone(s: seq<Deferred>, depth: nat)
    requires forall k :: 0 <= k < |s| ==> s[k].depth < depth
    ensures AtDepth(s, depth) == []
  {
    if s != [] {
      AtDepthNone(s[..|s| - 1], depth);
    }
  }

  /** Puts `d` behind every callback at least as deep, ahead of the shallower ones. */
  method InsertDeferred(sorted: seq<Deferred>, d: Deferred) returns (r: seq<Deferred>)
    requires DeepestFirst(sorted)
    ensures DeepestFirst(r) && multiset(r) == multiset(sorted) + multiset{d}
    ensures forall depth :: AtDepth(r, depth) == AtDepth(sorted, depth) + AtDepth([d], depth)
  {
    var at := |sorted|;
    while at > 0 && sorted[at - 1].depth < d.depth
      invariant 0 <= at <= |sorted|
      invariant at < |sorted| ==> sorted[at].depth < d.depth
    {
      at := at - 1;
    }
    r := sorted[..at] + [d] + sorted[at..];
    assert DeepestFirst(r) by {
      InsertedOrder(sorted, at, d, r);
    }
    InsertedStable(sorted, at, d);
    Sequences.InsertedAll(sorted, at, d);
  }

  lemma {:induction false} InsertedOrder(sorted: seq<Deferred>, at: nat, d: Deferred, r: seq<Deferred>)
    requires DeepestFirst(sorted) && at <= |sorted| && r == sorted[..at] + [d] + sorted[at..]
    requires (at > 0 ==> sorted[at - 1].depth >= d.depth) && (at < |sorted| ==> sorted[at].depth < d.depth)
    ensures DeepestFirst(r)
  {
    forall i, j | 0 <= i < j < |r|
      ensures r[i].depth >= r[j].depth
    {
      assert r[i] == if i < at then sorted[i] else if i == at then d else sorted[i - 1];
      assert r[j] == if j < at then sorted[j] else if j == at then d else sorted[j - 1];
    }
  }

  /** Callbacks as deep as `d` stay ahead of it, and all others keep their order. */
  lemma {:induction false} InsertedStable(sorted: seq<Deferred>, at: nat, d: Deferred)
    requires DeepestFirst(sorted) && at <= |sorted| && (at < |sorted| ==> sorted[at].depth < d.depth)
    ensures forall depth :: AtDepth(sorted[..at] + [d] + sorted[at..], depth) == AtDepth(sorted, depth) + AtDepth([d], depth)
  {
    var head, tail := sorted[..at], sorted[at..];
    assert sorted == head + tail;
    forall k | 0 <= k < |tail|
      ensures tail[k].depth < d.depth
    {
      assert tail[k] == sorted[at + k];
    }
    forall depth: nat
      ensures AtDepth(head + [d] + tail, depth) == AtDepth(sorted, depth) + AtDepth([d], depth)
    {
      InsertedAtDepth(head, d, tail, depth);
    }
  }

  lemma {:induction false} InsertedAtDepth(head: seq<Deferred>, d: Deferred, tail: seq<Deferred>, depth: nat)
    requires forall k :: 0 <= k < |tail| ==> tail[k].depth < d.depth
    ensures AtDepth(head + [d] + tail, depth) == AtDepth(head + tail, depth) + AtDepth([d], depth)
  {
    AtDepthAppend(head + [d], tail, depth);
    AtDepthAppend(head, [d], depth);
    AtDepthAppend(head, tail, depth);
    if depth == d.depth {
      AtDepthNone(tail, depth);
    } else {
      AtDepthOther(d, depth);
    }
    Sequences.SwapEmpty(AtDepth(head, depth), AtDepth([d], depth), AtDepth(tail, depth));
  }

  /** A callback is among those of its own depth. */
  lemma {:induction false} AtDepthOwn(d: Deferred)
    ensures AtDepth([d], d.depth) == [d]
  {
    assert [d][..0] == [];
  }

  lemma {:induction false} AtDepthOther(d: Deferred, depth: nat)
    requires depth != d.depth
    ensures AtDepth([d], depth) == []
  {
    assert [d][..0] == [];
  }

  /** The stable sort by depth, deepest first: callbacks of one depth keep their order. */
  method SortDeferred(deferred: seq<Deferred>) returns (sorted: seq<Deferred>)
    ensures DeepestFirst(sorted) && multiset(sorted) == multiset(deferred)
    ensures forall depth :: AtDepth(sorted, depth) == AtDepth(deferred, depth)
  {
    sorted := [];
    for i := 0 to |deferred|
      invariant DeepestFirst(sorted) && multiset(sorted) == multiset(deferred[..i])
      invariant forall depth :: AtDepth(sorted, depth) == AtDepth(deferred[..i], depth)
    {
      SortedPrefix(deferred, i);
      sorted := InsertDeferred(sorted, deferred[i]);
    }
    assert deferred[..|deferred|] == deferred;
  }

  lemma {:induction false} SortedPrefix(deferred: seq<Deferred>, i: nat)
    requires i < |deferred|
    ensures multiset(deferred[..i + 1]) == multiset(deferred[..i]) + multiset{deferred[i]}
    ensures forall depth :: AtDepth(deferred[..i + 1], depth) == AtDepth(deferred[..i], depth) + AtDepth([deferred[i]], depth)
  {
    assert deferred[..i + 1] == deferred[..i] + [deferred[i]];
    forall depth: nat
      ensures AtDepth(deferred[..i + 1], depth) == AtDepth(deferred[..i], depth) + AtDepth([deferred[i]], depth)
    {
      AtDepthAppend(deferred[..i], [deferred[i]], depth);
    }
  }

  /** The callback of a descendant runs before the callback it hangs below. */
  lemma {:induction false} DescendantsFirst(plan: Plan, cells: seq<Cell>, sorted: seq<Deferred>, chain: seq<nat>)
    requires DeepestFirst(sorted) && AllAttach(plan, cells, sorted) && |chain| >= 2
    requires forall k :: 0 <= k < |chain| ==> chain[k] < |sorted|
    requires forall k :: 0 <= k < |chain| - 1 ==> sorted[chain[k + 1]].parent in sorted[chain[k]].kids
    ensures chain[|chain| - 1] < chain[0]
  {
    ChainDepth(plan, cells, sorted, chain, |chain|);
  }

  lemma {:induction false} ChainDepth(plan: Plan, cells: seq<Cell>, sorted: seq<Deferred>, chain: seq<nat>, n: nat)
    requires AllAttach(plan, cells, sorted) && 1 <= n <= |chain|
    requires forall k :: 0 <= k < |chain| ==> chain[k] < |sorted|
    requires forall k :: 0 <= k < |chain| - 1 ==> sorted[chain[k + 1]].parent in sorted[chain[k]].kids
    ensures sorted[chain[n - 1]].depth == sorted[chain[0]].depth + n - 1
  {
    if n > 1 {
      ChainDepth(plan, cells, sorted, chain, n - 1);
      var above, below := sorted[chain[n - 2]], sorted[chain[n - 2 + 1]];
      assert below.parent in above.kids;
      assert Attaches(plan, cells, above) && Attaches(plan, cells, below);
    }
  }

  /** After the first `n` callbacks every cell holds exactly what they attached, complete. */
  ghost predicate Progress(plan: Plan, rank: map<nat, nat>, cells: seq<Cell>, sorted: seq<Deferred>, n: nat, vals: seq<Loaded>)
    requires Ranked(plan, rank) && CellsOk(rank, cells) && n <= |sorted|
  {
    && |vals| == |cells|
    && forall c :: 0 <= c < |cells| ==> CellProgress(plan, rank, cells[c], c, sorted[..n], vals[c])
  }

  ghost predicate CellProgress(plan: Plan, rank: map<nat, nat>, cell: Cell, c: nat, ran: seq<Deferred>, val: Loaded)
    requires Ranked(plan, rank) && cell.node in rank
  {
    && val.row == cell.row && cell.node < |plan.nodes|
    && (forall e :: e in val.relations <==> Has(ran, c, e))
    && forall e :: e in val.relations ==>
         e in plan.nodes[cell.node] && BuildsChildren(plan, rank, cell.node, e, cell.row, val.relations[e])
  }

  /** A cell whose callbacks have all run holds a graph the recursive loader builds for it. */
  lemma {:induction false} CellComplete(plan: Plan, rank: map<nat, nat>, cell: Cell, c: nat, ran: seq<Deferred>, val: Loaded)
    requires Ranked(plan, rank) && cell.node in rank && CellProgress(plan, rank, cell, c, ran, val)
    requires forall e :: e in plan.nodes[cell.node] ==> Has(ran, c, e)
    ensures val.row == cell.row && Builds(plan, rank, cell.node, val)
  {
  }

  lemma {:induction false} HasEverywhere(deferred: seq<Deferred>, sorted: seq<Deferred>, c: nat, e: nat)
    requires multiset(sorted) == multiset(deferred) && Has(deferred, c, e)
    ensures Has(sorted, c, e)
  {
    var i :| 0 <= i < |deferred| && deferred[i].parent == c && deferred[i].edge == e;
    assert deferred[i] in multiset(sorted);
    assert deferred[i] in sorted;
  }

  lemma {:induction false} KidDepth(plan: Plan, cells: seq<Cell>, d: Deferred, kid: nat)
    requires Attaches(plan, cells, d) && kid in d.kids
    ensures kid < |cells| && cells[kid].depth == d.depth + 1
  {
    var j :| 0 <= j < |d.kids| && d.kids[j] == kid;
  }

  /** By the time a callback runs, the callbacks of its kids have run. */
  lemma {:induction false} KidsReady(plan: Plan, cells: seq<Cell>, sorted: seq<Deferred>, n: nat, kid: nat, e: nat)
    requires DeepestFirst(sorted) && AllAttach(plan, cells, sorted) && n < |sorted|
    requires kid in sorted[n].kids && Has(sorted, kid, e)
    ensures Has(sorted[..n], kid, e)
  {
    var i :| 0 <= i < |sorted| && sorted[i].parent == kid && sorted[i].edge == e;
    KidDepth(plan, cells, sorted[n], kid);
    assert Attaches(plan, cells, sorted[i]);
    assert i < n;
    assert sorted[..n][i] == sorted[i];
  }

  /** The callbacks of the sorted list cover every cell. */
  ghost predicate AllCovered(plan: Plan, cells: seq<Cell>, sorted: seq<Deferred>) {
    forall c :: 0 <= c < |cells| ==> Covered(plan, cells, sorted, c)
  }

  lemma {:induction false} SortedCovers(plan: Plan, x: Expansion, sorted: seq<Deferred>)
    requires CoveredBut(plan, x, []) && AllAttach(plan, x.cells, x.deferred) && multiset(sorted) == multiset(x.deferred)
    ensures AllCovered(plan, x.cells, sorted) && AllAttach(plan, x.cells, sorted)
  {
    forall c | 0 <= c < |x.cells|
      ensures Covered(plan, x.cells, sorted, c)
    {
      assert Covered(plan, x.cells, x.deferred, c);
      forall e | e in plan.nodes[x.cells[c].node]
        ensures Has(sorted, c, e)
      {
        HasEverywhere(x.deferred, sorted, c, e);
      }
    }
    forall i | 0 <= i < |sorted|
      ensures Attaches(plan, x.cells, sorted[i])
    {
      assert sorted[i] in multiset(x.deferred);
      assert sorted[i] in x.deferred;
    }
  }

  /** What a callback copies into its parent. */
  function KidValues(vals: seq<Loaded>, kids: seq<nat>): (r: seq<Loaded>)
    requires forall j :: 0 <= j < |kids| ==> kids[j] < |vals|
  {
    seq(|kids|, j requires 0 <= j < |kids| => vals[kids[j]])
  }

  /** When a callback runs, the values it copies are complete. */
  lemma {:induction false} KidsComplete(plan: Plan, rank: map<nat, nat>, cells: seq<Cell>, sorted: seq<Deferred>, n: nat, vals: seq<Loaded>)
    requires Ranked(plan, rank) && CellsOk(rank, cells) && n < |sorted| && Progress(plan, rank, cells, sorted, n, vals)
    requires DeepestFirst(sorted) && AllAttach(plan, cells, sorted) && AllCovered(plan, cells, sorted)
    ensures Attaches(plan, cells, sorted[n])
    ensures forall j :: 0 <= j < |sorted[n].kids| ==> sorted[n].kids[j] < |vals|
    ensures var cell := cells[sorted[n].parent];
            BuildsChildren(plan, rank, cell.node, sorted[n].edge, cell.row, KidValues(vals, sorted[n].kids))
  {
    var d := sorted[n];
    assert Attaches(plan, cells, d);
    var cell := cells[d.parent];
    assert RankedNode(plan, rank, cell.node);
    forall j | 0 <= j < |d.kids|
      ensures vals[d.kids[j]].row == cells[d.kids[j]].row && Builds(plan, rank, plan.edges[d.edge].child, vals[d.kids[j]])
    {
      assert d.kids[j] in d.kids;
      KidComplete(plan, rank, cells, sorted, n, vals, d.kids[j]);
    }
    assert RowsOf(KidValues(vals, d.kids)) == RowsAt(cells, d.kids);
  }

  lemma {:induction false} KidComplete(plan: Plan, rank: map<nat, nat>, cells: seq<Cell>, sorted: seq<Deferred>, n: nat, vals: seq<Loaded>, kid: nat)
    requires Ranked(plan, rank) && CellsOk(rank, cells) && n < |sorted| && Progress(plan, rank, cells, sorted, n, vals)
    requires DeepestFirst(sorted) && AllAttach(plan, cells, sorted) && AllCovered(plan, cells, sorted)
    requires kid in sorted[n].kids && kid < |cells|
    ensures vals[kid].row == cells[kid].row && Builds(plan, rank, cells[kid].node, vals[kid])
  {
    assert CellProgress(plan, rank, cells[kid], kid, sorted[..n], vals[kid]);
    assert Covered(plan, cells, sorted, kid);
    forall e | e in plan.nodes[cells[kid].node]
      ensures Has(sorted[..n], kid, e)
    {
      KidsReady(plan, cells, sorted, n, kid, e);
    }
    CellComplete(plan, rank, cells[kid], kid, sorted[..n], vals[kid]);
  }

  lemma {:induction false} HasSnoc(ran: seq<Deferred>, d: Deferred, c: nat, e: nat)
    ensures Has(ran + [d], c, e) <==> Has(ran, c, e) || (d.parent == c && d.edge == e)
  {
    assert (ran + [d])[|ran|] == d;
    if Has(ran, c, e) {
      HasGrows(ran, ran + [d], c, e);
    }
  }

  function WithRelation(val: Loaded, e: nat, kids: seq<Loaded>): Loaded {
    Loaded(val.row, val.relations[e := kids])
  }

  /** One callback keeps the progress. */
  lemma {:induction false} CallbackStep(plan: Plan, rank: map<nat, nat>, cell: Cell, c: nat, ran: seq<Deferred>, d: Deferred, val: Loaded, kids: seq<Loaded>)
    requires Ranked(plan, rank) && cell.node in rank && CellProgress(plan, rank, cell, c, ran, val)
    requires d.parent == c ==> d.edge in plan.nodes[cell.node] && BuildsChildren(plan, rank, cell.node, d.edge, cell.row, kids)
    ensures CellProgress(plan, rank, cell, c, ran + [d], if d.parent == c then WithRelation(val, d.edge, kids) else val)
  {
    forall e
      ensures Has(ran + [d], c, e) <==> Has(ran, c, e) || (d.parent == c && d.edge == e)
    {
      HasSnoc(ran, d, c, e);
    }
  }

  /**
   Runs the callbacks in order. Each copies the present values of its kids, so the
   result is right only because no kid changes afterwards.
   */
  method RunCallbacks(plan: Plan, ghost rank: map<nat, nat>, cells: seq<Cell>, sorted: seq<Deferred>) returns (vals: seq<Loaded>)
    requires Ranked(plan, rank) && CellsOk(rank, cells)
    requires DeepestFirst(sorted) && AllAttach(plan, cells, sorted) && AllCovered(plan, cells, sorted)
    ensures |vals| == |cells|
    ensures forall c :: 0 <= c < |cells| ==> vals[c].row == cells[c].row && Builds(plan, rank, cells[c].node, vals[c])
  {
    vals := seq(|cells|, c requires 0 <= c < |cells| => Loaded(cells[c].row, map[]));
    NothingRun(plan, rank, cells, sorted, vals);
    for n := 0 to |sorted|
      invariant Progress(plan, rank, cells, sorted, n, vals)
    {
      var d := sorted[n];
      KidsComplete(plan, rank, cells, sorted, n, vals);
      var kids := KidValues(vals, d.kids);
      ghost var before := vals;
      vals := vals[d.parent := WithRelation(vals[d.parent], d.edge, kids)];
      ProgressStep(plan, rank, cells, sorted, n, before, kids);
    }
    AllRun(plan, rank, cells, sorted, vals);
  }

  lemma {:induction false} NothingRun(plan: Plan, rank: map<nat, nat>, cells: seq<Cell>, sorted: seq<Deferred>, vals: seq<Loaded>)
    requires Ranked(plan, rank) && CellsOk(rank, cells)
    requires |vals| == |cells| && forall c :: 0 <= c < |cells| ==> vals[c] == Loaded(cells[c].row, map[])
    ensures Progress(plan, rank, cells, sorted, 0, vals)
  {
    forall c | 0 <= c < |cells|
      ensures CellProgress(plan, rank, cells[c], c, sorted[..0], vals[c])
    {
      assert RankedNode(plan, rank, cells[c].node);
    }
  }

  lemma {:induction false} ProgressStep(plan: Plan, rank: map<nat, nat>, cells: seq<Cell>, sorted: seq<Deferred>, n: nat, vals: seq<Loaded>, kids: seq<Loaded>)
    requires Ranked(plan, rank) && CellsOk(rank, cells) && n < |sorted| && Progress(plan, rank, cells, sorted, n, vals)
    requires Attaches(plan, cells, sorted[n])
    requires var cell := cells[sorted[n].parent]; BuildsChildren(plan, rank, cell.node, sorted[n].edge, cell.row, kids)
    ensures var d := sorted[n];
            Progress(plan, rank, cells, sorted, n + 1, vals[d.parent := WithRelation(vals[d.parent], d.edge, kids)])
  {
    var d := sorted[n];
    assert sorted[..n + 1] == sorted[..n] + [d];
    forall c | 0 <= c < |cells|
      ensures CellProgress(plan, rank, cells[c], c, sorted[..n + 1], if d.parent == c then WithRelation(vals[c], d.edge, kids) else vals[c])
    {
      CallbackStep(plan, rank, cells[c], c, sorted[..n], d, vals[c], kids);
    }
  }

  lemma {:induction false} AllRun(plan: Plan, rank: map<nat, nat>, cells: seq<Cell>, sorted: seq<Deferred>, vals: seq<Loaded>)
    requires Ranked(plan, rank) && CellsOk(rank, cells) && AllCovered(plan, cells, sorted)
    requires Progress(plan, rank, cells, sorted, |sorted|, vals)
    ensures forall c :: 0 <= c < |cells| ==> vals[c].row == cells[c].row && Builds(plan, rank, cells[c].node, vals[c])
  {
    assert sorted[..|sorted|] == sorted;
    forall c | 0 <= c < |cells|
      ensures vals[c].row == cells[c].row && Builds(plan, rank, cells[c].node, vals[c])
    {
      assert CellProgress(plan, rank, cells[c], c, sorted, vals[c]) && Covered(plan, cells, sorted, c);
      CellComplete(plan, rank, cells[c], c, sorted, vals[c]);
    }
  }

  // ---------- the whole loader ----------

  datatype Outcome = Refused(verdict: V.Verdict) | Failed | Graphs(graphs: seq<Loaded>)

  /**
   Some reachable edge sends a query without key columns, compares keys of different
   widths, or has a budget below a query's own binds and one key.
   */
  ghost predicate Overtaxed(plan: Plan, root: nat) {
    exists v: nat, e :: Reaches(plan, root, v) && v < |plan.nodes| && e in plan.nodes[v] && e < |plan.edges| &&
      var s := plan.edges[e].spec;
      || |s.children.cols| == 0 || s.budget < s.children.fixed + |s.children.cols|
      || (!s.ManyThrough? && |s.parent| != |s.children.cols|)
      || (s.ManyThrough? &&
            (|s.junction.cols| == 0 || s.budget < s.junction.fixed + |s.junction.cols|
             || |s.parent| != |s.junction.cols| || |s.target| != |s.children.cols|))
  }

  lemma {:induction false} UnfitIsOvertaxed(plan: Plan, root: nat)
    ensures Unfit(plan, root) <==> Overtaxed(plan, root)
  {
    forall e | 0 <= e < |plan.edges|
      ensures EdgeAccepted(plan.edges[e].spec) <==>
                var s := plan.edges[e].spec;
                && 0 < |s.children.cols| && s.children.fixed + |s.children.cols| <= s.budget
                && (!s.ManyThrough? ==> |s.parent| == |s.children.cols|)
                && (s.ManyThrough? ==>
                      && 0 < |s.junction.cols| && s.junction.fixed + |s.junction.cols| <= s.budget
                      && |s.parent| == |s.junction.cols| && |s.target| == |s.children.cols|)
    {
      AcceptedExactly(plan.edges[e].spec);
    }
    if Unfit(plan, root) {
      var v: nat :| Reaches(plan, root, v) && UnfitNode(plan, v);
      var e :| e in plan.nodes[v] && e < |plan.edges| && !EdgeAccepted(plan.edges[e].spec);
    }
  }

  /**
   Refuses a plan exactly when something reachable is cyclic or cannot be sent. Otherwise it
   fails exactly when the recursive loader fails for some root row, and else returns
   for every root row a graph the recursive loader may build for it: the very graph
   it builds, when every statement of the plan settles the order of its rows. No
   statement it sends is empty or exceeds the budget of its edge.
   */
  method LoadGraph(plan: Plan, root: nat, rootRows: seq<Row>)
      returns (r: Outcome, sent: seq<Executed>, ghost rank: map<nat, nat>)
    requires WellFormed(plan) && root < |plan.nodes|
    ensures r.Refused? <==> Cyclic(plan, root) || Overtaxed(plan, root)
    ensures !r.Refused? ==> Ranked(plan, rank) && root in rank
    ensures !r.Refused? ==> (r.Failed? <==> SomeRootFails(plan, rank, root, rootRows))
    ensures r.Graphs? ==> |r.graphs| == |rootRows|
    ensures r.Graphs? ==> forall i :: 0 <= i < |rootRows| ==>
              r.graphs[i].row == rootRows[i] && Builds(plan, rank, root, r.graphs[i])
    ensures r.Graphs? && AllDetermined(plan) ==> forall i :: 0 <= i < |rootRows| ==>
              r.graphs[i] == LoadOne(plan, rank, root, rootRows[i])
    ensures AllWithin(plan, sent) && (r.Refused? ==> sent == [])
  {
    rank, sent := map[], [];
    FlawIsUnfit(plan, root);
    UnfitIsOvertaxed(plan, root);
    CyclicExactly(plan, root);
    var verdict, log, order := V.GraphValidate(GraphOf(plan), root);
    if verdict != V.Valid {
      return Refused(verdict), sent, rank;
    }
    rank := RankOf(order);
    ValidatedRanked(plan, order);
    RootReachable(plan, root);
    var ok, x;
    ok, x, sent := ExpandRoots(plan, rank, root, rootRows);
    if !ok {
      return Failed, sent, rank;
    }
    var graphs := Attach(plan, rank, root, rootRows, x);
    r := Graphs(graphs);
    if AllDetermined(plan) {
      forall i | 0 <= i < |rootRows|
        ensures graphs[i] == LoadOne(plan, rank, root, rootRows[i])
      {
        BuildsExactly(plan, rank, root, graphs[i]);
      }
    }
  }

  /** Sorts the callbacks and runs them. */
  method Attach(plan: Plan, ghost rank: map<nat, nat>, root: nat, rootRows: seq<Row>, x: Expansion) returns (graphs: seq<Loaded>)
    requires Ranked(plan, rank) && root in rank && ExpansionOk(plan, rank, x, false) && CoveredBut(plan, x, [])
    requires NewCells(root, rootRows, 0) <= x.cells
    ensures |graphs| == |rootRows|
    ensures forall i :: 0 <= i < |rootRows| ==> graphs[i].row == rootRows[i] && Builds(plan, rank, root, graphs[i])
  {
    var sorted := SortDeferred(x.deferred);
    SortedCovers(plan, x, sorted);
    var vals := RunCallbacks(plan, rank, x.cells, sorted);
    graphs := vals[..|rootRows|];
    assert forall i :: 0 <= i < |rootRows| ==> x.cells[i] == NewCells(root, rootRows, 0)[i];
  }

  lemma {:induction false} RootReachable(plan: Plan, root: nat)
    requires WellFormed(plan) && root < |plan.nodes|
    ensures V.Reachable(GraphOf(plan), root, root)
  {
    assert V.IsPath(GraphOf(plan), root, [root]);
  }
}
