/**
 What the graph loader is to compute (graph_execute.go): plans, the order validation
 leaves behind, and a recursive loader that asks one query per parent.
 */
module GraphSpec {
  import opened Wrappers
  import opened ThreeValued
  import opened GraphMembership
  import opened GraphEdge
  import V = GraphValidate

  datatype PlanEdge = PlanEdge(spec: EdgeSpec, child: nat)

  /** Nodes list their edges by index; an edge may be shared by several nodes. */
  datatype Plan = Plan(nodes: seq<seq<nat>>, edges: seq<PlanEdge>)

  ghost predicate WellFormed(plan: Plan) {
    && (forall v, i :: 0 <= v < |plan.nodes| && 0 <= i < |plan.nodes[v]| ==> plan.nodes[v][i] < |plan.edges|)
    && forall e :: 0 <= e < |plan.edges| ==> plan.edges[e].child < |plan.nodes|
  }

  /** The plan as validation sees it. */
  function GraphOf(plan: Plan): (g: V.Graph)
    requires WellFormed(plan)
    ensures |g| == |plan.nodes|
    ensures forall v :: 0 <= v < |g| ==> g[v].ok && |g[v].edges| == |plan.nodes[v]|
    ensures forall v, i :: 0 <= v < |g| && 0 <= i < |g[v].edges| ==>
              g[v].edges[i] == V.Edge(Some(plan.edges[plan.nodes[v][i]].child), EdgeAccepted(plan.edges[plan.nodes[v][i]].spec))
  {
    seq(|plan.nodes|, v requires 0 <= v < |plan.nodes| => V.Node(true, NodeEdges(plan, v)))
  }

  function NodeEdges(plan: Plan, v: nat): (r: seq<V.Edge>)
    requires WellFormed(plan) && v < |plan.nodes|
    ensures |r| == |plan.nodes[v]|
    ensures forall i :: 0 <= i < |r| ==>
              r[i] == V.Edge(Some(plan.edges[plan.nodes[v][i]].child), EdgeAccepted(plan.edges[plan.nodes[v][i]].spec))
  {
    seq(|plan.nodes[v]|, i requires 0 <= i < |plan.nodes[v]| =>
      var edge := plan.edges[plan.nodes[v][i]];
      V.Edge(Some(edge.child), EdgeAccepted(edge.spec)))
  }

  // ---------- reachability, on the plan itself ----------

  /** Some edge leads from node `u` to node `v`. */
  ghost predicate Leads(plan: Plan, u: nat, v: nat) {
    u < |plan.nodes| && exists e :: e in plan.nodes[u] && e < |plan.edges| && plan.edges[e].child == v
  }

  ghost predicate IsWalk(plan: Plan, root: nat, p: seq<nat>) {
    && p != [] && p[0] == root && (forall k :: 0 <= k < |p| ==> p[k] < |plan.nodes|)
    && forall k :: 0 <= k < |p| - 1 ==> Leads(plan, p[k], p[k + 1])
  }

  ghost predicate Reaches(plan: Plan, root: nat, v: nat) {
    exists p :: IsWalk(plan, root, p) && p[|p| - 1] == v
  }

  /** Some walk from the root meets a node twice. */
  ghost predicate Cyclic(plan: Plan, root: nat) {
    exists p, i, j :: IsWalk(plan, root, p) && 0 <= i < j < |p| && p[i] == p[j]
  }

  lemma {:induction false} ChildIsLed(plan: Plan, u: nat, v: nat)
    requires WellFormed(plan)
    ensures V.HasChild(GraphOf(plan), u, v) <==> Leads(plan, u, v)
  {
    var g := GraphOf(plan);
    if V.HasChild(g, u, v) {
      var i :| 0 <= i < |g[u].edges| && g[u].edges[i].child == Some(v);
      assert plan.nodes[u][i] in plan.nodes[u];
    }
    if Leads(plan, u, v) {
      var e :| e in plan.nodes[u] && e < |plan.edges| && plan.edges[e].child == v;
      var i :| 0 <= i < |plan.nodes[u]| && plan.nodes[u][i] == e;
      assert g[u].edges[i].child == Some(v);
    }
  }

  lemma {:induction false} WalksArePaths(plan: Plan, root: nat, p: seq<nat>)
    requires WellFormed(plan)
    ensures V.IsPath(GraphOf(plan), root, p) <==> IsWalk(plan, root, p)
  {
    forall k | 0 <= k < |p| - 1
      ensures V.HasChild(GraphOf(plan), p[k], p[k + 1]) <==> Leads(plan, p[k], p[k + 1])
    {
      ChildIsLed(plan, p[k], p[k + 1]);
    }
  }

  lemma {:induction false} ReachesExactly(plan: Plan, root: nat, v: nat)
    requires WellFormed(plan)
    ensures V.Reachable(GraphOf(plan), root, v) <==> Reaches(plan, root, v)
  {
    var g := GraphOf(plan);
    if V.Reachable(g, root, v) {
      var p :| V.IsPath(g, root, p) && p[|p| - 1] == v;
      WalksArePaths(plan, root, p);
    }
    if Reaches(plan, root, v) {
      var p :| IsWalk(plan, root, p) && p[|p| - 1] == v;
      WalksArePaths(plan, root, p);
    }
  }

  lemma {:induction false} CyclicExactly(plan: Plan, root: nat)
    requires WellFormed(plan)
    ensures V.HasCycle(GraphOf(plan), root) <==> Cyclic(plan, root)
  {
    var g := GraphOf(plan);
    if V.HasCycle(g, root) {
      var p, i, j :| V.IsPath(g, root, p) && 0 <= i < j < |p| && p[i] == p[j];
      WalksArePaths(plan, root, p);
    }
    if Cyclic(plan, root) {
      var p, i, j :| IsWalk(plan, root, p) && 0 <= i < j < |p| && p[i] == p[j];
      WalksArePaths(plan, root, p);
    }
  }

  /** Some edge of the node is not accepted. */
  ghost predicate UnfitNode(plan: Plan, v: nat) {
    v < |plan.nodes| && exists e :: e in plan.nodes[v] && e < |plan.edges| && !EdgeAccepted(plan.edges[e].spec)
  }

  ghost predicate Unfit(plan: Plan, root: nat) {
    exists v: nat :: Reaches(plan, root, v) && UnfitNode(plan, v)
  }

  lemma {:induction false} FlawedNode(plan: Plan, v: nat)
    requires WellFormed(plan) && v < |plan.nodes|
    ensures V.Flawless(GraphOf(plan), v) <==> !UnfitNode(plan, v)
  {
    var g := GraphOf(plan);
    forall i | 0 <= i < |plan.nodes[v]|
      ensures g[v].edges[i].child.Some? && (g[v].edges[i].ok <==> EdgeAccepted(plan.edges[plan.nodes[v][i]].spec))
    {
    }
    if UnfitNode(plan, v) {
      var e :| e in plan.nodes[v] && e < |plan.edges| && !EdgeAccepted(plan.edges[e].spec);
      var i :| 0 <= i < |plan.nodes[v]| && plan.nodes[v][i] == e;
      assert !g[v].edges[i].ok;
    }
    if !V.Flawless(g, v) {
      var i :| 0 <= i < |g[v].edges| && !(g[v].edges[i].ok && g[v].edges[i].child.Some?);
      assert plan.nodes[v][i] in plan.nodes[v];
    }
  }

  lemma {:induction false} FlawIsUnfit(plan: Plan, root: nat)
    requires WellFormed(plan)
    ensures V.HasFlaw(GraphOf(plan), root) <==> Unfit(plan, root)
  {
    forall v: nat
      ensures V.Reachable(GraphOf(plan), root, v) <==> Reaches(plan, root, v)
      ensures Reaches(plan, root, v) ==> v < |plan.nodes| && (V.Flawless(GraphOf(plan), v) <==> !UnfitNode(plan, v))
    {
      ReachesExactly(plan, root, v);
      if Reaches(plan, root, v) {
        var p :| IsWalk(plan, root, p) && p[|p| - 1] == v;
        FlawedNode(plan, v);
      }
    }
  }

  // ---------- what validation leaves behind ----------

  /** `v` is a node whose edges are accepted and lead to ranked nodes below it. */
  ghost predicate RankedNode(plan: Plan, rank: map<nat, nat>, v: nat)
    requires v in rank
  {
    && v < |plan.nodes|
    && forall e :: e in plan.nodes[v] ==>
         && e < |plan.edges| && EdgeAccepted(plan.edges[e].spec)
         && plan.edges[e].child in rank && rank[plan.edges[e].child] < rank[v]
  }

  /** The validated nodes, each ranked above its children. */
  ghost predicate Ranked(plan: Plan, rank: map<nat, nat>) {
    forall v :: v in rank ==> RankedNode(plan, rank, v)
  }

  /** The order in which validation finished the nodes ranks them. */
  ghost function RankOf(order: seq<nat>): map<nat, nat>
    requires V.NoRepeats(order)
  {
    map v | v in order :: Position(order, v)
  }

  function Position(order: seq<nat>, v: nat): (k: nat)
    requires v in order
    ensures k < |order| && order[k] == v
  {
    if order[0] == v then 0 else Position(order[1..], v) + 1
  }

  lemma {:induction false} ValidatedRanked(plan: Plan, order: seq<nat>)
    requires WellFormed(plan) && V.Settled(GraphOf(plan), order)
    ensures Ranked(plan, RankOf(order))
  {
    var g, rank := GraphOf(plan), RankOf(order);
    forall v | v in order
      ensures RankedNode(plan, rank, v)
    {
      var k := Position(order, v);
      assert V.Flawless(g, order[k]);
      forall e | e in plan.nodes[v]
        ensures && e < |plan.edges| && EdgeAccepted(plan.edges[e].spec)
                && plan.edges[e].child in rank && rank[plan.edges[e].child] < rank[v]
      {
        EdgeRanked(plan, order, k, e);
      }
    }
  }

  lemma {:induction false} EdgeRanked(plan: Plan, order: seq<nat>, k: nat, e: nat)
    requires WellFormed(plan) && V.Settled(GraphOf(plan), order) && k < |order|
    requires order[k] < |plan.nodes| && e in plan.nodes[order[k]]
    ensures e < |plan.edges| && EdgeAccepted(plan.edges[e].spec)
    ensures plan.edges[e].child in order && Position(order, plan.edges[e].child) < k
  {
    var g, v := GraphOf(plan), order[k];
    assert V.Flawless(g, order[k]);
    var i :| 0 <= i < |plan.nodes[v]| && plan.nodes[v][i] == e;
    var child := plan.edges[e].child;
    assert g[v].edges[i] == V.Edge(Some(child), EdgeAccepted(plan.edges[e].spec));
    assert V.HasChild(g, order[k], child);
    assert child in order[..k];
    var j :| 0 <= j < k && order[j] == child;
    assert order[Position(order, child)] == order[j];
  }

  // ---------- the recursive loader ----------

  /** A loaded row and, per edge of its node, the loaded rows attached to it. */
  datatype Loaded = Loaded(row: Row, relations: map<nat, seq<Loaded>>)

  function RowsOf(kids: seq<Loaded>): (r: seq<Row>)
    ensures |r| == |kids| && forall j :: 0 <= j < |kids| ==> r[j] == kids[j].row
  {
    seq(|kids|, j requires 0 <= j < |kids| => kids[j].row)
  }

  /** The recursive loader, one query per parent, succeeds for `row`. */
  ghost predicate LoadsOk(plan: Plan, rank: map<nat, nat>, v: nat, row: Row)
    requires Ranked(plan, rank) && v in rank
    decreases rank[v]
  {
    assert RankedNode(plan, rank, v);
    forall e :: e in plan.nodes[v] ==>
      && EdgeOk(plan.edges[e].spec, row)
      && forall r :: r in ChildRows(plan.edges[e].spec, row) ==> LoadsOk(plan, rank, plan.edges[e].child, r)
  }

  /**
   `g` is a graph the recursive loader may build for its row: every relation holds
   child rows one query for that parent may return, each with a graph built for it.
   */
  ghost predicate Builds(plan: Plan, rank: map<nat, nat>, v: nat, g: Loaded)
    requires Ranked(plan, rank) && v in rank
    decreases rank[v], 1
  {
    assert RankedNode(plan, rank, v);
    && (forall e :: e in g.relations <==> e in plan.nodes[v])
    && forall e :: e in plan.nodes[v] ==> BuildsChildren(plan, rank, v, e, g.row, g.relations[e])
  }

  ghost predicate BuildsChildren(plan: Plan, rank: map<nat, nat>, v: nat, e: nat, row: Row, kids: seq<Loaded>)
    requires Ranked(plan, rank) && v in rank && v < |plan.nodes| && e in plan.nodes[v]
    decreases rank[v], 0
  {
    assert RankedNode(plan, rank, v);
    && MayLoad(plan.edges[e].spec, row, RowsOf(kids))
    && forall j :: 0 <= j < |kids| ==> Builds(plan, rank, plan.edges[e].child, kids[j])
  }

  /** The graph built when every statement keeps the order its rows are listed in. */
  ghost function LoadOne(plan: Plan, rank: map<nat, nat>, v: nat, row: Row): (r: Loaded)
    requires Ranked(plan, rank) && v in rank
    ensures r.row == row
    decreases rank[v], 1
  {
    assert RankedNode(plan, rank, v);
    Loaded(row, map e | e in plan.nodes[v] :: LoadChildren(plan, rank, v, e, row))
  }

  ghost function LoadChildren(plan: Plan, rank: map<nat, nat>, v: nat, e: nat, row: Row): (r: seq<Loaded>)
    requires Ranked(plan, rank) && v in rank && v < |plan.nodes| && e in plan.nodes[v]
    ensures RankedNode(plan, rank, v) && RowsOf(r) == ChildRows(plan.edges[e].spec, row)
    decreases rank[v], 0
  {
    assert RankedNode(plan, rank, v);
    var rows := ChildRows(plan.edges[e].spec, row);
    seq(|rows|, j requires 0 <= j < |rows| => LoadOne(plan, rank, plan.edges[e].child, rows[j]))
  }

  /** Every statement of the plan settles the order of its rows. */
  ghost predicate AllDetermined(plan: Plan) {
    forall e :: 0 <= e < |plan.edges| ==> Determined(plan.edges[e].spec)
  }

  /** Then the recursive loader builds one graph and no other. */
  lemma {:induction false} BuildsExactly(plan: Plan, rank: map<nat, nat>, v: nat, g: Loaded)
    requires Ranked(plan, rank) && v in rank && AllDetermined(plan)
    ensures Builds(plan, rank, v, g) <==> g == LoadOne(plan, rank, v, g.row)
    decreases rank[v]
  {
    assert RankedNode(plan, rank, v);
    var whole := LoadOne(plan, rank, v, g.row);
    forall e | e in plan.nodes[v] && e in g.relations
      ensures BuildsChildren(plan, rank, v, e, g.row, g.relations[e]) <==> g.relations[e] == whole.relations[e]
    {
      ChildrenExactly(plan, rank, v, e, g.row, g.relations[e]);
    }
    if Builds(plan, rank, v, g) {
      assert g.relations == whole.relations;
    }
  }

  lemma {:induction false} ChildrenExactly(plan: Plan, rank: map<nat, nat>, v: nat, e: nat, row: Row, kids: seq<Loaded>)
    requires Ranked(plan, rank) && v in rank && v < |plan.nodes| && e in plan.nodes[v] && AllDetermined(plan)
    ensures BuildsChildren(plan, rank, v, e, row, kids) <==> kids == LoadChildren(plan, rank, v, e, row)
    decreases rank[v], 0
  {
    assert RankedNode(plan, rank, v);
    var child := plan.edges[e].child;
    DeterminedLoads(plan.edges[e].spec, row, RowsOf(kids));
    forall j | 0 <= j < |kids|
      ensures Builds(plan, rank, child, kids[j]) <==> kids[j] == LoadOne(plan, rank, child, kids[j].row)
    {
      BuildsExactly(plan, rank, child, kids[j]);
    }
    var whole := LoadChildren(plan, rank, v, e, row);
    if BuildsChildren(plan, rank, v, e, row, kids) {
      forall j | 0 <= j < |kids|
        ensures kids[j] == whole[j]
      {
        assert RowsOf(kids)[j] == RowsOf(whole)[j];
      }
    }
  }

  /** In any case every relation it builds holds the same rows, in some order. */
  lemma {:induction false} BuildsUpToOrder(plan: Plan, rank: map<nat, nat>, v: nat, g: Loaded)
    requires Ranked(plan, rank) && v in rank && Builds(plan, rank, v, g)
    ensures var whole := LoadOne(plan, rank, v, g.row);
            && g.relations.Keys == whole.relations.Keys
            && forall e :: e in g.relations ==> multiset(RowsOf(g.relations[e])) == multiset(RowsOf(whole.relations[e]))
  {
    assert RankedNode(plan, rank, v);
    var whole := LoadOne(plan, rank, v, g.row);
    forall e | e in g.relations
      ensures e in whole.relations && multiset(RowsOf(g.relations[e])) == multiset(RowsOf(whole.relations[e]))
    {
      assert BuildsChildren(plan, rank, v, e, g.row, g.relations[e]);
      MayLoadRows(plan.edges[e].spec, g.row, RowsOf(g.relations[e]));
    }
    assert forall e :: e in whole.relations ==> e in g.relations;
  }

  /** The recursive loader does not depend on how the nodes are ranked. */
  lemma {:induction false} AnyRank(plan: Plan, rank: map<nat, nat>, other: map<nat, nat>, v: nat, g: Loaded)
    requires Ranked(plan, rank) && Ranked(plan, other) && v in rank && v in other
    ensures Builds(plan, rank, v, g) == Builds(plan, other, v, g)
    decreases rank[v]
  {
    assert RankedNode(plan, rank, v) && RankedNode(plan, other, v);
    forall e | e in plan.nodes[v] && e in g.relations
      ensures BuildsChildren(plan, rank, v, e, g.row, g.relations[e]) == BuildsChildren(plan, other, v, e, g.row, g.relations[e])
    {
      var kids := g.relations[e];
      forall j | 0 <= j < |kids|
        ensures Builds(plan, rank, plan.edges[e].child, kids[j]) == Builds(plan, other, plan.edges[e].child, kids[j])
      {
        AnyRank(plan, rank, other, plan.edges[e].child, kids[j]);
      }
    }
  }

  /** Nor does whether it succeeds. */
  lemma {:induction false} AnyRankOk(plan: Plan, rank: map<nat, nat>, other: map<nat, nat>, v: nat, row: Row)
    requires Ranked(plan, rank) && Ranked(plan, other) && v in rank && v in other
    ensures LoadsOk(plan, rank, v, row) == LoadsOk(plan, other, v, row)
    decreases rank[v]
  {
    assert RankedNode(plan, rank, v) && RankedNode(plan, other, v);
    forall e, r | e in plan.nodes[v] && r in ChildRows(plan.edges[e].spec, row)
      ensures LoadsOk(plan, rank, plan.edges[e].child, r) == LoadsOk(plan, other, plan.edges[e].child, r)
    {
      AnyRankOk(plan, rank, other, plan.edges[e].child, r);
    }
  }
}
