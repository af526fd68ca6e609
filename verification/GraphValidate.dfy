/**
 Validation of a graph plan (graph_execute.go): an iterative depth-first search
 with active and done sets over plan identities, here node indices.
 */
module GraphValidate {
  import opened Wrappers

  /** `ok` is what compiling and checking the edge on its own reports. */
  datatype Edge = Edge(child: Option<nat>, ok: bool)

  datatype Node = Node(ok: bool, edges: seq<Edge>)

  type Graph = seq<Node>

  ghost predicate Scoped(graph: Graph) {
    forall v, i :: 0 <= v < |graph| && 0 <= i < |graph[v].edges| && graph[v].edges[i].child.Some? ==>
      graph[v].edges[i].child.value < |graph|
  }

  ghost predicate HasChild(graph: Graph, u: nat, v: nat) {
    u < |graph| && exists i :: 0 <= i < |graph[u].edges| && graph[u].edges[i].child == Some(v)
  }

  ghost predicate Flawless(graph: Graph, v: nat) {
    v < |graph| && graph[v].ok && forall i :: 0 <= i < |graph[v].edges| ==> graph[v].edges[i].ok && graph[v].edges[i].child.Some?
  }

  /** A walk along edges from `root`. */
  ghost predicate IsPath(graph: Graph, root: nat, p: seq<nat>) {
    && p != [] && p[0] == root
    && (forall k :: 0 <= k < |p| ==> p[k] < |graph|)
    && forall k :: 0 <= k < |p| - 1 ==> HasChild(graph, p[k], p[k + 1])
  }

  ghost predicate Reachable(graph: Graph, root: nat, v: nat) {
    exists p :: IsPath(graph, root, p) && p[|p| - 1] == v
  }

  ghost predicate HasCycle(graph: Graph, root: nat) {
    exists p, i, j :: IsPath(graph, root, p) && 0 <= i < j < |p| && p[i] == p[j]
  }

  /** Every child of order[k] comes earlier in the order. */
  ghost predicate Postorder(graph: Graph, order: seq<nat>) {
    forall k, v: nat {:trigger HasChild(graph, order[k], v)} :: 0 <= k < |order| && HasChild(graph, order[k], v) ==> v in order[..k]
  }

  ghost predicate NoRepeats(s: seq<nat>) {
    forall i, j :: 0 <= i < j < |s| ==> s[i] != s[j]
  }

  // ---------- what a finished search has established ----------

  /** `order` holds validated nodes only, each after all of its children. */
  ghost predicate Settled(graph: Graph, order: seq<nat>) {
    && Postorder(graph, order) && NoRepeats(order)
    && forall k :: 0 <= k < |order| ==> Flawless(graph, order[k])
  }

  lemma {:induction false} IndexOf(s: seq<nat>, v: nat) returns (k: nat)
    requires v in s
    ensures k < |s| && s[k] == v
  {
    k :| 0 <= k < |s| && s[k] == v;
  }

  /** Along a path the positions in a postorder go down. */
  lemma {:induction false} PathDescends(graph: Graph, order: seq<nat>, root: nat, p: seq<nat>, n: nat)
      returns (at: seq<nat>)
    requires Settled(graph, order) && root in order && IsPath(graph, root, p) && 1 <= n <= |p|
    ensures |at| == n && (forall k :: 0 <= k < n ==> at[k] < |order| && order[at[k]] == p[k])
    ensures forall k, l :: 0 <= k < l < n ==> at[k] > at[l]
  {
    if n == 1 {
      var k := IndexOf(order, root);
      at := [k];
    } else {
      at := PathDescends(graph, order, root, p, n - 1);
      var last := at[n - 2];
      assert HasChild(graph, p[n - 2], p[n - 2 + 1]);
      assert p[n - 1] in order[..last];
      var k := IndexOf(order[..last], p[n - 1]);
      at := at + [k];
    }
  }

  /** A settled order that contains the root contains all that is reachable, and excludes cycles. */
  lemma {:induction false} SettledReach(graph: Graph, order: seq<nat>, root: nat)
    requires Settled(graph, order) && root in order
    ensures forall v :: Reachable(graph, root, v) ==> v in order
    ensures !HasCycle(graph, root)
  {
    forall v | Reachable(graph, root, v)
      ensures v in order
    {
      var p :| IsPath(graph, root, p) && p[|p| - 1] == v;
      var at := PathDescends(graph, order, root, p, |p|);
    }
    forall p, i, j | IsPath(graph, root, p) && 0 <= i < j < |p|
      ensures p[i] != p[j]
    {
      var at := PathDescends(graph, order, root, p, |p|);
      assert at[i] > at[j];
    }
  }

  lemma {:induction false} PathExtends(graph: Graph, root: nat, p: seq<nat>, v: nat)
    requires IsPath(graph, root, p) && HasChild(graph, p[|p| - 1], v) && v < |graph|
    ensures IsPath(graph, root, p + [v])
  {
    var q := p + [v];
    forall k | 0 <= k < |q| - 1
      ensures HasChild(graph, q[k], q[k + 1])
    {
      if k < |p| - 1 {
        assert HasChild(graph, p[k], p[k + 1]);
      }
    }
  }

  lemma {:induction false} PathPrefix(graph: Graph, root: nat, p: seq<nat>, n: nat)
    requires IsPath(graph, root, p) && 1 <= n <= |p|
    ensures IsPath(graph, root, p[..n])
  {
    forall k | 0 <= k < n - 1
      ensures HasChild(graph, p[..n][k], p[..n][k + 1])
    {
      assert HasChild(graph, p[k], p[k + 1]);
    }
  }

  // ---------- the search ----------

  datatype Frame = Frame(node: nat, next: nat)

  datatype Verdict = Valid | Cycle | Invalid

  function Nodes(stack: seq<Frame>): (r: seq<nat>)
    ensures |r| == |stack| && forall k :: 0 <= k < |stack| ==> r[k] == stack[k].node
  {
    seq(|stack|, k requires 0 <= k < |stack| => stack[k].node)
  }

  /** Work left on the stack: two per unprocessed edge and frame, one for a frame not entered yet. */
  function Work(graph: Graph, stack: seq<Frame>, entered: nat): nat
    requires forall k :: 0 <= k < |stack| ==> stack[k].node < |graph|
  {
    if stack == [] then 0
    else
      var last := stack[|stack| - 1];
      Work(graph, stack[..|stack| - 1], entered) +
      if |stack| > entered then 1
      else 2 + 2 * (if last.next <= |graph[last.node].edges| then |graph[last.node].edges| - last.next else 0)
  }

  /** The first `entered` frames are active; at most the last one is still to be entered. */
  ghost predicate StackOk(graph: Graph, root: nat, stack: seq<Frame>, entered: nat, order: seq<nat>) {
    && entered <= |stack| <= entered + 1
    && (stack != [] ==> IsPath(graph, root, Nodes(stack)))
    && (forall k :: 0 <= k < entered ==> stack[k].next <= |graph[stack[k].node].edges|)
    && (entered < |stack| ==> stack[entered].next == 0)
    && NoRepeats(Nodes(stack))
    && (forall k :: 0 <= k < |stack| ==> stack[k].node !in order)
    && forall k :: 0 <= k < entered ==> graph[stack[k].node].ok
  }

  /** Every processed edge of an active frame is sound, and leads to a done node or to the frame above. */
  ghost predicate EdgesDone(graph: Graph, stack: seq<Frame>, entered: nat, order: seq<nat>)
    requires entered <= |stack| && forall k :: 0 <= k < |stack| ==> stack[k].node < |graph|
  {
    forall k, e :: 0 <= k < entered && 0 <= e < stack[k].next && e < |graph[stack[k].node].edges| ==>
      var edge := graph[stack[k].node].edges[e];
      edge.ok && edge.child.Some? &&
      (edge.child.value in order || (k + 1 < |stack| && e == stack[k].next - 1 && edge.child.value == stack[k + 1].node))
  }

  ghost predicate Bounded(graph: Graph, stack: seq<Frame>) {
    forall k :: 0 <= k < |stack| ==> stack[k].node < |graph|
  }

  /** What holds between two turns of the loop. */
  ghost predicate Inv(graph: Graph, root: nat, stack: seq<Frame>, entered: nat, order: seq<nat>) {
    && Scoped(graph) && root < |graph| && Bounded(graph, stack)
    && StackOk(graph, root, stack, entered, order)
    && EdgesDone(graph, stack, entered, order)
    && Settled(graph, order)
    && (root in order || (stack != [] && stack[0].node == root))
    && forall v :: v in order ==> Reachable(graph, root, v)
  }

  /** The top frame, entered and with all of its edges processed, is done. */
  lemma {:induction false} FinishTop(graph: Graph, root: nat, stack: seq<Frame>, order: seq<nat>)
    requires stack != [] && Inv(graph, root, stack, |stack|, order)
    requires var top := stack[|stack| - 1]; top.next == |graph[top.node].edges|
    ensures Inv(graph, root, stack[..|stack| - 1], |stack| - 1, order + [stack[|stack| - 1].node])
  {
    var n := |stack| - 1;
    var top, rest := stack[n], stack[..n];
    var longer := order + [top.node];
    assert Reachable(graph, root, top.node) by {
      assert Nodes(stack)[n] == top.node;
    }
    assert Flawless(graph, top.node);
    forall k, v: nat | 0 <= k < |longer| && HasChild(graph, longer[k], v)
      ensures v in longer[..k]
    {
      if k < |order| {
        assert HasChild(graph, order[k], v);
        assert longer[..k] == order[..k];
      } else {
        assert longer[..k] == order;
        var e :| 0 <= e < |graph[top.node].edges| && graph[top.node].edges[e].child == Some(v);
      }
    }
    assert Settled(graph, longer);
    if n > 0 {
      PathPrefix(graph, root, Nodes(stack), n);
      assert Nodes(rest) == Nodes(stack)[..n];
    }
    assert forall v :: v in longer <==> v in order || v == top.node;
    assert forall k :: 0 <= k < n ==> rest[k] == stack[k] && Nodes(stack)[k] == stack[k].node;
  }

  /** The top frame moves past an edge whose child is already done. */
  lemma {:induction false} AdvanceTop(graph: Graph, root: nat, stack: seq<Frame>, order: seq<nat>)
    requires stack != [] && Inv(graph, root, stack, |stack|, order)
    requires TopEdge(graph, stack).Some? && TopEdge(graph, stack).value.ok
    requires TopEdge(graph, stack).value.child.Some? && TopEdge(graph, stack).value.child.value in order
    ensures Inv(graph, root, Moved(stack), |stack|, order)
  {
    assert Nodes(Moved(stack)) == Nodes(stack);
    assert forall k :: 0 <= k < |stack| - 1 ==> Moved(stack)[k] == stack[k];
  }

  /** The next edge of the top frame. */
  function TopEdge(graph: Graph, stack: seq<Frame>): Option<Edge>
    requires stack != [] && stack[|stack| - 1].node < |graph|
  {
    var top := stack[|stack| - 1];
    if top.next < |graph[top.node].edges| then Some(graph[top.node].edges[top.next]) else None
  }

  function Moved(stack: seq<Frame>): seq<Frame>
    requires stack != []
  {
    stack[..|stack| - 1] + [Frame(stack[|stack| - 1].node, stack[|stack| - 1].next + 1)]
  }

  /** The top frame moves past an edge and its unvisited child goes on top. */
  lemma {:induction false} PushChild(graph: Graph, root: nat, stack: seq<Frame>, order: seq<nat>, child: nat)
    requires stack != [] && Inv(graph, root, stack, |stack|, order)
    requires TopEdge(graph, stack) == Some(Edge(Some(child), true))
    requires child !in order && child !in Nodes(stack)
    ensures Inv(graph, root, Moved(stack) + [Frame(child, 0)], |stack|, order)
  {
    var n := |stack|;
    var grown := Moved(stack) + [Frame(child, 0)];
    PathExtends(graph, root, Nodes(stack), child);
    assert Nodes(grown) == Nodes(stack) + [child];
    assert forall k :: 0 <= k < n - 1 ==> grown[k] == stack[k];
  }

  /** An edge back to an active frame closes a cycle. */
  lemma {:induction false} CycleFound(graph: Graph, root: nat, stack: seq<Frame>, child: nat)
    requires Scoped(graph) && stack != [] && IsPath(graph, root, Nodes(stack))
    requires HasChild(graph, stack[|stack| - 1].node, child) && child in Nodes(stack)
    ensures HasCycle(graph, root)
  {
    var p := Nodes(stack);
    PathExtends(graph, root, p, child);
    var i :| 0 <= i < |p| && p[i] == child;
    assert (p + [child])[i] == (p + [child])[|p|];
  }

  lemma {:induction false} WorkMoved(graph: Graph, stack: seq<Frame>)
    requires stack != [] && Bounded(graph, stack)
    requires var top := stack[|stack| - 1]; top.next < |graph[top.node].edges|
    ensures Work(graph, Moved(stack), |stack|) == Work(graph, stack, |stack|) - 2
  {
    assert Moved(stack)[..|stack| - 1] == stack[..|stack| - 1];
  }

  lemma {:induction false} WorkEntered(graph: Graph, stack: seq<Frame>, e: nat, f: nat)
    requires Bounded(graph, stack) && |stack| <= e && |stack| <= f
    ensures Work(graph, stack, e) == Work(graph, stack, f)
  {
    if stack != [] {
      WorkEntered(graph, stack[..|stack| - 1], e, f);
    }
  }

  lemma {:induction false} WorkPushed(graph: Graph, stack: seq<Frame>, child: nat)
    requires Bounded(graph, stack) && child < |graph|
    ensures Work(graph, stack + [Frame(child, 0)], |stack|) == Work(graph, stack, |stack|) + 1
  {
    assert (stack + [Frame(child, 0)])[..|stack|] == stack;
  }

  lemma {:induction false} EnterTop(graph: Graph, root: nat, stack: seq<Frame>, order: seq<nat>)
    requires stack != [] && Inv(graph, root, stack, |stack| - 1, order)
    requires graph[stack[|stack| - 1].node].ok
    ensures Inv(graph, root, stack, |stack|, order)
    ensures stack[|stack| - 1].node !in Nodes(stack[..|stack| - 1]) && stack[|stack| - 1].node !in order
  {
    var n := |stack| - 1;
    assert Nodes(stack)[n] == stack[n].node;
    assert forall k :: 0 <= k < n ==> Nodes(stack[..n])[k] == Nodes(stack)[k];
  }

  /** Some reachable node or edge fails its own checks. */
  ghost predicate HasFlaw(graph: Graph, root: nat) {
    exists v: nat :: Reachable(graph, root, v) && !Flawless(graph, v)
  }

  lemma {:induction false} FlawFound(graph: Graph, root: nat, stack: seq<Frame>)
    requires stack != [] && IsPath(graph, root, Nodes(stack)) && !Flawless(graph, stack[|stack| - 1].node)
    ensures HasFlaw(graph, root)
  {
    assert Nodes(stack)[|stack| - 1] == stack[|stack| - 1].node;
    assert Reachable(graph, root, stack[|stack| - 1].node);
  }

  /** The log names the active and the done nodes, once each. */
  ghost predicate LogOk(log: seq<nat>, stack: seq<Frame>, entered: nat, order: seq<nat>)
    requires entered <= |stack|
  {
    NoRepeats(log) && forall v :: v in log <==> v in order || v in Nodes(stack[..entered])
  }

  ghost function Members(s: seq<nat>): set<nat> { set v | v in s }

  lemma {:induction false} LogBound(log: seq<nat>, n: nat)
    requires NoRepeats(log) && forall k :: 0 <= k < |log| ==> log[k] < n
    ensures |log| <= n
    decreases n
  {
    if log != [] {
      assert log[0] < n;
      if n - 1 in log {
        var k := IndexOf(log, n - 1);
        var rest := log[..k] + log[k + 1..];
        assert forall i :: 0 <= i < |rest| ==> rest[i] == if i < k then log[i] else log[i + 1];
        LogBound(rest, n - 1);
      } else {
        LogBound(log, n - 1);
      }
    }
  }

  /**
   Accepts exactly the graphs in which every reachable node and edge passes its
   own checks and no cycle is reachable; then `log` names every reachable node
   once, and `order` lists them with every child before its parents.
   */
  method GraphValidate(graph: Graph, root: nat) returns (verdict: Verdict, log: seq<nat>, ghost order: seq<nat>)
    requires Scoped(graph) && root < |graph|
    ensures verdict == Valid <==> !HasFlaw(graph, root) && !HasCycle(graph, root)
    ensures verdict == Cycle ==> HasCycle(graph, root)
    ensures verdict == Invalid ==> HasFlaw(graph, root)
    ensures verdict == Valid ==> NoRepeats(log) && forall v :: v in log <==> Reachable(graph, root, v)
    ensures verdict == Valid ==> Settled(graph, order) && forall v :: v in order <==> v in log
  {
    var state := Search([Frame(root, 0)], {}, {}, []);
    order := [];
    ghost var entered: nat := 0;
    Start(graph, root);
    while |state.stack| > 0
      invariant SearchOk(graph, root, state, entered, order)
      invariant Started(state.stack, entered)
      decreases |graph| - |state.log|, Work(graph, state.stack, entered)
    {
      if state.stack[|state.stack| - 1].next == 0 {
        // The edge that pushed this frame found its node neither active nor done.
        var found := Enter(graph, root, state, order);
        if found.Err? {
          return found.error, state.log, order;
        }
        state := found.value;
        entered := |state.stack|;
      }
      var found;
      found, entered, order := Proceed(graph, root, state, order);
      if found.Err? {
        return found.error, state.log, order;
      }
      state := found.value;
    }
    Conclude(graph, root, state, order);
    verdict, log := Valid, state.log;
  }

  /** An entered frame has moved past its first edge, or it would be gone. */
  ghost predicate Started(stack: seq<Frame>, entered: nat) {
    entered <= |stack| && forall k :: 0 <= k < entered ==> stack[k].next > 0
  }

  lemma {:induction false} Conclude(graph: Graph, root: nat, s: Search, order: seq<nat>)
    requires SearchOk(graph, root, s, 0, order) && s.stack == []
    ensures !HasFlaw(graph, root) && !HasCycle(graph, root)
    ensures NoRepeats(s.log) && forall v :: v in s.log <==> Reachable(graph, root, v)
    ensures Settled(graph, order) && forall v :: v in order <==> v in s.log
  {
    assert Nodes(s.stack[..0]) == [];
    SettledReach(graph, order, root);
    forall v: nat | Reachable(graph, root, v)
      ensures Flawless(graph, v)
    {
      var k := IndexOf(order, v);
    }
  }

  /** The variables of the search loop. */
  datatype Search = Search(stack: seq<Frame>, active: set<nat>, done: set<nat>, log: seq<nat>)

  ghost predicate SearchOk(graph: Graph, root: nat, s: Search, entered: nat, order: seq<nat>) {
    && Inv(graph, root, s.stack, entered, order)
    && LogOk(s.log, s.stack, entered, order) && |s.log| <= |graph|
    && (forall k :: 0 <= k < |s.log| ==> s.log[k] < |graph|)
    && s.done == Members(order) && s.active == Members(Nodes(s.stack[..entered]))
  }

  /** The first visit of the top frame: validates its node and makes it active. */
  method Enter(graph: Graph, root: nat, s: Search, ghost order: seq<nat>) returns (r: Result<Search, Verdict>)
    requires s.stack != [] && SearchOk(graph, root, s, |s.stack| - 1, order)
    ensures r.Err? ==> r.error == Invalid && HasFlaw(graph, root)
    ensures r.Ok? ==> SearchOk(graph, root, r.value, |s.stack|, order) && r.value.stack == s.stack
    ensures r.Ok? ==> |r.value.log| == |s.log| + 1
  {
    var current := s.stack[|s.stack| - 1];
    if !graph[current.node].ok {
      FlawFound(graph, root, s.stack);
      return Err(Invalid);
    }
    EnterTop(graph, root, s.stack, order);
    LogEnter(graph, s.log, s.stack, order);
    assert Nodes(s.stack[..|s.stack|]) == Nodes(s.stack[..|s.stack| - 1]) + [current.node];
    r := Ok(s.(active := s.active + {current.node}, log := s.log + [current.node]));
  }

  /** The next edge of an active top frame, or the end of the frame. */
  method Proceed(graph: Graph, root: nat, s: Search, ghost order: seq<nat>)
      returns (r: Result<Search, Verdict>, ghost entered: nat, ghost order': seq<nat>)
    requires s.stack != [] && SearchOk(graph, root, s, |s.stack|, order) && Started(s.stack, |s.stack| - 1)
    ensures r.Err? ==> if r.error == Cycle then HasCycle(graph, root) else r.error == Invalid && HasFlaw(graph, root)
    ensures r.Ok? ==> SearchOk(graph, root, r.value, entered, order') && r.value.log == s.log
    ensures r.Ok? ==> Work(graph, r.value.stack, entered) < Work(graph, s.stack, |s.stack|)
    ensures r.Ok? ==> Started(r.value.stack, entered)
  {
    var edge := TopEdge(graph, s.stack);
    if edge.None? {
      FinishOk(graph, root, s, order);
      return Ok(Finished(s)), |s.stack| - 1, order + [s.stack[|s.stack| - 1].node];
    }
    entered, order' := |s.stack|, order;
    if edge.value.child.None? {
      FlawFound(graph, root, s.stack);
      return Err(Invalid), entered, order';
    }
    r := Follow(graph, root, s, order, edge.value);
  }

  /** An edge of the top frame that names a child. */
  method Follow(graph: Graph, root: nat, s: Search, ghost order: seq<nat>, edge: Edge) returns (r: Result<Search, Verdict>)
    requires s.stack != [] && SearchOk(graph, root, s, |s.stack|, order) && Started(s.stack, |s.stack| - 1)
    requires TopEdge(graph, s.stack) == Some(edge) && edge.child.Some?
    ensures r.Err? ==> if r.error == Cycle then HasCycle(graph, root) else r.error == Invalid && HasFlaw(graph, root)
    ensures r.Ok? ==> SearchOk(graph, root, r.value, |s.stack|, order) && r.value.log == s.log
    ensures r.Ok? ==> Work(graph, r.value.stack, |s.stack|) < Work(graph, s.stack, |s.stack|)
    ensures r.Ok? ==> Started(r.value.stack, |s.stack|)
  {
    var stack := s.stack;
    var child := edge.child.value;
    if child in s.active {
      FollowCycle(graph, root, s, order, edge);
      return Err(Cycle);
    }
    if !edge.ok {
      FlawFound(graph, root, stack);
      return Err(Invalid);
    }
    if child in s.done {
      AdvanceOk(graph, root, s, order);
      r := Ok(s.(stack := Moved(stack)));
    } else {
      PushOk(graph, root, s, order, child);
      r := Ok(s.(stack := Moved(stack) + [Frame(child, 0)]));
    }
  }

  lemma {:induction false} FollowCycle(graph: Graph, root: nat, s: Search, order: seq<nat>, edge: Edge)
    requires s.stack != [] && SearchOk(graph, root, s, |s.stack|, order)
    requires TopEdge(graph, s.stack) == Some(edge) && edge.child.Some? && edge.child.value in s.active
    ensures HasCycle(graph, root)
  {
    assert s.stack[..|s.stack|] == s.stack;
    CycleFound(graph, root, s.stack, edge.child.value);
  }

  function Finished(s: Search): Search
    requires s.stack != []
  {
    var node := s.stack[|s.stack| - 1].node;
    Search(s.stack[..|s.stack| - 1], s.active - {node}, s.done + {node}, s.log)
  }

  lemma {:induction false} FinishOk(graph: Graph, root: nat, s: Search, order: seq<nat>)
    requires s.stack != [] && SearchOk(graph, root, s, |s.stack|, order) && TopEdge(graph, s.stack).None?
    ensures SearchOk(graph, root, Finished(s), |s.stack| - 1, order + [s.stack[|s.stack| - 1].node])
    ensures Work(graph, Finished(s).stack, |s.stack| - 1) < Work(graph, s.stack, |s.stack|)
    ensures Started(s.stack, |s.stack| - 1) ==> Started(Finished(s).stack, |s.stack| - 1)
  {
    var stack, last := s.stack, |s.stack| - 1;
    assert stack[..|stack|] == stack;
    FinishTop(graph, root, stack, order);
    LogFinish(s.log, stack, order);
    WorkEntered(graph, stack[..last], |stack|, last);
    NodesFinish(stack);
  }

  lemma {:induction false} AdvanceOk(graph: Graph, root: nat, s: Search, order: seq<nat>)
    requires s.stack != [] && SearchOk(graph, root, s, |s.stack|, order)
    requires TopEdge(graph, s.stack).Some? && TopEdge(graph, s.stack).value.ok
    requires TopEdge(graph, s.stack).value.child.Some? && TopEdge(graph, s.stack).value.child.value in order
    ensures SearchOk(graph, root, s.(stack := Moved(s.stack)), |s.stack|, order)
    ensures Work(graph, Moved(s.stack), |s.stack|) < Work(graph, s.stack, |s.stack|)
  {
    AdvanceTop(graph, root, s.stack, order);
    WorkMoved(graph, s.stack);
    LogMoved(s.log, s.stack, order);
  }

  lemma {:induction false} PushOk(graph: Graph, root: nat, s: Search, order: seq<nat>, child: nat)
    requires s.stack != [] && SearchOk(graph, root, s, |s.stack|, order)
    requires TopEdge(graph, s.stack) == Some(Edge(Some(child), true)) && child !in s.active && child !in order
    ensures SearchOk(graph, root, s.(stack := Moved(s.stack) + [Frame(child, 0)]), |s.stack|, order)
    ensures Work(graph, Moved(s.stack) + [Frame(child, 0)], |s.stack|) < Work(graph, s.stack, |s.stack|)
  {
    assert s.stack[..|s.stack|] == s.stack;
    PushChild(graph, root, s.stack, order, child);
    WorkMoved(graph, s.stack);
    WorkPushed(graph, Moved(s.stack), child);
    LogMoved(s.log, s.stack, order);
    assert (Moved(s.stack) + [Frame(child, 0)])[..|s.stack|] == Moved(s.stack)[..|s.stack|];
  }

  lemma {:induction false} NodesFinish(stack: seq<Frame>)
    requires stack != [] && NoRepeats(Nodes(stack))
    ensures Members(Nodes(stack[..|stack| - 1][..|stack| - 1])) == Members(Nodes(stack)) - {stack[|stack| - 1].node}
  {
    var n := |stack| - 1;
    assert stack[..n][..n] == stack[..n];
    assert Nodes(stack) == Nodes(stack[..n]) + [stack[n].node];
    assert forall k :: 0 <= k < n ==> Nodes(stack)[k] != Nodes(stack)[n];
  }

  lemma {:induction false} LogEnter(graph: Graph, log: seq<nat>, stack: seq<Frame>, order: seq<nat>)
    requires stack != [] && LogOk(log, stack, |stack| - 1, order) && Bounded(graph, stack)
    requires forall k :: 0 <= k < |log| ==> log[k] < |graph|
    requires var v := stack[|stack| - 1].node; v !in Nodes(stack[..|stack| - 1]) && v !in order
    ensures LogOk(log + [stack[|stack| - 1].node], stack, |stack|, order)
    ensures |log| + 1 <= |graph|
  {
    var n := |stack| - 1;
    var v := stack[n].node;
    assert v !in log;
    assert Nodes(stack[..|stack|]) == Nodes(stack[..n]) + [v];
    LogBound(log + [v], |graph|);
  }

  lemma {:induction false} LogFinish(log: seq<nat>, stack: seq<Frame>, order: seq<nat>)
    requires stack != [] && LogOk(log, stack, |stack|, order)
    ensures LogOk(log, stack[..|stack| - 1], |stack| - 1, order + [stack[|stack| - 1].node])
  {
    var n := |stack| - 1;
    assert stack[..n][..n] == stack[..n];
    assert Nodes(stack[..|stack|]) == Nodes(stack[..n]) + [stack[n].node];
  }

  lemma {:induction false} LogMoved(log: seq<nat>, stack: seq<Frame>, order: seq<nat>)
    requires stack != [] && LogOk(log, stack, |stack|, order)
    ensures LogOk(log, Moved(stack), |stack|, order)
    ensures forall f :: LogOk(log, Moved(stack) + [f], |stack|, order)
    ensures Nodes(Moved(stack)[..|stack|]) == Nodes(stack[..|stack|])
  {
    assert Nodes(Moved(stack)[..|stack|]) == Nodes(stack[..|stack|]);
    forall f
      ensures LogOk(log, Moved(stack) + [f], |stack|, order)
    {
      assert (Moved(stack) + [f])[..|stack|] == Moved(stack)[..|stack|];
    }
  }

  lemma {:induction false} Start(graph: Graph, root: nat)
    requires Scoped(graph) && root < |graph|
    ensures Inv(graph, root, [Frame(root, 0)], 0, [])
  {
    assert Nodes([Frame(root, 0)]) == [root];
  }
}
