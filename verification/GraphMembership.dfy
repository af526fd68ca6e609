/**
 Membership predicates of the graph loader (graph_execute.go): one equality
 branch per key tuple, ORed together pair by pair so the tree stays shallow.
 */
module GraphMembership {
  import opened Wrappers
  import opened ThreeValued

  type Row = seq<Cell>
  type Tuple = seq<real>

  /** The key of a row, absent as soon as one of its columns is NULL. */
  function KeyOf(cols: seq<nat>, row: Row): (r: Option<Tuple>)
    ensures r.Some? ==> |r.value| == |cols|
  {
    if cols == [] then Some([])
    else
      var n := |cols| - 1;
      var head := KeyOf(cols[..n], row);
      if head.None? || CellAt(row, cols[n]).Null? then None
      else Some(head.value + [CellAt(row, cols[n]).v])
  }

  lemma {:induction false} KeyOfCells(cols: seq<nat>, row: Row)
    ensures KeyOf(cols, row).Some? <==> forall i :: 0 <= i < |cols| ==> CellAt(row, cols[i]).Val?
    ensures KeyOf(cols, row).Some? ==>
              forall i :: 0 <= i < |cols| ==> CellAt(row, cols[i]) == Val(KeyOf(cols, row).value[i])
  {
    if cols != [] {
      var n := |cols| - 1;
      KeyOfCells(cols[..n], row);
      assert forall i :: 0 <= i < n ==> cols[..n][i] == cols[i];
    }
  }

  // ---------- measures of an expression ----------

  /** The bound arguments of an expression, in the order they are rendered. */
  function Binds(e: Expr): seq<real>
    decreases e, 1
  {
    match e
    case IsNull(_) => []
    case IsNotNull(_) => []
    case Equal(_, b) => [b]
    case GreaterThan(_, b) => [b]
    case LessThan(_, b) => [b]
    case And(es) => BindsAll(es)
    case Or(es) => BindsAll(es)
  }

  function BindsAll(es: seq<Expr>): seq<real>
    decreases es, 0
  {
    if es == [] then [] else Binds(es[0]) + BindsAll(es[1..])
  }

  /** How deep ORs nest. */
  function OrDepth(e: Expr): nat
    decreases e, 1
  {
    match e
    case And(es) => DeepestOr(es)
    case Or(es) => 1 + DeepestOr(es)
    case _ => 0
  }

  function DeepestOr(es: seq<Expr>): nat
    decreases es, 0
  {
    if es == [] then 0
    else var rest := DeepestOr(es[1..]); if OrDepth(es[0]) > rest then OrDepth(es[0]) else rest
  }

  /** An OR is one deeper than its deepest disjunct, an AND as deep as its deepest conjunct. */
  lemma {:induction false} DepthMeans(es: seq<Expr>, i: nat)
    requires i < |es|
    ensures OrDepth(es[i]) <= OrDepth(And(es)) && OrDepth(es[i]) + 1 <= OrDepth(Or(es))
  {
    if i > 0 {
      assert es[1..][i - 1] == es[i];
      DepthMeans(es[1..], i - 1);
      assert OrDepth(And(es[1..])) == DeepestOr(es[1..]) <= DeepestOr(es);
    }
  }

  function Flatten(tuples: seq<Tuple>): seq<real> {
    if tuples == [] then [] else tuples[0] + Flatten(tuples[1..])
  }

  function CeilLog2(n: nat): nat {
    if n <= 1 then 0 else 1 + CeilLog2((n + 1) / 2)
  }

  function Pow2(k: nat): nat { if k == 0 then 1 else 2 * Pow2(k - 1) }

  /** CeilLog2(n) is the least k with 2^k at least n. */
  lemma {:induction false} CeilLog2Least(n: nat)
    ensures n <= Pow2(CeilLog2(n))
    ensures CeilLog2(n) > 0 ==> Pow2(CeilLog2(n) - 1) < n
  {
    if n > 1 {
      CeilLog2Least((n + 1) / 2);
    }
  }

  // ---------- one branch ----------

  function Equalities(cols: seq<nat>, tuple: Tuple): seq<Expr>
    requires |cols| == |tuple|
  {
    if cols == [] then [] else [Equal(cols[0], tuple[0])] + Equalities(cols[1..], tuple[1..])
  }

  function Branch(cols: seq<nat>, tuple: Tuple): Expr
    requires |cols| == |tuple|
  {
    var parts := Equalities(cols, tuple);
    if |parts| == 1 then parts[0] else And(parts)
  }

  lemma {:induction false} EqualitiesMeaning(cols: seq<nat>, tuple: Tuple, row: Row)
    requires |cols| == |tuple|
    ensures |Equalities(cols, tuple)| == |cols|
    ensures BindsAll(Equalities(cols, tuple)) == tuple && DeepestOr(Equalities(cols, tuple)) == 0
    ensures EvalAll(Equalities(cols, tuple), row) == True
            <==> forall i :: 0 <= i < |cols| ==> CellAt(row, cols[i]) == Val(tuple[i])
  {
    if cols != [] {
      var es := Equalities(cols, tuple);
      EqualitiesMeaning(cols[1..], tuple[1..], row);
      assert es[1..] == Equalities(cols[1..], tuple[1..]);
      assert tuple == [tuple[0]] + tuple[1..];
      assert forall i :: 1 <= i < |cols| ==> cols[i] == cols[1..][i - 1] && tuple[i] == tuple[1..][i - 1];
      assert (forall i :: 0 <= i < |cols| ==> CellAt(row, cols[i]) == Val(tuple[i]))
             <==> CellAt(row, cols[0]) == Val(tuple[0])
                  && forall i :: 0 <= i < |cols[1..]| ==> CellAt(row, cols[1..][i]) == Val(tuple[1..][i]);
    }
  }

  lemma {:induction false} BranchMeaning(cols: seq<nat>, tuple: Tuple, row: Row)
    requires |cols| == |tuple|
    ensures Binds(Branch(cols, tuple)) == tuple && OrDepth(Branch(cols, tuple)) == 0
    ensures Eval(Branch(cols, tuple), row) == True <==> KeyOf(cols, row) == Some(tuple)
  {
    var parts := Equalities(cols, tuple);
    EqualitiesMeaning(cols, tuple, row);
    KeyOfCells(cols, row);
    if |parts| == 1 {
      assert parts[1..] == [];
    }
    if KeyOf(cols, row).Some? {
      var key := KeyOf(cols, row).value;
      assert key == tuple <==> forall i :: 0 <= i < |cols| ==> key[i] == tuple[i];
    }
  }

  function Branches(cols: seq<nat>, tuples: seq<Tuple>): seq<Expr>
    requires forall i :: 0 <= i < |tuples| ==> |tuples[i]| == |cols|
  {
    if tuples == [] then [] else [Branch(cols, tuples[0])] + Branches(cols, tuples[1..])
  }

  lemma {:induction false} BranchesMeaning(cols: seq<nat>, tuples: seq<Tuple>, row: Row)
    requires forall i :: 0 <= i < |tuples| ==> |tuples[i]| == |cols|
    ensures |Branches(cols, tuples)| == |tuples|
    ensures BindsAll(Branches(cols, tuples)) == Flatten(tuples) && DeepestOr(Branches(cols, tuples)) == 0
    ensures EvalAny(Branches(cols, tuples), row) == True <==> exists t :: t in tuples && KeyOf(cols, row) == Some(t)
  {
    if tuples != [] {
      var es := Branches(cols, tuples);
      BranchesMeaning(cols, tuples[1..], row);
      BranchMeaning(cols, tuples[0], row);
      assert es[1..] == Branches(cols, tuples[1..]);
      assert forall t :: t in tuples <==> t == tuples[0] || t in tuples[1..];
    }
  }

  // ---------- one halving pass ----------

  function PairUp(branches: seq<Expr>): seq<Expr> {
    if |branches| <= 1 then branches
    else [Or([branches[0], branches[1]])] + PairUp(branches[2..])
  }

  lemma {:induction false} PairTail(es: seq<Expr>)
    requires |es| >= 2
    ensures es[1..][0] == es[1] && es[1..][1..] == es[2..]
    ensures [es[0], es[1]][1..] == [es[1]] && [es[1]][1..] == []
  {
  }

  lemma {:induction false} PairEval(es: seq<Expr>, row: Row)
    requires |es| >= 2
    ensures EvalAny(es, row) == OrTruth(Eval(Or([es[0], es[1]]), row), EvalAny(es[2..], row))
  {
    PairTail(es);
    assert EvalAny([es[1]], row) == OrTruth(Eval(es[1], row), EvalAny([], row));
    assert Eval(Or([es[0], es[1]]), row) == OrTruth(Eval(es[0], row), EvalAny([es[1]], row));
    assert EvalAny(es[1..], row) == OrTruth(Eval(es[1], row), EvalAny(es[2..], row));
  }

  lemma {:induction false} PairUpEval(branches: seq<Expr>, row: Row)
    ensures EvalAny(PairUp(branches), row) == EvalAny(branches, row)
  {
    if |branches| > 1 {
      PairUpEval(branches[2..], row);
      PairEval(branches, row);
      assert PairUp(branches)[1..] == PairUp(branches[2..]);
    }
  }

  lemma {:induction false} PairBinds(es: seq<Expr>)
    requires |es| >= 2
    ensures BindsAll(es) == Binds(Or([es[0], es[1]])) + BindsAll(es[2..])
  {
    PairTail(es);
    assert BindsAll([es[1]]) == Binds(es[1]) + BindsAll([]);
    assert Binds(Or([es[0], es[1]])) == Binds(es[0]) + BindsAll([es[1]]);
    assert BindsAll(es[1..]) == Binds(es[1]) + BindsAll(es[2..]);
  }

  lemma {:induction false} PairUpBinds(branches: seq<Expr>)
    ensures |PairUp(branches)| == (|branches| + 1) / 2 && BindsAll(PairUp(branches)) == BindsAll(branches)
  {
    if |branches| > 1 {
      PairUpBinds(branches[2..]);
      PairBinds(branches);
      assert PairUp(branches)[1..] == PairUp(branches[2..]);
    }
  }

  lemma {:induction false} PairDepth(es: seq<Expr>)
    requires |es| >= 2
    ensures OrDepth(Or([es[0], es[1]])) <= 1 + DeepestOr(es) && DeepestOr(es[2..]) <= DeepestOr(es)
  {
    PairTail(es);
    assert DeepestOr(es[2..]) <= DeepestOr(es[1..]) <= DeepestOr(es);
    assert DeepestOr([es[1]]) == OrDepth(es[1]);
    assert DeepestOr([es[0], es[1]]) <= DeepestOr(es);
  }

  lemma {:induction false} PairUpDepth(branches: seq<Expr>)
    ensures DeepestOr(PairUp(branches)) <= 1 + DeepestOr(branches)
  {
    if |branches| > 1 {
      PairUpDepth(branches[2..]);
      PairDepth(branches);
      assert PairUp(branches)[1..] == PairUp(branches[2..]);
    }
  }

  /** One pass over the branches, two at a time. */
  method HalveBranches(branches: seq<Expr>) returns (next: seq<Expr>)
    ensures next == PairUp(branches)
  {
    next := [];
    var index := 0;
    while index < |branches|
      invariant 0 <= index <= |branches| + 1
      invariant index <= |branches| ==> next + PairUp(branches[index..]) == PairUp(branches)
      invariant index > |branches| ==> next == PairUp(branches)
    {
      var rest := branches[index..];
      if index + 1 == |branches| {
        assert rest == [branches[index]];
        next := next + [branches[index]];
      } else {
        assert rest[2..] == branches[index + 2..];
        next := next + [Or([branches[index], branches[index + 1]])];
      }
      index := index + 2;
    }
  }

  /**
   TRUE for exactly the rows whose key is one of the tuples; it binds the tuples'
   values in order and nests ORs no deeper than a balanced tree has to.
   */
  method BuildGraphMembership(cols: seq<nat>, tuples: seq<Tuple>) returns (r: Option<Expr>)
    requires forall i :: 0 <= i < |tuples| ==> |tuples[i]| == |cols|
    ensures r.None? <==> tuples == []
    ensures r.Some? ==> forall row: Row ::
              Eval(r.value, row) == True <==> exists t :: t in tuples && KeyOf(cols, row) == Some(t)
    ensures r.Some? ==> Binds(r.value) == Flatten(tuples) && OrDepth(r.value) <= CeilLog2(|tuples|)
  {
    var branches: seq<Expr> := [];
    for i := 0 to |tuples|
      invariant branches + Branches(cols, tuples[i..]) == Branches(cols, tuples)
    {
      assert tuples[i..][1..] == tuples[i + 1..];
      branches := branches + [Branch(cols, tuples[i])];
    }
    assert tuples[|tuples|..] == [] && branches == Branches(cols, tuples);
    BranchesMeaning(cols, tuples, []);
    if |branches| == 0 {
      return None;
    }
    ghost var all := branches;
    ghost var depth := 0;
    while |branches| > 1
      invariant |branches| >= 1 && depth + CeilLog2(|branches|) == CeilLog2(|tuples|)
      invariant BindsAll(branches) == BindsAll(all) && DeepestOr(branches) <= depth
      invariant forall row :: EvalAny(branches, row) == EvalAny(all, row)
      decreases |branches|
    {
      forall row: Row
        ensures EvalAny(PairUp(branches), row) == EvalAny(branches, row)
      {
        PairUpEval(branches, row);
      }
      PairUpBinds(branches);
      PairUpDepth(branches);
      branches := HalveBranches(branches);
      depth := depth + 1;
    }
    r := Some(branches[0]);
    assert branches[1..] == [];
    forall row: Row
      ensures Eval(r.value, row) == True <==> exists t :: t in tuples && KeyOf(cols, row) == Some(t)
    {
      BranchesMeaning(cols, tuples, row);
      assert EvalAny(branches, row) == OrTruth(Eval(branches[0], row), False);
    }
  }

  // ---------- the bind budget ----------

  /** validateGraphEdge: the budget holds the query's own binds and at least one key. */
  predicate BudgetAccepts(budget: int, fixed: nat, width: nat) {
    budget > 0 && budget - fixed >= width
  }

  /** How many keys one statement of the edge carries. */
  function BatchSize(budget: nat, fixed: nat, width: nat): (n: nat)
    requires width > 0 && BudgetAccepts(budget, fixed, width)
    ensures n >= 1 && fixed + width * n <= budget < fixed + width * (n + 1)
  {
    var n := (budget - fixed) / width;
    assert budget - fixed == width * n + (budget - fixed) % width;
    assert n <= 0 ==> width * n <= 0;
    n
  }

  lemma {:induction false} FlattenLength(tuples: seq<Tuple>, width: nat)
    requires forall i :: 0 <= i < |tuples| ==> |tuples[i]| == width
    ensures |Flatten(tuples)| == width * |tuples|
  {
    if tuples != [] {
      FlattenLength(tuples[1..], width);
      assert width * |tuples| == width + width * (|tuples| - 1);
    }
  }

  /** No statement an accepted edge sends binds more than its budget. */
  lemma {:induction false} BatchWithinBudget(budget: nat, fixed: nat, cols: seq<nat>, tuples: seq<Tuple>, membership: Expr)
    requires cols != [] && BudgetAccepts(budget, fixed, |cols|)
    requires forall i :: 0 <= i < |tuples| ==> |tuples[i]| == |cols|
    requires |tuples| <= BatchSize(budget, fixed, |cols|) && Binds(membership) == Flatten(tuples)
    ensures fixed + |Binds(membership)| <= budget
  {
    FlattenLength(tuples, |cols|);
    Fewer(|cols|, |tuples|, BatchSize(budget, fixed, |cols|));
  }

  lemma {:induction false} Fewer(width: nat, a: nat, b: nat)
    requires a <= b
    ensures width * a <= width * b
  {
  }
}
