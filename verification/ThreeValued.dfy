/**
 The fragment of SQL the loaders build predicates in, with the three-valued
 semantics of sections 8.2, 8.6 and 8.12 of ISO/IEC 9075:1992. Column values are
 `real`: every countable ordered domain, text included, embeds in the reals. What
 is true of every row is therefore true of the rows of any such column; that some
 row exists depends on the column, whose values may have a greatest or least one.
 */
module ThreeValued {
  datatype Cell = Null | Val(v: real)

  datatype Truth = True | False | Unknown

  function Truthy(b: bool): Truth { if b then True else False }

  /** Column `col` of the row is always an index into it. */
  datatype Expr =
    | IsNull(col: nat)
    | IsNotNull(col: nat)
    | Equal(col: nat, bind: real)
    | GreaterThan(col: nat, bind: real)
    | LessThan(col: nat, bind: real)
    | And(conjuncts: seq<Expr>)
    | Or(disjuncts: seq<Expr>)

  function CellAt(row: seq<Cell>, col: nat): Cell {
    if col < |row| then row[col] else Null
  }

  function AndTruth(a: Truth, b: Truth): Truth {
    if a == False || b == False then False
    else if a == Unknown || b == Unknown then Unknown
    else True
  }

  function OrTruth(a: Truth, b: Truth): Truth {
    if a == True || b == True then True
    else if a == Unknown || b == Unknown then Unknown
    else False
  }

  function Eval(e: Expr, row: seq<Cell>): Truth
    decreases e, 1
  {
    match e
    case IsNull(c) => Truthy(CellAt(row, c).Null?)
    case IsNotNull(c) => Truthy(CellAt(row, c).Val?)
    case Equal(c, b) => if CellAt(row, c).Null? then Unknown else Truthy(CellAt(row, c).v == b)
    case GreaterThan(c, b) => if CellAt(row, c).Null? then Unknown else Truthy(CellAt(row, c).v > b)
    case LessThan(c, b) => if CellAt(row, c).Null? then Unknown else Truthy(CellAt(row, c).v < b)
    case And(es) => EvalAll(es, row)
    case Or(es) => EvalAny(es, row)
  }

  function EvalAll(es: seq<Expr>, row: seq<Cell>): Truth
    decreases es, 0
  {
    if es == [] then True else AndTruth(Eval(es[0], row), EvalAll(es[1..], row))
  }

  function EvalAny(es: seq<Expr>, row: seq<Cell>): Truth
    decreases es, 0
  {
    if es == [] then False else OrTruth(Eval(es[0], row), EvalAny(es[1..], row))
  }

  lemma {:induction false} EvalAllSnoc(es: seq<Expr>, e: Expr, row: seq<Cell>)
    ensures EvalAll(es + [e], row) == AndTruth(EvalAll(es, row), Eval(e, row))
  {
    if es == [] {
      assert [e][1..] == [];
      assert es + [e] == [e];
    } else {
      assert (es + [e])[1..] == es[1..] + [e];
      EvalAllSnoc(es[1..], e, row);
    }
  }

  lemma {:induction false} EvalAnySnoc(es: seq<Expr>, e: Expr, row: seq<Cell>)
    ensures EvalAny(es + [e], row) == OrTruth(EvalAny(es, row), Eval(e, row))
  {
    if es == [] {
      assert [e][1..] == [];
      assert es + [e] == [e];
    } else {
      assert (es + [e])[1..] == es[1..] + [e];
      EvalAnySnoc(es[1..], e, row);
    }
  }

  /** A conjunction is TRUE if all conjuncts are, FALSE if one is, else UNKNOWN; a disjunction the other way round. */
  lemma {:induction false} ConnectivesMean(es: seq<Expr>, row: seq<Cell>)
    ensures Eval(And(es), row) == True <==> forall i :: 0 <= i < |es| ==> Eval(es[i], row) == True
    ensures Eval(And(es), row) == False <==> exists i :: 0 <= i < |es| && Eval(es[i], row) == False
    ensures Eval(Or(es), row) == True <==> exists i :: 0 <= i < |es| && Eval(es[i], row) == True
    ensures Eval(Or(es), row) == False <==> forall i :: 0 <= i < |es| ==> Eval(es[i], row) == False
  {
    if es != [] {
      var rest := es[1..];
      ConnectivesMean(rest, row);
      assert Eval(And(rest), row) == EvalAll(rest, row) && Eval(Or(rest), row) == EvalAny(rest, row);
      assert forall i :: 0 <= i < |rest| ==> rest[i] == es[i + 1];
      assert forall i :: 1 <= i < |es| ==> es[i] == rest[i - 1];
    }
  }

  /** A comparison with a NULL is UNKNOWN, otherwise the comparison of the values. */
  lemma {:induction false} ComparisonsMean(col: nat, b: real, row: seq<Cell>)
    requires col < |row|
    ensures row[col].Null? ==> Eval(Equal(col, b), row) == Eval(GreaterThan(col, b), row) == Eval(LessThan(col, b), row) == Unknown
    ensures row[col].Val? ==> (Eval(Equal(col, b), row) == True <==> row[col].v == b) && (Eval(GreaterThan(col, b), row) == True <==> row[col].v > b)
    ensures row[col].Val? ==> (Eval(LessThan(col, b), row) == True <==> row[col].v < b)
    ensures Eval(IsNull(col), row) == True <==> row[col].Null?
    ensures Eval(IsNotNull(col), row) == True <==> row[col].Val?
  {
  }
}
