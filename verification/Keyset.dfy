/**
 Keyset predicates (page.go, cursor.go): the OR of ANDs that selects the rows
 after a cursor, against the ORDER BY it has to agree with.
 */
module Keyset {
  import opened Wrappers
  import opened ThreeValued

  datatype NullOrder = NullOrderDefault | NullsFirst | NullsLast

  /** A page key; key `i` orders by column `i` of the projected key tuple. */
  datatype PageKey = PageKey(descending: bool, nullable: bool, nulls: NullOrder)

  /** What NewPageSpec demands: nullable keys name their NULL placement. */
  predicate ValidSpec(keys: seq<PageKey>) {
    && keys != []
    && forall i :: 0 <= i < |keys| && keys[i].nullable ==> keys[i].nulls != NullOrderDefault
  }

  /** A key tuple the table can hold: only nullable keys are NULL. */
  predicate Fits(keys: seq<PageKey>, tuple: seq<Cell>) {
    && |tuple| == |keys|
    && forall i :: 0 <= i < |keys| && tuple[i].Null? ==> keys[i].nullable
  }

  // ---------- the order the query asks for ----------

  /** `a` sorts strictly before `b` under one ORDER BY term. */
  predicate TermBefore(key: PageKey, a: Cell, b: Cell) {
    match (a, b)
    case (Null, Null) => false
    case (Null, Val(_)) => key.nulls == NullsFirst
    case (Val(_), Null) => key.nulls == NullsLast
    case (Val(x), Val(y)) => if key.descending then x > y else x < y
  }

  /** Where a term puts a cell: NULLs on their side, values by size or, descending, by negated size. */
  function Place(key: PageKey, c: Cell): (int, real) {
    match c
    case Null => (if key.nulls == NullsFirst then -1 else 1, 0.0)
    case Val(v) => (0, if key.descending then -v else v)
  }

  /** One term orders cells by their places. */
  lemma {:induction false} TermOrdersByPlace(key: PageKey, a: Cell, b: Cell)
    requires a.Null? || b.Null? ==> key.nulls != NullOrderDefault
    ensures TermBefore(key, a, b) <==>
              Place(key, a).0 < Place(key, b).0 || (Place(key, a).0 == Place(key, b).0 && Place(key, a).1 < Place(key, b).1)
  {
  }

  predicate BeforeAt(keys: seq<PageKey>, a: seq<Cell>, b: seq<Cell>, i: nat)
    requires |a| == |b| == |keys| && i < |keys|
  {
    a[..i] == b[..i] && TermBefore(keys[i], a[i], b[i])
  }

  /** `a` sorts strictly before `b` under the whole ORDER BY. */
  predicate Before(keys: seq<PageKey>, a: seq<Cell>, b: seq<Cell>)
    requires |a| == |b| == |keys|
  {
    exists i :: 0 <= i < |keys| && BeforeAt(keys, a, b, i)
  }

  lemma {:induction false} BeforeIrreflexive(keys: seq<PageKey>, a: seq<Cell>)
    requires |a| == |keys|
    ensures !Before(keys, a, a)
  {
  }

  lemma {:induction false} BeforeTransitive(keys: seq<PageKey>, a: seq<Cell>, b: seq<Cell>, c: seq<Cell>)
    requires |a| == |b| == |c| == |keys|
    requires Before(keys, a, b) && Before(keys, b, c)
    ensures Before(keys, a, c)
  {
    var i :| 0 <= i < |keys| && BeforeAt(keys, a, b, i);
    var j :| 0 <= j < |keys| && BeforeAt(keys, b, c, j);
    var k := if i <= j then i else j;
    assert a[..k] == a[..i][..k] && b[..k] == b[..i][..k];
    assert b[..k] == b[..j][..k] && c[..k] == c[..j][..k];
    if i < j {
      assert b[i] == b[..j][i] && c[i] == c[..j][i];
    } else if j < i {
      assert a[j] == a[..i][j] && b[j] == b[..i][j];
    }
    assert BeforeAt(keys, a, c, k);
  }

  /** On tuples a table can hold, the order is total. */
  lemma {:induction false} BeforeTotal(keys: seq<PageKey>, a: seq<Cell>, b: seq<Cell>)
    requires ValidSpec(keys) && Fits(keys, a) && Fits(keys, b)
    ensures Before(keys, a, b) || a == b || Before(keys, b, a)
  {
    if a != b {
      var i := FirstDifference(a, b);
      assert BeforeAt(keys, a, b, i) || BeforeAt(keys, b, a, i);
    }
  }

  lemma {:induction false} FirstDifference(a: seq<Cell>, b: seq<Cell>) returns (i: nat)
    requires |a| == |b| && a != b
    ensures i < |a| && a[..i] == b[..i] && a[i] != b[i]
  {
    i := 0;
    while i < |a| && a[i] == b[i]
      invariant i <= |a| && a[..i] == b[..i]
    {
      i := i + 1;
    }
  }

  // ---------- keysetPredicate ----------

  datatype KeysetOutcome =
    | NoPredicate
    | Impossible
    | InvalidCursor
    | Selected(predicate_: Expr)

  function PriorPart(j: nat, c: Cell): Expr {
    if c.Null? then IsNull(j) else And([IsNotNull(j), Equal(j, c.v)])
  }

  function PriorParts(cursor: seq<Cell>, i: nat): seq<Expr>
    requires i <= |cursor|
  {
    if i == 0 then [] else PriorParts(cursor, i - 1) + [PriorPart(i - 1, cursor[i - 1])]
  }

  function CurrentPart(key: PageKey, i: nat, c: Cell): Option<Expr> {
    if c.Null? then
      if key.nulls == NullsFirst then Some(IsNotNull(i)) else None
    else
      var comparison := if key.descending then LessThan(i, c.v) else GreaterThan(i, c.v);
      var branch := And([IsNotNull(i), comparison]);
      Some(if key.nulls == NullsLast then Or([IsNull(i), branch]) else branch)
  }

  function Conjunction(parts: seq<Expr>): Expr
    requires parts != []
  {
    if |parts| == 1 then parts[0] else And(parts)
  }

  /** The branch for key `i`: equal on the keys before it, strictly after on it. */
  function BranchAt(keys: seq<PageKey>, cursor: seq<Cell>, i: nat): Option<Expr>
    requires i < |keys| == |cursor|
  {
    var current := CurrentPart(keys[i], i, cursor[i]);
    if current.None? then None else Some(Conjunction(PriorParts(cursor, i) + [current.value]))
  }

  function AddBranch(branches: seq<Expr>, branch: Option<Expr>): seq<Expr> {
    if branch.None? then branches else branches + [branch.value]
  }

  function Branches(keys: seq<PageKey>, cursor: seq<Cell>, n: nat): seq<Expr>
    requires n <= |keys| == |cursor|
  {
    if n == 0 then [] else AddBranch(Branches(keys, cursor, n - 1), BranchAt(keys, cursor, n - 1))
  }

  /**
   The predicate for the page after `cursor`; `None` is a request without one.
   It is TRUE for exactly the rows strictly after the cursor and never UNKNOWN. It
   is Impossible exactly when every cursor value is a NULL that does not sort first,
   and then no row comes after the cursor.
   */
  method KeysetPredicate(keys: seq<PageKey>, cursor: Option<seq<Cell>>) returns (r: KeysetOutcome)
    requires ValidSpec(keys)
    requires cursor.Some? ==> |cursor.value| == |keys|
    ensures r == NoPredicate <==> cursor.None?
    ensures r == InvalidCursor <==> cursor.Some? && !Fits(keys, cursor.value)
    ensures r.Selected? ==> forall row :: Fits(keys, row) ==>
              Eval(r.predicate_, row) == Truthy(Before(keys, cursor.value, row))
    ensures r == Impossible <==> cursor.Some? && Fits(keys, cursor.value) && AllNullsLast(keys, cursor.value)
    ensures r == Impossible ==> forall row :: Fits(keys, row) ==> !Before(keys, cursor.value, row)
  {
    if cursor.None? {
      return NoPredicate;
    }
    var cursors := cursor.value;
    var branches: seq<Expr> := [];
    var impossible := true;
    for i := 0 to |keys|
      invariant branches == Branches(keys, cursors, i)
      invariant impossible <==> branches == []
      invariant forall j :: 0 <= j < i && cursors[j].Null? ==> keys[j].nullable
    {
      if cursors[i].Null? && !keys[i].nullable {
        return InvalidCursor;
      }
      var parts: seq<Expr> := [];
      for j := 0 to i
        invariant parts == PriorParts(cursors, j)
      {
        if cursors[j].Null? {
          parts := parts + [IsNull(j)];
        } else {
          parts := parts + [And([IsNotNull(j), Equal(j, cursors[j].v)])];
        }
      }
      var valid := true;
      if cursors[i].Null? {
        if keys[i].nulls == NullsFirst {
          parts := parts + [IsNotNull(i)];
        } else {
          valid := false;
        }
      } else {
        var comparison := GreaterThan(i, cursors[i].v);
        if keys[i].descending {
          comparison := LessThan(i, cursors[i].v);
        }
        var branch := And([IsNotNull(i), comparison]);
        if keys[i].nulls == NullsLast {
          branch := Or([IsNull(i), branch]);
        }
        parts := parts + [branch];
      }
      if valid {
        var branch := parts[0];
        if |parts| > 1 {
          branch := And(parts);
        }
        branches := branches + [branch];
        impossible := false;
      }
    }
    NoBranches(keys, cursors);
    NothingAfter(keys, cursors);
    if impossible {
      return Impossible;
    }
    r := Selected(if |branches| == 1 then branches[0] else Or(branches));
    forall row | Fits(keys, row)
      ensures Eval(r.predicate_, row) == Truthy(Before(keys, cursors, row))
    {
      BranchesMeaning(keys, cursors, row, |keys|);
      if |branches| == 1 {
        assert branches[1..] == [];
      }
    }
  }

  lemma {:induction false} PairMeaning(a: Expr, b: Expr, row: seq<Cell>)
    ensures Eval(And([a, b]), row) == AndTruth(Eval(a, row), Eval(b, row))
    ensures Eval(Or([a, b]), row) == OrTruth(Eval(a, row), Eval(b, row))
  {
    assert [a, b][1..] == [b] && [b][1..] == [];
    assert EvalAll([b], row) == AndTruth(Eval(b, row), EvalAll([], row));
    assert EvalAny([b], row) == OrTruth(Eval(b, row), EvalAny([], row));
  }

  lemma {:induction false} PriorPartsMeaning(keys: seq<PageKey>, cursor: seq<Cell>, row: seq<Cell>, i: nat)
    requires Fits(keys, cursor) && Fits(keys, row) && i <= |keys|
    ensures EvalAll(PriorParts(cursor, i), row) == Truthy(cursor[..i] == row[..i])
    ensures |PriorParts(cursor, i)| == i
  {
    if i > 0 {
      PriorPartsMeaning(keys, cursor, row, i - 1);
      EvalAllSnoc(PriorParts(cursor, i - 1), PriorPart(i - 1, cursor[i - 1]), row);
      if cursor[i - 1].Val? {
        PairMeaning(IsNotNull(i - 1), Equal(i - 1, cursor[i - 1].v), row);
      }
      assert cursor[..i] == cursor[..i - 1] + [cursor[i - 1]];
      assert row[..i] == row[..i - 1] + [row[i - 1]];
    }
  }

  lemma {:induction false} CurrentPartMeaning(key: PageKey, i: nat, c: Cell, row: seq<Cell>)
    requires i < |row|
    requires (c.Null? || row[i].Null?) ==> key.nulls != NullOrderDefault
    ensures CurrentPart(key, i, c).None? ==> !TermBefore(key, c, row[i])
    ensures CurrentPart(key, i, c).Some? ==>
              Eval(CurrentPart(key, i, c).value, row) == Truthy(TermBefore(key, c, row[i]))
  {
    if c.Val? {
      var comparison := if key.descending then LessThan(i, c.v) else GreaterThan(i, c.v);
      PairMeaning(IsNotNull(i), comparison, row);
      PairMeaning(IsNull(i), And([IsNotNull(i), comparison]), row);
    }
  }

  /** `a` sorts before `b` by one of the first `n` terms. */
  ghost predicate BeforeWithin(keys: seq<PageKey>, a: seq<Cell>, b: seq<Cell>, n: nat)
    requires |a| == |b| == |keys| && n <= |keys|
  {
    exists i :: 0 <= i < n && BeforeAt(keys, a, b, i)
  }

  lemma {:induction false} BeforeWithinStep(keys: seq<PageKey>, a: seq<Cell>, b: seq<Cell>, n: nat)
    requires |a| == |b| == |keys| && n < |keys|
    ensures BeforeWithin(keys, a, b, n + 1) <==> BeforeWithin(keys, a, b, n) || BeforeAt(keys, a, b, n)
  {
  }

  /** A branch that is left out stands for a condition that fails. */
  ghost predicate BranchMeans(branch: Option<Expr>, row: seq<Cell>, t: bool) {
    if branch.None? then !t else Eval(branch.value, row) == Truthy(t)
  }

  lemma {:induction false} AddBranchMeaning(branches: seq<Expr>, branch: Option<Expr>, row: seq<Cell>, s: bool, t: bool)
    requires EvalAny(branches, row) == Truthy(s) && BranchMeans(branch, row, t)
    ensures EvalAny(AddBranch(branches, branch), row) == Truthy(s || t)
  {
    if branch.Some? {
      EvalAnySnoc(branches, branch.value, row);
    }
  }

  /** A branch compares the cursor and the row by one term, the earlier ones being equal. */
  lemma {:induction false} BranchMeaning(keys: seq<PageKey>, cursor: seq<Cell>, row: seq<Cell>, i: nat)
    requires ValidSpec(keys) && Fits(keys, cursor) && Fits(keys, row) && i < |keys|
    ensures BranchMeans(BranchAt(keys, cursor, i), row, BeforeAt(keys, cursor, row, i))
  {
    PriorPartsMeaning(keys, cursor, row, i);
    CurrentPartMeaning(keys[i], i, cursor[i], row);
    var current := CurrentPart(keys[i], i, cursor[i]);
    if current.Some? {
      var parts := PriorParts(cursor, i) + [current.value];
      EvalAllSnoc(PriorParts(cursor, i), current.value, row);
      ConjunctionMeaning(parts, row);
    }
  }

  lemma {:induction false} ConjunctionMeaning(parts: seq<Expr>, row: seq<Cell>)
    requires parts != []
    ensures Eval(Conjunction(parts), row) == EvalAll(parts, row)
  {
    if |parts| == 1 {
      assert parts[1..] == [];
      assert EvalAll(parts, row) == AndTruth(Eval(parts[0], row), EvalAll([], row));
    }
  }

  lemma {:induction false} BranchesMeaning(keys: seq<PageKey>, cursor: seq<Cell>, row: seq<Cell>, n: nat)
    requires ValidSpec(keys) && Fits(keys, cursor) && Fits(keys, row) && n <= |keys|
    ensures EvalAny(Branches(keys, cursor, n), row) == Truthy(BeforeWithin(keys, cursor, row, n))
  {
    if n > 0 {
      BranchesMeaning(keys, cursor, row, n - 1);
      BranchMeaning(keys, cursor, row, n - 1);
      BeforeWithinStep(keys, cursor, row, n - 1);
      AddBranchMeaning(Branches(keys, cursor, n - 1), BranchAt(keys, cursor, n - 1), row,
                       BeforeWithin(keys, cursor, row, n - 1), BeforeAt(keys, cursor, row, n - 1));
    }
  }

  /** Every cursor value is a NULL, and NULLs do not come first. */
  predicate AllNullsLast(keys: seq<PageKey>, cursor: seq<Cell>)
    requires |keys| == |cursor|
  {
    forall i :: 0 <= i < |keys| ==> cursor[i].Null? && keys[i].nulls != NullsFirst
  }

  lemma {:induction false} NoBranches(keys: seq<PageKey>, cursor: seq<Cell>)
    requires |keys| == |cursor|
    ensures Branches(keys, cursor, |keys|) == [] <==> AllNullsLast(keys, cursor)
  {
    NoBranch(keys, cursor, |keys|);
    assert keys[..|keys|] == keys && cursor[..|keys|] == cursor;
  }

  lemma {:induction false} NoBranch(keys: seq<PageKey>, cursor: seq<Cell>, n: nat)
    requires n <= |keys| == |cursor|
    ensures Branches(keys, cursor, n) == [] <==> AllNullsLast(keys[..n], cursor[..n])
  {
    if n > 0 {
      NoBranch(keys, cursor, n - 1);
      assert keys[..n] == keys[..n - 1] + [keys[n - 1]] && cursor[..n] == cursor[..n - 1] + [cursor[n - 1]];
    }
  }

  /** No tuple sorts after NULLs that come last. */
  lemma {:induction false} NothingAfter(keys: seq<PageKey>, cursor: seq<Cell>)
    requires |keys| == |cursor|
    ensures AllNullsLast(keys, cursor) ==> forall row :: Fits(keys, row) ==> !Before(keys, cursor, row)
  {
    forall row, i | AllNullsLast(keys, cursor) && Fits(keys, row) && 0 <= i < |keys|
      ensures !BeforeAt(keys, cursor, row, i)
    {
      assert cursor[i].Null?;
    }
  }

  /** `row` holds, in every column, a value the column has. */
  ghost predicate Within(columns: seq<iset<Cell>>, row: seq<Cell>) {
    |row| == |columns| && forall i :: 0 <= i < |row| ==> row[i] in columns[i]
  }

  /** Column `i` has a value that sorts after the cursor's. */
  ghost predicate Advances(key: PageKey, column: iset<Cell>, c: Cell) {
    exists next :: next in column && (next.Null? ==> key.nullable) && TermBefore(key, c, next)
  }

  /**
   Over columns with any values whatever, a row can come after the cursor exactly
   when one of them advances. A predicate that is not Impossible selects nothing
   in the remaining case: some cursor value is not such a NULL, but every column is
   at its last value.
   */
  lemma {:induction false} RowAfterExactly(keys: seq<PageKey>, columns: seq<iset<Cell>>, cursor: seq<Cell>)
    requires Fits(keys, cursor) && Within(columns, cursor)
    ensures (exists row :: Fits(keys, row) && Within(columns, row) && Before(keys, cursor, row))
            <==> exists i :: 0 <= i < |keys| && Advances(keys[i], columns[i], cursor[i])
  {
    if row :| Fits(keys, row) && Within(columns, row) && Before(keys, cursor, row) {
      var i :| 0 <= i < |keys| && BeforeAt(keys, cursor, row, i);
      assert row[i] in columns[i] && TermBefore(keys[i], cursor[i], row[i]);
      assert Advances(keys[i], columns[i], cursor[i]);
    }
    if i :| 0 <= i < |keys| && Advances(keys[i], columns[i], cursor[i]) {
      var next :| next in columns[i] && (next.Null? ==> keys[i].nullable) && TermBefore(keys[i], cursor[i], next);
      var row := cursor[i := next];
      assert Fits(keys, row) && Within(columns, row) && BeforeAt(keys, cursor, row, i);
    }
  }

  /** A column at its greatest value: the cursor is the last row, yet the predicate is built. */
  lemma {:induction false} LastRowIsNotImpossible()
    ensures var keys, cursor, columns := [PageKey(false, false, NullOrderDefault)], [Val(1.0)], [iset{Val(0.0), Val(1.0)}];
            && Branches(keys, cursor, 1) != []
            && forall row :: Fits(keys, row) && Within(columns, row) ==> !Before(keys, cursor, row)
  {
    var keys, cursor, columns := [PageKey(false, false, NullOrderDefault)], [Val(1.0)], [iset{Val(0.0), Val(1.0)}];
    NoBranches(keys, cursor);
    assert cursor[0].Val? && !AllNullsLast(keys, cursor);
    forall row | Fits(keys, row) && Within(columns, row)
      ensures !BeforeAt(keys, cursor, row, 0)
    {
      assert row[0] in columns[0];
    }
  }
}
