/**
 Planning of batched mutations (mutation.go): greedy grouping of inserts into
 multi-row statements, and the search for the plan the bind limit cuts at.
 */
module MutationBatch {
  import opened Wrappers

  /**
   A lowered plan, by what matters to grouping. `Alone` is a statement the batch
   API does not group, `Defaults` an INSERT ... DEFAULT VALUES, which binds
   nothing; `rows` holds the bind count of every row of a plain insert.
   */
  datatype Plan =
    | Alone(args: nat)
    | Defaults
    | BatchInsert(columns: seq<string>, rows: seq<nat>)

  function Sum(costs: seq<nat>): nat {
    if costs == [] then 0 else Sum(costs[..|costs| - 1]) + costs[|costs| - 1]
  }

  function PlanArgs(p: Plan): nat {
    match p
    case Alone(args) => args
    case Defaults => 0
    case BatchInsert(_, rows) => Sum(rows)
  }

  function GroupArgs(group: seq<Plan>): nat {
    if group == [] then 0 else GroupArgs(group[..|group| - 1]) + PlanArgs(group[|group| - 1])
  }

  predicate Fits(bindLimit: nat, args: nat) { bindLimit == 0 || args <= bindLimit }

  /** The limits an executor runs under; zero means no limit. */
  datatype Limits = Limits(maxRows: nat, bindLimit: nat, engineMax: nat) {
    ghost predicate Valid() {
      maxRows >= 1 && (engineMax > 0 ==> 0 < bindLimit <= engineMax)
    }
  }

  function MutationBindLimit(engineMax: nat, override: nat): (limit: nat)
    ensures Limits(1, limit, engineMax).Valid()
    ensures (limit == override || limit == engineMax) && (limit == 0 <==> override == 0 && engineMax == 0)
    ensures (override > 0 ==> limit <= override) && (engineMax > 0 ==> limit <= engineMax)
  {
    if override > 0 && (engineMax == 0 || override < engineMax) then override else engineMax
  }

  /** The plans one statement may carry together. */
  ghost predicate Legal(group: seq<Plan>, limits: Limits) {
    && group != []
    && (limits.bindLimit > 0 ==> GroupArgs(group) <= limits.bindLimit)
    && (|group| > 1 ==>
          && |group| <= limits.maxRows
          && group[0].BatchInsert?
          && forall i :: 0 <= i < |group| ==> group[i].BatchInsert? && group[i].columns == group[0].columns)
  }

  // ---------- facts about sums ----------

  /** The binds of an insert are those of its rows, and of a group those of its plans. */
  lemma {:induction false} ArgsAddUp(columns: seq<string>, rows: seq<nat>, row: nat, group: seq<Plan>, p: Plan)
    ensures PlanArgs(BatchInsert(columns, [])) == 0 && GroupArgs([]) == 0
    ensures PlanArgs(BatchInsert(columns, rows + [row])) == PlanArgs(BatchInsert(columns, rows)) + row
    ensures GroupArgs(group + [p]) == GroupArgs(group) + PlanArgs(p)
  {
    assert (rows + [row])[..|rows|] == rows && (group + [p])[..|group|] == group;
  }

  lemma {:induction false} GroupArgsAppend(a: seq<Plan>, b: seq<Plan>)
    ensures GroupArgs(a + b) == GroupArgs(a) + GroupArgs(b)
  {
    if b == [] {
      assert a + b == a;
    } else {
      var n := |b| - 1;
      assert (a + b)[..|a + b| - 1] == a + b[..n];
      GroupArgsAppend(a, b[..n]);
    }
  }

  /** What a statement may carry it may still carry with plans dropped at either end. */
  lemma {:induction false} LegalSubgroup(plans: seq<Plan>, limits: Limits, lo: nat, hi: nat, s: nat, e: nat)
    requires lo <= s < e <= hi <= |plans|
    requires Legal(plans[lo..hi], limits)
    ensures Legal(plans[s..e], limits)
  {
    var whole, part := plans[lo..hi], plans[s..e];
    GroupArgsSlice(plans, lo, hi, s, e);
    assert forall i :: 0 <= i < |part| ==> part[i] == whole[i + s - lo];
  }

  lemma {:induction false} GroupArgsSlice(plans: seq<Plan>, lo: nat, hi: nat, s: nat, e: nat)
    requires lo <= s <= e <= hi <= |plans|
    ensures GroupArgs(plans[s..e]) <= GroupArgs(plans[lo..hi])
  {
    assert plans[lo..hi] == plans[lo..s] + plans[s..hi];
    assert plans[s..hi] == plans[s..e] + plans[e..hi];
    GroupArgsAppend(plans[lo..s], plans[s..hi]);
    GroupArgsAppend(plans[s..e], plans[e..hi]);
  }

  // ---------- the cut search ----------

  /** slices.BinarySearch: the first position not below `target`. */
  function LowerBound(s: seq<nat>, target: nat): (i: nat)
    ensures i <= |s|
    ensures i < |s| ==> s[i] >= target
    ensures forall k :: 0 <= k < i ==> s[k] < target
  {
    if s == [] || s[0] >= target then 0
    else
      var i := LowerBound(s[1..], target);
      assert forall k :: 1 <= k < i + 1 ==> s[k] == s[1..][k - 1];
      i + 1
  }

  function MutationPrefixProbe(rowEnds: seq<nat>, low: nat, high: nat, bindLimit: nat, rows: nat, args: nat): (probe: nat)
    requires low <= high
    ensures low <= probe <= high
  {
    if bindLimit == 0 || rows == 0 || args == 0 then low + (high - low) / 2 else
    var affordable := rows * bindLimit / args;
    var probe := LowerBound(rowEnds, affordable + 1);
    var raised := if probe < low then low else probe;
    if raised > high then high else raised
  }

  ghost predicate Increasing(s: seq<nat>) {
    forall i, j :: 0 <= i < j < |s| ==> s[i] < s[j]
  }

  ghost predicate Monotone(s: seq<nat>) {
    forall i, j :: 0 <= i <= j < |s| ==> s[i] <= s[j]
  }

  /** Every row costs `price` bound arguments. */
  ghost predicate Uniform(rowEnds: seq<nat>, cost: seq<nat>, price: nat) {
    |rowEnds| == |cost| && forall i :: 0 <= i < |cost| ==> cost[i] == price * rowEnds[i]
  }

  /** What compiling measures: nothing when the engine refuses the statement. */
  function Measured(engineMax: nat, args: nat): nat {
    if engineMax > 0 && args > engineMax then 0 else args
  }

  lemma {:induction false} PriceOfRows(rows: nat, bindLimit: nat, price: nat)
    requires rows > 0 && price > 0
    ensures price * rows > 0
    ensures rows * bindLimit / (price * rows) == bindLimit / price
  {
    var q, r := bindLimit / price, bindLimit % price;
    Scaled(rows, price, q, r);
    Smaller(rows, 0, price);
    Smaller(rows, r, price);
    DivideExact(rows * bindLimit, price * rows, q, rows * r);
  }

  lemma {:induction false} Scaled(k: nat, d: nat, q: nat, r: nat)
    ensures k * (d * q + r) == (d * k) * q + k * r
  {
    assert k * (d * q) == (d * k) * q;
  }

  lemma {:induction false} Smaller(k: nat, a: nat, b: nat)
    requires k > 0 && a < b
    ensures 0 <= k * a < b * k
  {
  }

  lemma {:induction false} DivideExact(n: int, d: int, q: int, r: int)
    requires d > 0 && 0 <= r < d && n == d * q + r
    ensures n / d == q
  {
    var q', r' := n / d, n % d;
    assert n == d * q' + r';
    assert d * (q - q') == r' - r;
    assert q - q' >= 1 ==> d * (q - q') >= d;
    assert q - q' <= -1 ==> d * (q - q') <= -d;
  }

  /** With one price per row the probe is the cut itself, as far as the range allows. */
  lemma {:induction false} ProbeIsCut(rowEnds: seq<nat>, cost: seq<nat>, price: nat, low: nat, high: nat, bindLimit: nat, rows: nat, args: nat, cut: nat)
    requires Uniform(rowEnds, cost, price) && Increasing(rowEnds)
    requires bindLimit > 0 && rows > 0 && args == price * rows && args > 0
    requires 1 <= cut < |cost| && cost[cut - 1] <= bindLimit < cost[cut]
    requires low <= high
    ensures MutationPrefixProbe(rowEnds, low, high, bindLimit, rows, args)
            == if cut < low then low else if cut > high then high else cut
  {
    assert price > 0;
    PriceOfRows(rows, bindLimit, price);
    var affordable := bindLimit / price;
    AffordableExactly(rowEnds[cut - 1], price, bindLimit);
    AffordableExactly(rowEnds[cut], price, bindLimit);
    assert rowEnds[cut - 1] < affordable + 1 <= rowEnds[cut];
    assert LowerBound(rowEnds, affordable + 1) == cut;
  }

  lemma {:induction false} AffordableExactly(rows: nat, price: nat, bindLimit: nat)
    requires price > 0
    ensures price * rows <= bindLimit <==> rows <= bindLimit / price
  {
    var q, r := bindLimit / price, bindLimit % price;
    assert bindLimit == price * q + r && 0 <= r < price;
    if rows <= q {
      assert price * rows <= price * q;
    } else {
      assert price * rows >= price * (q + 1);
    }
  }

  lemma {:induction false} CutExists(cost: seq<nat>, bindLimit: nat, n: nat) returns (cut: nat)
    requires Monotone(cost) && 2 <= n <= |cost| && cost[0] <= bindLimit < cost[n - 1]
    ensures 1 <= cut < n && cost[cut - 1] <= bindLimit < cost[cut]
  {
    if cost[n - 2] <= bindLimit {
      cut := n - 1;
    } else {
      cut := CutExists(cost, bindLimit, n - 1);
    }
  }

  /**
   `cost[k]` is what the first k+1 plans bind. Whatever the probes estimate, the
   search ends at the longest fitting prefix, and a price that is the same for
   every row keeps it to two compiled probes.
   */
  method FindCut(rowEnds: seq<nat>, cost: seq<nat>, bindLimit: nat, engineMax: nat) returns (count: nat, probes: nat)
    requires |rowEnds| == |cost| >= 2 && Increasing(rowEnds) && rowEnds[0] > 0 && Monotone(cost)
    requires cost[0] <= bindLimit < cost[|cost| - 1]
    requires engineMax > 0 ==> bindLimit <= engineMax
    ensures 1 <= count < |cost| && cost[count - 1] <= bindLimit < cost[count]
    ensures forall price :: Uniform(rowEnds, cost, price) ==> probes <= 2
  {
    count, probes := 1, 0;
    var rowsSeen, argsSeen := rowEnds[|rowEnds| - 1], Measured(engineMax, cost[|cost| - 1]);
    if argsSeen == 0 {
      rowsSeen, argsSeen := rowEnds[0], Measured(engineMax, cost[0]);
    }
    ghost var cut := CutExists(cost, bindLimit, |cost|);
    var low, high := 2, |rowEnds| - 1;
    while low <= high
      invariant 2 <= low <= high + 1 && high < |rowEnds|
      invariant count == low - 1 <= cut <= high
      invariant forall price :: Uniform(rowEnds, cost, price) ==> rowsSeen > 0 && argsSeen == price * rowsSeen
      invariant forall price :: Uniform(rowEnds, cost, price) ==>
                  probes == 0 || (probes == 1 && low == cut + 1) || (probes <= 2 && low > high)
      decreases high - low
    {
      var probe := MutationPrefixProbe(rowEnds, low, high, bindLimit, rowsSeen, argsSeen);
      forall price | Uniform(rowEnds, cost, price)
        ensures probe == if cut < low then low else cut
      {
        UniformMeasured(rowEnds, cost, price, bindLimit, rowsSeen, argsSeen, cut);
        ProbeIsCut(rowEnds, cost, price, low, high, bindLimit, rowsSeen, argsSeen, cut);
      }
      probes := probes + 1;
      var args := Measured(engineMax, cost[probe - 1]);
      if args > 0 {
        rowsSeen, argsSeen := rowEnds[probe - 1], args;
      }
      if cost[probe - 1] > bindLimit {
        high := probe - 1;
      } else {
        count := probe;
        low := probe + 1;
      }
    }
  }

  lemma {:induction false} UniformMeasured(rowEnds: seq<nat>, cost: seq<nat>, price: nat, bindLimit: nat, rows: nat, args: nat, cut: nat)
    requires Uniform(rowEnds, cost, price) && cut < |cost| && cost[cut] > bindLimit
    requires rows > 0 && args == price * rows
    ensures price > 0 && args > 0
  {
    assert cost[cut] == price * rowEnds[cut];
    assert price >= 1 ==> price * rows >= rows;
  }

  // ---------- one group ----------

  /** The binds of the first k plans of a run, for every k. */
  ghost predicate Tabulates(plans: seq<Plan>, rowEnds: seq<nat>, cost: seq<nat>) {
    && |rowEnds| == |cost| <= |plans|
    && (forall k :: 0 <= k < |cost| ==> cost[k] == GroupArgs(plans[..k + 1]))
    && Increasing(rowEnds) && (rowEnds != [] ==> rowEnds[0] > 0) && Monotone(cost)
  }

  ghost predicate WellFormed(plans: seq<Plan>) {
    forall i :: 0 <= i < |plans| && plans[i].BatchInsert? ==> plans[i].rows != []
  }

  predicate Joins(first: Plan, p: Plan) {
    first.BatchInsert? && p.BatchInsert? && p.columns == first.columns
  }

  /**
   The number of plans at the head of `plans` that go into one statement: as many
   as may legally go together, or None when the first alone breaks the limit.
   */
  method CompileMutationGroup(plans: seq<Plan>, limits: Limits) returns (r: Option<nat>)
    requires plans != [] && !plans[0].Alone? && WellFormed(plans) && limits.Valid()
    ensures r.None? <==> !Legal(plans[..1], limits)
    ensures r.Some? ==> 1 <= r.value <= |plans| && Legal(plans[..r.value], limits)
    ensures r.Some? ==> forall n :: r.value < n <= |plans| ==> !Legal(plans[..n], limits)
  {
    HeadArgs(plans);
    if plans[0].Defaults? {
      assert forall n :: 1 < n <= |plans| ==> plans[..n][0] == plans[0];
      return Some(1);
    }
    var rowEnds, cost := MeasureRun(plans, limits.maxRows);
    var count := |cost|;
    RunBounds(plans, limits, count);
    if Fits(limits.bindLimit, cost[count - 1]) {
      LegalSubgroup(plans, limits, 0, count, 0, 1);
      return Some(count);
    }
    if !Fits(limits.bindLimit, cost[0]) {
      return None;
    }
    var cut, _ := FindCut(rowEnds, cost, limits.bindLimit, limits.engineMax);
    forall n | cut < n <= |plans|
      ensures !Legal(plans[..n], limits)
    {
      if Legal(plans[..n], limits) {
        LegalSubgroup(plans, limits, 0, n, 0, cut + 1);
      }
    }
    return Some(cut);
  }

  lemma {:induction false} HeadArgs(plans: seq<Plan>)
    requires plans != []
    ensures GroupArgs(plans[..1]) == PlanArgs(plans[0])
  {
    assert plans[..1][..0] == [];
  }

  /** Collects the run of plans that share the first one's shape, up to `maxRows`. */
  method MeasureRun(plans: seq<Plan>, maxRows: nat) returns (rowEnds: seq<nat>, cost: seq<nat>)
    requires plans != [] && plans[0].BatchInsert? && WellFormed(plans) && maxRows >= 1
    ensures Tabulates(plans, rowEnds, cost) && 1 <= |cost| <= maxRows
    ensures forall i :: 0 <= i < |cost| ==> Joins(plans[0], plans[i])
    ensures |cost| == |plans| || |cost| == maxRows || !Joins(plans[0], plans[|cost|])
  {
    HeadArgs(plans);
    rowEnds, cost := [|plans[0].rows|], [PlanArgs(plans[0])];
    var count := 1;
    while count < |plans| && count < maxRows && Joins(plans[0], plans[count])
      invariant 1 <= count <= |plans| && count <= maxRows && |cost| == count
      invariant forall i :: 0 <= i < count ==> Joins(plans[0], plans[i])
      invariant Tabulates(plans, rowEnds, cost)
    {
      assert plans[..count + 1][..count] == plans[..count];
      rowEnds := rowEnds + [rowEnds[count - 1] + |plans[count].rows|];
      cost := cost + [cost[count - 1] + PlanArgs(plans[count])];
      count := count + 1;
    }
  }

  /** No statement reaches past the plans that share the first one's shape. */
  lemma {:induction false} RunBounds(plans: seq<Plan>, limits: Limits, count: nat)
    requires 1 <= count <= |plans| && count <= limits.maxRows
    requires forall i :: 0 <= i < count ==> Joins(plans[0], plans[i])
    requires count == |plans| || count == limits.maxRows || !Joins(plans[0], plans[count])
    ensures forall n :: count < n <= |plans| ==> !Legal(plans[..n], limits)
    ensures forall n :: 1 <= n <= count ==>
              (Legal(plans[..n], limits) <==> Fits(limits.bindLimit, GroupArgs(plans[..n])))
  {
    forall n | count < n <= |plans|
      ensures !Legal(plans[..n], limits)
    {
      var group := plans[..n];
      assert group[count] == plans[count] && group[0] == plans[0];
    }
  }

  // ---------- the whole batch ----------

  /** A split of `n` plans into contiguous groups, by where each group ends. */
  predicate IsSplit(ends: seq<nat>, n: nat) {
    && (forall i {:trigger Start(ends, i)} :: 0 <= i < |ends| ==> Start(ends, i) < ends[i] <= n)
    && (if n == 0 then ends == [] else ends != [] && ends[|ends| - 1] == n)
  }

  function Start(ends: seq<nat>, i: nat): nat
    requires i <= |ends|
  {
    if i == 0 then 0 else ends[i - 1]
  }

  ghost predicate LegalSplit(plans: seq<Plan>, limits: Limits, ends: seq<nat>) {
    && IsSplit(ends, |plans|)
    && forall i {:trigger Start(ends, i)} :: 0 <= i < |ends| ==> Legal(plans[Start(ends, i)..ends[i]], limits)
  }

  /** Group [s, e) is legal and could not take one more plan. */
  ghost predicate Maximal(plans: seq<Plan>, limits: Limits, s: nat, e: nat) {
    && s < e <= |plans|
    && Legal(plans[s..e], limits)
    && forall longer :: e < longer <= |plans| ==> !Legal(plans[s..longer], limits)
  }

  ghost predicate Greedy(plans: seq<Plan>, limits: Limits, ends: seq<nat>) {
    forall i {:trigger Start(ends, i)} :: 0 <= i < |ends| ==> Maximal(plans, limits, Start(ends, i), ends[i])
  }

  /** The rows a group puts into its statement. */
  function GroupRows(group: seq<Plan>): nat {
    if group == [] then 0
    else
      var last := group[|group| - 1];
      GroupRows(group[..|group| - 1]) + if last.BatchInsert? then |last.rows| else 1
  }

  /** Every insert holds one row, as a create plan lowers to. */
  ghost predicate OneRowEach(plans: seq<Plan>) {
    forall i :: 0 <= i < |plans| && plans[i].BatchInsert? ==> |plans[i].rows| == 1
  }

  lemma {:induction false} RowsArePlans(group: seq<Plan>)
    requires OneRowEach(group)
    ensures GroupRows(group) == |group|
  {
    if group != [] {
      RowsArePlans(group[..|group| - 1]);
    }
  }

  /** Then no statement carries more than `maxRows` rows. */
  lemma {:induction false} RowsBounded(plans: seq<Plan>, limits: Limits, lo: nat, hi: nat)
    requires lo <= hi <= |plans| && limits.Valid() && Legal(plans[lo..hi], limits) && OneRowEach(plans)
    ensures GroupRows(plans[lo..hi]) <= limits.maxRows
  {
    var group := plans[lo..hi];
    assert forall i :: 0 <= i < |group| ==> group[i] == plans[lo + i];
    RowsArePlans(group);
  }

  /**
   The statements of a batch, as the plan index each one ends at. Preparation
   fails exactly when some plan on its own breaks the bind limit; otherwise every
   group is legal and no order-preserving legal split uses fewer statements.
   */
  method PrepareMutationBatches(plans: seq<Plan>, limits: Limits) returns (r: Option<seq<nat>>)
    requires WellFormed(plans) && limits.Valid()
    ensures r.None? <==> exists i :: 0 <= i < |plans| && PlanArgs(plans[i]) > limits.bindLimit > 0
    ensures r.Some? ==> LegalSplit(plans, limits, r.value)
    ensures r.Some? ==> forall other :: LegalSplit(plans, limits, other) ==> |r.value| <= |other|
    ensures r.Some? && OneRowEach(plans) ==> RowsWithin(plans, limits, r.value)
  {
    var ends: seq<nat> := [];
    var i := 0;
    while i < |plans|
      invariant i == Start(ends, |ends|) <= |plans|
      invariant Greedy(plans, limits, ends)
    {
      var end := NextGroup(plans, limits, i);
      if end.None? {
        return None;
      }
      GreedyExtend(plans, limits, ends, end.value);
      ends := ends + [end.value];
      i := end.value;
    }
    GreedySplit(plans, limits, ends);
    SplitRows(plans, limits, ends);
    return Some(ends);
  }

  /** No group carries more than `maxRows` rows. */
  ghost predicate RowsWithin(plans: seq<Plan>, limits: Limits, ends: seq<nat>) {
    forall i {:trigger Start(ends, i)} :: 0 <= i < |ends| ==>
      Start(ends, i) <= ends[i] <= |plans| && GroupRows(plans[Start(ends, i)..ends[i]]) <= limits.maxRows
  }

  lemma {:induction false} SplitRows(plans: seq<Plan>, limits: Limits, ends: seq<nat>)
    requires limits.Valid() && LegalSplit(plans, limits, ends)
    ensures OneRowEach(plans) ==> RowsWithin(plans, limits, ends)
  {
    forall i {:trigger Start(ends, i)} | 0 <= i < |ends| && OneRowEach(plans)
      ensures Start(ends, i) <= ends[i] <= |plans| && GroupRows(plans[Start(ends, i)..ends[i]]) <= limits.maxRows
    {
      RowsBounded(plans, limits, Start(ends, i), ends[i]);
    }
  }

  lemma {:induction false} GreedyExtend(plans: seq<Plan>, limits: Limits, ends: seq<nat>, e: nat)
    requires Greedy(plans, limits, ends) && Maximal(plans, limits, Start(ends, |ends|), e)
    ensures Greedy(plans, limits, ends + [e])
    ensures Start(ends, |ends|) < Start(ends + [e], |ends| + 1) == e <= |plans|
  {
    var longer := ends + [e];
    forall i | 0 <= i < |longer|
      ensures Maximal(plans, limits, Start(longer, i), longer[i])
    {
      assert Start(longer, i) == Start(ends, i);
    }
  }

  lemma {:induction false} GreedySplit(plans: seq<Plan>, limits: Limits, ends: seq<nat>)
    requires Greedy(plans, limits, ends) && Start(ends, |ends|) == |plans|
    ensures LegalSplit(plans, limits, ends)
    ensures forall i :: 0 <= i < |plans| ==> Fits(limits.bindLimit, PlanArgs(plans[i]))
    ensures forall other :: LegalSplit(plans, limits, other) ==> |ends| <= |other|
  {
    forall i | 0 <= i < |ends|
      ensures Start(ends, i) < ends[i] <= |plans| && Legal(plans[Start(ends, i)..ends[i]], limits)
    {
      assert Maximal(plans, limits, Start(ends, i), ends[i]);
    }
    PlansFit(plans, limits, ends);
    forall other | LegalSplit(plans, limits, other)
      ensures |ends| <= |other|
    {
      GreedyMinimal(plans, limits, ends, other);
    }
  }

  /** The end of the statement that starts at plan `i`. */
  method NextGroup(plans: seq<Plan>, limits: Limits, i: nat) returns (end: Option<nat>)
    requires WellFormed(plans) && limits.Valid() && i < |plans|
    ensures end.None? ==> !Fits(limits.bindLimit, PlanArgs(plans[i]))
    ensures end.Some? ==> Maximal(plans, limits, i, end.value)
  {
    HeadArgs(plans[i..]);
    if !plans[i].Alone? {
      var group := CompileMutationGroup(plans[i..], limits);
      if group.None? {
        assert plans[i..][..1] == [plans[i]];
        return None;
      }
      GroupTaken(plans, limits, i, group.value);
      return Some(i + group.value);
    }
    if !Fits(limits.bindLimit, plans[i].args) {
      return None;
    }
    GroupTaken(plans, limits, i, 1);
    return Some(i + 1);
  }

  lemma {:induction false} GroupTaken(plans: seq<Plan>, limits: Limits, i: nat, count: nat)
    requires i < |plans| && 1 <= count <= |plans| - i
    requires if plans[i].Alone? then count == 1 && Fits(limits.bindLimit, plans[i].args)
             else Legal(plans[i..][..count], limits) && forall n :: count < n <= |plans| - i ==> !Legal(plans[i..][..n], limits)
    ensures Maximal(plans, limits, i, i + count)
  {
    HeadArgs(plans[i..]);
    assert plans[i..][..count] == plans[i..i + count];
    forall e | i + count < e <= |plans|
      ensures !Legal(plans[i..e], limits)
    {
      assert plans[i..][..e - i] == plans[i..e];
      assert plans[i..e][0] == plans[i];
    }
  }

  lemma {:induction false} PlansFit(plans: seq<Plan>, limits: Limits, ends: seq<nat>)
    requires LegalSplit(plans, limits, ends)
    ensures forall i :: 0 <= i < |plans| ==> Fits(limits.bindLimit, PlanArgs(plans[i]))
  {
    forall i | 0 <= i < |plans|
      ensures Fits(limits.bindLimit, PlanArgs(plans[i]))
    {
      var k := GroupOf(ends, |plans|, i, |ends|);
      GroupArgsSlice(plans, Start(ends, k), ends[k], i, i + 1);
      HeadArgs(plans[i..]);
      assert plans[i..][..1] == plans[i..i + 1];
    }
  }

  lemma {:induction false} GroupOf(ends: seq<nat>, n: nat, i: nat, m: nat) returns (k: nat)
    requires IsSplit(ends, n) && m <= |ends| && i < Start(ends, m)
    ensures k < m && Start(ends, k) <= i < ends[k]
  {
    k := m - 1;
    if i < Start(ends, k) {
      k := GroupOf(ends, n, i, k);
    }
  }

  /** Greedy stays ahead: its i-th group ends no earlier than any other split's. */
  lemma {:induction false} GreedyAhead(plans: seq<Plan>, limits: Limits, ends: seq<nat>, other: seq<nat>, i: nat)
    requires LegalSplit(plans, limits, ends) && Greedy(plans, limits, ends) && LegalSplit(plans, limits, other)
    requires i < |ends| && i < |other|
    ensures other[i] <= ends[i]
  {
    if i > 0 {
      GreedyAhead(plans, limits, ends, other, i - 1);
    }
    assert Maximal(plans, limits, Start(ends, i), ends[i]);
    if other[i] > ends[i] {
      LegalSubgroup(plans, limits, Start(other, i), other[i], Start(ends, i), other[i]);
    }
  }

  lemma {:induction false} EndsIncrease(ends: seq<nat>, n: nat, i: nat, j: nat)
    requires IsSplit(ends, n) && i < j < |ends|
    ensures ends[i] < ends[j]
  {
    if i < j - 1 {
      EndsIncrease(ends, n, i, j - 1);
    }
    assert Start(ends, j) < ends[j];
  }

  lemma {:induction false} GreedyMinimal(plans: seq<Plan>, limits: Limits, ends: seq<nat>, other: seq<nat>)
    requires LegalSplit(plans, limits, ends) && Greedy(plans, limits, ends) && LegalSplit(plans, limits, other)
    ensures |ends| <= |other|
  {
    if other != [] && |other| < |ends| {
      EndsIncrease(ends, |plans|, |other| - 1, |ends| - 1);
      GreedyAhead(plans, limits, ends, other, |other| - 1);
    }
  }

  function Regroup(plans: seq<Plan>, ends: seq<nat>, k: nat): seq<Plan>
    requires IsSplit(ends, |plans|) && k <= |ends|
  {
    if k == 0 then [] else Regroup(plans, ends, k - 1) + plans[Start(ends, k - 1)..ends[k - 1]]
  }

  /** The groups of a split, in order, are the plans: none lost, none repeated, none moved. */
  lemma {:induction false} SplitConserves(plans: seq<Plan>, ends: seq<nat>, k: nat)
    requires IsSplit(ends, |plans|) && k <= |ends|
    ensures Regroup(plans, ends, k) == plans[..Start(ends, k)]
    ensures k == |ends| ==> Regroup(plans, ends, k) == plans
  {
    if k > 0 {
      SplitConserves(plans, ends, k - 1);
      var s, e := Start(ends, k - 1), ends[k - 1];
      assert s < e <= |plans|;
      assert plans[..e] == plans[..s] + plans[s..e];
    }
    assert plans[..|plans|] == plans;
  }
}
