/**
 Which migrations a run selects (migrate/runner.go, apply.go, revert.go and
 status.go), against the one well-formed shape a history can have: a
 checksum-matching prefix of the migrations in ID order.
 */
module MigrationPlan {
  import opened Wrappers
  import Sequences

  /** `checksum` covers the forward sources alone; `down` counts the reverse ones. */
  datatype Migration = Migration(id: string, nontransactional: bool, checksum: string, sources: nat, down: nat)

  // ---------- ID order: byte-wise, as Go compares strings ----------

  predicate Less(a: string, b: string) {
    if b == [] then false
    else if a == [] then true
    else if a[0] != b[0] then a[0] < b[0]
    else Less(a[1..], b[1..])
  }

  /** Byte order: at the first difference the smaller byte comes first, and a prefix comes before what extends it. */
  lemma {:induction false} LessExactly(a: string, b: string)
    ensures Less(a, b) <==> exists k: nat :: DiffersAt(a, b, k)
  {
    if b != [] && a == [] {
      assert DiffersAt(a, b, 0);
    } else if b != [] && a[0] != b[0] {
      assert a[0] < b[0] ==> DiffersAt(a, b, 0);
      forall k: nat | DiffersAt(a, b, k)
        ensures a[0] < b[0]
      {
        if k > 0 {
          assert a[..k][0] == b[..k][0];
        }
      }
    } else if b != [] {
      LessExactly(a[1..], b[1..]);
      forall k: nat | DiffersAt(a[1..], b[1..], k)
        ensures DiffersAt(a, b, k + 1)
      {
        assert a[..k + 1] == [a[0]] + a[1..][..k] && b[..k + 1] == [b[0]] + b[1..][..k];
      }
      forall k: nat | DiffersAt(a, b, k)
        ensures k > 0 && DiffersAt(a[1..], b[1..], k - 1)
      {
        assert a[1..][..k - 1] == a[..k][1..] && b[1..][..k - 1] == b[..k][1..];
      }
    }
  }

  ghost predicate DiffersAt(a: string, b: string, k: nat) {
    k <= |a| && k < |b| && a[..k] == b[..k] && (k == |a| || a[k] < b[k])
  }

  lemma {:induction false} LessTransitive(a: string, b: string, c: string)
    requires Less(a, b) && Less(b, c)
    ensures Less(a, c)
  {
    if a != [] && a[0] == b[0] == c[0] {
      LessTransitive(a[1..], b[1..], c[1..]);
    }
  }

  lemma {:induction false} LessTotal(a: string, b: string)
    ensures Less(a, b) || a == b || Less(b, a)
    ensures !(Less(a, b) && Less(b, a)) && !Less(a, a)
  {
    if a != [] {
      LessTotal(a[1..], a[1..]);
    }
    if a != [] && b != [] {
      LessTotal(a[1..], b[1..]);
      assert a == [a[0]] + a[1..] && b == [b[0]] + b[1..];
    }
  }

  predicate Sorted(ms: seq<Migration>) {
    forall i, j :: 0 <= i < j < |ms| ==> Less(ms[i].id, ms[j].id)
  }

  lemma {:induction false} SortedDistinct(ms: seq<Migration>, i: nat, j: nat)
    requires Sorted(ms) && i < |ms| && j < |ms| && ms[i].id == ms[j].id
    ensures i == j
  {
    LessTotal(ms[i].id, ms[j].id);
  }

  // ---------- prepareMigrations ----------

  method Insert(sorted: seq<Migration>, m: Migration) returns (r: seq<Migration>)
    requires Sorted(sorted) && forall i :: 0 <= i < |sorted| ==> sorted[i].id != m.id
    ensures Sorted(r) && multiset(r) == multiset(sorted) + multiset{m}
  {
    var at := 0;
    while at < |sorted| && Less(sorted[at].id, m.id)
      invariant at <= |sorted|
      invariant forall i :: 0 <= i < at ==> Less(sorted[i].id, m.id)
    {
      at := at + 1;
    }
    r := sorted[..at] + [m] + sorted[at..];
    assert Sorted(r) by {
      InsertedOrder(sorted, at, m, r);
    }
    Sequences.InsertedAll(sorted, at, m);
  }

  lemma {:induction false} InsertedOrder(sorted: seq<Migration>, at: nat, m: Migration, r: seq<Migration>)
    requires Sorted(sorted) && at <= |sorted| && r == sorted[..at] + [m] + sorted[at..]
    requires forall i :: 0 <= i < at ==> Less(sorted[i].id, m.id)
    requires at < |sorted| ==> sorted[at].id != m.id && !Less(sorted[at].id, m.id)
    ensures Sorted(r)
  {
    forall i | at <= i < |sorted|
      ensures Less(m.id, sorted[i].id)
    {
      LessTotal(sorted[at].id, m.id);
      if at < i {
        LessTransitive(m.id, sorted[at].id, sorted[i].id);
      }
    }
    forall i, j | 0 <= i < j < |r|
      ensures Less(r[i].id, r[j].id)
    {
      assert r[i] == if i < at then sorted[i] else if i == at then m else sorted[i - 1];
      assert r[j] == if j < at then sorted[j] else if j == at then m else sorted[j - 1];
    }
  }

  /** What a caller supplies; the modes are "" and "nontransactional". */
  datatype Supplied = Supplied(id: string, mode: string, statements: seq<Statement>, down: seq<Statement>)

  datatype Statement = Statement(source: string, sql: string)

  predicate IsSpace(c: char) { c == ' ' || '\t' <= c <= '\r' }

  predicate Blank(s: string) { forall i :: 0 <= i < |s| ==> IsSpace(s[i]) }

  predicate ValidStatement(s: Statement) { s.source != "" && '\0' !in s.source && !Blank(s.sql) }

  /** Every source is named and holds SQL, and no two share a name. */
  predicate ValidStatements(statements: seq<Statement>) {
    && (forall i :: 0 <= i < |statements| ==> ValidStatement(statements[i]))
    && forall i, j :: 0 <= i < j < |statements| ==> statements[i].source != statements[j].source
  }

  predicate ValidId(id: string) { id != "" && |id| <= 255 && '\0' !in id }

  /** Migration.validate. */
  predicate ValidSupplied(s: Supplied) {
    && (s.mode == "" || s.mode == "nontransactional") && ValidId(s.id)
    && s.statements != [] && ValidStatements(s.statements) && ValidStatements(s.down)
  }

  /** strings.TrimSpace(s) == "". */
  method TrimsToNothing(s: string) returns (empty: bool)
    ensures empty == Blank(s)
  {
    var start := 0;
    while start < |s| && (s[start] == ' ' || s[start] == '\t' || s[start] == '\n' || s[start] == '\U{B}' || s[start] == '\U{C}' || s[start] == '\r')
      invariant 0 <= start <= |s| && forall i :: 0 <= i < start ==> IsSpace(s[i])
    {
      start := start + 1;
    }
    empty := start == |s|;
  }

  method ValidateStatements(statements: seq<Statement>) returns (ok: bool)
    ensures ok == ValidStatements(statements)
  {
    var sources: set<string> := {};
    for index := 0 to |statements|
      invariant forall i :: 0 <= i < index ==> ValidStatement(statements[i]) && statements[i].source in sources
      invariant forall s :: s in sources ==> exists i :: 0 <= i < index && statements[i].source == s
      invariant forall i, j :: 0 <= i < j < index ==> statements[i].source != statements[j].source
    {
      var statement := statements[index];
      if statement.source == "" || '\0' in statement.source || statement.source in sources {
        return false;
      }
      var empty := TrimsToNothing(statement.sql);
      if empty {
        return false;
      }
      sources := sources + {statement.source};
    }
    ok := true;
  }

  method Validate(s: Supplied) returns (ok: bool)
    ensures ok == ValidSupplied(s)
  {
    if (s.mode != "" && s.mode != "nontransactional") || s.id == "" || |s.id| > 255 || '\0' in s.id || s.statements == [] {
      return false;
    }
    ok := ValidateStatements(s.statements);
    if ok {
      ok := ValidateStatements(s.down);
    }
  }

  /** `hash` is the checksum of a mode and its forward statements; reverse ones are not part of it. */
  type Hash = (string, seq<Statement>) -> string

  function Prepared(hash: Hash, s: Supplied): Migration {
    Migration(s.id, s.mode == "nontransactional", hash(s.mode, s.statements), |s.statements|, |s.down|)
  }

  function PreparedAll(hash: Hash, supplied: seq<Supplied>): (r: seq<Migration>)
    ensures |r| == |supplied| && forall i :: 0 <= i < |r| ==> r[i] == Prepared(hash, supplied[i])
  {
    seq(|supplied|, i requires 0 <= i < |supplied| => Prepared(hash, supplied[i]))
  }

  /** The first `n` are valid, with different IDs, and `sorted` holds them prepared and in ID order. */
  ghost predicate PreparedTo(hash: Hash, supplied: seq<Supplied>, n: nat, sorted: seq<Migration>) {
    && n <= |supplied| && Preparable(supplied, n)
    && Sorted(sorted) && multiset(sorted) == multiset(PreparedAll(hash, supplied[..n]))
  }

  /** The first `n` are valid, with different IDs. */
  ghost predicate Preparable(supplied: seq<Supplied>, n: nat)
    requires n <= |supplied|
  {
    && (forall i :: 0 <= i < n ==> ValidSupplied(supplied[i]))
    && forall i, j :: 0 <= i < j < n ==> supplied[i].id != supplied[j].id
  }

  lemma {:induction false} Refused(supplied: seq<Supplied>, n: nat)
    requires n < |supplied| && (supplied[n].id in IdsOf(supplied, n) || !ValidSupplied(supplied[n]))
    ensures !Preparable(supplied, |supplied|)
  {
    if supplied[n].id in IdsOf(supplied, n) {
      var i :| 0 <= i < n && supplied[i].id == supplied[n].id;
    }
  }

  lemma {:induction false} PreparedNew(hash: Hash, supplied: seq<Supplied>, n: nat, sorted: seq<Migration>, id: string)
    requires PreparedTo(hash, supplied, n, sorted) && forall i :: 0 <= i < n ==> supplied[i].id != id
    ensures forall i :: 0 <= i < |sorted| ==> sorted[i].id != id
  {
    var all := PreparedAll(hash, supplied[..n]);
    forall i | 0 <= i < |sorted|
      ensures sorted[i].id != id
    {
      var k := Sequences.IndexIn(sorted, all, i);
      assert all[k].id == supplied[..n][k].id;
    }
  }

  lemma {:induction false} PreparedSnoc(hash: Hash, supplied: seq<Supplied>, n: nat)
    requires n < |supplied|
    ensures multiset(PreparedAll(hash, supplied[..n + 1]))
            == multiset(PreparedAll(hash, supplied[..n])) + multiset{Prepared(hash, supplied[n])}
  {
    assert PreparedAll(hash, supplied[..n + 1]) == PreparedAll(hash, supplied[..n]) + [Prepared(hash, supplied[n])];
  }

  lemma {:induction false} PreparedStep(hash: Hash, supplied: seq<Supplied>, n: nat, sorted: seq<Migration>, next: seq<Migration>)
    requires PreparedTo(hash, supplied, n, sorted) && n < |supplied| && ValidSupplied(supplied[n])
    requires forall i :: 0 <= i < n ==> supplied[i].id != supplied[n].id
    requires Sorted(next) && multiset(next) == multiset(sorted) + multiset{Prepared(hash, supplied[n])}
    ensures PreparedTo(hash, supplied, n + 1, next)
  {
    PreparedSnoc(hash, supplied, n);
  }

  /** The supplied migrations prepared and in ID order; refused exactly when one is invalid or an ID occurs twice. */
  method PrepareMigrations(hash: Hash, supplied: seq<Supplied>) returns (r: Option<seq<Migration>>)
    ensures r.Some? <==> Preparable(supplied, |supplied|)
    ensures r.Some? ==> Sorted(r.value) && multiset(r.value) == multiset(PreparedAll(hash, supplied))
    ensures r.Some? ==> |r.value| == |supplied| && forall i :: 0 <= i < |supplied| ==> Kept(hash, supplied[i], r.value)
  {
    var ids: set<string> := {};
    var prepared: seq<Migration> := [];
    assert supplied[..0] == [] && PreparedAll(hash, []) == [];
    for index := 0 to |supplied|
      invariant ids == IdsOf(supplied, index) && PreparedTo(hash, supplied, index, prepared)
    {
      var next := PrepareNext(hash, supplied, index, ids, prepared);
      if next.None? {
        return None;
      }
      IdsOfNext(supplied, index);
      ids, prepared := ids + {supplied[index].id}, next.value;
    }
    assert supplied[..|supplied|] == supplied;
    AllKept(hash, supplied, prepared);
    return Some(prepared);
  }

  /**
   One of the migrations is the supplied one: its ID, its mode, as many forward and
   reverse sources as it has statements each way, and the hash of the forward ones.
   */
  ghost predicate Kept(hash: Hash, s: Supplied, ms: seq<Migration>) {
    exists k :: 0 <= k < |ms| &&
      ms[k].id == s.id && ms[k].sources == |s.statements| && ms[k].down == |s.down| &&
      ms[k].nontransactional == (s.mode == "nontransactional") && ms[k].checksum == hash(s.mode, s.statements)
  }

  lemma {:induction false} AllKept(hash: Hash, supplied: seq<Supplied>, ms: seq<Migration>)
    requires multiset(ms) == multiset(PreparedAll(hash, supplied))
    ensures |ms| == |supplied| && forall i :: 0 <= i < |supplied| ==> Kept(hash, supplied[i], ms)
  {
    var all := PreparedAll(hash, supplied);
    assert |multiset(ms)| == |ms| && |multiset(all)| == |all|;
    forall i | 0 <= i < |supplied|
      ensures Kept(hash, supplied[i], ms)
    {
      var k := Sequences.IndexIn(all, ms, i);
      assert ms[k] == Prepared(hash, supplied[i]);
    }
  }

  method PrepareNext(hash: Hash, supplied: seq<Supplied>, n: nat, ids: set<string>, sorted: seq<Migration>)
      returns (r: Option<seq<Migration>>)
    requires n < |supplied| && ids == IdsOf(supplied, n) && PreparedTo(hash, supplied, n, sorted)
    ensures r.Some? ==> PreparedTo(hash, supplied, n + 1, r.value)
    ensures r.None? ==> !Preparable(supplied, |supplied|)
  {
    var m := supplied[n];
    if m.id in ids {
      Refused(supplied, n);
      return None;
    }
    var valid := Validate(m);
    if !valid {
      Refused(supplied, n);
      return None;
    }
    PreparedNew(hash, supplied, n, sorted, m.id);
    var next := Insert(sorted, Prepared(hash, m));
    PreparedStep(hash, supplied, n, sorted, next);
    r := Some(next);
  }

  lemma {:induction false} IdsOfNext(supplied: seq<Supplied>, n: nat)
    requires n < |supplied|
    ensures IdsOf(supplied, n + 1) == IdsOf(supplied, n) + {supplied[n].id}
  {
  }

  function IdsOf(supplied: seq<Supplied>, n: nat): set<string>
    requires n <= |supplied|
  {
    set i | 0 <= i < n :: supplied[i].id
  }

  // ---------- histories ----------

  function Ids(ms: seq<Migration>): set<string> { set i | 0 <= i < |ms| :: ms[i].id }

  type History = map<string, string>

  /** The history that records exactly the first `h` migrations. */
  function HistoryOf(ms: seq<Migration>, h: nat): History
    requires h <= |ms|
  {
    if h == 0 then map[] else HistoryOf(ms, h - 1)[ms[h - 1].id := ms[h - 1].checksum]
  }

  ghost predicate IsPrefix(applied: History, ms: seq<Migration>) {
    exists h :: 0 <= h <= |ms| && applied == HistoryOf(ms, h)
  }

  lemma {:induction false} HistoryOfEntries(ms: seq<Migration>, h: nat)
    requires Sorted(ms) && h <= |ms|
    ensures forall id :: id in HistoryOf(ms, h) ==> exists i :: 0 <= i < h && ms[i].id == id
    ensures forall i :: 0 <= i < |ms| ==> (ms[i].id in HistoryOf(ms, h) <==> i < h)
    ensures forall i :: 0 <= i < h ==> HistoryOf(ms, h)[ms[i].id] == ms[i].checksum
  {
    if h > 0 {
      HistoryOfEntries(ms, h - 1);
      forall i | 0 <= i < |ms| && ms[i].id == ms[h - 1].id
        ensures i == h - 1
      {
        SortedDistinct(ms, i, h - 1);
      }
    }
  }

  lemma {:induction false} HistoryOfInjective(ms: seq<Migration>, g: nat, h: nat)
    requires Sorted(ms) && g < h <= |ms|
    ensures HistoryOf(ms, g) != HistoryOf(ms, h)
  {
    HistoryOfEntries(ms, g);
    HistoryOfEntries(ms, h);
    assert ms[g].id in HistoryOf(ms, h) && ms[g].id !in HistoryOf(ms, g);
  }

  /** Every recorded ID is supplied, the first `h` migrations are recorded and no later one is. */
  ghost predicate RecordsFirst(applied: History, ms: seq<Migration>, h: nat) {
    && h <= |ms|
    && (forall id :: id in applied ==> exists i :: 0 <= i < |ms| && ms[i].id == id)
    && (forall i :: 0 <= i < |ms| ==> (ms[i].id in applied <==> i < h))
  }

  ghost predicate ChecksumsMatch(applied: History, ms: seq<Migration>, from: nat, to: nat)
    requires to <= |ms|
  {
    forall i :: from <= i < to ==> ms[i].id in applied && applied[ms[i].id] == ms[i].checksum
  }

  lemma {:induction false} PrefixExactly(applied: History, ms: seq<Migration>, h: nat)
    requires Sorted(ms) && h <= |ms|
    ensures applied == HistoryOf(ms, h) <==> RecordsFirst(applied, ms, h) && ChecksumsMatch(applied, ms, 0, h)
  {
    HistoryOfEntries(ms, h);
    if RecordsFirst(applied, ms, h) && ChecksumsMatch(applied, ms, 0, h) {
      var prefix := HistoryOf(ms, h);
      assert forall id :: id in applied <==> id in prefix;
      assert forall id :: id in applied ==> applied[id] == prefix[id];
    }
  }

  lemma {:induction false} RecordsFirstUnique(applied: History, ms: seq<Migration>, g: nat, h: nat)
    requires RecordsFirst(applied, ms, g) && g != h
    ensures !RecordsFirst(applied, ms, h)
  {
    if g < h <= |ms| {
      assert ms[g].id !in applied;
    } else if h < g {
      assert ms[h].id in applied;
    }
  }

  // ---------- selectApplies ----------

  datatype ApplyTarget = AllPending | ApplyThrough(id: string)

  /** sort.Search for an ID: the first position not before it. */
  function Search(ms: seq<Migration>, id: string): (i: nat)
    ensures i <= |ms|
    ensures forall k :: 0 <= k < i ==> Less(ms[k].id, id)
    ensures i < |ms| ==> !Less(ms[i].id, id)
  {
    if ms == [] || !Less(ms[0].id, id) then 0
    else
      var i := Search(ms[1..], id);
      assert forall k :: 1 <= k < i + 1 ==> ms[k] == ms[1..][k - 1];
      i + 1
  }

  /** The position of an ID, found the way applyLimit and revertCount find it. */
  function Position(ms: seq<Migration>, id: string): (r: Option<nat>)
    requires Sorted(ms)
    ensures r.Some? ==> r.value < |ms| && ms[r.value].id == id
    ensures r.None? ==> forall i :: 0 <= i < |ms| ==> ms[i].id != id
  {
    var i := Search(ms, id);
    if i < |ms| && ms[i].id == id then Some(i)
    else
      assert forall k :: 0 <= k < |ms| ==> ms[k].id != id by {
        forall k | 0 <= k < |ms|
          ensures ms[k].id != id
        {
          LessTotal(ms[k].id, id);
          if i < k {
            LessTotal(ms[i].id, id);
            LessTotal(ms[k].id, ms[i].id);
          }
        }
      }
      None
  }

  /** How many supplied migrations an apply target reaches. */
  function ApplyLimit(ms: seq<Migration>, target: ApplyTarget): (r: Option<nat>)
    requires Sorted(ms)
    ensures target.AllPending? ==> r == Some(|ms|)
    ensures target.ApplyThrough? ==> (r.Some? <==> exists i :: 0 <= i < |ms| && ms[i].id == target.id)
    ensures r.Some? ==> r.value <= |ms| && (target.ApplyThrough? ==> 0 < r.value && ms[r.value - 1].id == target.id)
  {
    match target
    case AllPending => Some(|ms|)
    case ApplyThrough(id) =>
      var position := Position(ms, id);
      if position.None? then None else Some(position.value + 1)
  }

  function Slice(ms: seq<Migration>, lo: nat, hi: nat): seq<Migration>
    requires hi <= |ms|
  {
    if lo < hi then ms[lo..hi] else []
  }

  function Min(a: nat, b: nat): nat { if a < b then a else b }

  function Max(a: nat, b: nat): nat { if a < b then b else a }

  /**
   Succeeds exactly on a checksum-matching prefix history and a target that was
   supplied; then it selects what lies between the history and the target.
   */
  method SelectApplies(applied: History, ms: seq<Migration>, target: ApplyTarget) returns (r: Option<seq<Migration>>)
    requires Sorted(ms)
    ensures r.Some? <==> IsPrefix(applied, ms) && ApplyLimit(ms, target).Some?
    ensures r.Some? ==> forall h :: 0 <= h <= |ms| && applied == HistoryOf(ms, h) ==>
              r.value == Slice(ms, h, ApplyLimit(ms, target).value)
  {
    var expected := Ids(ms);
    if !(applied.Keys <= expected) {
      ghost var stray :| stray in applied && stray !in expected;
      NotPrefix(applied, ms, stray);
      return None;
    }
    var limit := ApplyLimit(ms, target);
    if limit.None? {
      return None;
    }
    ghost var h;
    r, h := ScanApplies(applied, ms, limit.value);
    if r.Some? {
      PrefixFound(applied, ms, h);
    }
  }

  /** The loop over the supplied migrations: recorded ones first, pending ones after them. */
  method ScanApplies(applied: History, ms: seq<Migration>, limit: nat) returns (r: Option<seq<Migration>>, ghost h: nat)
    requires Sorted(ms) && limit <= |ms|
    ensures r.None? ==> !IsPrefix(applied, ms)
    ensures r.Some? ==> h <= |ms| && Scanned(applied, ms, h, |ms|) && r.value == Slice(ms, h, limit)
  {
    var selected: seq<Migration> := [];
    var pending := false;
    h := 0;
    for index := 0 to |ms|
      invariant 0 <= h <= index && (pending <==> h < index)
      invariant Scanned(applied, ms, h, index)
      invariant selected == Slice(ms, h, Min(index, limit))
    {
      if ms[index].id in applied {
        if applied[ms[index].id] != ms[index].checksum {
          Mismatch(applied, ms, index);
          return None, h;
        }
        if pending {
          Gap(applied, ms, h, index);
          return None, h;
        }
        h := h + 1;
        continue;
      }
      pending := true;
      if index >= limit {
        continue;
      }
      selected := selected + [ms[index]];
    }
    r := Some(selected);
  }

  /** The first `h` migrations are recorded with their checksums, the next ones up to `n` are not recorded. */
  ghost predicate Scanned(applied: History, ms: seq<Migration>, h: nat, n: nat)
    requires h <= n <= |ms|
  {
    ChecksumsMatch(applied, ms, 0, h) && forall i :: h <= i < n ==> ms[i].id !in applied
  }

  lemma {:induction false} PrefixFound(applied: History, ms: seq<Migration>, h: nat)
    requires Sorted(ms) && h <= |ms| && Scanned(applied, ms, h, |ms|) && applied.Keys <= Ids(ms)
    ensures applied == HistoryOf(ms, h)
    ensures forall g :: 0 <= g <= |ms| && applied == HistoryOf(ms, g) ==> g == h
  {
    assert forall id :: id in applied ==> id in Ids(ms);
    PrefixExactly(applied, ms, h);
    forall g | 0 <= g <= |ms| && g != h
      ensures applied != HistoryOf(ms, g)
    {
      if g < h {
        HistoryOfInjective(ms, g, h);
      } else {
        HistoryOfInjective(ms, h, g);
      }
    }
  }

  lemma {:induction false} NotPrefix(applied: History, ms: seq<Migration>, stray: string)
    requires Sorted(ms) && stray in applied && forall i :: 0 <= i < |ms| ==> ms[i].id != stray
    ensures !IsPrefix(applied, ms)
  {
    forall h | 0 <= h <= |ms|
      ensures applied != HistoryOf(ms, h)
    {
      HistoryOfEntries(ms, h);
    }
  }

  lemma {:induction false} Mismatch(applied: History, ms: seq<Migration>, i: nat)
    requires Sorted(ms) && i < |ms| && ms[i].id in applied && applied[ms[i].id] != ms[i].checksum
    ensures !IsPrefix(applied, ms)
  {
    forall h | 0 <= h <= |ms|
      ensures applied != HistoryOf(ms, h)
    {
      HistoryOfEntries(ms, h);
    }
  }

  lemma {:induction false} Gap(applied: History, ms: seq<Migration>, i: nat, j: nat)
    requires Sorted(ms) && i < j < |ms| && ms[i].id !in applied && ms[j].id in applied
    ensures !IsPrefix(applied, ms)
    ensures forall h :: !RecordsFirst(applied, ms, h)
  {
    forall h | 0 <= h <= |ms|
      ensures applied != HistoryOf(ms, h)
    {
      HistoryOfEntries(ms, h);
    }
  }

  // ---------- selectReverts ----------

  datatype RevertTarget = NoTarget | Through(id: string) | Steps(n: int)

  /** How many of the newest applied migrations a revert target names. */
  function RevertCount(appliedInOrder: seq<Migration>, target: RevertTarget): (r: Option<nat>)
    requires Sorted(appliedInOrder)
    ensures target.NoTarget? ==> r.None?
    ensures target.Steps? ==> r == if 1 <= target.n <= |appliedInOrder| then Some(target.n) else None
    ensures target.Through? ==> (r.Some? <==> exists i :: 0 <= i < |appliedInOrder| && appliedInOrder[i].id == target.id)
    ensures r.Some? ==> r.value <= |appliedInOrder|
    ensures r.Some? && target.Through? ==>
              r.value < |appliedInOrder| && appliedInOrder[|appliedInOrder| - r.value - 1].id == target.id
  {
    match target
    case NoTarget => None
    case Through(id) =>
      var position := Position(appliedInOrder, id);
      if position.None? then None else Some(|appliedInOrder| - position.value - 1)
    case Steps(n) => if n <= 0 || n > |appliedInOrder| then None else Some(n)
  }

  /** The newest `count` of the first `h` migrations, newest first. */
  function Newest(ms: seq<Migration>, h: nat, count: nat): (r: seq<Migration>)
    requires count <= h <= |ms|
    ensures |r| == count
  {
    if count == 0 then [] else Newest(ms, h, count - 1) + [ms[h - count]]
  }

  ghost predicate Revertible(applied: History, ms: seq<Migration>, from: nat, to: nat)
    requires to <= |ms|
  {
    ChecksumsMatch(applied, ms, from, to) && forall i :: from <= i < to ==> ms[i].down > 0
  }

  /** The first `h` migrations are the recorded ones, and `target` can be reached from there. */
  ghost predicate RevertsFrom(applied: History, ms: seq<Migration>, target: RevertTarget, h: nat)
    requires Sorted(ms)
  {
    && RecordsFirst(applied, ms, h)
    && RevertCount(ms[..h], target).Some?
    && Revertible(applied, ms, h - RevertCount(ms[..h], target).value, h)
  }

  /**
   Succeeds exactly when the recorded migrations are a gapless head of the
   supplied ones, the target resolves against it, and every selected migration is
   unchanged and carries reverse sources.
   */
  method SelectReverts(applied: History, ms: seq<Migration>, target: RevertTarget) returns (r: Option<seq<Migration>>)
    requires Sorted(ms)
    ensures r.Some? <==> exists h: nat :: RevertsFrom(applied, ms, target, h)
    ensures r.Some? ==> forall h: nat :: RevertsFrom(applied, ms, target, h) ==>
              r.value == Newest(ms, h, RevertCount(ms[..h], target).value)
  {
    ghost var h;
    r, h := RevertsAt(applied, ms, target);
    if h.Some? {
      RevertsFromOnly(applied, ms, target, h.value);
    }
  }

  /** The selection, and the length of the recorded head if there is one. */
  method RevertsAt(applied: History, ms: seq<Migration>, target: RevertTarget)
      returns (r: Option<seq<Migration>>, ghost h: Option<nat>)
    requires Sorted(ms)
    ensures h.None? ==> r.None? && forall g :: !RecordsFirst(applied, ms, g)
    ensures h.Some? ==> RecordsFirst(applied, ms, h.value) && (r.Some? <==> RevertsFrom(applied, ms, target, h.value))
    ensures r.Some? ==> h.Some? && r.value == Newest(ms, h.value, RevertCount(ms[..h.value], target).value)
  {
    var scanned := ScanApplied(applied, ms);
    if scanned.None? {
      return None, None;
    }
    h := Some(|scanned.value|);
    r := RevertsWithin(applied, ms, target, scanned.value);
  }

  /** The selection once the recorded head is known. */
  method RevertsWithin(applied: History, ms: seq<Migration>, target: RevertTarget, head: seq<Migration>) returns (r: Option<seq<Migration>>)
    requires Sorted(ms) && |head| <= |ms| && head == ms[..|head|] && RecordsFirst(applied, ms, |head|)
    ensures r.Some? <==> RevertsFrom(applied, ms, target, |head|)
    ensures r.Some? ==> r.value == Newest(ms, |head|, RevertCount(ms[..|head|], target).value)
  {
    var count := RevertCount(head, target);
    if count.None? {
      return None;
    }
    r := CollectReverts(applied, ms, |head|, count.value);
  }

  lemma {:induction false} RevertsFromOnly(applied: History, ms: seq<Migration>, target: RevertTarget, h: nat)
    requires Sorted(ms) && RecordsFirst(applied, ms, h)
    ensures forall g: nat :: RevertsFrom(applied, ms, target, g) ==> g == h
  {
    forall g: nat | g != h
      ensures !RecordsFirst(applied, ms, g)
    {
      RecordsFirstUnique(applied, ms, h, g);
    }
  }

  /** The recorded migrations in order; refused exactly when they are not a gapless head of the supplied ones. */
  method ScanApplied(applied: History, ms: seq<Migration>) returns (r: Option<seq<Migration>>)
    requires Sorted(ms)
    ensures r.None? ==> forall h :: !RecordsFirst(applied, ms, h)
    ensures r.Some? ==> |r.value| <= |ms| && r.value == ms[..|r.value|] && RecordsFirst(applied, ms, |r.value|)
  {
    var expected := Ids(ms);
    if !(applied.Keys <= expected) {
      ghost var stray :| stray in applied && stray !in expected;
      return None;
    }
    var appliedInOrder: seq<Migration> := [];
    var pending := false;
    for index := 0 to |ms|
      invariant |appliedInOrder| <= index && (pending <==> |appliedInOrder| < index)
      invariant appliedInOrder == ms[..|appliedInOrder|]
      invariant forall i :: 0 <= i < |appliedInOrder| ==> ms[i].id in applied
      invariant forall i :: |appliedInOrder| <= i < index ==> ms[i].id !in applied
    {
      if ms[index].id !in applied {
        pending := true;
        continue;
      }
      if pending {
        Gap(applied, ms, |appliedInOrder|, index);
        return None;
      }
      appliedInOrder := appliedInOrder + [ms[index]];
    }
    assert forall id :: id in applied ==> id in expected;
    return Some(appliedInOrder);
  }

  /** Walks the newest applied migrations backwards and refuses one that cannot be undone. */
  method CollectReverts(applied: History, ms: seq<Migration>, h: nat, count: nat) returns (r: Option<seq<Migration>>)
    requires count <= h <= |ms| && forall i :: 0 <= i < h ==> ms[i].id in applied
    ensures r.Some? <==> Revertible(applied, ms, h - count, h)
    ensures r.Some? ==> r.value == Newest(ms, h, count)
  {
    var selected: seq<Migration> := [];
    var index := h - 1;
    while index >= h - count
      invariant h - count - 1 <= index < h
      invariant selected == Newest(ms, h, h - 1 - index)
      invariant Revertible(applied, ms, index + 1, h)
    {
      var m := ms[index];
      if applied[m.id] != m.checksum || m.down == 0 {
        return None;
      }
      selected := selected + [m];
      index := index - 1;
    }
    return Some(selected);
  }

  // ---------- statusEntries ----------

  datatype StatusState = StatusApplied | StatusPending | StatusChanged | StatusOutOfOrder | StatusUnknown

  datatype StatusEntry = StatusEntry(id: string, state: StatusState, reversible: bool)

  lemma {:induction false} LeastId(ids: set<string>) returns (least: string)
    requires ids != {}
    ensures least in ids && forall id :: id in ids && id != least ==> Less(least, id)
    decreases |ids|
  {
    least :| least in ids;
    var rest := ids - {least};
    if rest != {} {
      var other := LeastId(rest);
      LessTotal(least, other);
      forall id | id in rest && id != other && Less(least, other)
        ensures Less(least, id)
      {
        LessTransitive(least, other, id);
      }
      if Less(other, least) {
        least := other;
      }
    }
  }

  method SortIds(ids: set<string>) returns (sorted: seq<string>)
    ensures forall i, j :: 0 <= i < j < |sorted| ==> Less(sorted[i], sorted[j])
    ensures forall id :: id in sorted <==> id in ids
  {
    var rest := ids;
    sorted := [];
    while rest != {}
      invariant rest <= ids && forall id :: id in ids <==> id in rest || id in sorted
      invariant forall i, j :: 0 <= i < j < |sorted| ==> Less(sorted[i], sorted[j])
      invariant forall i, id :: 0 <= i < |sorted| && id in rest ==> Less(sorted[i], id)
      decreases |rest|
    {
      ghost var witness_ := LeastId(rest);
      var least :| least in rest && forall id :: id in rest && id != least ==> Less(least, id);
      rest := rest - {least};
      sorted := sorted + [least];
    }
  }

  ghost predicate Settled(entries: seq<StatusEntry>) {
    forall i :: 0 <= i < |entries| ==> entries[i].state == StatusApplied || entries[i].state == StatusPending
  }

  ghost predicate InIdOrder(entries: seq<StatusEntry>) {
    forall i, j :: 0 <= i < j < |entries| ==> Less(entries[i].id, entries[j].id)
  }

  lemma {:induction false} SettledAppend(a: seq<StatusEntry>, b: seq<StatusEntry>)
    ensures Settled(a + b) <==> Settled(a) && Settled(b)
  {
    assert forall i :: 0 <= i < |a| ==> (a + b)[i] == a[i];
    assert forall i :: 0 <= i < |b| ==> (a + b)[|a| + i] == b[i];
  }

  /** The first `h` of the migrations before `n` are recorded unchanged, the others not at all. */
  ghost predicate Head(applied: History, ms: seq<Migration>, n: nat, h: nat) {
    && h <= n <= |ms|
    && ChecksumsMatch(applied, ms, 0, h)
    && forall i :: h <= i < n ==> ms[i].id !in applied
  }

  lemma {:induction false} HeadIsPrefix(applied: History, ms: seq<Migration>)
    requires Sorted(ms)
    ensures IsPrefix(applied, ms)
            <==> applied.Keys <= Ids(ms) && exists h: nat :: Head(applied, ms, |ms|, h)
  {
    if h :| 0 <= h <= |ms| && applied == HistoryOf(ms, h) {
      HistoryOfEntries(ms, h);
      assert Head(applied, ms, |ms|, h);
    }
    if applied.Keys <= Ids(ms) && exists h: nat :: Head(applied, ms, |ms|, h) {
      var h: nat :| Head(applied, ms, |ms|, h);
      PrefixFound(applied, ms, h);
    }
  }

  /** Some migration before `n` is not recorded. */
  ghost predicate PendingBefore(applied: History, ms: seq<Migration>, n: nat)
    requires n <= |ms|
  {
    exists i :: 0 <= i < n && ms[i].id !in applied
  }

  /** Pending: not recorded. Changed: recorded under another checksum. Out of order: recorded although an earlier one is pending. */
  ghost function StateOf(applied: History, ms: seq<Migration>, i: nat): StatusState
    requires i < |ms|
  {
    if ms[i].id !in applied then StatusPending
    else if applied[ms[i].id] != ms[i].checksum then StatusChanged
    else if PendingBefore(applied, ms, i) then StatusOutOfOrder
    else StatusApplied
  }

  ghost predicate EntryFor(applied: History, ms: seq<Migration>, i: nat, entry: StatusEntry)
    requires i < |ms|
  {
    entry == StatusEntry(ms[i].id, StateOf(applied, ms, i), ms[i].down > 0)
  }

  /** Only applied and pending states exactly when the recorded migrations are an unchanged head. */
  lemma {:induction false} SettledExactly(applied: History, ms: seq<Migration>, entries: seq<StatusEntry>)
    requires |entries| == |ms| && forall i :: 0 <= i < |ms| ==> EntryFor(applied, ms, i, entries[i])
    ensures Settled(entries) <==> exists h: nat :: Head(applied, ms, |ms|, h)
  {
    if Settled(entries) {
      var h := FirstPending(applied, ms);
      forall i | 0 <= i < h
        ensures ms[i].id in applied && applied[ms[i].id] == ms[i].checksum
      {
        assert EntryFor(applied, ms, i, entries[i]);
      }
      forall i | h <= i < |ms|
        ensures ms[i].id !in applied
      {
        assert EntryFor(applied, ms, i, entries[i]);
        assert i > h ==> PendingBefore(applied, ms, i);
      }
      assert Head(applied, ms, |ms|, h);
    }
    if h: nat :| Head(applied, ms, |ms|, h) {
      forall i | 0 <= i < |ms|
        ensures entries[i].state == StatusApplied || entries[i].state == StatusPending
      {
        assert EntryFor(applied, ms, i, entries[i]);
        assert i < h ==> !PendingBefore(applied, ms, i);
      }
    }
  }

  lemma {:induction false} FirstPending(applied: History, ms: seq<Migration>) returns (h: nat)
    ensures h <= |ms| && (forall i :: 0 <= i < h ==> ms[i].id in applied) && (h < |ms| ==> ms[h].id !in applied)
  {
    h := 0;
    while h < |ms| && ms[h].id in applied
      invariant h <= |ms| && forall i :: 0 <= i < h ==> ms[i].id in applied
    {
      h := h + 1;
    }
  }

  /** One entry per supplied migration. */
  method SuppliedEntries(applied: History, ms: seq<Migration>) returns (entries: seq<StatusEntry>)
    ensures |entries| == |ms| && forall i :: 0 <= i < |ms| ==> EntryFor(applied, ms, i, entries[i])
    ensures Settled(entries) <==> exists h: nat :: Head(applied, ms, |ms|, h)
  {
    entries := [];
    var pending := false;
    for index := 0 to |ms|
      invariant |entries| == index && (pending <==> PendingBefore(applied, ms, index))
      invariant forall i :: 0 <= i < index ==> EntryFor(applied, ms, i, entries[i])
    {
      var m := ms[index];
      assert PendingBefore(applied, ms, index + 1) <==> PendingBefore(applied, ms, index) || m.id !in applied;
      if m.id !in applied {
        pending := true;
        entries := entries + [StatusEntry(m.id, StatusPending, m.down > 0)];
        continue;
      }
      var state := StatusApplied;
      if applied[m.id] != m.checksum {
        state := StatusChanged;
      } else if pending {
        state := StatusOutOfOrder;
      }
      entries := entries + [StatusEntry(m.id, state, m.down > 0)];
    }
    SettledExactly(applied, ms, entries);
  }

  /**
   One entry per unknown record, in ID order, then one per supplied migration.
   Nothing but applied and pending entries is shown exactly when the history is a
   checksum-matching prefix, which is when SelectApplies accepts AllPending.
   */
  method StatusEntries(applied: History, ms: seq<Migration>) returns (entries: seq<StatusEntry>)
    requires Sorted(ms)
    ensures Settled(entries) <==> IsPrefix(applied, ms)
    ensures |entries| >= |ms|
    ensures var supplied := entries[|entries| - |ms|..]; forall i :: 0 <= i < |ms| ==> EntryFor(applied, ms, i, supplied[i])
    ensures forall i :: 0 <= i < |entries| - |ms| ==> entries[i] == StatusEntry(entries[i].id, StatusUnknown, false)
    ensures InIdOrder(entries[..|entries| - |ms|])
    ensures EntryIds(entries[..|entries| - |ms|]) == applied.Keys - Ids(ms)
  {
    var unknown := UnknownEntries(applied, ms);
    var supplied := SuppliedEntries(applied, ms);
    entries := unknown + supplied;
    assert entries[..|unknown|] == unknown && entries[|unknown|..] == supplied;
    SettledAppend(unknown, supplied);
    HeadIsPrefix(applied, ms);
  }

  function EntryIds(entries: seq<StatusEntry>): set<string> { set e | e in entries :: e.id }

  /** One entry per recorded ID that was not supplied, in ID order. */
  method UnknownEntries(applied: History, ms: seq<Migration>) returns (unknown: seq<StatusEntry>)
    ensures InIdOrder(unknown) && EntryIds(unknown) == applied.Keys - Ids(ms)
    ensures forall i :: 0 <= i < |unknown| ==> unknown[i] == StatusEntry(unknown[i].id, StatusUnknown, false)
    ensures Settled(unknown) <==> applied.Keys <= Ids(ms)
  {
    var ids := SortIds(applied.Keys - Ids(ms));
    unknown := seq(|ids|, i requires 0 <= i < |ids| => StatusEntry(ids[i], StatusUnknown, false));
    forall id | id in ids
      ensures id in EntryIds(unknown)
    {
      var k :| 0 <= k < |ids| && ids[k] == id;
      assert unknown[k] in unknown;
    }
    if ids != [] {
      assert unknown[0].state == StatusUnknown && ids[0] in ids;
    } else {
      assert forall id :: id in applied.Keys && id !in Ids(ms) ==> id in ids;
    }
  }

  // ---------- what apply and revert do to the length of the history ----------

  function AfterApply(ms: seq<Migration>, h: nat, target: ApplyTarget): (r: Option<nat>)
    requires Sorted(ms) && h <= |ms|
    ensures r.Some? ==> h <= r.value <= |ms|
  {
    var limit := ApplyLimit(ms, target);
    if limit.None? then None else Some(Max(h, limit.value))
  }

  function AfterRevert(ms: seq<Migration>, h: nat, target: RevertTarget): (r: Option<nat>)
    requires Sorted(ms) && h <= |ms|
    ensures r.Some? ==> r.value <= h
  {
    var count := RevertCount(ms[..h], target);
    if count.None? then None else Some(h - count.value)
  }

  /** Reverting as many steps as an apply took restores the history it met. */
  lemma {:induction false} RevertUndoesApply(ms: seq<Migration>, h: nat, target: ApplyTarget)
    requires Sorted(ms) && h <= |ms| && AfterApply(ms, h, target).Some?
    requires AfterApply(ms, h, target).value > h
    ensures AfterRevert(ms, AfterApply(ms, h, target).value, Steps(AfterApply(ms, h, target).value - h)) == Some(h)
  {
  }

  lemma {:induction false} PositionInPrefix(ms: seq<Migration>, h: nat, id: string, at: nat)
    requires Sorted(ms) && at < h <= |ms| && ms[at].id == id
    ensures Position(ms[..h], id) == Some(at) == Position(ms, id)
  {
    var p, q := Position(ms[..h], id), Position(ms, id);
    assert ms[..h][at].id == id;
    SortedDistinct(ms, p.value, at);
    SortedDistinct(ms, q.value, at);
  }

  /**
   Going forward to `x` and back to an applied `y` lands where going forward to
   `y` lands, exactly when `y` does not lie before the starting point.
   */
  lemma {:induction false} ApplyThenThrough(ms: seq<Migration>, h: nat, x: nat, y: nat)
    requires Sorted(ms) && h <= |ms| && x < |ms| && y < Max(h, x + 1)
    ensures AfterApply(ms, h, ApplyThrough(ms[x].id)) == Some(Max(h, x + 1))
    ensures AfterRevert(ms, Max(h, x + 1), Through(ms[y].id)) == Some(y + 1)
    ensures AfterApply(ms, h, ApplyThrough(ms[y].id)) == Some(Max(h, y + 1))
    ensures AfterRevert(ms, Max(h, x + 1), Through(ms[y].id)) == AfterApply(ms, h, ApplyThrough(ms[y].id))
            <==> h <= y + 1
  {
    PositionInPrefix(ms, |ms|, ms[x].id, x);
    PositionInPrefix(ms, |ms|, ms[y].id, y);
    PositionInPrefix(ms, Max(h, x + 1), ms[y].id, y);
  }
}
