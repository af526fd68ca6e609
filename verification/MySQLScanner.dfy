/**
 The CREATE TABLE scanners of inspect/inspect.go: find the parenthesis that
 closes a column list, and cut the list at its top-level commas. Both skip
 quoted text, where a quote is doubled to stand for itself and a backslash
 escapes the next character except between backticks.
 */
module MySQLScanner {
  import opened Wrappers

  predicate IsQuote(c: char) { c == '\'' || c == '"' || c == '`' }

  /** How far the scan moves over character `i` inside the quote `q`. */
  function QuotedStep(s: string, i: nat, q: char): (next: nat)
    requires i < |s|
    ensures next == i + 1 || next == i + 2
  {
    if s[i] == '\\' && q != '`' then i + 2
    else if s[i] == q && i + 1 < |s| && s[i + 1] == q then i + 2
    else i + 1
  }

  predicate ClosesQuote(s: string, i: nat, q: char)
    requires i < |s|
  {
    && s[i] == q && !(s[i] == '\\' && q != '`')
    && !(i + 1 < |s| && s[i + 1] == q)
  }

  // ---------- what the scan sees ----------

  /** A point of the scan: the position, the quote it is in, if any, and how many parentheses are open. */
  datatype Point = Point(i: nat, quote: Option<char>, depth: int)

  /** One step of the scan. */
  function Next(s: string, p: Point): (n: Point)
    requires p.i < |s|
    ensures n.i > p.i
  {
    if p.quote.Some? then
      var q := p.quote.value;
      Point(QuotedStep(s, p.i, q), if ClosesQuote(s, p.i, q) then None else p.quote, p.depth)
    else if IsQuote(s[p.i]) then Point(p.i + 1, Some(s[p.i]), p.depth)
    else Point(p.i + 1, None, p.depth + if s[p.i] == '(' then 1 else if s[p.i] == ')' then -1 else 0)
  }

  /** The scan that is at `p` meets character `c` at position `at`, outside quotes, with `depth` parentheses open. */
  ghost predicate Meets(s: string, p: Point, c: char, at: nat, depth: int)
    decreases |s| - p.i
  {
    p.i < |s| && ((p == Point(at, None, depth) && s[at] == c) || Meets(s, Next(s, p), c, at, depth))
  }

  /** Where the scan that is at `p` ends. */
  function End(s: string, p: Point): Point
    decreases |s| - p.i
  {
    if p.i >= |s| then p else End(s, Next(s, p))
  }

  /** A character met lies ahead. */
  lemma {:induction false} MeetsAhead(s: string, p: Point, c: char, at: nat, depth: int)
    ensures Meets(s, p, c, at, depth) ==> p.i <= at < |s| && s[at] == c
    decreases |s| - p.i
  {
    if p.i < |s| {
      MeetsAhead(s, Next(s, p), c, at, depth);
    }
  }

  // ---------- the closing parenthesis ----------

  /** The index of the parenthesis that closes the one `depth` levels up. */
  function Closing(s: string, i: nat, quote: Option<char>, depth: nat): (r: Option<nat>)
    requires depth >= 1
    ensures r.Some? ==> i <= r.value < |s| && s[r.value] == ')'
    decreases |s| - i
  {
    if i >= |s| then None
    else if quote.Some? then
      Closing(s, QuotedStep(s, i, quote.value), if ClosesQuote(s, i, quote.value) then None else quote, depth)
    else if IsQuote(s[i]) then Closing(s, i + 1, Some(s[i]), depth)
    else if s[i] == '(' then Closing(s, i + 1, None, depth + 1)
    else if s[i] == ')' then if depth == 1 then Some(i) else Closing(s, i + 1, None, depth - 1)
    else Closing(s, i + 1, None, depth)
  }

  /** At `at` the parenthesis opened before `open + 1` is the only one still open, and is closed. */
  ghost predicate ClosesAt(s: string, open: nat, at: nat) {
    Meets(s, Point(open + 1, None, 1), ')', at, 1)
  }

  lemma {:induction false} ClosingIsFirst(s: string, i: nat, quote: Option<char>, depth: nat)
    requires depth >= 1
    ensures var r, p := Closing(s, i, quote, depth), Point(i, quote, depth);
            && (r.Some? ==> Meets(s, p, ')', r.value, 1))
            && forall at :: Meets(s, p, ')', at, 1) ==> r.Some? && r.value <= at
    decreases |s| - i
  {
    if i < |s| {
      var p := Point(i, quote, depth);
      var n := Next(s, p);
      if quote.None? && s[i] == ')' && depth == 1 {
        forall at | Meets(s, p, ')', at, 1)
          ensures i <= at
        {
          MeetsAhead(s, p, ')', at, 1);
        }
      } else {
        ClosingIsFirst(s, n.i, n.quote, n.depth);
      }
    }
  }

  /** The first position at which the opened parenthesis is closed; None when there is none. */
  method MatchingParenthesis(input: string, open: nat) returns (r: Option<nat>)
    requires open < |input|
    ensures r == Closing(input, open + 1, None, 1)
    ensures r.Some? ==> open < r.value < |input| && ClosesAt(input, open, r.value)
    ensures r.Some? ==> forall at :: open < at < r.value ==> !ClosesAt(input, open, at)
    ensures r.None? ==> forall at :: !ClosesAt(input, open, at)
  {
    ClosingIsFirst(input, open + 1, None, 1);
    var depth := 1;
    var quote: Option<char> := None;
    var index := open + 1;
    while index < |input|
      invariant depth >= 1 && index >= open + 1
      invariant Closing(input, open + 1, None, 1) == Closing(input, index, quote, depth)
      decreases |input| - index
    {
      var character := input[index];
      if quote.Some? {
        if character == '\\' && quote.value != '`' {
          index := index + 2;
          continue;
        }
        if character == quote.value {
          if index + 1 < |input| && input[index + 1] == quote.value {
            index := index + 2;
            continue;
          }
          quote := None;
        }
        index := index + 1;
        continue;
      }
      if IsQuote(character) {
        quote := Some(character);
      } else if character == '(' {
        depth := depth + 1;
      } else if character == ')' {
        depth := depth - 1;
        if depth == 0 {
          return Some(index);
        }
      }
      index := index + 1;
    }
    return None;
  }

  /** The top-level parts of `s` from `start` on, with the scan at `i`. */
  function Parts(s: string, start: nat, i: nat, quote: Option<char>, depth: nat): Option<seq<string>>
    requires start <= |s|
    decreases |s| - i
  {
    if i >= |s| then if quote.Some? || depth != 0 then None else Some([s[start..]])
    else if quote.Some? then
      Parts(s, start, QuotedStep(s, i, quote.value), if ClosesQuote(s, i, quote.value) then None else quote, depth)
    else if IsQuote(s[i]) then Parts(s, start, i + 1, Some(s[i]), depth)
    else if s[i] == '(' then Parts(s, start, i + 1, None, depth + 1)
    else if s[i] == ')' then if depth == 0 then None else Parts(s, start, i + 1, None, depth - 1)
    else if s[i] == ',' && depth == 0 && start <= i then Cons(s[start..i], Parts(s, i + 1, i + 1, None, 0))
    else Parts(s, start, i + 1, None, depth)
  }

  function Cons(part: string, r: Option<seq<string>>): Option<seq<string>> {
    if r.None? then None else Some([part] + r.value)
  }

  function Extend(parts: seq<string>, r: Option<seq<string>>): Option<seq<string>> {
    if r.None? then None else Some(parts + r.value)
  }

  lemma {:induction false} ExtendCons(parts: seq<string>, part: string, r: Option<seq<string>>)
    ensures Extend(parts, Cons(part, r)) == Extend(parts + [part], r)
    ensures Extend([], r) == r
  {
    assert r.Some? ==> parts + ([part] + r.value) == parts + [part] + r.value;
    assert r.Some? ==> [] + r.value == r.value;
  }

  function Join(parts: seq<string>): string {
    if parts == [] then [] else if |parts| == 1 then parts[0] else parts[0] + "," + Join(parts[1..])
  }

  /** Position `at` of the text that starts at `start` is one of the commas that join the parts. */
  ghost predicate IsCut(parts: seq<string>, start: nat, at: nat) {
    |parts| > 1 && (at == start + |parts[0]| || IsCut(parts[1..], start + |parts[0]| + 1, at))
  }

  /** A comma outside quotes and parentheses. */
  ghost predicate TopLevelComma(s: string, at: nat) { Meets(s, Point(0, None, 0), ',', at, 0) }

  /** Quotes are closed, and every parenthesis is closed after it was opened. */
  ghost predicate Balanced(s: string, p: Point) {
    && End(s, p).quote.None? && End(s, p).depth == 0
    && forall at :: !Meets(s, p, ')', at, 0)
  }

  lemma {:induction false} PartsJoin(s: string, start: nat, i: nat, quote: Option<char>, depth: nat)
    requires start <= i && start <= |s|
    ensures var r := Parts(s, start, i, quote, depth); r.Some? ==> r.value != [] && Join(r.value) == s[start..]
    decreases |s| - i
  {
    if i < |s| {
      var n := Next(s, Point(i, quote, depth));
      if quote.None? && s[i] == ',' && depth == 0 {
        var rest := Parts(s, i + 1, i + 1, None, 0);
        PartsJoin(s, i + 1, i + 1, None, 0);
        if rest.Some? {
          JoinCons(s[start..i], rest.value);
          assert s[start..] == s[start..i] + "," + s[i + 1..];
        }
      } else if n.depth >= 0 {
        PartsJoin(s, start, n.i, n.quote, n.depth);
      }
    }
  }

  lemma {:induction false} JoinCons(part: string, parts: seq<string>)
    requires parts != []
    ensures Join([part] + parts) == part + "," + Join(parts)
  {
    assert ([part] + parts)[1..] == parts;
  }

  /** The parts are cut at exactly the top-level commas. */
  lemma {:induction false} PartsCut(s: string, start: nat, i: nat, quote: Option<char>, depth: nat, at: nat)
    requires start <= i && start <= |s|
    ensures var r := Parts(s, start, i, quote, depth);
            r.Some? ==> r.value != [] && (IsCut(r.value, start, at) <==> Meets(s, Point(i, quote, depth), ',', at, 0))
    decreases |s| - i
  {
    if i < |s| {
      var n := Next(s, Point(i, quote, depth));
      if quote.None? && s[i] == ',' && depth == 0 {
        var rest := Parts(s, i + 1, i + 1, None, 0);
        PartsCut(s, i + 1, i + 1, None, 0, at);
        if rest.Some? {
          assert ([s[start..i]] + rest.value)[1..] == rest.value;
        }
      } else if n.depth >= 0 {
        PartsCut(s, start, n.i, n.quote, n.depth, at);
      }
    }
  }

  /** Cutting fails exactly on text that is not balanced. */
  lemma {:induction false} PartsExactly(s: string, start: nat, i: nat, quote: Option<char>, depth: nat)
    requires start <= i && start <= |s|
    ensures Parts(s, start, i, quote, depth).Some? <==> Balanced(s, Point(i, quote, depth))
    decreases |s| - i
  {
    if i < |s| {
      var p := Point(i, quote, depth);
      var n := Next(s, p);
      if quote.None? && s[i] == ',' && depth == 0 {
        PartsExactly(s, i + 1, i + 1, None, 0);
        BalancedNext(s, p);
      } else if n.depth >= 0 {
        PartsExactly(s, start, n.i, n.quote, n.depth);
        BalancedNext(s, p);
      } else {
        assert Meets(s, p, ')', i, 0);
      }
    }
  }

  lemma {:induction false} BalancedNext(s: string, p: Point)
    requires p.i < |s| && !(p.quote.None? && p.depth == 0 && s[p.i] == ')')
    ensures Balanced(s, p) <==> Balanced(s, Next(s, p))
  {
    forall at
      ensures Meets(s, p, ')', at, 0) <==> Meets(s, Next(s, p), ')', at, 0)
    {
    }
  }

  /** The text cut at its top-level commas; refused exactly when it is not balanced. */
  method TopLevelParts(input: string) returns (r: Option<seq<string>>)
    ensures r == Parts(input, 0, 0, None, 0)
    ensures r.Some? <==> Balanced(input, Point(0, None, 0))
    ensures r.Some? ==> r.value != [] && Join(r.value) == input
    ensures r.Some? ==> forall at :: IsCut(r.value, 0, at) <==> TopLevelComma(input, at)
  {
    PartsExactly(input, 0, 0, None, 0);
    PartsJoin(input, 0, 0, None, 0);
    assert input[0..] == input;
    forall at | Parts(input, 0, 0, None, 0).Some?
      ensures IsCut(Parts(input, 0, 0, None, 0).value, 0, at) <==> TopLevelComma(input, at)
    {
      PartsCut(input, 0, 0, None, 0, at);
    }
    var parts: seq<string> := [];
    var start, depth, index := 0, 0, 0;
    var quote: Option<char> := None;
    ExtendCons([], [], Parts(input, 0, 0, None, 0));
    while index < |input|
      invariant 0 <= start <= index && start <= |input| && depth >= 0
      invariant Parts(input, 0, 0, None, 0) == Extend(parts, Parts(input, start, index, quote, depth))
      decreases |input| - index
    {
      var character := input[index];
      if quote.Some? {
        if character == '\\' && quote.value != '`' {
          index := index + 2;
          continue;
        }
        if character == quote.value {
          if index + 1 < |input| && input[index + 1] == quote.value {
            index := index + 2;
            continue;
          }
          quote := None;
        }
        index := index + 1;
        continue;
      }
      if IsQuote(character) {
        quote := Some(character);
      } else if character == '(' {
        depth := depth + 1;
      } else if character == ')' {
        if depth == 0 {
          return None;
        }
        depth := depth - 1;
      } else if character == ',' && depth == 0 {
        ExtendCons(parts, input[start..index], Parts(input, index + 1, index + 1, None, 0));
        parts := parts + [input[start..index]];
        start := index + 1;
      }
      index := index + 1;
    }
    if quote.Some? || depth != 0 {
      return None;
    }
    return Some(parts + [input[start..]]);
  }

  /**
   The two scanners agree step for step on the text between the parentheses, so
   whenever the closing one is found its body splits into parts.
   */
  lemma {:induction false} BodySplits(s: string, open: nat, close: nat, start: nat, i: nat, quote: Option<char>, depth: nat)
    requires open + 1 <= i && start <= i - open - 1
    requires depth >= 1 && Closing(s, i, quote, depth) == Some(close)
    requires quote.Some? ==> IsQuote(quote.value)
    ensures open < close && Parts(s[open + 1..close], start, i - open - 1, quote, depth - 1).Some?
    decreases |s| - i
  {
    var body := s[open + 1..close];
    var at := i - open - 1;
    if i == close {
      return;
    }
    assert body[at] == s[i];
    if quote.Some? {
      var q := quote.value;
      assert i + 1 < close ==> body[at + 1] == s[i + 1];
      assert QuotedStep(body, at, q) == QuotedStep(s, i, q) - open - 1;
      BodySplits(s, open, close, start, QuotedStep(s, i, q), if ClosesQuote(s, i, q) then None else quote, depth);
    } else if IsQuote(s[i]) {
      BodySplits(s, open, close, start, i + 1, Some(s[i]), depth);
    } else if s[i] == '(' {
      BodySplits(s, open, close, start, i + 1, None, depth + 1);
    } else if s[i] == ')' {
      BodySplits(s, open, close, start, i + 1, None, depth - 1);
    } else if s[i] == ',' && depth == 1 {
      BodySplits(s, open, close, at + 1, i + 1, None, 1);
    } else {
      BodySplits(s, open, close, start, i + 1, None, depth);
    }
  }

  lemma {:induction false} MatchedBodySplits(input: string, open: nat, close: nat)
    requires open < |input| && Closing(input, open + 1, None, 1) == Some(close)
    ensures open < close < |input| && Parts(input[open + 1..close], 0, 0, None, 0).Some?
  {
    BodySplits(input, open, close, 0, open + 1, None, 1);
  }

  // ---------- no cut inside quotes or parentheses ----------

  /** The scan gets from `p` to `q`. */
  ghost predicate Gets(s: string, p: Point, q: Point)
    decreases |s| - p.i
  {
    p == q || (p.i < |s| && Gets(s, Next(s, p), q))
  }

  /** What the scan meets from `q` on it meets on its way through `q`. */
  lemma {:induction false} MeetsThrough(s: string, p: Point, q: Point, c: char, at: nat, depth: int)
    requires Gets(s, p, q) && q.i <= at
    ensures Meets(s, p, c, at, depth) <==> Meets(s, q, c, at, depth)
    decreases |s| - p.i
  {
    if p != q {
      GetsAhead(s, Next(s, p), q);
      MeetsThrough(s, Next(s, p), q, c, at, depth);
    }
  }

  lemma {:induction false} GetsAhead(s: string, p: Point, q: Point)
    requires Gets(s, p, q)
    ensures p.i <= q.i
    decreases |s| - p.i
  {
    if p != q {
      GetsAhead(s, Next(s, p), q);
    }
  }

  /**
   From `i` on there is quoted text that the quote at `j` closes: in it the quote is
   doubled to stand for itself, and a backslash takes the next character with it
   except between backticks.
   */
  ghost predicate ClosedAt(s: string, i: nat, j: nat, q: char)
    decreases j - i
  {
    if i >= j then i == j < |s| && s[j] == q && !(j + 1 < |s| && s[j + 1] == q)
    else if j >= |s| then false
    else if s[i] == '\\' && q != '`' then ClosedAt(s, i + 2, j, q)
    else if s[i] == q then s[i + 1] == q && ClosedAt(s, i + 2, j, q)
    else ClosedAt(s, i + 1, j, q)
  }

  lemma {:induction false} NothingMetInQuotes(s: string, i: nat, j: nat, q: char, depth: int, at: nat, c: char, d: int)
    requires ClosedAt(s, i, j, q) && q != '\\' && at <= j
    ensures !Meets(s, Point(i, Some(q), depth), c, at, d)
    decreases j - i
  {
    var p := Point(i, Some(q), depth);
    if i < j {
      var n := Next(s, p);
      NothingMetInQuotes(s, n.i, j, q, depth, at, c, d);
    } else if i == j {
      MeetsAhead(s, Next(s, p), c, at, d);
    }
  }

  /** No cut lies between a quote of any of the three kinds and the quote that closes it. */
  lemma {:induction false} NoCutInQuotes(s: string, i: nat, j: nat, depth: int, at: nat)
    requires Gets(s, Point(0, None, 0), Point(i, None, depth)) && i < j
    requires i < |s| && (s[i] == '\'' || s[i] == '"' || s[i] == '`') && ClosedAt(s, i + 1, j, s[i]) && i <= at <= j
    ensures !TopLevelComma(s, at)
  {
    MeetsThrough(s, Point(0, None, 0), Point(i, None, depth), ',', at, 0);
    NothingMetInQuotes(s, i + 1, j, s[i], depth, at, ',', 0);
  }

  lemma {:induction false} NothingMetInside(s: string, i: nat, quote: Option<char>, depth: nat, close: nat, at: nat, c: char)
    requires depth >= 1 && Closing(s, i, quote, depth) == Some(close) && at <= close
    ensures !Meets(s, Point(i, quote, depth), c, at, 0)
    decreases |s| - i
  {
    var p := Point(i, quote, depth);
    var n := Next(s, p);
    if quote.None? && s[i] == ')' && depth == 1 {
      MeetsAhead(s, n, c, at, 0);
    } else {
      NothingMetInside(s, n.i, n.quote, n.depth, close, at, c);
    }
  }

  /** No cut lies between a parenthesis outside quotes and the one that closes it. */
  lemma {:induction false} NoCutInParentheses(s: string, i: nat, depth: nat, close: nat, at: nat)
    requires i < |s| && s[i] == '(' && Gets(s, Point(0, None, 0), Point(i, None, depth))
    requires Closing(s, i + 1, None, depth + 1) == Some(close) && i <= at <= close
    ensures !TopLevelComma(s, at)
  {
    MeetsThrough(s, Point(0, None, 0), Point(i, None, depth), ',', at, 0);
    NothingMetInside(s, i + 1, None, depth + 1, close, at, ',');
  }
}
