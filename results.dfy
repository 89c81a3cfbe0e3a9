/** The feedback table RESULTS, the feasibility test result_possible, and the Wordle
    feedback rule they describe (wordle_solver.py:188-205). */
module Results {
  import opened Words

  /** One feedback symbol: 'g' correct, 'y' present, 'b' absent. */
  predicate IsSymbol(c: char)
  {
    c == 'g' || c == 'y' || c == 'b'
  }

  /** Every character of r is a feedback symbol. */
  predicate OverSymbols(r: string)
  {
    forall i :: 0 <= i < |r| ==> IsSymbol(r[i])
  }

  /** A feedback string for an L-letter word. */
  predicate IsFeedback(r: string)
  {
    |r| == L && OverSymbols(r)
  }

  /** Every string in ps with c put in front. */
  function Prefixed(c: char, ps: seq<string>): seq<string>
  {
    seq(|ps|, i requires 0 <= i < |ps| => [c] + ps[i])
  }

  /** `itertools.product(*["gyb"] * n)`, each tuple joined into a string: the first
      position varies slowest, in the order g, y, b. */
  function Product(n: nat): seq<string>
  {
    if n == 0 then [""]
    else
      var rest := Product(n - 1);
      Prefixed('g', rest) + Prefixed('y', rest) + Prefixed('b', rest)
  }

  /** The filter applied to the product: drop strings with exactly one 'y' and no 'b'. */
  predicate KeptInTable(r: string)
  {
    Count(r, 'y') != 1 || 'b' in r
  }

  /** The list comprehension `[r for r in rs if KeptInTable(r)]`. */
  function TableFilter(rs: seq<string>): seq<string>
  {
    if rs == [] then []
    else TableFilter(rs[..|rs| - 1]) + (if KeptInTable(rs[|rs| - 1]) then [rs[|rs| - 1]] else [])
  }

  /** Python's `list.reverse()`, as a value. */
  function Reverse<T>(s: seq<T>): seq<T>
  {
    if s == [] then [] else Reverse(s[1..]) + [s[0]]
  }

  /** RESULTS: the product, filtered, then reversed. */
  function ResultsTable(): seq<string>
  {
    Reverse(TableFilter(Product(L)))
  }

  /** Position of a symbol in "gyb", the order itertools.product follows. */
  function SymbolRank(c: char): nat
  {
    if c == 'g' then 0 else if c == 'y' then 1 else 2
  }

  /** a comes before b in itertools.product order (lexicographic, g < y < b). */
  predicate Before(a: string, b: string)
  {
    |a| > 0 && |b| > 0 &&
    (SymbolRank(a[0]) < SymbolRank(b[0]) || (a[0] == b[0] && Before(a[1..], b[1..])))
  }

  lemma {:induction false} BeforeIrreflexive(a: string)
    ensures !Before(a, a)
  {
    if |a| > 0 {
      BeforeIrreflexive(a[1..]);
    }
  }

  /** The string of n copies of c. */
  function Repeat(c: char, n: nat): (s: string)
    ensures |s| == n && forall i :: 0 <= i < n ==> s[i] == c
  {
    if n == 0 then "" else [c] + Repeat(c, n - 1)
  }

  // ---------------------------------------------------------------------------
  // The product

  /** s is strictly increasing in itertools.product order. */
  ghost predicate Ascending(s: seq<string>)
  {
    forall i, j :: 0 <= i < j < |s| ==> Before(s[i], s[j])
  }

  lemma PrefixedMember(c: char, ps: seq<string>, r: string)
    ensures r in Prefixed(c, ps) <==> (|r| > 0 && r[0] == c && r[1..] in ps)
  {
    if |r| > 0 && r[0] == c && r[1..] in ps {
      var k :| 0 <= k < |ps| && ps[k] == r[1..];
      assert Prefixed(c, ps)[k] == r;
    }
    if r in Prefixed(c, ps) {
      var k :| 0 <= k < |ps| && Prefixed(c, ps)[k] == r;
      assert r[1..] == ps[k];
    }
  }

  lemma PrefixedMembers(c: char, ps: seq<string>)
    ensures forall r :: r in Prefixed(c, ps) ==> |r| > 0 && r[0] == c && r[1..] in ps
  {
    forall r | r in Prefixed(c, ps) ensures |r| > 0 && r[0] == c && r[1..] in ps {
      PrefixedMember(c, ps, r);
    }
  }

  lemma OverSymbolsTail(r: string)
    requires |r| > 0
    ensures OverSymbols(r) <==> IsSymbol(r[0]) && OverSymbols(r[1..])
  {
    assert forall i :: 0 <= i < |r| - 1 ==> r[1..][i] == r[i + 1];
  }

  lemma {:induction false} ProductMember(n: nat, r: string)
    ensures r in Product(n) <==> (|r| == n && OverSymbols(r))
  {
    if n > 0 {
      var rest := Product(n - 1);
      if |r| > 0 {
        ProductMember(n - 1, r[1..]);
        OverSymbolsTail(r);
        PrefixedMember('g', rest, r);
        PrefixedMember('y', rest, r);
        PrefixedMember('b', rest, r);
      } else {
        PrefixedMembers('g', rest);
        PrefixedMembers('y', rest);
        PrefixedMembers('b', rest);
      }
    } else if r in Product(n) {
      assert r == "";
    }
  }

  /** Product(n) holds exactly the strings of n feedback symbols. */
  lemma ProductMembers(n: nat)
    ensures forall r :: r in Product(n) <==> (|r| == n && OverSymbols(r))
  {
    forall r ensures r in Product(n) <==> (|r| == n && OverSymbols(r)) {
      ProductMember(n, r);
    }
  }

  lemma PrefixedAscending(c: char, ps: seq<string>)
    requires Ascending(ps)
    ensures Ascending(Prefixed(c, ps))
  {
    forall i, j | 0 <= i < j < |ps| ensures Before(Prefixed(c, ps)[i], Prefixed(c, ps)[j]) {
      assert Prefixed(c, ps)[i][1..] == ps[i] && Prefixed(c, ps)[j][1..] == ps[j];
    }
  }

  /** Every string starting with c comes before every string starting with d. */
  lemma PrefixedBefore(c: char, d: char, ps: seq<string>)
    requires SymbolRank(c) < SymbolRank(d)
    ensures forall x, y :: x in Prefixed(c, ps) && y in Prefixed(d, ps) ==> Before(x, y)
  {
    PrefixedMembers(c, ps);
    PrefixedMembers(d, ps);
  }

  lemma ConcatThree(a: seq<string>, b: seq<string>, c: seq<string>)
    requires Ascending(a) && Ascending(b) && Ascending(c)
    requires forall x, y :: x in a && y in b ==> Before(x, y)
    requires forall x, y :: x in a && y in c ==> Before(x, y)
    requires forall x, y :: x in b && y in c ==> Before(x, y)
    ensures Ascending(a + b + c)
  {
    ConcatAscending(a, b);
    forall x, y | x in a + b && y in c ensures Before(x, y) {
      assert x in a || x in b;
    }
    ConcatAscending(a + b, c);
  }

  lemma ConcatAscending(a: seq<string>, b: seq<string>)
    requires Ascending(a) && Ascending(b)
    requires forall x, y :: x in a && y in b ==> Before(x, y)
    ensures Ascending(a + b)
  {
    forall i, j | 0 <= i < j < |a + b| ensures Before((a + b)[i], (a + b)[j]) {
      if j < |a| {
        assert (a + b)[i] == a[i] && (a + b)[j] == a[j];
      } else if i >= |a| {
        assert (a + b)[i] == b[i - |a|] && (a + b)[j] == b[j - |a|];
      } else {
        assert (a + b)[i] == a[i] && (a + b)[j] == b[j - |a|];
      }
    }
  }

  lemma {:induction false} ProductSorted(n: nat)
    ensures Ascending(Product(n))
  {
    if n > 0 {
      ProductSorted(n - 1);
      var rest := Product(n - 1);
      var g, y, b := Prefixed('g', rest), Prefixed('y', rest), Prefixed('b', rest);
      PrefixedAscending('g', rest);
      PrefixedAscending('y', rest);
      PrefixedAscending('b', rest);
      PrefixedBefore('g', 'y', rest);
      PrefixedBefore('g', 'b', rest);
      PrefixedBefore('y', 'b', rest);
      ConcatThree(g, y, b);
    }
  }

  lemma {:induction false} ProductEnds(n: nat)
    ensures |Product(n)| > 0
    ensures Product(n)[0] == Repeat('g', n)
    ensures Product(n)[|Product(n)| - 1] == Repeat('b', n)
  {
    if n > 0 {
      ProductEnds(n - 1);
      var rest := Product(n - 1);
      assert Product(n)[0] == Prefixed('g', rest)[0];
      assert Product(n)[|Product(n)| - 1] == Prefixed('b', rest)[|rest| - 1];
    }
  }

  // ---------------------------------------------------------------------------
  // Filter and reversal

  lemma {:induction false} TableFilterMembers(rs: seq<string>)
    ensures forall r :: r in TableFilter(rs) <==> r in rs && KeptInTable(r)
  {
    if rs != [] {
      TableFilterMembers(rs[..|rs| - 1]);
      assert rs == rs[..|rs| - 1] + [rs[|rs| - 1]];
    }
  }

  lemma {:induction false} TableFilterOrder(rs: seq<string>)
    requires Ascending(rs)
    ensures Ascending(TableFilter(rs))
  {
    if rs != [] {
      var front := rs[..|rs| - 1];
      var x := rs[|rs| - 1];
      TableFilterOrder(front);
      TableFilterMembers(front);
      var f := TableFilter(front);
      forall i, j | 0 <= i < j < |TableFilter(rs)| ensures Before(TableFilter(rs)[i], TableFilter(rs)[j]) {
        if j >= |f| {
          assert TableFilter(rs)[j] == x;
          assert TableFilter(rs)[i] == f[i];
          assert f[i] in front;
          var k :| 0 <= k < |front| && front[k] == f[i];
          assert rs[k] == f[i];
        } else {
          assert TableFilter(rs)[i] == f[i] && TableFilter(rs)[j] == f[j];
        }
      }
    }
  }

  lemma {:induction false} TableFilterFirst(rs: seq<string>)
    requires |rs| > 0 && KeptInTable(rs[0])
    ensures |TableFilter(rs)| > 0 && TableFilter(rs)[0] == rs[0]
  {
    if |rs| > 1 {
      TableFilterFirst(rs[..|rs| - 1]);
    }
  }

  lemma {:induction false} ReverseAt<T>(s: seq<T>)
    ensures |Reverse(s)| == |s|
    ensures forall i :: 0 <= i < |s| ==> Reverse(s)[i] == s[|s| - 1 - i]
  {
    if s != [] {
      ReverseAt(s[1..]);
    }
  }

  lemma ReverseMembers<T>(s: seq<T>)
    ensures forall x :: x in Reverse(s) <==> x in s
  {
    ReverseAt(s);
    forall x | x in s ensures x in Reverse(s) {
      var k :| 0 <= k < |s| && s[k] == x;
      assert Reverse(s)[|s| - 1 - k] == x;
    }
  }

  // ---------------------------------------------------------------------------
  // Properties of RESULTS

  /** RESULTS holds exactly the feedback strings that do not have exactly one 'y' and no 'b'. */
  lemma ResultsTableMembers()
    ensures forall r :: r in ResultsTable() <==> IsFeedback(r) && KeptInTable(r)
  {
    ProductMembers(L);
    TableFilterMembers(Product(L));
    ReverseMembers(TableFilter(Product(L)));
  }

  /** Every entry of RESULTS is a feedback string. */
  lemma ResultsTableFeedback()
    ensures forall j :: 0 <= j < |ResultsTable()| ==> IsFeedback(ResultsTable()[j])
  {
    ResultsTableMembers();
    forall j | 0 <= j < |ResultsTable()| ensures IsFeedback(ResultsTable()[j]) {
      assert ResultsTable()[j] in ResultsTable();
    }
  }

  /** No entry of RESULTS occurs twice. */
  lemma ResultsTableDistinct()
    ensures Distinct(ResultsTable())
  {
    ResultsTableOrder();
  }

  /** RESULTS is in strictly decreasing itertools.product order; in particular no string
      occurs twice. */
  lemma ResultsTableOrder()
    ensures forall i, j :: 0 <= i < j < |ResultsTable()| ==> Before(ResultsTable()[j], ResultsTable()[i])
    ensures Distinct(ResultsTable())
  {
    var f := TableFilter(Product(L));
    ProductSorted(L);
    TableFilterOrder(Product(L));
    ReverseAt(f);
    forall i, j | 0 <= i < j < |ResultsTable()| ensures ResultsTable()[i] != ResultsTable()[j] {
      assert Before(ResultsTable()[j], ResultsTable()[i]);
      BeforeIrreflexive(ResultsTable()[i]);
    }
  }

  lemma {:induction false} RepeatCount(c: char, d: char, n: nat)
    ensures CountTo(Repeat(c, n), d, n) == if c == d then n else 0
  {
    if n > 0 {
      var s := Repeat(c, n);
      assert Repeat(c, n - 1) == s[1..];
      CountPrefixShift(s, d, n);
      RepeatCount(c, d, n - 1);
    }
  }

  /** Counting the tail of a non-empty string. */
  lemma {:induction false} CountPrefixShift(s: string, d: char, n: nat)
    requires 0 < n <= |s|
    ensures CountTo(s, d, n) == (if s[0] == d then 1 else 0) + CountTo(s[1..], d, n - 1)
  {
    if n > 1 {
      CountPrefixShift(s, d, n - 1);
    }
  }

  /** The first entry of RESULTS is all-absent and the last is all-correct. */
  lemma ResultsTableEnds()
    ensures |ResultsTable()| > 0
    ensures ResultsTable()[0] == Repeat('b', L)
    ensures ResultsTable()[|ResultsTable()| - 1] == Repeat('g', L)
  {
    ProductEnds(L);
    var p := Product(L);
    RepeatCount('g', 'y', L);
    RepeatCount('b', 'y', L);
    assert Repeat('b', L)[0] == 'b';
    TableFilterFirst(p);
    ReverseAt(TableFilter(p));
  }

  // ---------------------------------------------------------------------------
  // result_possible

  /** The loop of result_possible from position i on, with the letters already marked
      absent in `absent`. */
  function PossibleFrom(word: string, result: string, i: nat, absent: set<char>): bool
    requires |word| >= L && |result| >= L && i <= L
    decreases L - i
  {
    if i == L then true
    else if result[i] == 'b' then PossibleFrom(word, result, i + 1, absent + {word[i]})
    else if result[i] == 'y' && word[i] in absent then false
    else PossibleFrom(word, result, i + 1, absent)
  }

  /** result_possible(word, result). */
  function ResultPossible(word: string, result: string): bool
    requires |word| >= L && |result| >= L
  {
    PossibleFrom(word, result, 0, {})
  }

  /** No 'y' position repeats the letter of an earlier 'b' position. */
  ghost predicate NoPresentAfterAbsent(word: string, result: string)
    requires |word| >= L && |result| >= L
  {
    forall j, i :: 0 <= j < i < L ==> !(result[j] == 'b' && result[i] == 'y' && word[j] == word[i])
  }

  /** Letters at the 'b' positions before i. */
  ghost function AbsentBefore(word: string, result: string, i: nat): set<char>
    requires i <= |word| && i <= |result|
  {
    set j | 0 <= j < i && result[j] == 'b' :: word[j]
  }

  lemma {:induction false} PossibleFromIff(word: string, result: string, i: nat)
    requires |word| >= L && |result| >= L && i <= L
    ensures PossibleFrom(word, result, i, AbsentBefore(word, result, i)) <==>
            forall j, k :: 0 <= j < k < L && i <= k ==> !(result[j] == 'b' && result[k] == 'y' && word[j] == word[k])
    decreases L - i
  {
    if i < L {
      var absent := AbsentBefore(word, result, i);
      if result[i] == 'b' {
        assert AbsentBefore(word, result, i + 1) == absent + {word[i]};
      } else {
        assert AbsentBefore(word, result, i + 1) == absent;
      }
      PossibleFromIff(word, result, i + 1);
      if result[i] == 'y' && word[i] in absent {
        var j :| 0 <= j < i && result[j] == 'b' && word[j] == word[i];
      }
    }
  }

  /** result_possible is false exactly when some 'y' position's letter also sits at an
      earlier 'b' position. */
  lemma ResultPossibleIff(word: string, result: string)
    requires |word| >= L && |result| >= L
    ensures ResultPossible(word, result) <==> NoPresentAfterAbsent(word, result)
  {
    assert AbsentBefore(word, result, 0) == {};
    PossibleFromIff(word, result, 0);
  }

  /** result_possible(word, result) as the source computes it: one scan over the positions,
      collecting the letters marked absent and failing at a present letter among them. */
  method Possible(word: string, result: string) returns (ok: bool)
    requires |word| >= L && |result| >= L
    ensures ok == ResultPossible(word, result)
    ensures ok <==> NoPresentAfterAbsent(word, result)
  {
    ResultPossibleIff(word, result);
    var absent: set<char> := {};
    for index := 0 to L
      invariant ResultPossible(word, result) == PossibleFrom(word, result, index, absent)
    {
      if result[index] == 'b' {
        absent := absent + {word[index]};
      } else if result[index] == 'y' {
        if word[index] in absent {
          return false;
        }
      }
    }
    return true;
  }

  /** A result with no present mark is always possible; in particular the first and last
      entries of RESULTS are. */
  lemma NoPresentPossible(word: string, result: string)
    requires |word| >= L && |result| >= L
    requires forall i :: 0 <= i < L ==> result[i] != 'y'
    ensures ResultPossible(word, result)
  {
    ResultPossibleIff(word, result);
  }

  // ---------------------------------------------------------------------------
  // The Wordle feedback rule (a reference definition; the solver itself has none)

  /** Positions j < n where the guess g has c and t has sym. */
  function Tally(g: string, t: string, c: char, sym: char, n: nat): nat
    requires n <= |g| && n <= |t|
  {
    if n == 0 then 0 else Tally(g, t, c, sym, n - 1) + (if g[n - 1] == c && t[n - 1] == sym then 1 else 0)
  }

  /** Positions j < n where the guess has c and the solution s does not: the copies of c in
      the guess that are not matched in place. */
  function Missed(g: string, s: string, c: char, n: nat): nat
    requires n <= |g| && n <= |s|
  {
    if n == 0 then 0 else Missed(g, s, c, n - 1) + (if g[n - 1] == c && s[n - 1] != c then 1 else 0)
  }

  /** Positions j < n where the solution s has c and the guess does not: the copies of c in
      the solution left over once the in-place matches are taken. */
  function Spare(g: string, s: string, c: char, n: nat): nat
    requires n <= |g| && n <= |s|
  {
    if n == 0 then 0 else Spare(g, s, c, n - 1) + (if s[n - 1] == c && g[n - 1] != c then 1 else 0)
  }

  /** Wordle's feedback at position i of guess g against solution s. A position is correct
      when the letters match. Otherwise the guess letter c consumes, scanning left to right,
      one of the Spare(g, s, c, |g|) unmatched copies of c in the solution if one is left:
      position i is the (Missed(g, s, c, i) + 1)-th unmatched c of the guess, so it is
      present exactly when fewer than Spare copies were consumed before it. */
  ghost function FeedbackAt(g: string, s: string, i: nat): char
    requires |g| == |s| && i < |g|
  {
    if s[i] == g[i] then 'g'
    else if Missed(g, s, g[i], i) < Spare(g, s, g[i], |g|) then 'y'
    else 'b'
  }

  /** The feedback string Wordle shows for guess g against solution s. */
  ghost function Feedback(g: string, s: string): (r: string)
    requires |g| == |s|
    ensures |r| == |g| && forall i :: 0 <= i < |g| ==> r[i] == FeedbackAt(g, s, i)
  {
    seq(|g|, i requires 0 <= i < |g| => FeedbackAt(g, s, i))
  }

  lemma {:induction false} MissedMonotone(g: string, s: string, c: char, m: nat, n: nat)
    requires m <= n <= |g| && n <= |s|
    ensures Missed(g, s, c, m) <= Missed(g, s, c, n)
    decreases n - m
  {
    if m < n {
      MissedMonotone(g, s, c, m, n - 1);
    }
  }

  lemma {:induction false} SpareNone(g: string, s: string, c: char, n: nat)
    requires n <= |g| && n <= |s|
    requires forall j :: 0 <= j < n ==> !(s[j] == c && g[j] != c)
    ensures Spare(g, s, c, n) == 0
  {
    if n > 0 {
      SpareNone(g, s, c, n - 1);
    }
  }

  lemma {:induction false} CountToTwo(r: string, c: char, i: nat, k: nat, n: nat)
    requires i < k < n <= |r| && r[i] == c && r[k] == c
    ensures CountTo(r, c, n) >= 2
  {
    if k < n - 1 {
      CountToTwo(r, c, i, k, n - 1);
    } else {
      CountToBounds(r, c, n - 1);
    }
  }

  /** The feedback of a word against a word is a string of L symbols. */
  lemma FeedbackIsFeedback(g: string, s: string)
    requires |g| == L && |s| == L
    ensures IsFeedback(Feedback(g, s))
  {
  }

  /** Wordle never marks a letter present after marking an earlier copy of it absent, so its
      feedback always passes result_possible. */
  lemma FeedbackPossible(g: string, s: string)
    requires |g| == L && |s| == L
    ensures ResultPossible(g, Feedback(g, s))
  {
    var r := Feedback(g, s);
    forall j, i | 0 <= j < i < L
      ensures !(r[j] == 'b' && r[i] == 'y' && g[j] == g[i])
    {
      if r[j] == 'b' && r[i] == 'y' && g[j] == g[i] {
        MissedMonotone(g, s, g[i], j + 1, i);
      }
    }
    ResultPossibleIff(g, r);
  }

  /** Wordle never shows exactly one 'y' and no 'b': the present letter would need an
      unmatched copy in the solution, and every other position is matched in place. */
  lemma FeedbackKept(g: string, s: string)
    requires |g| == L && |s| == L
    ensures KeptInTable(Feedback(g, s))
  {
    var r := Feedback(g, s);
    if Count(r, 'y') == 1 && 'b' !in r {
      CountBounds(r, 'y');
      var i :| 0 <= i < L && r[i] == 'y';
      forall k | 0 <= k < L && k != i ensures r[k] == 'g' {
        if r[k] == 'y' {
          if i < k { CountToTwo(r, 'y', i, k, L); } else { CountToTwo(r, 'y', k, i, L); }
        }
        assert r[k] != 'b';
      }
      forall j | 0 <= j < L ensures !(s[j] == g[i] && g[j] != g[i]) {
        assert r[j] == FeedbackAt(g, s, j);
      }
      SpareNone(g, s, g[i], L);
    }
  }

  /** Every feedback Wordle can show is in RESULTS. */
  lemma FeedbackInResultsTable(g: string, s: string)
    requires |g| == L && |s| == L
    ensures Feedback(g, s) in ResultsTable()
  {
    FeedbackKept(g, s);
    ResultsTableMembers();
  }
}
