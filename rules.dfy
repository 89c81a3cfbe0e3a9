/** What the two elimination passes keep, word by word (wordle_solver.py:139-186 and
    211-271), and how the solution pass relates to the feedback rule. */
module Rules {
  import opened Words
  import opened Results

  // ---------------------------------------------------------------------------
  // filter_solutions

  /** `word[index] in word[:index] or word[index] in word[index + 1:]` */
  predicate RepeatedAt(g: string, i: nat)
    requires i < |g|
  {
    g[i] in g[..i] || g[i] in g[i + 1..]
  }

  /** The per-position rules of filter_solutions(g, r) applied to w at position i. */
  predicate PositionKeeps(g: string, r: string, w: string, i: nat)
    requires i < |g| && i < |r| && i < |w|
  {
    if r[i] == 'g' then w[i] == g[i]
    else w[i] != g[i] && (if r[i] == 'y' then g[i] in w else RepeatedAt(g, i) || g[i] !in w)
  }

  /** The repeated-letter rule of filter_solutions(g, r) for letter c, applied to w. */
  predicate LetterKeeps(g: string, r: string, w: string, c: char)
    requires |g| >= L && |r| >= L
  {
    var absent := Tally(g, r, c, 'b', L);
    var present := Tally(g, r, c, 'y', L);
    var correct := Tally(g, r, c, 'g', L);
    if absent > 0 && (present > 0 || correct > 0) then Count(w, c) == present + correct
    else if absent > 0 then c !in w
    else Count(w, c) == 0 || Count(w, c) >= present + correct
  }

  /** w passes the per-position rules for the first n positions. */
  predicate PositionsKeep(g: string, r: string, w: string, n: nat)
    requires n <= |g| && n <= |r| && n <= |w|
  {
    forall i :: 0 <= i < n ==> PositionKeeps(g, r, w, i)
  }

  /** w passes the repeated-letter rule for every letter of cs that g repeats. */
  predicate LettersKeep(g: string, r: string, w: string, cs: set<char>)
    requires |g| >= L && |r| >= L
  {
    forall c :: c in cs && Count(g, c) > 1 ==> LetterKeeps(g, r, w, c)
  }

  /** filter_solutions(g, r) keeps w. */
  predicate SolutionKept(g: string, r: string, w: string)
    requires |g| == L && |r| == L && |w| == L
  {
    PositionsKeep(g, r, w, L) && LettersKeep(g, r, w, Elements(g))
  }

  // ---------------------------------------------------------------------------
  // Counting helpers

  lemma {:induction false} TallyNone(g: string, t: string, c: char, sym: char, m: nat, n: nat)
    requires m <= n <= |g| && n <= |t|
    requires forall j :: m <= j < n ==> !(g[j] == c && t[j] == sym)
    ensures Tally(g, t, c, sym, n) == Tally(g, t, c, sym, m)
    decreases n - m
  {
    if m < n {
      TallyNone(g, t, c, sym, m, n - 1);
    }
  }

  lemma {:induction false} TallyMonotone(g: string, t: string, c: char, sym: char, m: nat, n: nat)
    requires m <= n <= |g| && n <= |t|
    ensures Tally(g, t, c, sym, m) <= Tally(g, t, c, sym, n)
    decreases n - m
  {
    if m < n {
      TallyMonotone(g, t, c, sym, m, n - 1);
    }
  }

  /** Present and correct copies together fit in the positions counted. */
  lemma {:induction false} TallyPairBound(g: string, t: string, c: char, n: nat)
    requires n <= |g| && n <= |t|
    ensures Tally(g, t, c, 'y', n) + Tally(g, t, c, 'g', n) <= n
  {
    if n > 0 {
      TallyPairBound(g, t, c, n - 1);
    }
  }

  /** Copies of c in the guess split into matched and unmatched ones; copies in the
      solution split into matched and spare ones. */
  lemma {:induction false} CountSplit(g: string, w: string, c: char, n: nat)
    requires n <= |g| && n <= |w|
    ensures CountTo(g, c, n) == Tally(g, w, c, c, n) + Missed(g, w, c, n)
    ensures CountTo(w, c, n) == Tally(g, w, c, c, n) + Spare(g, w, c, n)
  {
    if n > 0 {
      CountSplit(g, w, c, n - 1);
    }
  }

  /** When r marks the copies of c in g correct exactly where w matches them, the matched
      copies are the correct ones and the unmatched copies are the present and absent ones. */
  lemma {:induction false} TalliesOfAgreeing(g: string, r: string, w: string, c: char, n: nat)
    requires n <= |g| && n <= |r| && n <= |w|
    requires forall j :: 0 <= j < n && g[j] == c ==> (r[j] == 'g' <==> w[j] == c) && IsSymbol(r[j])
    ensures Tally(g, w, c, c, n) == Tally(g, r, c, 'g', n)
    ensures Missed(g, w, c, n) == Tally(g, r, c, 'y', n) + Tally(g, r, c, 'b', n)
  {
    if n > 0 {
      TalliesOfAgreeing(g, r, w, c, n - 1);
    }
  }

  lemma {:induction false} CountToOnly(s: string, c: char, i: nat, n: nat)
    requires i < n <= |s| && s[i] == c
    requires forall j :: 0 <= j < n && j != i ==> s[j] != c
    ensures CountTo(s, c, n) == 1
  {
    if n - 1 > i {
      CountToOnly(s, c, i, n - 1);
    } else {
      CountToBounds(s, c, n - 1);
    }
  }

  /** The test filter_solutions uses for "the letter is repeated in the guess". */
  lemma RepeatedAtIff(g: string, i: nat)
    requires i < |g|
    ensures RepeatedAt(g, i) <==> Count(g, g[i]) > 1
  {
    var c := g[i];
    if RepeatedAt(g, i) {
      var j :| (0 <= j < i && g[j] == c) || (i < j < |g| && g[j] == c);
      if j < i {
        assert g[..i][j] == c;
        CountToTwo(g, c, j, i, |g|);
      } else {
        CountToTwo(g, c, i, j, |g|);
      }
    } else {
      forall j | 0 <= j < |g| && j != i ensures g[j] != c {
        if j < i { assert g[..i][j] == g[j]; } else { assert g[i + 1..][j - i - 1] == g[j]; }
      }
      CountToOnly(g, c, i, |g|);
    }
  }

  /** Without a repeat, no copy of g[i] precedes position i. */
  lemma NotRepeatedBefore(g: string, i: nat)
    requires i < |g| && !RepeatedAt(g, i)
    ensures forall j :: 0 <= j < |g| && j != i ==> g[j] != g[i]
  {
    forall j | 0 <= j < |g| && j != i ensures g[j] != g[i] {
      if j < i { assert g[..i][j] == g[j]; } else { assert g[i + 1..][j - i - 1] == g[j]; }
    }
  }

  lemma {:induction false} SpareSome(g: string, s: string, c: char, n: nat)
    requires n <= |g| && n <= |s| && Spare(g, s, c, n) > 0
    ensures c in s
  {
    if s[n - 1] == c && g[n - 1] != c {
    } else {
      SpareSome(g, s, c, n - 1);
    }
  }

  // ---------------------------------------------------------------------------
  // filter_solutions keeps exactly the words whose feedback is r

  /** The feedback tallies for one letter: of the unmatched copies of c in the guess, the
      first Spare ones are present and the rest absent. */
  lemma {:induction false} FeedbackTallies(g: string, w: string, c: char, n: nat)
    requires |g| == |w| && n <= |g|
    ensures Tally(g, Feedback(g, w), c, 'g', n) == Tally(g, w, c, c, n)
    ensures Tally(g, Feedback(g, w), c, 'y', n) == Min(Missed(g, w, c, n), Spare(g, w, c, |g|))
    ensures Tally(g, Feedback(g, w), c, 'b', n)
            == Missed(g, w, c, n) - Min(Missed(g, w, c, n), Spare(g, w, c, |g|))
  {
    if n > 0 {
      FeedbackTallies(g, w, c, n - 1);
      assert Feedback(g, w)[n - 1] == FeedbackAt(g, w, n - 1);
    }
  }

  function Min(a: nat, b: nat): nat
  {
    if a < b then a else b
  }

  /** Facts about one letter c of the guess when w passes every positional rule. */
  lemma PositionalAgreement(g: string, r: string, w: string, c: char)
    requires |g| == L && |r| == L && |w| == L && IsFeedback(r)
    requires forall i :: 0 <= i < L ==> PositionKeeps(g, r, w, i)
    ensures forall j :: 0 <= j < L && g[j] == c ==> (r[j] == 'g' <==> w[j] == c) && IsSymbol(r[j])
  {
    forall j | 0 <= j < L && g[j] == c ensures (r[j] == 'g' <==> w[j] == c) && IsSymbol(r[j]) {
      assert PositionKeeps(g, r, w, j);
    }
  }

  /** For a word passing filter_solutions(g, r), the feedback at a non-correct position i is
      the symbol r has there. */
  lemma KeptFeedbackAt(g: string, r: string, w: string, i: nat)
    requires |g| == L && |r| == L && |w| == L && IsFeedback(r) && NoPresentAfterAbsent(g, r)
    requires SolutionKept(g, r, w)
    requires i < L && r[i] != 'g'
    ensures FeedbackAt(g, w, i) == r[i]
  {
    assert PositionKeeps(g, r, w, i);
    if RepeatedAt(g, i) {
      KeptFeedbackRepeated(g, r, w, i);
    } else {
      KeptFeedbackSingle(g, r, w, i);
    }
  }

  /** The case of a letter that occurs once in the guess: the positional rule alone decides. */
  lemma KeptFeedbackSingle(g: string, r: string, w: string, i: nat)
    requires |g| == L && |r| == L && |w| == L && IsFeedback(r)
    requires i < L && r[i] != 'g' && PositionKeeps(g, r, w, i) && !RepeatedAt(g, i)
    ensures FeedbackAt(g, w, i) == r[i]
  {
    var c := g[i];
    NotRepeatedBefore(g, i);
    CountSplit(g, w, c, i);
    CountSplit(g, w, c, L);
    CountToBounds(g, c, i);
    TallyNone(g, w, c, c, 0, L);
    CountBounds(w, c);
  }

  /** The case of a repeated letter: the letter rule fixes how many copies are present. */
  lemma KeptFeedbackRepeated(g: string, r: string, w: string, i: nat)
    requires |g| == L && |r| == L && |w| == L && IsFeedback(r) && NoPresentAfterAbsent(g, r)
    requires SolutionKept(g, r, w)
    requires i < L && r[i] != 'g' && RepeatedAt(g, i)
    ensures FeedbackAt(g, w, i) == r[i]
  {
    var c := g[i];
    assert PositionKeeps(g, r, w, i);
    PositionalAgreement(g, r, w, c);
    TalliesOfAgreeing(g, r, w, c, i);
    TalliesOfAgreeing(g, r, w, c, L);
    CountSplit(g, w, c, L);
    CountSplit(g, w, c, i);
    var yi, bi := Tally(g, r, c, 'y', i), Tally(g, r, c, 'b', i);
    var present, absent, correct := Tally(g, r, c, 'y', L), Tally(g, r, c, 'b', L), Tally(g, r, c, 'g', L);
    assert Missed(g, w, c, i) == yi + bi;
    assert Spare(g, w, c, L) == Count(w, c) - correct;
    TallyMonotone(g, r, c, 'y', i + 1, L);
    TallyMonotone(g, r, c, 'b', i + 1, L);
    if r[i] == 'y' {
      TallyNone(g, r, c, 'b', 0, i);
      assert bi == 0;
      assert present >= yi + 1;
    } else {
      assert r[i] == 'b';
      TallyNone(g, r, c, 'y', i + 1, L);
      assert present == yi;
      assert absent >= 1;
    }
    CountBounds(w, c);
    RepeatedAtIff(g, i);
    assert LetterKeeps(g, r, w, c);
  }

  /** A word that passes filter_solutions(g, r) gets feedback r. */
  lemma KeptHasFeedback(g: string, r: string, w: string)
    requires |g| == L && |r| == L && |w| == L && IsFeedback(r) && NoPresentAfterAbsent(g, r)
    requires SolutionKept(g, r, w)
    ensures Feedback(g, w) == r
  {
    forall i | 0 <= i < L ensures Feedback(g, w)[i] == r[i] {
      if r[i] == 'g' {
        assert PositionKeeps(g, r, w, i);
      } else {
        KeptFeedbackAt(g, r, w, i);
      }
    }
  }

  /** A word passes filter_solutions with its own feedback. */
  lemma FeedbackIsKept(g: string, w: string)
    requires |g| == L && |w| == L
    ensures SolutionKept(g, Feedback(g, w), w)
  {
    var r := Feedback(g, w);
    forall i | 0 <= i < L ensures PositionKeeps(g, r, w, i) {
      var c := g[i];
      assert r[i] == FeedbackAt(g, w, i);
      if r[i] == 'y' {
        SpareSome(g, w, c, L);
      } else if r[i] == 'b' && !RepeatedAt(g, i) {
        NotRepeatedBefore(g, i);
        CountSplit(g, w, c, i);
        CountSplit(g, w, c, L);
        CountToBounds(g, c, i);
        TallyNone(g, w, c, c, 0, L);
        CountBounds(w, c);
      }
    }
    forall c | c in Elements(g) && Count(g, c) > 1 ensures LetterKeeps(g, r, w, c) {
      FeedbackTallies(g, w, c, L);
      CountSplit(g, w, c, L);
      CountBounds(w, c);
    }
  }

  /** For a feedback string r that passes result_possible, filter_solutions(g, r) keeps a
      word exactly when Wordle would show r for it. */
  lemma SolutionKeptIffFeedback(g: string, r: string, w: string)
    requires |g| == L && |w| == L && IsFeedback(r) && ResultPossible(g, r)
    ensures SolutionKept(g, r, w) <==> Feedback(g, w) == r
  {
    ResultPossibleIff(g, r);
    if SolutionKept(g, r, w) {
      KeptHasFeedback(g, r, w);
    }
    if Feedback(g, w) == r {
      FeedbackIsKept(g, w);
    }
  }

  // ---------------------------------------------------------------------------
  // filter_guesses

  /** Number of the first n positions of w that hold a letter of ex. */
  function ExcludedTo(w: string, ex: set<char>, n: nat): nat
    requires n <= |w|
  {
    if n == 0 then 0 else ExcludedTo(w, ex, n - 1) + (if w[n - 1] in ex then 1 else 0)
  }

  /** Number of positions of w that hold an excluded letter (the bucket filter_guesses
      puts w in). */
  function ExcludedCount(w: string, ex: set<char>): nat
    requires |w| >= L
  {
    ExcludedTo(w, ex, L)
  }

  lemma {:induction false} ExcludedToBounds(w: string, ex: set<char>, n: nat)
    requires n <= |w|
    ensures ExcludedTo(w, ex, n) <= n
    ensures ExcludedTo(w, ex, n) == 0 <==> forall i :: 0 <= i < n ==> w[i] !in ex
    ensures ExcludedTo(w, ex, n) == n <==> forall i :: 0 <= i < n ==> w[i] in ex
  {
    if n > 0 {
      ExcludedToBounds(w, ex, n - 1);
    }
  }

  /** v has w's letter at every position where w's letter is not excluded. */
  predicate AgreesOutside(v: string, w: string, ex: set<char>)
    requires |v| >= L && |w| >= L
  {
    forall i :: 0 <= i < L && w[i] !in ex ==> v[i] == w[i]
  }

  /** Some word of ws with fewer excluded letters than w agrees with w wherever w's letter
      is not excluded, so guessing w tells nothing that guessing it would not. */
  predicate Dominated(w: string, ex: set<char>, ws: set<string>)
    requires |w| >= L
  {
    exists v :: v in ws && |v| >= L && ExcludedCount(v, ex) < ExcludedCount(w, ex) && AgreesOutside(v, w, ex)
  }

  /** filter_guesses(ex) keeps w of the set ws it starts from. */
  predicate GuessKept(w: string, ex: set<char>, ws: set<string>)
    requires |w| >= L
  {
    ExcludedCount(w, ex) < L && !Dominated(w, ex, ws)
  }

  /** The three rules of filter_guesses: a word made only of excluded letters goes, a word
      with no excluded letter stays, and any other word goes exactly when it is dominated. */
  lemma GuessKeptRules(w: string, ex: set<char>, ws: set<string>)
    requires |w| == L
    ensures (forall i :: 0 <= i < L ==> w[i] in ex) ==> !GuessKept(w, ex, ws)
    ensures (forall i :: 0 <= i < L ==> w[i] !in ex) ==> GuessKept(w, ex, ws)
    ensures 0 < ExcludedCount(w, ex) < L ==> (GuessKept(w, ex, ws) <==> !Dominated(w, ex, ws))
  {
    ExcludedToBounds(w, ex, L);
  }
}
