/** The search driver best_guesses (wordle_solver.py:342-391): filter the guesses by the
    letters no solution uses, rank every remaining guess against the solutions, keep the
    guesses of least rank, and prefer those among them that could be the solution. */
module Search {
  import opened Words
  import opened Rules
  import opened Parts
  import opened WordGroups

  /** r is the least rank of a guess of G against the solutions S. */
  ghost predicate IsMinRank(S: set<Word>, G: set<Word>, r: nat)
    requires AllWords(G)
  {
    (exists w :: w in G && Rank(S, w) == r) && forall w :: w in G ==> r <= Rank(S, w)
  }

  /** The guesses of G whose rank is r. */
  ghost function Ties(S: set<Word>, G: set<Word>, r: nat): set<Word>
  {
    set w | w in G && |w| == L && Rank(S, w) == r
  }

  /** The tied guesses that could be the solution if there is any, otherwise all of them. */
  function Preferred(S: set<Word>, T: set<Word>): (p: set<Word>)
    ensures p <= T
    ensures T != {} ==> p != {}
    ensures p <= S || p == T
  {
    if T * S != {} then T * S else T
  }

  /** The least rank is unique. */
  lemma MinRankUnique(S: set<Word>, G: set<Word>, r1: nat, r2: nat)
    requires AllWords(G) && IsMinRank(S, G, r1) && IsMinRank(S, G, r2)
    ensures r1 == r2
  {
    var w1 :| w1 in G && Rank(S, w1) == r1;
    var w2 :| w2 in G && Rank(S, w2) == r2;
    assert r1 <= Rank(S, w2) && r2 <= Rank(S, w1);
  }

  /** `[guess for guess in xs if guess in s]`. */
  function Filtered(xs: seq<Word>, s: set<Word>): (r: seq<Word>)
    ensures Elements(r) == Elements(xs) * s
    ensures |r| <= |xs|
  {
    if xs == [] then []
    else
      var front, x := xs[..|xs| - 1], xs[|xs| - 1];
      var rest := Filtered(front, s);
      assert xs == front + [x];
      assert Elements(xs) == Elements(front) + {x};
      if x in s then
        assert Elements(rest + [x]) == Elements(rest) + {x};
        rest + [x]
      else rest
  }

  /** Filtering a list without repeats leaves a list without repeats. */
  lemma {:induction false} FilteredDistinct(xs: seq<Word>, s: set<Word>)
    requires Distinct(xs)
    ensures Distinct(Filtered(xs, s))
  {
    if xs != [] {
      var front := xs[..|xs| - 1];
      var x := xs[|xs| - 1];
      assert Distinct(front) by {
        forall i, j | 0 <= i < j < |front| ensures front[i] != front[j] {
          assert front[i] == xs[i] && front[j] == xs[j];
        }
      }
      FilteredDistinct(front, s);
      if x in s {
        var rest := Filtered(front, s);
        assert x !in Elements(front) by {
          forall k | 0 <= k < |front| ensures front[k] != x {
            assert front[k] == xs[k];
          }
        }
        assert x !in Elements(rest);
        DistinctAppend(rest, x);
      }
    }
  }

  /** Every word is all-excluded once no solution is left, so filter_guesses keeps nothing. */
  lemma NoSolutionsNoGuesses(G: set<Word>)
    requires AllWords(G)
    ensures Absent({}) == LetterSet
    ensures (set w | w in G && GuessKept(w, LetterSet, G)) == {}
  {
    forall w | w in G ensures !GuessKept(w, LetterSet, G) {
      GuessKeptRules(w, LetterSet, G);
    }
  }

  /** The best guesses and their rank: the guesses of groups filtered by the letters no
      solution uses are ranked against the solutions; the rank is the least of their ranks
      (None when no guess is left), the list holds the guesses of that rank, narrowed to
      those that are themselves solutions when there are any, each once. The guess group is
      left changed, with its old set as the snapshot. The solution set ends as it began; once
      a guess is ranked, that group is unchanged and is its own snapshot, and otherwise its
      undo state is untouched. */
  method BestGuesses(guesses: WordGroup, solutions: WordGroup) returns (best: seq<Word>, bestRank: Option<nat>)
    requires guesses != solutions
    requires guesses.Valid() && solutions.Valid()
    modifies guesses, solutions
    ensures guesses.Valid() && guesses.changed && guesses.prevWordList == old(guesses.wordList)
    ensures guesses.wordList == set w | w in old(guesses.wordList) &&
              GuessKept(w, Absent(old(solutions.wordList)), old(guesses.wordList))
    ensures solutions.Valid() && solutions.wordList == old(solutions.wordList)
    ensures guesses.wordList != {} ==> solutions.Restored(old(solutions.wordList))
    ensures guesses.wordList == {} ==>
              solutions.changed == old(solutions.changed) && solutions.prevWordList == old(solutions.prevWordList)
    ensures bestRank.None? <==> guesses.wordList == {}
    ensures bestRank.None? ==> best == []
    ensures bestRank.Some? ==> IsMinRank(old(solutions.wordList), guesses.wordList, bestRank.value)
    ensures bestRank.Some? ==> Elements(best) == Preferred(old(solutions.wordList),
              Ties(old(solutions.wordList), guesses.wordList, bestRank.value))
    ensures Distinct(best)
  {
    ghost var S := solutions.wordList;
    var ex := solutions.ExcludedLetters();
    guesses.FilterGuesses(ex);
    ghost var G := guesses.wordList;
    if S == {} {
      NoSolutionsNoGuesses(old(guesses.wordList));
    }
    best, bestRank := RankGuesses(guesses.wordList, solutions);
    best := PreferSolutions(best, solutions.wordList);
  }

  /** best_guesses' loop over the filtered guesses G: the least rank against the solutions
      and every guess that has it. */
  method RankGuesses(G: set<Word>, solutions: WordGroup) returns (best: seq<Word>, bestRank: Option<nat>)
    requires AllWords(G) && solutions.Valid() && (G != {} ==> solutions.wordList != {})
    modifies solutions
    ensures solutions.Valid() && solutions.wordList == old(solutions.wordList)
    ensures G != {} ==> solutions.Restored(old(solutions.wordList))
    ensures G == {} ==>
              solutions.changed == old(solutions.changed) && solutions.prevWordList == old(solutions.prevWordList)
    ensures Tally(old(solutions.wordList), G, best, bestRank)
  {
    ghost var S := solutions.wordList;
    best, bestRank := [], None;
    var rest := G;
    ghost var ranked := false;
    while rest != {}
      invariant rest <= G
      invariant solutions.Valid() && solutions.wordList == S
      invariant ranked ==> solutions.Restored(S)
      invariant !ranked ==> rest == G
      invariant G == {} ==> !ranked
      invariant !ranked ==> (solutions.changed == old(solutions.changed) &&
                             solutions.prevWordList == old(solutions.prevWordList))
      invariant Tally(S, G - rest, best, bestRank)
      decreases |rest|
    {
      var word :| word in rest;
      best, bestRank := RankOne(solutions, word, G - rest, best, bestRank);
      TakeOne(G, rest, word);
      rest := rest - {word};
      ranked := true;
    }
    assert G != {} ==> ranked;
  }

  /** Taking a word out of the guesses still to rank adds it to those ranked. */
  lemma TakeOne(G: set<Word>, rest: set<Word>, word: Word)
    requires rest <= G && word in rest
    ensures G - (rest - {word}) == (G - rest) + {word}
  {
  }

  /** One pass of best_guesses' loop: rank word against the solutions and take it into
      account. */
  method RankOne(solutions: WordGroup, word: Word, ghost done: set<Word>, best: seq<Word>,
                 bestRank: Option<nat>)
    returns (best': seq<Word>, bestRank': Option<nat>)
    requires solutions.Valid() && solutions.wordList != {} && IsWord(word) && word !in done
    requires Tally(solutions.wordList, done, best, bestRank)
    modifies solutions
    ensures solutions.Restored(old(solutions.wordList))
    ensures Tally(old(solutions.wordList), done + {word}, best', bestRank')
  {
    var rank, foil := solutions.GuessRank(word);
    best', bestRank' := Consider(old(solutions.wordList), done, best, bestRank, word, rank);
  }

  /** best_guesses' last step: if some best guess is a solution, keep only those. */
  method PreferSolutions(best: seq<Word>, S: set<Word>) returns (best': seq<Word>)
    requires Distinct(best)
    ensures Elements(best') == Preferred(S, Elements(best)) && Distinct(best')
    ensures |best'| <= |best|
  {
    var inSolutions := false;
    ghost var hit: Word := "";
    for i := 0 to |best|
      invariant !inSolutions
      invariant forall j :: 0 <= j < i ==> best[j] !in S
    {
      if best[i] in S {
        inSolutions := true;
        hit := best[i];
        break;
      }
    }
    best' := best;
    if inSolutions {
      assert hit in Elements(best) * S;
      FilteredDistinct(best, S);
      best' := Filtered(best, S);
    } else {
      forall x | x in Elements(best) ensures x !in S {
        var j :| 0 <= j < |best| && best[j] == x;
      }
      assert Elements(best) * S == {};
    }
  }

  /** What best_guesses knows after ranking the guesses of done against S. */
  ghost predicate Tally(S: set<Word>, done: set<Word>, best: seq<Word>, bestRank: Option<nat>)
  {
    AllWords(done) && Distinct(best) &&
    (bestRank.None? <==> done == {}) &&
    (bestRank.None? ==> best == []) &&
    (bestRank.Some? ==> 1 <= bestRank.value && IsMinRank(S, done, bestRank.value) &&
                        Elements(best) == Ties(S, done, bestRank.value))
  }

  /** One guess of best_guesses' loop: a strictly better rank starts a new list, an equal
      one joins it, a worse one is ignored. */
  method Consider(ghost S: set<Word>, ghost done: set<Word>, best: seq<Word>, bestRank: Option<nat>,
                  word: Word, rank: nat)
    returns (best': seq<Word>, bestRank': Option<nat>)
    requires Tally(S, done, best, bestRank) && IsWord(word) && word !in done
    requires rank == Rank(S, word) && 1 <= rank
    ensures Tally(S, done + {word}, best', bestRank')
  {
    if bestRank.None? || bestRank.value == 0 || rank < bestRank.value {
      TallyBetter(S, done, best, bestRank, word);
      bestRank' := Some(rank);
      best' := [word];
    } else if rank == bestRank.value {
      TallyEqual(S, done, best, bestRank, word);
      bestRank' := bestRank;
      best' := best + [word];
    } else {
      TallyWorse(S, done, best, bestRank, word);
      best', bestRank' := best, bestRank;
    }
  }

  /** A guess ranked strictly better than all before it is the only best one so far. */
  lemma TallyBetter(S: set<Word>, done: set<Word>, best: seq<Word>, bestRank: Option<nat>, word: Word)
    requires Tally(S, done, best, bestRank) && IsWord(word) && word !in done && 1 <= Rank(S, word)
    requires bestRank.None? || Rank(S, word) < bestRank.value
    ensures Tally(S, done + {word}, [word], Some(Rank(S, word)))
  {
    var r := Rank(S, word);
    assert Elements([word]) == {word};
    forall w | w in done ensures r < Rank(S, w) {
    }
    assert Ties(S, done + {word}, r) == {word};
  }

  /** A guess tied with the best so far joins them. */
  lemma TallyEqual(S: set<Word>, done: set<Word>, best: seq<Word>, bestRank: Option<nat>, word: Word)
    requires Tally(S, done, best, bestRank) && IsWord(word) && word !in done
    requires bestRank.Some? && Rank(S, word) == bestRank.value
    ensures Tally(S, done + {word}, best + [word], bestRank)
  {
    assert word !in Elements(best);
    DistinctAppend(best, word);
    assert Ties(S, done + {word}, bestRank.value) == Ties(S, done, bestRank.value) + {word};
  }

  /** A guess ranked worse than the best so far changes nothing. */
  lemma TallyWorse(S: set<Word>, done: set<Word>, best: seq<Word>, bestRank: Option<nat>, word: Word)
    requires Tally(S, done, best, bestRank) && IsWord(word) && word !in done
    requires bestRank.Some? && Rank(S, word) > bestRank.value
    ensures Tally(S, done + {word}, best, bestRank)
  {
    var r := bestRank.value;
    var w0 :| w0 in done && Rank(S, w0) == r;
    assert w0 in done + {word};
    assert Ties(S, done + {word}, r) == Ties(S, done, r) by {
      forall w | w in Ties(S, done + {word}, r) ensures w in done {
        assert Rank(S, w) == r;
      }
    }
  }
}
