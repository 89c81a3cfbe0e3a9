/** The partition of a solution set by feedback, which guess_rank measures
    (wordle_solver.py:273-330). */
module Parts {
  import opened Words
  import opened Results

  /** The solutions in ws that would show feedback r for guess g. */
  ghost function Part(ws: set<Word>, g: Word, r: string): set<Word>
    requires |g| == L
  {
    set w | w in ws && |w| == L && Feedback(g, w) == r
  }

  /** The solutions in ws whose feedback for g is one of rs. */
  ghost function Covered(ws: set<Word>, g: Word, rs: seq<string>): set<Word>
    requires |g| == L
  {
    set w | w in ws && |w| == L && Feedback(g, w) in rs
  }

  /** Size of the largest part over the feedback strings rs. */
  ghost function Largest(ws: set<Word>, g: Word, rs: seq<string>): nat
    requires |g| == L
  {
    if rs == [] then 0
    else
      var m := Largest(ws, g, rs[..|rs| - 1]);
      var p := |Part(ws, g, rs[|rs| - 1])|;
      if p > m then p else m
  }

  /** Largest is the largest part size over rs: no part exceeds it, and unless rs is empty
      some part reaches it. */
  lemma {:induction false} LargestIsMax(ws: set<Word>, g: Word, rs: seq<string>)
    requires |g| == L
    ensures forall r :: r in rs ==> |Part(ws, g, r)| <= Largest(ws, g, rs)
    ensures rs == [] ==> Largest(ws, g, rs) == 0
    ensures rs != [] ==> exists r :: r in rs && |Part(ws, g, r)| == Largest(ws, g, rs)
  {
    if rs != [] {
      var front := rs[..|rs| - 1];
      assert rs == front + [rs[|rs| - 1]];
      LargestIsMax(ws, g, front);
    }
  }

  /** The rank guess_rank assigns to guess g: the size of the largest feedback class of ws. */
  ghost function Rank(ws: set<Word>, g: Word): nat
    requires |g| == L
  {
    Largest(ws, g, ResultsTable())
  }

  /** The sum of the part sizes over rs (guess_rank's running `total`). */
  ghost function PartSizes(ws: set<Word>, g: Word, rs: seq<string>): nat
    requires |g| == L
  {
    if rs == [] then 0 else PartSizes(ws, g, rs[..|rs| - 1]) + |Part(ws, g, rs[|rs| - 1])|
  }

  /** Parts for different feedback strings share no word. */
  lemma PartsDisjoint(ws: set<Word>, g: Word, r1: string, r2: string)
    requires |g| == L && r1 != r2
    ensures Part(ws, g, r1) !! Part(ws, g, r2)
  {
  }

  /** A feedback string that fails result_possible has an empty part, so guess_rank loses
      nothing by skipping it. */
  lemma ImpossiblePartEmpty(ws: set<Word>, g: Word, r: string)
    requires |g| == L && |r| == L && !ResultPossible(g, r)
    ensures Part(ws, g, r) == {}
  {
    forall w | w in ws && |w| == L ensures Feedback(g, w) != r {
      FeedbackPossible(g, w);
    }
  }

  /** Adding one feedback string to the covered ones adds its part. */
  lemma CoveredStep(ws: set<Word>, g: Word, rs: seq<string>, k: nat)
    requires |g| == L && k < |rs|
    ensures Covered(ws, g, rs[..k + 1]) == Covered(ws, g, rs[..k]) + Part(ws, g, rs[k])
  {
    assert rs[..k + 1] == rs[..k] + [rs[k]];
  }

  /** Every word of ws lies in the part of some entry of RESULTS. */
  lemma CoveredAll(ws: set<Word>, g: Word)
    requires AllWords(ws) && |g| == L
    ensures Covered(ws, g, ResultsTable()) == ws
  {
    forall w | w in ws ensures Feedback(g, w) in ResultsTable() {
      FeedbackInResultsTable(g, w);
    }
  }

  /** Over distinct feedback strings, the part sizes add up to the number of words covered. */
  lemma {:induction false} PartSizesCovered(ws: set<Word>, g: Word, rs: seq<string>)
    requires |g| == L && Distinct(rs)
    ensures PartSizes(ws, g, rs) == |Covered(ws, g, rs)|
  {
    if rs != [] {
      var n := |rs| - 1;
      var front := rs[..n];
      assert Distinct(front) by {
        forall i, j | 0 <= i < j < |front| ensures front[i] != front[j] {
          assert front[i] == rs[i] && front[j] == rs[j];
        }
      }
      PartSizesCovered(ws, g, front);
      assert rs[..n + 1] == rs;
      CoveredStep(ws, g, rs, n);
      assert rs[n] !in front;
      assert Covered(ws, g, front) !! Part(ws, g, rs[n]);
    }
  }

  /** The parts of guess_rank cover the set: their sizes sum to its size
      (the source's closing `total == len(self)`). */
  lemma PartitionSizes(ws: set<Word>, g: Word)
    requires AllWords(ws) && |g| == L
    ensures PartSizes(ws, g, ResultsTable()) == |ws|
  {
    ResultsTableOrder();
    PartSizesCovered(ws, g, ResultsTable());
    CoveredAll(ws, g);
  }

  /** Some part is non-empty once a word's feedback is among rs, and no part exceeds ws. */
  lemma LargestBounds(ws: set<Word>, g: Word, rs: seq<string>, w: Word)
    requires |g| == L && w in ws && |w| == L && Feedback(g, w) in rs
    ensures 1 <= Largest(ws, g, rs) <= |ws|
  {
    var own := Part(ws, g, Feedback(g, w));
    assert w in own;
    assert |own| >= 1;
    LargestIsMax(ws, g, rs);
    var r :| r in rs && |Part(ws, g, r)| == Largest(ws, g, rs);
    PartSize(ws, g, r);
  }

  lemma PartSize(ws: set<Word>, g: Word, r: string)
    requires |g| == L
    ensures |Part(ws, g, r)| <= |ws|
  {
    var p := Part(ws, g, r);
    assert p <= ws;
    assert |ws - p| == |ws| - |p|;
  }

  /** The rank of any guess over a non-empty set is between 1 and the size of the set. */
  lemma RankBounds(ws: set<Word>, g: Word)
    requires AllWords(ws) && |g| == L && ws != {}
    ensures 1 <= Rank(ws, g) <= |ws|
  {
    var w :| w in ws;
    FeedbackInResultsTable(g, w);
    LargestBounds(ws, g, ResultsTable(), w);
  }

  /** One more feedback string: the largest part grows only if the new part is strictly
      larger, which is why the first feedback reaching the maximum is the one reported. */
  lemma LargestStep(ws: set<Word>, g: Word, rs: seq<string>, k: nat)
    requires |g| == L && k < |rs|
    ensures Largest(ws, g, rs[..k + 1])
            == (if |Part(ws, g, rs[k])| > Largest(ws, g, rs[..k]) then |Part(ws, g, rs[k])|
                else Largest(ws, g, rs[..k]))
  {
    assert rs[..k + 1][..k] == rs[..k];
  }

  /** Feedback strings with empty parts do not change the largest part. */
  lemma {:induction false} LargestStable(ws: set<Word>, g: Word, rs: seq<string>, k: nat, n: nat)
    requires |g| == L && k <= n <= |rs|
    requires forall j :: k <= j < n ==> Part(ws, g, rs[j]) == {}
    ensures Largest(ws, g, rs[..n]) == Largest(ws, g, rs[..k])
  {
    if k < n {
      LargestStable(ws, g, rs, k, n - 1);
      LargestStep(ws, g, rs, n - 1);
    }
  }

  /** In a sequence without repeats, an entry at k or later is not among the first k. */
  lemma NotBefore(rs: seq<string>, k: nat, j: nat)
    requires Distinct(rs) && k <= j < |rs|
    ensures rs[j] !in rs[..k]
  {
    forall i | 0 <= i < k ensures rs[..k][i] != rs[j] {
      assert rs[..k][i] == rs[i];
    }
  }

  /** The part of a feedback string is disjoint from those of the strings before it. */
  lemma CoveredPartDisjoint(ws: set<Word>, g: Word, rs: seq<string>, k: nat)
    requires |g| == L && Distinct(rs) && k < |rs|
    ensures Covered(ws, g, rs[..k]) !! Part(ws, g, rs[k])
  {
    NotBefore(rs, k, k);
  }

  /** Once the parts of rs[..k] hold every word, the later parts are empty. */
  lemma PartsAfterCovered(ws: set<Word>, g: Word, rs: seq<string>, k: nat)
    requires |g| == L && Distinct(rs) && k <= |rs| && ws <= Covered(ws, g, rs[..k])
    ensures forall j :: k <= j < |rs| ==> Part(ws, g, rs[j]) == {}
  {
    forall j | k <= j < |rs| ensures Part(ws, g, rs[j]) == {} {
      NotBefore(rs, k, j);
    }
  }

  /** What guess_rank knows after the first k feedback strings of rs: rank is the largest
      part so far and, once positive, foil is the first of them (at f) whose part reaches it. */
  ghost predicate Ranked(ws: set<Word>, g: Word, rs: seq<string>, k: nat, rank: nat, foil: string, f: nat)
    requires |g| == L && k <= |rs|
  {
    rank == Largest(ws, g, rs[..k]) &&
    (rank > 0 ==> f < k && rs[f] == foil && |Part(ws, g, foil)| == rank &&
                  forall j :: 0 <= j < f ==> |Part(ws, g, rs[j])| < rank)
  }

  /** guess_rank's loop state after the first k entries of RESULTS: processed holds the
      words of their parts, and rank and foil are as Ranked says. */
  ghost predicate Progress(ws: set<Word>, g: Word, k: nat, processed: set<Word>,
                           rank: nat, foil: string, f: nat)
  {
    |g| == L && k <= |ResultsTable()| && processed == Covered(ws, g, ResultsTable()[..k]) &&
    Ranked(ws, g, ResultsTable(), k, rank, foil, f)
  }

  /** guess_rank's update `if part > rank`: a strictly larger part takes over, a part no
      larger leaves rank and foil as they are. */
  lemma RankedStep(ws: set<Word>, g: Word, rs: seq<string>, k: nat, rank: nat, foil: string, f: nat)
    requires |g| == L && k < |rs| && Ranked(ws, g, rs, k, rank, foil, f)
    ensures |Part(ws, g, rs[k])| > rank ==> Ranked(ws, g, rs, k + 1, |Part(ws, g, rs[k])|, rs[k], k)
    ensures |Part(ws, g, rs[k])| <= rank ==> Ranked(ws, g, rs, k + 1, rank, foil, f)
  {
    LargestStep(ws, g, rs, k);
    if |Part(ws, g, rs[k])| > rank {
      LargestIsMax(ws, g, rs[..k]);
      forall j | 0 <= j < k ensures |Part(ws, g, rs[j])| < |Part(ws, g, rs[k])| {
        assert rs[j] in rs[..k];
      }
    }
  }

  /** guess_rank's early `break`: once the first k parts hold every word, what is known
      about them holds for all of rs. */
  lemma RankedEarly(ws: set<Word>, g: Word, rs: seq<string>, k: nat, rank: nat, foil: string, f: nat)
    requires |g| == L && Distinct(rs) && k <= |rs| && ws <= Covered(ws, g, rs[..k])
    requires Ranked(ws, g, rs, k, rank, foil, f)
    ensures Ranked(ws, g, rs, |rs|, rank, foil, f)
  {
    PartsAfterCovered(ws, g, rs, k);
    LargestStable(ws, g, rs, k, |rs|);
  }

  /** foil is the first entry of RESULTS whose part has the largest size, rank. */
  ghost predicate FirstLargest(ws: set<Word>, g: Word, rank: nat, foil: string)
    requires |g| == L
  {
    exists f :: 0 <= f < |ResultsTable()| && ResultsTable()[f] == foil &&
      |Part(ws, g, foil)| == rank &&
      forall j :: 0 <= j < f ==> |Part(ws, g, ResultsTable()[j])| < rank
  }

  /** After all of RESULTS: the rank is Rank, at least 1 and at most the number of words, and
      the foil is the first entry of RESULTS whose part reaches it. */
  lemma RankedAll(ws: set<Word>, g: Word, rank: nat, foil: string, f: nat)
    requires AllWords(ws) && ws != {} && |g| == L
    requires Ranked(ws, g, ResultsTable(), |ResultsTable()|, rank, foil, f)
    ensures rank == Rank(ws, g) && 1 <= rank <= |ws|
    ensures foil in ResultsTable() && FirstLargest(ws, g, rank, foil)
  {
    assert ResultsTable()[..|ResultsTable()|] == ResultsTable();
    RankBounds(ws, g);
  }

  /** The part of the next entry of RESULTS shares no word with those already processed. */
  lemma ProgressDisjoint(ws: set<Word>, g: Word, k: nat, processed: set<Word>,
                         rank: nat, foil: string, f: nat)
    requires Progress(ws, g, k, processed, rank, foil, f) && k < |ResultsTable()|
    ensures processed !! Part(ws, g, ResultsTable()[k])
  {
    ResultsTableDistinct();
    CoveredPartDisjoint(ws, g, ResultsTable(), k);
  }

  /** One more entry of RESULTS: its part joins the processed words, and rank and foil
      change only for a strictly larger part. */
  lemma ProgressStep(ws: set<Word>, g: Word, k: nat, processed: set<Word>,
                     rank: nat, foil: string, f: nat)
    requires Progress(ws, g, k, processed, rank, foil, f) && k < |ResultsTable()|
    ensures var p := Part(ws, g, ResultsTable()[k]);
            |p| > rank ==> Progress(ws, g, k + 1, processed + p, |p|, ResultsTable()[k], k)
    ensures var p := Part(ws, g, ResultsTable()[k]);
            |p| <= rank ==> Progress(ws, g, k + 1, processed + p, rank, foil, f)
  {
    CoveredStep(ws, g, ResultsTable(), k);
    RankedStep(ws, g, ResultsTable(), k, rank, foil, f);
  }

  /** Once every word is processed, the loop may stop: what is known holds for all of RESULTS. */
  lemma ProgressEarly(ws: set<Word>, g: Word, k: nat, processed: set<Word>,
                      rank: nat, foil: string, f: nat)
    requires Progress(ws, g, k, processed, rank, foil, f) && ws <= processed
    ensures Ranked(ws, g, ResultsTable(), |ResultsTable()|, rank, foil, f)
  {
    ResultsTableDistinct();
    RankedEarly(ws, g, ResultsTable(), k, rank, foil, f);
  }

  /** The last entry of RESULTS, all 'g', is possible for every guess, so guess_rank's last
      pass always restores the set. */
  lemma LastPossible(g: Word)
    requires |g| == L
    ensures |ResultsTable()| > 0 && |ResultsTable()[|ResultsTable()| - 1]| == L
    ensures ResultPossible(g, ResultsTable()[|ResultsTable()| - 1])
  {
    ResultsTableEnds();
    ResultsTableFeedback();
    NoPresentPossible(g, ResultsTable()[|ResultsTable()| - 1]);
  }
}

