/** The check the interactive loop applies to a typed feedback string (wordle_main.py:32-41). */
module ResultFormat {
  import opened Words
  import opened Results

  /** is_result: a feedback string of the context's word length over 'b', 'g' and 'y'. */
  function IsResult(result: string, wordLength: nat): (b: bool)
    ensures b <==> |result| == wordLength && OverSymbols(result)
  {
    if |result| != wordLength then false
    else if !({'b', 'g', 'y'} >= Elements(result)) then
      assert exists i :: 0 <= i < |result| && !IsSymbol(result[i]) by {
        var c :| c in Elements(result) && c !in {'b', 'g', 'y'};
        var i :| 0 <= i < |result| && result[i] == c;
      }
      false
    else
      assert OverSymbols(result) by {
        forall i | 0 <= i < |result| ensures IsSymbol(result[i]) {
          assert result[i] in Elements(result);
        }
      }
      true
  }

  /** For the solver's word length, is_result accepts exactly the feedback strings. */
  lemma AcceptsFeedback(result: string)
    ensures IsResult(result, L) <==> IsFeedback(result)
  {
  }

  /** Every member of the results table is accepted. */
  lemma AcceptsTable(result: string)
    requires result in ResultsTable()
    ensures IsResult(result, L)
  {
    ResultsTableMembers();
  }

  /** Acceptance depends only on the length and on which characters occur. */
  lemma OnlyLengthAndLetters(r1: string, r2: string, wordLength: nat)
    requires |r1| == |r2| && Elements(r1) == Elements(r2)
    ensures IsResult(r1, wordLength) == IsResult(r2, wordLength)
  {
    if OverSymbols(r1) {
      forall i | 0 <= i < |r2| ensures IsSymbol(r2[i]) {
        assert r2[i] in Elements(r1);
      }
    }
    if OverSymbols(r2) {
      forall i | 0 <= i < |r1| ensures IsSymbol(r1[i]) {
        assert r1[i] in Elements(r2);
      }
    }
  }

  /** Any reordering of a result is accepted exactly when the result is. */
  lemma ReorderedResult(r1: string, r2: string, wordLength: nat)
    requires multiset(r1) == multiset(r2)
    ensures IsResult(r1, wordLength) == IsResult(r2, wordLength)
  {
    assert |r1| == |multiset(r1)| == |multiset(r2)| == |r2|;
    assert Elements(r1) == Elements(r2) by {
      forall c ensures c in Elements(r1) <==> c in Elements(r2) {
        assert c in r1 <==> c in multiset(r1);
        assert c in r2 <==> c in multiset(r2);
      }
    }
    OnlyLengthAndLetters(r1, r2, wordLength);
  }
}
