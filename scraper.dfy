/** The validator the scraper applies to the lists it fetches (wordle_scraper.py:94-119). */
module Scraper {
  import opened Words
  import Contexts

  /** The length the scraper demands of every word. */
  const ScrapedLength: nat := 5

  /** The ValueErrors check_solutions_word_lists raises, by reason. */
  datatype ListError =
    | NotFiveLetters
    | IllegalLetter
    | DuplicateSolutions
    | DuplicateWordList
    | MissingSolution

  /** A word of the scraper's length over the alphabet. */
  predicate Scrapable(w: string)
  {
    |w| == ScrapedLength && forall i :: 0 <= i < |w| ==> IsLetter(w[i])
  }

  /** The loop over every word, in order: the first word too short or too long, or with an
      illegal letter, decides the error (ScanFirstBad). */
  function ScanWords(ws: seq<string>): (r: Option<ListError>)
    ensures r.None? <==> forall k :: 0 <= k < |ws| ==> Scrapable(ws[k])
    ensures r.Some? ==> r.value == NotFiveLetters || r.value == IllegalLetter
  {
    if ws == [] then None
    else
      ScanTail(ws);
      if |ws[0]| != ScrapedLength then Some(NotFiveLetters)
      else if !InAlphabet(ws[0]) then Some(IllegalLetter)
      else ScanWords(ws[1..])
  }

  /** A list of words can all be taken iff its first one and the rest can. */
  lemma ScanTail(ws: seq<string>)
    requires ws != []
    ensures (forall k :: 0 <= k < |ws| ==> Scrapable(ws[k])) <==>
            Scrapable(ws[0]) && forall k :: 0 <= k < |ws[1..]| ==> Scrapable(ws[1..][k])
  {
    assert forall k :: 0 < k < |ws| ==> ws[k] == ws[1..][k - 1];
  }

  /** The error is that of the first word the scraper cannot take: NotFiveLetters for a
      word of the wrong length, IllegalLetter for one with a character outside the alphabet. */
  lemma {:induction false} ScanFirstBad(ws: seq<string>, k: nat)
    requires k < |ws| && !Scrapable(ws[k]) && forall j :: 0 <= j < k ==> Scrapable(ws[j])
    ensures ScanWords(ws) == if |ws[k]| != ScrapedLength then Some(NotFiveLetters) else Some(IllegalLetter)
  {
    if k > 0 {
      assert Scrapable(ws[0]);
      assert forall j :: 0 <= j < k - 1 ==> ws[1..][j] == ws[j + 1];
      ScanFirstBad(ws[1..], k - 1);
    }
  }

  /** check_solutions_word_lists: the ValueError raised, if any. The lists pass exactly
      when every word can be taken, neither list repeats a word and every solution is in
      the word list. */
  function CheckSolutionsWordLists(solutions: seq<string>, wordList: seq<string>): (r: Option<ListError>)
    ensures r.None? <==>
              AllScrapable(solutions, wordList) && Distinct(solutions) && Distinct(wordList) &&
              forall s :: s in solutions ==> s in wordList
  {
    ScanBoth(solutions, wordList);
    ElementsSize(solutions);
    ElementsSize(wordList);
    SolutionsWithin(solutions, wordList);
    var scan := ScanWords(solutions + wordList);
    if scan.Some? then scan
    else if |solutions| != |Elements(solutions)| then Some(DuplicateSolutions)
    else if |wordList| != |Elements(wordList)| then Some(DuplicateWordList)
    else if !(Elements(wordList) >= Elements(solutions)) then Some(MissingSolution)
    else None
  }

  /** `set(word_list) >= set(solutions)` says that every solution is in the word list. */
  lemma SolutionsWithin(solutions: seq<string>, wordList: seq<string>)
    ensures Elements(wordList) >= Elements(solutions) <==> forall s :: s in solutions ==> s in wordList
  {
    if forall s :: s in solutions ==> s in wordList {
      forall s | s in Elements(solutions) ensures s in Elements(wordList) {
      }
    } else {
      var s :| s in solutions && s !in wordList;
      assert s in Elements(solutions);
    }
  }

  /** Every word of the two lists has the scraper's length and only letters. */
  predicate AllScrapable(solutions: seq<string>, wordList: seq<string>)
  {
    forall w :: w in solutions + wordList ==> Scrapable(w)
  }

  /** The scan passes exactly when every word of both lists can be taken. */
  lemma ScanBoth(solutions: seq<string>, wordList: seq<string>)
    ensures ScanWords(solutions + wordList).None? <==> AllScrapable(solutions, wordList)
  {
    var all := solutions + wordList;
    if !AllScrapable(solutions, wordList) {
      var w :| w in all && !Scrapable(w);
      var k :| 0 <= k < |all| && all[k] == w;
    }
  }

  /** A word the scraper cannot take is reported first, then repeated solutions, then a
      repeated word list. */
  lemma CheckBadOrRepeated(solutions: seq<string>, wordList: seq<string>)
    ensures var r := CheckSolutionsWordLists(solutions, wordList);
            (r in {Some(NotFiveLetters), Some(IllegalLetter)} <==> !AllScrapable(solutions, wordList)) &&
            (r == Some(DuplicateSolutions) <==> AllScrapable(solutions, wordList) && !Distinct(solutions)) &&
            (r == Some(DuplicateWordList) <==>
               AllScrapable(solutions, wordList) && Distinct(solutions) && !Distinct(wordList))
  {
    ScanBoth(solutions, wordList);
    ElementsSize(solutions);
    ElementsSize(wordList);
  }

  /** With no bad word and no repeats, a solution missing from the word list is reported. */
  lemma CheckMissingSolution(solutions: seq<string>, wordList: seq<string>)
    ensures CheckSolutionsWordLists(solutions, wordList) == Some(MissingSolution) <==>
              AllScrapable(solutions, wordList) && Distinct(solutions) && Distinct(wordList) &&
              exists s :: s in solutions && s !in wordList
  {
    ScanBoth(solutions, wordList);
    ElementsSize(solutions);
    ElementsSize(wordList);
    SolutionsWithin(solutions, wordList);
  }

  /** Lists the scraper accepts pass the context's check too. */
  lemma ScrapedListsAccepted(solutions: seq<string>, wordList: seq<string>)
    requires CheckSolutionsWordLists(solutions, wordList).None?
    ensures Contexts.CheckWordListSolutions(wordList, solutions).None?
  {
    Contexts.CheckAccepts(wordList, solutions);
    assert AllInAlphabet(solutions) && AllInAlphabet(wordList) by {
      forall w | w in solutions + wordList ensures Scrapable(w) {
      }
      forall w, i | w in solutions && 0 <= i < |w| ensures IsLetter(w[i]) {
        assert w in solutions + wordList;
      }
      forall w, i | w in wordList && 0 <= i < |w| ensures IsLetter(w[i]) {
        assert w in solutions + wordList;
      }
    }
  }
}
