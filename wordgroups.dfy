/** The word set with its indices and one-step undo state (wordle_solver.py:7-104), and the
    two elimination passes and the ranker that work on it in place (wordle_solver.py:139-330).
    The source's WordGroup, GuessGroup and SolutionGroup form a chain of subclasses, each only
    adding methods; they are one class here. */
module WordGroups {
  import opened Words
  import opened Results
  import opened Rules
  import opened Parts

  // ---------------------------------------------------------------------------
  // What the three indices hold

  /** The words of ws with letter c at position i: `_word_breakdown[i][c]`. */
  function AtPosition(ws: set<Word>, i: nat, c: char): set<Word>
  {
    set w | w in ws && i < |w| && w[i] == c
  }

  /** The words of ws that contain c: `_word_contains[c]`. */
  function Containing(ws: set<Word>, c: char): set<Word>
  {
    set w | w in ws && c in w
  }

  /** The words of ws with exactly n copies of c: `_letter_count[c][n]`. */
  function WithCount(ws: set<Word>, c: char, n: int): set<Word>
  {
    set w | w in ws && Count(w, c) == n
  }

  /** The counts `_letter_count` keeps a bucket for. */
  const Counts: set<int> := set n | 1 <= n <= L

  /** The keys of the position index: a position and a letter. */
  const PositionKeys: set<(int, char)> := set i, c | 0 <= i < L && c in LetterSet :: (i, c)

  /** The keys of the letter-count index: a letter and a count. */
  const CountKeys: set<(char, int)> := set c, n | c in LetterSet && n in Counts :: (c, n)

  /** bd is the position index of ws. */
  ghost predicate BreakdownOf(ws: set<Word>, bd: map<(int, char), set<Word>>)
  {
    bd.Keys == PositionKeys &&
    forall i, c :: 0 <= i < L && c in LetterSet ==> bd[(i, c)] == AtPosition(ws, i, c)
  }

  /** ct is the containment index of ws. */
  ghost predicate ContainsOf(ws: set<Word>, ct: map<char, set<Word>>)
  {
    ct.Keys == LetterSet && forall c :: c in LetterSet ==> ct[c] == Containing(ws, c)
  }

  /** lc is the letter-count index of ws. */
  ghost predicate LetterCountOf(ws: set<Word>, lc: map<(char, int), set<Word>>)
  {
    lc.Keys == CountKeys &&
    forall c, n :: c in LetterSet && 1 <= n <= L ==> lc[(c, n)] == WithCount(ws, c, n)
  }

  /** The indices are exact: a word is in the bucket of position i and letter c iff its
      letter at i is c, in the bucket of c iff it contains c, and in the bucket of c and n
      iff c occurs exactly n times in it, for every letter c, position i < L and count
      1 <= n <= L. */
  lemma IndicesExact(ws: set<Word>, bd: map<(int, char), set<Word>>, ct: map<char, set<Word>>,
                     lc: map<(char, int), set<Word>>, w: Word, i: int, c: char, n: int)
    requires BreakdownOf(ws, bd) && ContainsOf(ws, ct) && LetterCountOf(ws, lc)
    requires c in LetterSet && 0 <= i < L && 1 <= n <= L
    ensures (i, c) in bd && c in ct && (c, n) in lc
    ensures w in bd[(i, c)] <==> w in ws && i < |w| && w[i] == c
    ensures w in ct[c] <==> w in ws && c in w
    ensures w in lc[(c, n)] <==> w in ws && Count(w, c) == n
  {
    assert (i, c) in PositionKeys;
    assert (c, n) in CountKeys by {
      assert n in Counts;
    }
  }

  /** Maps with the same keys and the same value at each key are equal. */
  lemma MapsEqual<K, V>(a: map<K, V>, b: map<K, V>)
    requires a.Keys == b.Keys && forall k :: k in a ==> a[k] == b[k]
    ensures a == b
  {
  }

  /** `index[key].add(w)`, for either pair-keyed index. */
  function AddToBucket<K>(index: map<K, set<Word>>, key: K, w: Word): map<K, set<Word>>
    requires key in index
  {
    index[key := index[key] + {w}]
  }

  // ---------------------------------------------------------------------------
  // The position index, one word at a time

  /** The bucket for position i and letter c once w has been added at the positions
      before index. */
  ghost function AtPositionPart(done: set<Word>, w: Word, index: nat, i: int, c: char): set<Word>
  {
    (if 0 <= i then AtPosition(done, i, c) else {}) +
    (if 0 <= i < index && i < |w| && w[i] == c then {w} else {})
  }

  /** The position index of done with w added at the positions before index. */
  ghost function BreakdownPart(done: set<Word>, w: Word, index: nat): map<(int, char), set<Word>>
  {
    map p | p in PositionKeys :: AtPositionPart(done, w, index, p.0, p.1)
  }

  lemma BreakdownPartStart(bd: map<(int, char), set<Word>>, done: set<Word>, w: Word)
    requires BreakdownOf(done, bd)
    ensures bd == BreakdownPart(done, w, 0)
  {
    var m := BreakdownPart(done, w, 0);
    forall p | p in bd ensures bd[p] == m[p] {
    }
    MapsEqual(bd, m);
  }

  lemma AtPositionPartStep(done: set<Word>, w: Word, index: nat, i: int, c: char)
    requires index < |w|
    ensures AtPositionPart(done, w, index + 1, i, c)
            == AtPositionPart(done, w, index, i, c) + (if i == index && c == w[index] then {w} else {})
  {
  }

  lemma BreakdownPartStep(done: set<Word>, w: Word, index: nat)
    requires IsWord(w) && index < L
    ensures (index, w[index]) in BreakdownPart(done, w, index)
    ensures AddToBucket(BreakdownPart(done, w, index), (index, w[index]), w)
            == BreakdownPart(done, w, index + 1)
  {
    var m := BreakdownPart(done, w, index);
    var m' := BreakdownPart(done, w, index + 1);
    assert (index, w[index]) in PositionKeys;
    var a := AddToBucket(m, (index, w[index]), w);
    forall p | p in a ensures a[p] == m'[p] {
      AtPositionPartStep(done, w, index, p.0, p.1);
    }
    MapsEqual(a, m');
  }

  lemma BreakdownPartEnd(done: set<Word>, w: Word)
    requires IsWord(w)
    ensures BreakdownOf(done + {w}, BreakdownPart(done, w, L))
  {
  }

  // ---------------------------------------------------------------------------
  // The letter-count index, one word at a time

  /** The bucket for c and n once w has been added under the letters of added. */
  ghost function WithCountPart(done: set<Word>, w: Word, added: set<char>, c: char, n: int): set<Word>
  {
    WithCount(done, c, n) + (if c in added && Count(w, c) == n then {w} else {})
  }

  /** The letter-count index of done with w added under the letters of added. */
  ghost function LetterCountPart(done: set<Word>, w: Word, added: set<char>): map<(char, int), set<Word>>
  {
    map p | p in CountKeys :: WithCountPart(done, w, added, p.0, p.1)
  }

  lemma LetterCountPartStart(lc: map<(char, int), set<Word>>, done: set<Word>, w: Word)
    requires LetterCountOf(done, lc)
    ensures lc == LetterCountPart(done, w, {})
  {
    var m := LetterCountPart(done, w, {});
    forall p | p in lc ensures lc[p] == m[p] {
    }
    MapsEqual(lc, m);
  }

  lemma LetterCountPartStep(done: set<Word>, w: Word, added: set<char>, letter: char)
    requires letter in LetterSet && letter !in added && 1 <= Count(w, letter) <= L
    ensures (letter, Count(w, letter)) in LetterCountPart(done, w, added)
    ensures AddToBucket(LetterCountPart(done, w, added), (letter, Count(w, letter)), w)
            == LetterCountPart(done, w, added + {letter})
  {
    assert Count(w, letter) in Counts;
    var m := LetterCountPart(done, w, added);
    var m' := LetterCountPart(done, w, added + {letter});
    var a := AddToBucket(m, (letter, Count(w, letter)), w);
    forall p | p in a ensures a[p] == m'[p] {
    }
    MapsEqual(a, m');
  }

  lemma LetterCountPartEnd(done: set<Word>, w: Word)
    ensures LetterCountOf(done + {w}, LetterCountPart(done, w, Elements(w)))
  {
    var m := LetterCountPart(done, w, Elements(w));
    forall c, n | c in LetterSet && 1 <= n <= L ensures m[(c, n)] == WithCount(done + {w}, c, n) {
      assert n in Counts;
      if c !in w {
        CountBounds(w, c);
      }
    }
  }

  lemma LetterOfWord(w: Word, c: char)
    requires IsWord(w) && c in Elements(w)
    ensures c in LetterSet && 1 <= Count(w, c) <= L
  {
    CountBounds(w, c);
  }

  // ---------------------------------------------------------------------------
  // The containment index, one letter at a time

  /** The words of ws with c somewhere among their first n positions. */
  function ContainingBefore(ws: set<Word>, c: char, n: nat): set<Word>
  {
    set w | w in ws && exists k :: 0 <= k < n && k < |w| && w[k] == c
  }

  lemma ContainingBeforeStep(ws: set<Word>, c: char, n: nat)
    ensures ContainingBefore(ws, c, n + 1) == ContainingBefore(ws, c, n) + AtPosition(ws, n, c)
  {
  }

  lemma ContainingBeforeAll(ws: set<Word>, c: char)
    requires AllWords(ws)
    ensures ContainingBefore(ws, c, L) == Containing(ws, c)
  {
  }

  // ---------------------------------------------------------------------------
  // calculate_stats, one index at a time

  /** Builds the position index by adding every word at each of its positions. */
  method BuildBreakdown(ws: set<Word>) returns (bd: map<(int, char), set<Word>>)
    requires AllWords(ws)
    ensures BreakdownOf(ws, bd)
  {
    bd := map p | p in PositionKeys :: {};
    var rest := ws;
    while rest != {}
      invariant rest <= ws
      invariant BreakdownOf(ws - rest, bd)
      decreases |rest|
    {
      var w :| w in rest;
      ghost var done := ws - rest;
      BreakdownPartStart(bd, done, w);
      bd := AddPositions(bd, done, w);
      BreakdownPartEnd(done, w);
      rest := rest - {w};
      assert ws - rest == done + {w};
    }
  }

  /** Adds w to the position index at each of its positions. */
  method AddPositions(bd0: map<(int, char), set<Word>>, ghost done: set<Word>, w: Word)
    returns (bd: map<(int, char), set<Word>>)
    requires IsWord(w) && bd0 == BreakdownPart(done, w, 0)
    ensures bd == BreakdownPart(done, w, L)
  {
    bd := bd0;
    var index := 0;
    while index < L
      invariant 0 <= index <= L
      invariant bd == BreakdownPart(done, w, index)
    {
      BreakdownPartStep(done, w, index);
      bd := AddToBucket(bd, (index, w[index]), w);
      index := index + 1;
    }
  }

  /** Builds the containment index as the union, over positions, of the position index. */
  method BuildContains(ws: set<Word>, bd: map<(int, char), set<Word>>) returns (ct: map<char, set<Word>>)
    requires AllWords(ws) && BreakdownOf(ws, bd)
    ensures ContainsOf(ws, ct)
  {
    ct := map c | c in LetterSet :: {};
    var todo := LetterSet;
    while todo != {}
      invariant todo <= LetterSet && ct.Keys == LetterSet
      invariant forall c :: c in LetterSet - todo ==> ct[c] == Containing(ws, c)
      invariant forall c :: c in todo ==> ct[c] == {}
      decreases |todo|
    {
      var letter :| letter in todo;
      var index := 0;
      while index < L
        invariant 0 <= index <= L && ct.Keys == LetterSet
        invariant ct[letter] == ContainingBefore(ws, letter, index)
        invariant forall c :: c in LetterSet - todo ==> ct[c] == Containing(ws, c)
        invariant forall c :: c in todo && c != letter ==> ct[c] == {}
      {
        ContainingBeforeStep(ws, letter, index);
        ct := ct[letter := ct[letter] + bd[(index, letter)]];
        index := index + 1;
      }
      ContainingBeforeAll(ws, letter);
      todo := todo - {letter};
    }
  }

  /** Builds the letter-count index by adding every word under each letter it contains. */
  method BuildLetterCount(ws: set<Word>) returns (lc: map<(char, int), set<Word>>)
    requires AllWords(ws)
    ensures LetterCountOf(ws, lc)
  {
    lc := map p | p in CountKeys :: {};
    var rest := ws;
    while rest != {}
      invariant rest <= ws
      invariant LetterCountOf(ws - rest, lc)
      decreases |rest|
    {
      var w :| w in rest;
      ghost var done := ws - rest;
      LetterCountPartStart(lc, done, w);
      lc := AddLetterCounts(lc, done, w);
      LetterCountPartEnd(done, w);
      rest := rest - {w};
      assert ws - rest == done + {w};
    }
  }

  /** Adds w to the letter-count index under each letter it contains, with its count. */
  method AddLetterCounts(lc0: map<(char, int), set<Word>>, ghost done: set<Word>, w: Word)
    returns (lc: map<(char, int), set<Word>>)
    requires IsWord(w) && lc0 == LetterCountPart(done, w, {})
    ensures lc == LetterCountPart(done, w, Elements(w))
  {
    lc := lc0;
    var todo := Elements(w);
    ghost var added: set<char> := {};
    while todo != {}
      invariant todo + added == Elements(w) && todo !! added
      invariant lc == LetterCountPart(done, w, added)
      decreases |todo|
    {
      var letter :| letter in todo;
      lc := AddLetterCount(lc, done, w, added, letter);
      todo := todo - {letter};
      added := added + {letter};
    }
    assert added == Elements(w);
  }

  /** Adds w to the bucket for one of its letters and that letter's count in w. */
  method AddLetterCount(lc0: map<(char, int), set<Word>>, ghost done: set<Word>, w: Word,
                        ghost added: set<char>, letter: char)
    returns (lc: map<(char, int), set<Word>>)
    requires IsWord(w) && letter in Elements(w) && letter !in added
    requires lc0 == LetterCountPart(done, w, added)
    ensures lc == LetterCountPart(done, w, added + {letter})
  {
    var count := Count(w, letter);
    LetterOfWord(w, letter);
    LetterCountPartStep(done, w, added, letter);
    lc := AddToBucket(lc0, (letter, count), w);
  }

  // ---------------------------------------------------------------------------
  // The two passes of filter_solutions, as sets

  /** The words of ws that pass the positional rules of filter_solutions(g, r) at the first
      n positions. */
  ghost function PositionsKept(ws: set<Word>, g: Word, r: string, n: nat): set<Word>
    requires n <= L && |g| == L && |r| == L
  {
    set w | w in ws && |w| == L && PositionsKeep(g, r, w, n)
  }

  lemma PositionsKeptNone(ws: set<Word>, g: Word, r: string)
    requires AllWords(ws) && |g| == L && |r| == L
    ensures PositionsKept(ws, g, r, 0) == ws
  {
  }

  lemma PositionsKeptStep(ws: set<Word>, g: Word, r: string, n: nat)
    requires n < L && |g| == L && |r| == L
    ensures PositionsKept(ws, g, r, n + 1)
            == set w | w in PositionsKept(ws, g, r, n) && PositionKeeps(g, r, w, n)
  {
  }

  /** The words of ws that pass the repeated-letter rules of filter_solutions(g, r) for the
      letters of cs. */
  ghost function LettersKept(ws: set<Word>, g: Word, r: string, cs: set<char>): set<Word>
    requires |g| == L && |r| == L
  {
    set w | w in ws && LettersKeep(g, r, w, cs)
  }

  lemma LettersKeptNone(ws: set<Word>, g: Word, r: string)
    requires |g| == L && |r| == L
    ensures LettersKept(ws, g, r, {}) == ws
  {
  }

  lemma LettersKeptStep(ws: set<Word>, g: Word, r: string, cs: set<char>, c: char)
    requires |g| == L && |r| == L
    ensures LettersKept(ws, g, r, cs + {c})
            == set w | w in LettersKept(ws, g, r, cs) && (Count(g, c) > 1 ==> LetterKeeps(g, r, w, c))
  {
  }

  /** The two passes together keep what SolutionKept describes. */
  lemma SolutionsKept(ws: set<Word>, g: Word, r: string)
    requires AllWords(ws) && |g| == L && |r| == L
    ensures LettersKept(PositionsKept(ws, g, r, L), g, r, Elements(g))
            == set w | w in ws && SolutionKept(g, r, w)
  {
  }

  /** Letters of the alphabet that occur in no word of ws. */
  function Absent(ws: set<Word>): set<char>
  {
    set c | c in LetterSet && forall w :: w in ws ==> c !in w
  }

  /** Letters occurring in some word of ws. */
  function Used(ws: set<Word>): set<char>
  {
    set w, c | w in ws && c in w :: c
  }

  /** Taking one more word out of rest adds its letters to those used by the words taken. */
  lemma UsedStep(ws: set<Word>, rest: set<Word>, w: Word)
    requires w in rest && rest <= ws
    ensures Used(ws - (rest - {w})) == Used(ws - rest) + Elements(w)
  {
    assert ws - (rest - {w}) == (ws - rest) + {w};
  }

  /** The words use only letters of the alphabet, and the absent letters are the others. */
  lemma AbsentUsed(ws: set<Word>)
    requires AllWords(ws)
    ensures Used(ws) <= LetterSet && Absent(ws) == LetterSet - Used(ws)
  {
  }

  /** Once the words taken from ws use as many letters as the alphabet has, they use
      all of it, and so does ws. */
  lemma AllLettersUsed(ws: set<Word>, rest: set<Word>)
    requires AllWords(ws) && rest <= ws && |Used(ws - rest)| == |Letters|
    ensures Used(ws - rest) == Used(ws) == LetterSet
  {
    AbsentUsed(ws);
    assert Used(ws - rest) <= Used(ws);
    LetterSetSize();
    SubsetOfSameSize(Used(ws - rest), LetterSet);
  }

  // ---------------------------------------------------------------------------
  // filter_guesses, as sets

  /** w has a letter of cs at some position. */
  predicate Touches(w: string, cs: set<char>)
  {
    exists i :: 0 <= i < |w| && w[i] in cs
  }

  /** The words of ws with exactly n excluded positions: `suspect_breakdown[n]`. */
  ghost function Suspects(ws: set<Word>, ex: set<char>, n: int): set<Word>
  {
    set w | w in ws && |w| == L && ExcludedCount(w, ex) == n
  }

  /** The suspect buckets once the words containing a letter of seen, and the words of
      extra, have been sorted into them. */
  ghost function SuspectsPart(ws: set<Word>, ex: set<char>, seen: set<char>, extra: set<Word>): map<int, set<Word>>
  {
    map n | n in Counts ::
      set w | w in ws && |w| == L && ExcludedCount(w, ex) == n && (Touches(w, seen) || w in extra)
  }

  lemma SuspectsPartStart(ws: set<Word>, ex: set<char>)
    ensures (map n | n in Counts :: {}) == SuspectsPart(ws, ex, {}, {})
  {
    var a: map<int, set<Word>> := map n | n in Counts :: {};
    var b := SuspectsPart(ws, ex, {}, {});
    forall n | n in a ensures a[n] == b[n] {
    }
    MapsEqual(a, b);
  }

  /** A word with an excluded letter has at least one excluded position. */
  lemma ExcludedSome(w: Word, ex: set<char>, c: char)
    requires |w| == L && c in ex && c in w
    ensures 1 <= ExcludedCount(w, ex) <= L
  {
    ExcludedToBounds(w, ex, L);
  }

  lemma SuspectsPartStep(ws: set<Word>, ex: set<char>, seen: set<char>, extra: set<Word>, v: Word)
    requires v in ws && |v| == L && 1 <= ExcludedCount(v, ex)
    ensures ExcludedCount(v, ex) in SuspectsPart(ws, ex, seen, extra)
    ensures AddToBucket(SuspectsPart(ws, ex, seen, extra), ExcludedCount(v, ex), v)
            == SuspectsPart(ws, ex, seen, extra + {v})
  {
    ExcludedToBounds(v, ex, L);
    assert ExcludedCount(v, ex) in Counts;
    var a := AddToBucket(SuspectsPart(ws, ex, seen, extra), ExcludedCount(v, ex), v);
    var b := SuspectsPart(ws, ex, seen, extra + {v});
    forall n | n in a ensures a[n] == b[n] {
    }
    MapsEqual(a, b);
  }

  lemma SuspectsPartLetter(ws: set<Word>, ex: set<char>, seen: set<char>, c: char)
    ensures SuspectsPart(ws, ex, seen, Containing(ws, c)) == SuspectsPart(ws, ex, seen + {c}, {})
  {
    var a := SuspectsPart(ws, ex, seen, Containing(ws, c));
    var b := SuspectsPart(ws, ex, seen + {c}, {});
    forall n | n in a ensures a[n] == b[n] {
      forall w | w in ws ensures (Touches(w, seen) || w in Containing(ws, c)) <==> Touches(w, seen + {c}) {
        if c in w {
          var i :| 0 <= i < |w| && w[i] == c;
          assert w[i] in seen + {c};
        }
      }
    }
    MapsEqual(a, b);
  }

  lemma SuspectsPartEnd(ws: set<Word>, ex: set<char>)
    ensures forall n :: n in Counts ==> SuspectsPart(ws, ex, ex, {})[n] == Suspects(ws, ex, n)
  {
    forall n, w | n in Counts && w in ws && |w| == L && ExcludedCount(w, ex) == n
      ensures Touches(w, ex)
    {
      ExcludedToBounds(w, ex, L);
    }
  }

  /** The words of ws that agree with w at every non-excluded position before n. */
  ghost function AgreeingTo(ws: set<Word>, w: Word, ex: set<char>, n: nat): set<Word>
    requires |w| == L && n <= L
  {
    set v | v in ws && |v| == L && forall i :: 0 <= i < n && w[i] !in ex ==> v[i] == w[i]
  }

  /** One more position: an excluded letter of w asks nothing, any other letter asks for
      w's letter there. */
  lemma AgreeingToStep(ws: set<Word>, w: Word, ex: set<char>, n: nat)
    requires |w| == L && n < L
    ensures AgreeingTo(ws, w, ex, n + 1)
            == if w[n] in ex then AgreeingTo(ws, w, ex, n)
               else AgreeingTo(ws, w, ex, n) * AtPosition(ws, n, w[n])
  {
  }

  /** While every letter so far is excluded, every word agrees. */
  lemma AgreeingToNone(ws: set<Word>, w: Word, ex: set<char>, n: nat)
    requires AllWords(ws) && |w| == L && n <= L
    requires forall i :: 0 <= i < n ==> w[i] in ex
    ensures AgreeingTo(ws, w, ex, n) == ws
  {
  }

  /** The words that would show w dominated. */
  ghost function Dominating(ws: set<Word>, w: Word, ex: set<char>): set<Word>
    requires |w| == L
  {
    set v | v in ws && |v| == L && ExcludedCount(v, ex) < ExcludedCount(w, ex) && AgreesOutside(v, w, ex)
  }

  /** What is left of the agreeing words once every count from w's own upwards has been
      taken out. */
  lemma DominatingLeft(ws: set<Word>, w: Word, ex: set<char>)
    requires AllWords(ws) && |w| == L
    ensures Dominating(ws, w, ex)
            == set v | v in AgreeingTo(ws, w, ex, L) && !(ExcludedCount(w, ex) <= ExcludedCount(v, ex) < L + 1)
  {
    forall v | v in ws ensures ExcludedCount(v, ex) <= L {
      ExcludedToBounds(v, ex, L);
    }
  }

  lemma DominatingIff(ws: set<Word>, w: Word, ex: set<char>)
    requires AllWords(ws) && |w| == L
    ensures Dominating(ws, w, ex) != {} <==> Dominated(w, ex, ws)
  {
    if Dominated(w, ex, ws) {
      var v :| v in ws && |v| >= L && ExcludedCount(v, ex) < ExcludedCount(w, ex) && AgreesOutside(v, w, ex);
      assert v in Dominating(ws, w, ex);
    }
  }

  /** The words kept while filter_guesses works down from the largest excluded count: a
      word goes when it is all excluded, or when it is dominated and its count is above
      count, or equal to count and already examined (in done). */
  ghost function GuessesKept(ws: set<Word>, ex: set<char>, count: int, done: set<Word>): set<Word>
  {
    set w | w in ws && |w| == L && ExcludedCount(w, ex) < L &&
      !((ExcludedCount(w, ex) > count || w in done) && Dominated(w, ex, ws))
  }

  lemma GuessesKeptStart(ws: set<Word>, ex: set<char>)
    requires AllWords(ws)
    ensures ws - Suspects(ws, ex, L) == GuessesKept(ws, ex, L - 1, {})
  {
    forall w | w in ws ensures ExcludedCount(w, ex) <= L {
      ExcludedToBounds(w, ex, L);
    }
  }

  lemma GuessesKeptRemove(ws: set<Word>, ex: set<char>, count: int, done: set<Word>, w: Word)
    requires w in Suspects(ws, ex, count) && Dominated(w, ex, ws)
    ensures GuessesKept(ws, ex, count, done) - {w} == GuessesKept(ws, ex, count, done + {w})
  {
  }

  lemma GuessesKeptSkip(ws: set<Word>, ex: set<char>, count: int, done: set<Word>, w: Word)
    requires |w| == L && !Dominated(w, ex, ws)
    ensures GuessesKept(ws, ex, count, done) == GuessesKept(ws, ex, count, done + {w})
  {
  }

  lemma GuessesKeptNext(ws: set<Word>, ex: set<char>, count: int)
    ensures GuessesKept(ws, ex, count, Suspects(ws, ex, count)) == GuessesKept(ws, ex, count - 1, {})
  {
  }

  lemma GuessesKeptEnd(ws: set<Word>, ex: set<char>)
    requires AllWords(ws)
    ensures GuessesKept(ws, ex, 0, {}) == set w | w in ws && GuessKept(w, ex, ws)
  {
  }

  /** The number of excluded positions of a word, counted position by position. */
  method CountExcluded(word: Word, ex: set<char>) returns (count: nat)
    requires |word| == L
    ensures count == ExcludedCount(word, ex)
  {
    count := 0;
    for index := 0 to L
      invariant count == ExcludedTo(word, ex, index)
    {
      if word[index] in ex {
        count := count + 1;
      }
    }
  }

  // ---------------------------------------------------------------------------
  // guess_rank, as sets

  /** Filtering what is left of ws for a possible result keeps exactly that result's part. */
  lemma FilteredPart(ws: set<Word>, g: Word, r: string, processed: set<Word>)
    requires AllWords(ws) && |g| == L && IsFeedback(r) && ResultPossible(g, r)
    requires processed !! Part(ws, g, r)
    ensures (set w | w in ws - processed && SolutionKept(g, r, w)) == Part(ws, g, r)
  {
    forall w | w in ws ensures SolutionKept(g, r, w) <==> Feedback(g, w) == r {
      SolutionKeptIffFeedback(g, r, w);
    }
  }

  // ---------------------------------------------------------------------------
  // The word group

  class WordGroup {
    /** The current set of words (`_word_list`). */
    var wordList: set<Word>
    /** The undo snapshot (`_prev_word_list`). */
    var prevWordList: set<Word>
    /** Whether wordList has been filtered since the snapshot. */
    var changed: bool
    var wordBreakdown: map<(int, char), set<Word>>
    var wordContains: map<char, set<Word>>
    var letterCount: map<(char, int), set<Word>>

    /** The three indices describe the snapshot, a set of words. */
    ghost predicate Snapshot()
      reads this`prevWordList, this`wordBreakdown, this`wordContains, this`letterCount
    {
      AllWords(prevWordList) &&
      BreakdownOf(prevWordList, wordBreakdown) &&
      ContainsOf(prevWordList, wordContains) &&
      LetterCountOf(prevWordList, letterCount)
    }

    /** The indices describe the snapshot, which holds every current word. */
    ghost predicate Indexed()
      reads this
    {
      Snapshot() && wordList <= prevWordList
    }

    /** Indexed, and an unchanged group is its own snapshot. */
    ghost predicate Valid()
      reads this
    {
      Indexed() && (!changed ==> wordList == prevWordList)
    }

    constructor (words: seq<Word>)
      requires forall i :: 0 <= i < |words| ==> IsWord(words[i])
      ensures Valid() && !changed
      ensures wordList == Elements(words) && prevWordList == Elements(words)
    {
      prevWordList := Elements(words);
      wordList := Elements(words);
      changed := false;
      new;
      CalculateStats();
    }

    /** Rebuilds the three indices from the current set. */
    method CalculateStats()
      requires AllWords(wordList)
      modifies this
      ensures wordList == old(wordList) && prevWordList == old(prevWordList) && changed == old(changed)
      ensures BreakdownOf(wordList, wordBreakdown)
      ensures ContainsOf(wordList, wordContains)
      ensures LetterCountOf(wordList, letterCount)
    {
      wordBreakdown := BuildBreakdown(wordList);
      wordContains := BuildContains(wordList, wordBreakdown);
      letterCount := BuildLetterCount(wordList);
    }

    /** The letters no current word contains, found by collecting the letters of the words
        until all of the alphabet has been seen. */
    method ExcludedLetters() returns (ex: set<char>)
      requires Indexed()
      ensures ex == Absent(wordList)
    {
      var included: set<char> := {};
      var rest := wordList;
      while rest != {}
        invariant rest <= wordList
        invariant included == Used(wordList - rest)
        decreases |rest|
      {
        var word :| word in rest;
        UsedStep(wordList, rest, word);
        included := included + Elements(word);
        rest := rest - {word};
        if |included| == |Letters| {
          AllLettersUsed(wordList, rest);
          break;
        }
      }
      AbsentUsed(wordList);
      ex := (included - LetterSet) + (LetterSet - included);
    }

    /** Rolls the set back to the snapshot if it has been filtered. */
    method Reset()
      modifies this
      ensures !changed
      ensures wordList == if old(changed) then old(prevWordList) else old(wordList)
      ensures prevWordList == old(prevWordList) && wordBreakdown == old(wordBreakdown)
      ensures wordContains == old(wordContains) && letterCount == old(letterCount)
      ensures old(Valid()) ==> Valid()
      ensures old(Indexed()) && old(changed) ==> Valid()
    {
      if changed {
        wordList := prevWordList;
        changed := false;
      }
    }

    // -------------------------------------------------------------------------
    // filter_solutions

    /** Keeps the words of the set that could be the solution when guess got result: first
        the rules for each position, then the rules for each letter the guess repeats. A
        filtered group first becomes its own snapshot, so that reset undoes only this
        filter. */
    method FilterSolutions(guess: Word, result: string)
      requires Indexed() && IsWord(guess) && IsFeedback(result)
      modifies this
      ensures Indexed() && changed
      ensures prevWordList == if old(changed) then old(wordList) else old(prevWordList)
      ensures wordList == set w | w in old(wordList) && SolutionKept(guess, result, w)
    {
      if changed {
        prevWordList := wordList;
        CalculateStats();
      } else {
        changed := true;
      }
      ghost var start := wordList;
      FilterPositions(guess, result);
      FilterLetters(guess, result);
      SolutionsKept(start, guess, result);
    }

    /** The positional pass of filter_solutions. */
    method FilterPositions(guess: Word, result: string)
      requires Indexed() && IsWord(guess) && IsFeedback(result)
      modifies this`wordList
      ensures Indexed()
      ensures wordList == PositionsKept(old(wordList), guess, result, L)
    {
      ghost var start := wordList;
      PositionsKeptNone(start, guess, result);
      for index := 0 to L
        invariant Indexed()
        invariant wordList == PositionsKept(start, guess, result, index)
      {
        FilterPosition(guess, result, index);
        PositionsKeptStep(start, guess, result, index);
      }
    }

    /** The repeated-letter pass of filter_solutions: one step per distinct letter of the
        guess. */
    method FilterLetters(guess: Word, result: string)
      requires Indexed() && IsWord(guess) && IsFeedback(result)
      modifies this`wordList
      ensures Indexed()
      ensures wordList == LettersKept(old(wordList), guess, result, Elements(guess))
    {
      ghost var start := wordList;
      LettersKeptNone(start, guess, result);
      var todo := Elements(guess);
      ghost var done: set<char> := {};
      while todo != {}
        invariant Indexed()
        invariant todo + done == Elements(guess) && todo !! done
        invariant wordList == LettersKept(start, guess, result, done)
        decreases |todo|
      {
        var letter :| letter in todo;
        FilterLetter(guess, result, letter);
        LettersKeptStep(start, guess, result, done, letter);
        todo := todo - {letter};
        done := done + {letter};
      }
      assert done == Elements(guess);
    }

    /** Keeps the words that fit with guess's letter at position index having got
        result[index]. */
    method FilterPosition(guess: Word, result: string, index: nat)
      requires Indexed() && IsWord(guess) && IsFeedback(result) && index < L
      modifies this`wordList
      ensures Indexed()
      ensures wordList == set w | w in old(wordList) && PositionKeeps(guess, result, w, index)
    {
      var letter := guess[index];
      assert (index, letter) in PositionKeys;
      if result[index] == 'g' {
        wordList := wordList * wordBreakdown[(index, letter)];
      } else {
        wordList := wordList - wordBreakdown[(index, letter)];
        if result[index] == 'y' {
          wordList := wordList * wordContains[letter];
        } else if !(letter in guess[..index] || letter in guess[index + 1..]) {
          wordList := wordList - wordContains[letter];
        }
      }
    }

    /** Keeps the words that fit with what result says about the copies of a letter the
        guess repeats. */
    method FilterLetter(guess: Word, result: string, letter: char)
      requires Indexed() && IsWord(guess) && IsFeedback(result) && letter in Elements(guess)
      modifies this`wordList
      ensures Indexed()
      ensures wordList == set w | w in old(wordList) && (Count(guess, letter) > 1 ==> LetterKeeps(guess, result, w, letter))
    {
      if Count(guess, letter) > 1 {
        var absent, present, correct := 0, 0, 0;
        for index := 0 to L
          invariant absent == Tally(guess, result, letter, 'b', index)
          invariant present == Tally(guess, result, letter, 'y', index)
          invariant correct == Tally(guess, result, letter, 'g', index)
        {
          if guess[index] == letter {
            if result[index] == 'g' {
              correct := correct + 1;
            } else if result[index] == 'y' {
              present := present + 1;
            } else {
              absent := absent + 1;
            }
          }
        }
        TallyPairBound(guess, result, letter, L);
        assert letter in LetterSet;
        if absent > 0 && (present > 0 || correct > 0) {
          assert (letter, present + correct) in CountKeys;
          wordList := wordList * letterCount[(letter, present + correct)];
        } else if absent > 0 {
          wordList := wordList - wordContains[letter];
        } else {
          ghost var start := wordList;
          var count := 1;
          while count < present + correct
            invariant 1 <= count <= L && (count <= present + correct || count == 1)
            invariant wordList == set w | w in start && !(1 <= Count(w, letter) < count)
          {
            assert (letter, count) in CountKeys;
            wordList := wordList - letterCount[(letter, count)];
            count := count + 1;
          }
        }
      }
    }

    // -------------------------------------------------------------------------
    // filter_guesses

    /** Drops the guesses that can tell nothing a better guess would not: those made only
        of excluded letters, and those for which some word with fewer excluded letters has
        the same letter at every non-excluded position. */
    method FilterGuesses(ex: set<char>)
      requires Valid() && ex <= LetterSet
      modifies this
      ensures Indexed() && changed && prevWordList == old(wordList)
      ensures wordList == set w | w in old(wordList) && GuessKept(w, ex, old(wordList))
    {
      if changed {
        prevWordList := wordList;
        CalculateStats();
      } else {
        changed := true;
      }
      var suspect := BuildSuspects(ex);
      assert L in Counts;
      GuessesKeptStart(wordList, ex);
      wordList := wordList - suspect[L];
      var count := L - 1;
      while count > 0
        modifies this`wordList
        invariant 0 <= count < L
        invariant Indexed()
        invariant wordList == GuessesKept(prevWordList, ex, count, {})
      {
        FilterCount(ex, suspect, count);
        count := count - 1;
      }
      GuessesKeptEnd(prevWordList, ex);
    }

    /** Sorts the words containing an excluded letter into buckets by their number of
        excluded positions. */
    method BuildSuspects(ex: set<char>) returns (suspect: map<int, set<Word>>)
      requires Indexed() && ex <= LetterSet
      ensures suspect.Keys == Counts
      ensures forall n :: n in Counts ==> suspect[n] == Suspects(prevWordList, ex, n)
    {
      suspect := map n | n in Counts :: {};
      SuspectsPartStart(prevWordList, ex);
      var letters := ex;
      ghost var seen: set<char> := {};
      while letters != {}
        invariant letters + seen == ex && letters !! seen
        invariant suspect == SuspectsPart(prevWordList, ex, seen, {})
        decreases |letters|
      {
        var letter :| letter in letters;
        suspect := AddSuspects(suspect, ex, seen, letter);
        letters := letters - {letter};
        seen := seen + {letter};
      }
      assert seen == ex;
      SuspectsPartEnd(prevWordList, ex);
    }

    /** Adds the words containing one excluded letter to the suspect buckets. */
    method AddSuspects(suspect0: map<int, set<Word>>, ex: set<char>, ghost seen: set<char>, letter: char)
      returns (suspect: map<int, set<Word>>)
      requires Indexed() && letter in ex && ex <= LetterSet
      requires suspect0 == SuspectsPart(prevWordList, ex, seen, {})
      ensures suspect == SuspectsPart(prevWordList, ex, seen + {letter}, {})
    {
      suspect := suspect0;
      var words := wordContains[letter];
      ghost var added: set<Word> := {};
      while words != {}
        invariant words + added == Containing(prevWordList, letter) && words !! added
        invariant suspect == SuspectsPart(prevWordList, ex, seen, added)
        decreases |words|
      {
        var word :| word in words;
        suspect := AddSuspect(suspect, ex, seen, added, letter, word);
        words := words - {word};
        added := added + {word};
      }
      SuspectsPartLetter(prevWordList, ex, seen, letter);
    }

    /** Puts one word into the bucket for its number of excluded positions. */
    method AddSuspect(suspect0: map<int, set<Word>>, ex: set<char>, ghost seen: set<char>,
                      ghost added: set<Word>, letter: char, word: Word)
      returns (suspect: map<int, set<Word>>)
      requires Indexed() && letter in ex && word in Containing(prevWordList, letter)
      requires suspect0 == SuspectsPart(prevWordList, ex, seen, added)
      ensures suspect == SuspectsPart(prevWordList, ex, seen, added + {word})
    {
      var count := CountExcluded(word, ex);
      ExcludedSome(word, ex, letter);
      SuspectsPartStep(prevWordList, ex, seen, added, word);
      suspect := AddToBucket(suspect0, count, word);
    }

    /** Examines the suspects with count excluded positions, dropping the dominated ones. */
    method FilterCount(ex: set<char>, suspect: map<int, set<Word>>, count: nat)
      requires Indexed() && 0 < count < L
      requires suspect.Keys == Counts
      requires forall n :: n in Counts ==> suspect[n] == Suspects(prevWordList, ex, n)
      requires wordList == GuessesKept(prevWordList, ex, count, {})
      modifies this`wordList
      ensures Indexed()
      ensures wordList == GuessesKept(prevWordList, ex, count - 1, {})
    {
      assert count in Counts;
      var todo := suspect[count];
      ghost var done: set<Word> := {};
      while todo != {}
        invariant todo + done == Suspects(prevWordList, ex, count) && todo !! done
        invariant Indexed()
        invariant wordList == GuessesKept(prevWordList, ex, count, done)
        decreases |todo|
      {
        var word :| word in todo;
        ExamineSuspect(ex, suspect, count, done, word);
        todo := todo - {word};
        done := done + {word};
      }
      GuessesKeptNext(prevWordList, ex, count);
    }

    /** Drops one suspect if some word dominates it. */
    method ExamineSuspect(ex: set<char>, suspect: map<int, set<Word>>, count: nat, ghost done: set<Word>, word: Word)
      requires Indexed() && 0 < count < L && word in Suspects(prevWordList, ex, count)
      requires suspect.Keys == Counts
      requires forall n :: n in Counts ==> suspect[n] == Suspects(prevWordList, ex, n)
      requires wordList == GuessesKept(prevWordList, ex, count, done) && word !in done
      modifies this`wordList
      ensures Indexed()
      ensures wordList == GuessesKept(prevWordList, ex, count, done + {word})
    {
      var superior := Superiors(word, ex, suspect, count);
      DominatingIff(prevWordList, word, ex);
      if superior != {} {
        assert word in wordList;
        GuessesKeptRemove(prevWordList, ex, count, done, word);
        wordList := wordList - {word};
      } else {
        GuessesKeptSkip(prevWordList, ex, count, done, word);
      }
    }

    /** The snapshot's words that agree with word wherever its letter is not excluded: the
        intersection of the position buckets of those letters. */
    method Agreeing(word: Word, ex: set<char>) returns (agree: set<Word>)
      requires Indexed() && IsWord(word) && ExcludedCount(word, ex) < L
      ensures agree == AgreeingTo(prevWordList, word, ex, L)
    {
      var found: Option<set<Word>> := None;
      for index := 0 to L
        invariant found.None? <==> forall i :: 0 <= i < index ==> word[i] in ex
        invariant found.Some? ==> found.value == AgreeingTo(prevWordList, word, ex, index)
      {
        AgreeingToStep(prevWordList, word, ex, index);
        if word[index] !in ex {
          assert (index, word[index]) in PositionKeys;
          var wordSet := wordBreakdown[(index, word[index])];
          if found.None? {
            AgreeingToNone(prevWordList, word, ex, index);
            found := Some(wordSet);
          } else {
            found := Some(found.value * wordSet);
          }
        }
      }
      ExcludedToBounds(word, ex, L);
      agree := found.value;
    }

    /** The words of the snapshot with fewer excluded positions than word that have word's
        letter at every position where word's letter is not excluded. */
    method Superiors(word: Word, ex: set<char>, suspect: map<int, set<Word>>, count: nat)
      returns (superior: set<Word>)
      requires Indexed() && word in prevWordList && count == ExcludedCount(word, ex) && 0 < count < L
      requires suspect.Keys == Counts
      requires forall n :: n in Counts ==> suspect[n] == Suspects(prevWordList, ex, n)
      ensures superior == Dominating(prevWordList, word, ex)
    {
      superior := Agreeing(word, ex);
      for other := count to L + 1
        invariant superior == set v | v in AgreeingTo(prevWordList, word, ex, L) && !(count <= ExcludedCount(v, ex) < other)
      {
        assert other in Counts;
        superior := superior - suspect[other];
      }
      DominatingLeft(prevWordList, word, ex);
    }

    // -------------------------------------------------------------------------
    // guess_rank

    /** The group is back to the unchanged set W, its own snapshot. */
    ghost predicate Restored(W: set<Word>)
      reads this
    {
      Valid() && !changed && wordList == W && prevWordList == W
    }

    /** The state guess_rank keeps between results, starting from the set W: the words
        processed so far are the only ones that may be missing, and the snapshot is W
        unless nothing has been processed yet. */
    ghost predicate Between(W: set<Word>, processed: set<Word>)
      reads this
    {
      Indexed() && wordList <= W && wordList - processed == W - processed &&
      (changed ==> processed == {}) && (!changed ==> prevWordList == W)
    }

    /** The size of the largest set of solutions that one result of guess could leave (the
        worst case for that guess, so lower is better), and the first result in RESULTS
        that leaves that many. The set ends as it began. */
    method GuessRank(guess: Word) returns (rank: nat, foil: string)
      requires Valid() && IsWord(guess) && wordList != {}
      modifies this
      ensures Restored(old(wordList))
      ensures rank == Rank(old(wordList), guess) && 1 <= rank <= |old(wordList)|
      ensures foil in ResultsTable() && FirstLargest(old(wordList), guess, rank, foil)
    {
      ghost var W := wordList;
      var results := ResultsTable();
      rank, foil := 0, "";
      ghost var f := 0;
      ghost var clean := false;
      var processed: set<Word> := {};
      var k := 0;
      assert results[..0] == [];
      while k < |results|
        invariant 0 <= k <= |results|
        invariant AllWords(W) && W != {} && Between(W, processed)
        invariant Progress(W, guess, k, processed, rank, foil, f)
        invariant clean ==> Restored(W)
        invariant k == |results| ==> clean
      {
        var stop;
        stop, processed, rank, foil, f, clean := RankResult(guess, k, results[k], W, processed, rank, foil, f);
        if stop {
          break;
        }
        k := k + 1;
      }
      RankedAll(W, guess, rank, foil, f);
    }

    /** One pass of guess_rank's loop, for the entry at k of RESULTS: either the words are
        used up and the loop stops, with what is known holding for all of RESULTS, or the
        part for this entry is counted and the largest part updated. */
    method RankResult(guess: Word, k: nat, result: string, ghost W: set<Word>,
                      processed: set<Word>, rank: nat, foil: string, ghost f: nat)
      returns (stop: bool, processed': set<Word>, rank': nat, foil': string, ghost f': nat,
               ghost clean: bool)
      requires k < |ResultsTable()| && result == ResultsTable()[k]
      requires IsWord(guess) && AllWords(W) && W != {} && Between(W, processed)
      requires Progress(W, guess, k, processed, rank, foil, f)
      modifies this
      ensures clean ==> Restored(W)
      ensures stop ==> clean && Ranked(W, guess, ResultsTable(), |ResultsTable()|, rank', foil', f')
      ensures !stop ==> Between(W, processed') && Progress(W, guess, k + 1, processed', rank', foil', f')
      ensures k + 1 == |ResultsTable()| ==> clean
    {
      ResultsTableFeedback();
      ProgressDisjoint(W, guess, k, processed, rank, foil, f);
      var empty, part;
      empty, part, processed', clean := RankStep(guess, result, W, processed);
      rank', foil', f' := rank, foil, f;
      if empty {
        ProgressEarly(W, guess, k, processed, rank, foil, f);
        return true, processed', rank', foil', f', clean;
      }
      stop := false;
      ProgressStep(W, guess, k, processed, rank, foil, f);
      if part > rank {
        rank', foil', f' := part, result, k;
      }
      if k + 1 == |ResultsTable()| {
        LastPossible(guess);
      }
    }

    /** One result of guess_rank's loop over RESULTS: drops the processed words, stops
        (restoring the set) once none are left, and otherwise, if the result is possible,
        adds the words it keeps to the processed ones and restores the set. The part is
        empty for a result that is not possible. */
    method RankStep(guess: Word, result: string, ghost W: set<Word>, processed: set<Word>)
      returns (empty: bool, part: nat, processed': set<Word>, ghost clean: bool)
      requires Between(W, processed) && AllWords(W) && W != {}
      requires IsWord(guess) && IsFeedback(result) && processed !! Part(W, guess, result)
      modifies this
      ensures empty <==> W <= processed
      ensures clean <==> empty || ResultPossible(guess, result)
      ensures clean ==> Restored(W)
      ensures !empty ==> Between(W, processed') && part == |Part(W, guess, result)|
      ensures !empty ==> processed' == processed + Part(W, guess, result)
    {
      wordList := wordList - processed;
      processed' := processed;
      part := 0;
      if wordList == {} {
        assert W <= processed by {
          forall w | w in W ensures w in processed {
            assert w !in W - processed;
          }
        }
        changed := true;
        Reset();
        return true, part, processed', true;
      }
      empty := false;
      assert !(W <= processed) by {
        var w :| w in wordList;
        assert w in W - processed;
      }
      var possible := Possible(guess, result);
      if !possible {
        ImpossiblePartEmpty(W, guess, result);
        assert processed + Part(W, guess, result) == processed;
        return false, part, processed', false;
      }
      var kept := ResultPart(guess, result, W, processed);
      part := |kept|;
      processed' := processed + kept;
      clean := true;
    }

    /** Filters what is left of the set for one possible result, notes the words it keeps,
        and resets the set. */
    method ResultPart(guess: Word, result: string, ghost W: set<Word>, ghost processed: set<Word>)
      returns (kept: set<Word>)
      requires Indexed() && IsWord(guess) && IsFeedback(result) && ResultPossible(guess, result)
      requires AllWords(W) && processed !! Part(W, guess, result)
      requires wordList == W - processed
      requires changed ==> processed == {}
      requires !changed ==> prevWordList == W
      modifies this
      ensures Indexed() && !changed && prevWordList == W && wordList == W
      ensures kept == Part(W, guess, result) && kept !! processed
    {
      FilterSolutions(guess, result);
      kept := wordList;
      FilteredPart(W, guess, result, processed);
      Reset();
    }
  }
}
