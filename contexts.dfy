/** A Wordle variant's settings, its word-list validators, the turn log and the in-memory
    cache of best guesses (wordle_contexts.py). */
module Contexts {
  import opened Words
  import opened Ordering

  /** The word list that stands for "every string of the right length is a guess". */
  const AllWordsToken: string := "ALL_WORDS_ARE_VALID_GUESSES"

  /** The variants whose guesses are all strings of the right length. */
  const AllWordsVariants: set<string> := {"flappy_birdle"}

  /** The variants offering a range of word lengths (least, greatest) instead of one. */
  const LengthRanges: map<string, (nat, nat)> := map["wordlegame_org" := (4, 11)]

  /** The word length of a variant that names none. */
  const DefaultLength: nat := 5

  /** The ValueErrors this file raises, by reason. */
  datatype Error =
    | NaiveAllWords
    | UnknownLength
    | DuplicateWordList
    | DuplicateSolutions
    | IllegalLetter
    | MissingSolution
    | DifferentRanks

  datatype Result<T> = Success(value: T) | Failure(error: Error)

  /** What a Context is created with once its settings are accepted. */
  datatype Config = Config(contextId: string, naive: bool, wordLength: nat)

  /** The checks of Context.__init__: naive play is refused for an all-words variant, and a
      missing word length is the variant's own, 5 unless it offers a range, which is refused. */
  function Configure(contextId: string, naive: bool, wordLength: Option<nat>): (r: Result<Config>)
    ensures r.Failure? <==> (naive && contextId in AllWordsVariants) ||
                            (wordLength.None? && contextId in LengthRanges)
    ensures r.Failure? ==> r.error == if naive && contextId in AllWordsVariants then NaiveAllWords
                                      else UnknownLength
    ensures r.Success? ==> r.value.contextId == contextId && r.value.naive == naive
    ensures r.Success? && wordLength.Some? ==> r.value.wordLength == wordLength.value
    ensures r.Success? && wordLength.None? ==> r.value.wordLength == DefaultLength
  {
    if naive && contextId in AllWordsVariants then Failure(NaiveAllWords)
    else if wordLength.Some? then Success(Config(contextId, naive, wordLength.value))
    else if contextId in LengthRanges then Failure(UnknownLength)
    else Success(Config(contextId, naive, DefaultLength))
  }

  /** _check_words: every character of every word is in the alphabet. */
  function CheckWords(words: set<string>): (r: Option<Error>)
    ensures r.None? <==> forall w, i :: w in words && 0 <= i < |w| ==> IsLetter(w[i])
    ensures r.Some? ==> r.value == IllegalLetter
  {
    if exists w :: w in words && !InAlphabet(w) then Some(IllegalLetter) else None
  }

  /** A list without repeats is the all-words token exactly when its set is. */
  lemma TokenList(ws: seq<string>)
    requires Distinct(ws)
    ensures Elements(ws) == {AllWordsToken} <==> ws == [AllWordsToken]
  {
    ElementsSize(ws);
    if Elements(ws) == {AllWordsToken} {
      assert ws[0] in Elements(ws);
    }
    if ws == [AllWordsToken] {
      assert Elements(ws) == {AllWordsToken} by {
        forall x | x in Elements(ws) ensures x == AllWordsToken {
        }
      }
    }
  }

  /** _check_word_list_solutions: the ValueError raised, if any. Repeats are looked for first
      (word list, then solutions), then illegal letters in the solutions; a word list other
      than the all-words token must itself be over the alphabet and hold every solution. */
  function CheckWordListSolutions(wordList: seq<string>, solutions: seq<string>): (r: Option<Error>)
    ensures r.Some? ==> r.value in {DuplicateWordList, DuplicateSolutions, IllegalLetter, MissingSolution}
  {
    var words, sols := Elements(wordList), Elements(solutions);
    if |words| != |wordList| then Some(DuplicateWordList)
    else if |sols| != |solutions| then Some(DuplicateSolutions)
    else if CheckWords(sols).Some? then CheckWords(sols)
    else if words != {AllWordsToken} then
      if CheckWords(words).Some? then CheckWords(words)
      else if !(sols <= words) then Some(MissingSolution)
      else None
    else None
  }

  /** The lists _check_word_list_solutions accepts. */
  ghost predicate ListsAccepted(wordList: seq<string>, solutions: seq<string>)
  {
    Distinct(wordList) && Distinct(solutions) && AllInAlphabet(solutions) &&
    (wordList == [AllWordsToken] ||
     (AllInAlphabet(wordList) && forall s :: s in solutions ==> s in wordList))
  }

  /** The checks for repeats: a repeated word list is reported first, then repeated
      solutions. */
  lemma CheckRepeats(wordList: seq<string>, solutions: seq<string>)
    ensures CheckWordListSolutions(wordList, solutions) == Some(DuplicateWordList) <==> !Distinct(wordList)
    ensures CheckWordListSolutions(wordList, solutions) == Some(DuplicateSolutions) <==>
              Distinct(wordList) && !Distinct(solutions)
  {
    ElementsSize(wordList);
    ElementsSize(solutions);
  }

  /** Illegal letters in a solution, or in a word list other than the all-words token, are
      reported once there are no repeats. */
  lemma CheckLetters(wordList: seq<string>, solutions: seq<string>)
    ensures CheckWordListSolutions(wordList, solutions) == Some(IllegalLetter) <==>
              Distinct(wordList) && Distinct(solutions) &&
              (!AllInAlphabet(solutions) || (wordList != [AllWordsToken] && !AllInAlphabet(wordList)))
  {
    ElementsSize(wordList);
    ElementsSize(solutions);
    if Distinct(wordList) {
      TokenList(wordList);
    }
  }

  /** A solution missing from a word list other than the token is reported last. */
  lemma CheckMissing(wordList: seq<string>, solutions: seq<string>)
    ensures CheckWordListSolutions(wordList, solutions) == Some(MissingSolution) <==>
              Distinct(wordList) && Distinct(solutions) && AllInAlphabet(solutions) &&
              wordList != [AllWordsToken] && AllInAlphabet(wordList) &&
              exists s :: s in solutions && s !in wordList
  {
    ElementsSize(wordList);
    ElementsSize(solutions);
    if Distinct(wordList) {
      TokenList(wordList);
    }
    assert (exists s :: s in solutions && s !in wordList) <==> !(Elements(solutions) <= Elements(wordList)) by {
      if !(Elements(solutions) <= Elements(wordList)) {
        var s :| s in Elements(solutions) && s !in Elements(wordList);
      }
      if exists s :: s in solutions && s !in wordList {
        var s :| s in solutions && s !in wordList;
        assert s in Elements(solutions);
      }
    }
  }

  /** _check_word_list_solutions returns normally exactly on the accepted lists. */
  lemma CheckAccepts(wordList: seq<string>, solutions: seq<string>)
    ensures CheckWordListSolutions(wordList, solutions).None? <==> ListsAccepted(wordList, solutions)
  {
    CheckRepeats(wordList, solutions);
    CheckLetters(wordList, solutions);
    CheckMissing(wordList, solutions);
  }

  /** One recorded turn: the word guessed and the feedback it got. */
  type Turn = (string, string)

  /** A cache entry for one guess: its rank, its foil and, optionally, the cached best
      guesses for each feedback it may get (`next_turn`). */
  datatype Entry = Entry(rank: nat, foil: string, nextTurn: NextTurn)

  datatype NextTurn = Absent | Present(results: map<string, Node>)

  /** A cache node: the best guesses at one point of a game, in the order they were
      inserted, each with its entry. */
  datatype Node = Node(items: seq<(string, Entry)>)

  /** What load_guesses returns: the common rank (None when there are no guesses), the
      guesses and, position by position, their foils. */
  datatype Cached = Cached(rank: Option<nat>, guesses: seq<string>, foils: seq<string>)

  /** `node[key]` of an insertion-ordered dict. */
  function Get(items: seq<(string, Entry)>, key: string): (r: Option<Entry>)
    ensures r.None? <==> key !in Firsts(items)
    ensures r.Some? ==> (key, r.value) in items
  {
    if items == [] then None
    else if items[0].0 == key then Some(items[0].1)
    else
      assert forall i :: 0 < i < |items| ==> items[i] == items[1..][i - 1];
      Get(items[1..], key)
  }

  /** `node[key] = entry` on an insertion-ordered dict: a present key keeps its place. */
  function Put(items: seq<(string, Entry)>, key: string, entry: Entry): seq<(string, Entry)>
  {
    if items == [] then [(key, entry)]
    else if items[0].0 == key then [(key, entry)] + items[1..]
    else [items[0]] + Put(items[1..], key, entry)
  }

  /** The feedback branches under an entry, none when it has no next_turn. */
  function Branches(e: Entry): map<string, Node>
  {
    if e.nextTurn.Present? then e.nextTurn.results else map[]
  }

  /** The node under an entry for a feedback, a fresh empty one when there is none. */
  function Child(e: Entry, result: string): Node
  {
    if result in Branches(e) then Branches(e)[result] else Node([])
  }

  /** `node[word]["next_turn"][result]`, None where Python raises KeyError. */
  function Step(node: Node, turn: Turn): Option<Node>
  {
    match Get(node.items, turn.0)
    case None => None
    case Some(e) => if turn.1 in Branches(e) then Some(Branches(e)[turn.1]) else None
  }

  /** The node the recorded turns lead to, if every step exists. */
  function Walk(node: Node, path: seq<Turn>): Option<Node>
    decreases |path|
  {
    if path == [] then Some(node)
    else
      match Step(node, path[0])
      case None => None
      case Some(child) => Walk(child, path[1..])
  }

  /** The foils of a node's entries, in order. */
  function Foils(items: seq<(string, Entry)>): (r: seq<string>)
    ensures |r| == |items| && forall i :: 0 <= i < |items| ==> r[i] == items[i].1.foil
  {
    seq(|items|, i requires 0 <= i < |items| => items[i].1.foil)
  }

  /** Every entry of the node has the rank of the first. */
  predicate SameRank(items: seq<(string, Entry)>)
  {
    forall i :: 0 <= i < |items| ==> items[i].1.rank == items[0].1.rank
  }

  /** What load_guesses answers for a tree and a list of turns. */
  function Lookup(root: Node, path: seq<Turn>): (r: Result<Cached>)
    ensures Walk(root, path).None? ==> r == Success(Cached(None, [], []))
    ensures r.Success? ==> |r.value.guesses| == |r.value.foils|
    ensures r.Success? ==> (r.value.rank.None? <==> r.value.guesses == [])
    ensures r.Failure? ==> r.error == DifferentRanks
  {
    match Walk(root, path)
    case None => Success(Cached(None, [], []))
    case Some(node) =>
      if !SameRank(node.items) then Failure(DifferentRanks)
      else Success(Cached(if node.items == [] then None else Some(node.items[0].1.rank),
                          Firsts(node.items), Foils(node.items)))
  }

  /** load_guesses fails exactly when two entries of the node reached disagree on rank. */
  lemma LookupFails(root: Node, path: seq<Turn>)
    ensures Lookup(root, path).Failure? <==>
              Walk(root, path).Some? &&
              exists i, j :: 0 <= i < j < |Walk(root, path).value.items| &&
                Walk(root, path).value.items[i].1.rank != Walk(root, path).value.items[j].1.rank
  {
    if Walk(root, path).Some? {
      var items := Walk(root, path).value.items;
      if !SameRank(items) {
        var i :| 0 <= i < |items| && items[i].1.rank != items[0].1.rank;
        assert 0 < i;
      }
    }
  }

  /** The loops of load_guesses: follow the turns down the tree, then collect the guesses
      and foils of the node reached, checking that their ranks agree. */
  method FindGuesses(root: Node, path: seq<Turn>) returns (r: Result<Cached>)
    ensures r == Lookup(root, path)
  {
    var node := root;
    var k := 0;
    while k < |path|
      invariant 0 <= k <= |path|
      invariant Walk(root, path) == Walk(node, path[k..])
    {
      assert path[k..][0] == path[k] && path[k..][1..] == path[k + 1..];
      var next := Step(node, path[k]);
      if next.None? {
        return Success(Cached(None, [], []));
      }
      node := next.value;
      k := k + 1;
    }
    assert path[k..] == [];
    var rank: Option<nat> := None;
    var guesses: seq<string> := [];
    var foils: seq<string> := [];
    for i := 0 to |node.items|
      invariant guesses == Firsts(node.items[..i]) && foils == Foils(node.items[..i])
      invariant rank == if i == 0 then None else Some(node.items[0].1.rank)
      invariant forall j :: 0 <= j < i ==> node.items[j].1.rank == node.items[0].1.rank
    {
      var (guess, data) := node.items[i];
      if rank.None? {
        rank := Some(data.rank);
      } else if rank.value != data.rank {
        return Failure(DifferentRanks);
      }
      guesses := guesses + [guess];
      foils := foils + [data.foil];
    }
    assert node.items[..|node.items|] == node.items;
    r := Success(Cached(rank, guesses, foils));
  }

  /** A cleared node after `node[guess] = {rank, foil}` for each pair in turn. */
  function Fill(pairs: seq<(string, string)>, rank: nat): seq<(string, Entry)>
  {
    if pairs == [] then []
    else
      var last := pairs[|pairs| - 1];
      Put(Fill(pairs[..|pairs| - 1], rank), last.0, Entry(rank, last.1, Absent))
  }

  /** The walk of _save_guesses_internal: follow the turns, creating an empty next_turn and
      an empty node for a feedback not yet cached, and put target in place of the node
      reached; stop, leaving the rest as it is, at the first guess the node lacks. */
  function Graft(node: Node, path: seq<Turn>, target: Node): Node
    decreases |path|
  {
    if path == [] then target
    else
      match Get(node.items, path[0].0)
      case None => node
      case Some(e) =>
        var below := Graft(Child(e, path[0].1), path[1..], target);
        Node(Put(node.items, path[0].0,
                 Entry(e.rank, e.foil, Present(Branches(e)[path[0].1 := below]))))
  }

  /** Every guess of the turns is in the node the walk has reached. */
  predicate Reaches(node: Node, path: seq<Turn>)
    decreases |path|
  {
    if path == [] then true
    else
      match Get(node.items, path[0].0)
      case None => false
      case Some(e) => Reaches(Child(e, path[0].1), path[1..])
  }

  /** Writing a present key replaces its entry and keeps every other one in place. */
  lemma {:induction false} PutPresent(items: seq<(string, Entry)>, key: string, entry: Entry)
    requires key in Firsts(items)
    ensures Firsts(Put(items, key, entry)) == Firsts(items)
    ensures Get(Put(items, key, entry), key) == Some(entry)
    ensures forall k :: k != key ==> Get(Put(items, key, entry), k) == Get(items, k)
  {
    FirstsCons(items);
    FirstsCons(Put(items, key, entry));
    if items[0].0 != key {
      PutPresent(items[1..], key, entry);
    }
  }

  /** Writing a new key appends it. */
  lemma {:induction false} PutAbsent(items: seq<(string, Entry)>, key: string, entry: Entry)
    requires key !in Firsts(items)
    ensures Put(items, key, entry) == items + [(key, entry)]
  {
    if items != [] {
      FirstsCons(items);
      PutAbsent(items[1..], key, entry);
      assert items == [items[0]] + items[1..];
    }
  }

  /** No two pairs share a first component. */
  predicate FirstsDistinct(pairs: seq<(string, string)>)
  {
    forall i, j :: 0 <= i < j < |pairs| ==> pairs[i].0 != pairs[j].0
  }

  /** Filling with pairs of different guesses gives one entry per pair, in the same order. */
  lemma {:induction false} FillDistinct(pairs: seq<(string, string)>, rank: nat)
    requires FirstsDistinct(pairs)
    ensures Fill(pairs, rank) ==
              seq(|pairs|, i requires 0 <= i < |pairs| => (pairs[i].0, Entry(rank, pairs[i].1, Absent)))
  {
    if pairs != [] {
      var front := pairs[..|pairs| - 1];
      var last := pairs[|pairs| - 1];
      assert FirstsDistinct(front) by {
        forall i, j | 0 <= i < j < |front| ensures front[i].0 != front[j].0 {
          assert front[i] == pairs[i] && front[j] == pairs[j];
        }
      }
      FillDistinct(front, rank);
      assert last.0 !in Firsts(Fill(front, rank)) by {
        forall i | 0 <= i < |front| ensures Fill(front, rank)[i].0 != last.0 {
          assert front[i] == pairs[i];
        }
      }
      PutAbsent(Fill(front, rank), last.0, Entry(rank, last.1, Absent));
    }
  }

  /** When the walk reaches its end, the turns lead to the node put in place. */
  lemma {:induction false} GraftReached(node: Node, path: seq<Turn>, target: Node)
    requires Reaches(node, path)
    ensures Walk(Graft(node, path, target), path) == Some(target)
    decreases |path|
  {
    if path != [] {
      var e := Get(node.items, path[0].0).value;
      var entry := Entry(e.rank, e.foil, Present(Branches(e)[path[0].1 := Graft(Child(e, path[0].1), path[1..], target)]));
      PutPresent(node.items, path[0].0, entry);
      GraftReached(Child(e, path[0].1), path[1..], target);
    }
  }

  /** When some guess of the turns is missing, the turns lead nowhere, before and after. */
  lemma {:induction false} GraftUnreached(node: Node, path: seq<Turn>, target: Node)
    requires !Reaches(node, path)
    ensures Walk(node, path).None? && Walk(Graft(node, path, target), path).None?
    decreases |path|
  {
    match Get(node.items, path[0].0)
    case None =>
    case Some(e) =>
      var entry := Entry(e.rank, e.foil, Present(Branches(e)[path[0].1 := Graft(Child(e, path[0].1), path[1..], target)]));
      PutPresent(node.items, path[0].0, entry);
      GraftUnreached(Child(e, path[0].1), path[1..], target);
      if path[0].1 !in Branches(e) {
        assert Step(node, path[0]).None?;
      }
  }

  /** Saving changes only the entry of the first guess of the turns, and in it only the
      branch of the first feedback: its rank, its foil and its other branches stay. */
  lemma GraftOthers(node: Node, path: seq<Turn>, target: Node)
    requires path != []
    ensures Firsts(Graft(node, path, target).items) == Firsts(node.items)
    ensures forall k :: k != path[0].0 ==> Get(Graft(node, path, target).items, k) == Get(node.items, k)
    ensures Get(node.items, path[0].0).Some? ==>
              var e, e' := Get(node.items, path[0].0).value, Get(Graft(node, path, target).items, path[0].0).value;
              e'.rank == e.rank && e'.foil == e.foil && e'.nextTurn.Present? &&
              path[0].1 in e'.nextTurn.results &&
              forall res :: res != path[0].1 ==>
                (res in e'.nextTurn.results <==> res in Branches(e)) &&
                (res in Branches(e) ==> e'.nextTurn.results[res] == Branches(e)[res])
  {
    match Get(node.items, path[0].0)
    case None =>
    case Some(e) =>
      var entry := Entry(e.rank, e.foil, Present(Branches(e)[path[0].1 := Graft(Child(e, path[0].1), path[1..], target)]));
      PutPresent(node.items, path[0].0, entry);
  }

  /** A list of different words zips into pairs of different first components. */
  lemma ZipFirstsDistinct(a: seq<string>, b: seq<string>)
    requires Distinct(a)
    ensures FirstsDistinct(Zip(a, b))
  {
  }

  /** An element at two positions of a list occurs at least twice in it. */
  lemma TwiceCounted<T>(s: seq<T>, i: nat, j: nat)
    requires i < j < |s| && s[i] == s[j]
    ensures multiset(s)[s[i]] >= 2
  {
    assert s == s[..i] + [s[i]] + s[i + 1..j] + [s[j]] + s[j + 1..];
  }

  /** In a list without repeats every element occurs at most once. */
  lemma {:induction false} DistinctCounted<T>(s: seq<T>, x: T)
    requires Distinct(s)
    ensures multiset(s)[x] <= 1
  {
    if s != [] {
      var front := s[..|s| - 1];
      assert s == front + [s[|s| - 1]];
      assert Distinct(front) by {
        forall i, j | 0 <= i < j < |front| ensures front[i] != front[j] {
          assert front[i] == s[i] && front[j] == s[j];
        }
      }
      DistinctCounted(front, x);
      if x == s[|s| - 1] {
        assert x !in front by {
          forall k | 0 <= k < |front| ensures front[k] != x {
            assert front[k] == s[k];
          }
        }
      }
    }
  }

  /** A reordering of pairs with different first components has different first
      components. */
  lemma PermutedFirstsDistinct(p: seq<(string, string)>, z: seq<(string, string)>)
    requires FirstsDistinct(z) && multiset(p) == multiset(z)
    ensures FirstsDistinct(p)
  {
    forall i, j | 0 <= i < j < |p| ensures p[i].0 != p[j].0 {
      if p[i].0 == p[j].0 {
        assert p[i] in multiset(z) && p[j] in multiset(z);
        var a :| 0 <= a < |z| && z[a] == p[i];
        var b :| 0 <= b < |z| && z[b] == p[j];
        if a == b {
          TwiceCounted(p, i, j);
          assert Distinct(z);
          DistinctCounted(z, p[i]);
        }
      }
    }
  }

  /** The pairs saved for a list of guesses and foils: `sorted(zip(guesses, foils))`. */
  function SavedPairs(guesses: seq<string>, foils: seq<string>): seq<(string, string)>
  {
    Sorted(Zip(guesses, foils))
  }

  /** Sorting zipped pairs of distinct guesses gives their guesses in strictly ascending
      order. */
  lemma SavedPairsAscending(guesses: seq<string>, foils: seq<string>)
    requires Distinct(guesses)
    ensures var p := SavedPairs(guesses, foils);
            FirstsDistinct(p) && forall i, j :: 0 <= i < j < |p| ==> Below(p[i].0, p[j].0)
  {
    var p := SavedPairs(guesses, foils);
    ZipFirstsDistinct(guesses, foils);
    PermutedFirstsDistinct(p, Zip(guesses, foils));
    forall i, j | 0 <= i < j < |p| ensures Below(p[i].0, p[j].0) {
      PairFirstBelow(p[i], p[j]);
    }
  }

  /** Loading where pairs of different guesses were put gives back each guess with its
      foil, in order, and the rank. */
  lemma LoadFilled(root: Node, path: seq<Turn>, rank: nat, p: seq<(string, string)>)
    requires Reaches(root, path) && FirstsDistinct(p)
    ensures Lookup(Graft(root, path, Node(Fill(p, rank))), path) ==
              Success(Cached(if p == [] then None else Some(rank), Firsts(p), Seconds(p)))
  {
    FillDistinct(p, rank);
    GraftReached(root, path, Node(Fill(p, rank)));
    var items := Fill(p, rank);
    assert SameRank(items);
    assert Firsts(items) == Firsts(p);
    assert Foils(items) == Seconds(p);
  }

  /** Saving distinct guesses at turns whose guesses are all in the tree, then loading at the
      same turns, gives back the rank, the zipped guesses in ascending order and, beside each,
      its foil. */
  lemma SaveThenLoad(root: Node, path: seq<Turn>, rank: nat, guesses: seq<string>, foils: seq<string>)
    requires Reaches(root, path) && Distinct(guesses)
    ensures var p := SavedPairs(guesses, foils);
            multiset(p) == multiset(Zip(guesses, foils)) &&
            (forall i, j :: 0 <= i < j < |p| ==> Below(p[i].0, p[j].0)) &&
            Lookup(Graft(root, path, Node(Fill(p, rank))), path) ==
              Success(Cached(if p == [] then None else Some(rank), Firsts(p), Seconds(p)))
  {
    SavedPairsAscending(guesses, foils);
    LoadFilled(root, path, rank, SavedPairs(guesses, foils));
  }

  /** Saving at turns with a guess missing from the tree changes nothing load_guesses sees
      there: both before and after it finds nothing. */
  lemma SaveUnreached(root: Node, path: seq<Turn>, target: Node)
    requires !Reaches(root, path)
    ensures Lookup(Graft(root, path, target), path) == Lookup(root, path) == Success(Cached(None, [], []))
  {
    GraftUnreached(root, path, target);
  }

  /** A game being played against one variant. */
  class Context {
    const contextId: string
    const naive: bool
    const wordLength: nat
    /** `_words_guessed`: the turns played so far. */
    var wordsGuessed: seq<Turn>
    /** `_cache_data`: the cache tree once loaded. */
    var cacheData: Option<Node>

    constructor (config: Config)
      ensures contextId == config.contextId && naive == config.naive && wordLength == config.wordLength
      ensures wordsGuessed == [] && cacheData == None
    {
      contextId := config.contextId;
      naive := config.naive;
      wordLength := config.wordLength;
      wordsGuessed := [];
      cacheData := None;
    }

    /** `Context(context_id, naive, word_length)`: a new context with no turns and no cache
        loaded, or the ValueError its settings raise. */
    static method Create(contextId: string, naive: bool, wordLength: Option<nat>) returns (r: Result<Context>)
      ensures r.Failure? <==> Configure(contextId, naive, wordLength).Failure?
      ensures r.Failure? ==> r.error == Configure(contextId, naive, wordLength).error
      ensures r.Success? ==> fresh(r.value) && r.value.wordsGuessed == [] && r.value.cacheData == None
      ensures r.Success? ==> Config(r.value.contextId, r.value.naive, r.value.wordLength) ==
                             Configure(contextId, naive, wordLength).value
    {
      var config := Configure(contextId, naive, wordLength);
      if config.Failure? {
        return Failure(config.error);
      }
      var c := new Context(config.value);
      return Success(c);
    }

    /** The number of turns played. */
    function Turns(): (n: nat)
      reads this
    {
      |wordsGuessed|
    }

    /** Forgets the turns played. */
    method Reset()
      modifies this
      ensures wordsGuessed == [] && Turns() == 0 && cacheData == old(cacheData)
    {
      wordsGuessed := [];
    }

    /** Records one more turn. */
    method NextTurn(word: string, result: string)
      modifies this
      ensures wordsGuessed == old(wordsGuessed) + [(word, result)]
      ensures Turns() == old(Turns()) + 1 && cacheData == old(cacheData)
    {
      wordsGuessed := wordsGuessed + [(word, result)];
    }

    /** _load_guess_data: the cache is read once; stored is the file's tree, None when the
        file is missing. */
    method LoadGuessData(stored: Option<Node>)
      modifies this
      ensures cacheData == if old(cacheData).Some? then old(cacheData)
                           else Some(if stored.Some? then stored.value else Node([]))
      ensures wordsGuessed == old(wordsGuessed)
    {
      if cacheData.None? {
        cacheData := Some(if stored.Some? then stored.value else Node([]));
      }
    }

    /** load_guesses: the cached guesses for the turns played. */
    method LoadGuesses(stored: Option<Node>) returns (r: Result<Cached>)
      modifies this
      ensures cacheData == if old(cacheData).Some? then old(cacheData)
                           else Some(if stored.Some? then stored.value else Node([]))
      ensures cacheData.Some? && r == Lookup(cacheData.value, wordsGuessed)
      ensures wordsGuessed == old(wordsGuessed)
    {
      LoadGuessData(stored);
      r := FindGuesses(cacheData.value, wordsGuessed);
    }

    /** The insertion loop of _save_guesses_internal into the cleared node. */
    static method Refill(pairs: seq<(string, string)>, rank: nat) returns (items: seq<(string, Entry)>)
      ensures items == Fill(pairs, rank)
    {
      items := [];
      for i := 0 to |pairs|
        invariant items == Fill(pairs[..i], rank)
      {
        assert pairs[..i + 1][..i] == pairs[..i];
        items := Put(items, pairs[i].0, Entry(rank, pairs[i].1, Absent));
      }
      assert pairs[..|pairs|] == pairs;
    }

    /** _save_guesses_internal: at the node the turns lead to, the guesses with their foils,
        in sorted order, each with the given rank. */
    method SaveGuessesInternal(rank: nat, guesses: seq<string>, foils: seq<string>)
      requires cacheData.Some?
      modifies this
      ensures cacheData == Some(Graft(old(cacheData).value, wordsGuessed,
                                      Node(Fill(SavedPairs(guesses, foils), rank))))
      ensures wordsGuessed == old(wordsGuessed)
    {
      var items := Refill(SavedPairs(guesses, foils), rank);
      cacheData := Some(Graft(cacheData.value, wordsGuessed, Node(items)));
    }

    /** save_guesses: nothing beyond the first turn; otherwise the cache is read afresh from
        stored and the guesses saved into it (writing it back is not modelled). */
    method SaveGuesses(rank: nat, guesses: seq<string>, foils: seq<string>, stored: Option<Node>)
      modifies this
      ensures wordsGuessed == old(wordsGuessed)
      ensures |wordsGuessed| > 1 ==> cacheData == old(cacheData)
      ensures |wordsGuessed| <= 1 ==>
                cacheData == Some(Graft(if stored.Some? then stored.value else Node([]), wordsGuessed,
                                        Node(Fill(SavedPairs(guesses, foils), rank))))
    {
      if |wordsGuessed| > 1 {
        return;
      }
      cacheData := None;
      LoadGuessData(stored);
      SaveGuessesInternal(rank, guesses, foils);
    }

    /** get_solutions: the word list in naive mode, the solutions otherwise. */
    function GetSolutions(wordList: seq<string>, solutions: seq<string>): (r: seq<string>)
    {
      if naive then wordList else solutions
    }

    /** is_valid_word: any string of the context's length when the word list is the
        all-words token, otherwise a member of the word list. */
    function IsValidWord(wordList: seq<string>, word: string): (b: bool)
    {
      if wordList == [AllWordsToken] then |word| == wordLength else word in wordList
    }

    /** Every word the context offers as a solution is a valid word, once the lists pass
        _check_word_list_solutions and are cut to the context's length, and the all-words
        token is not played naive (which Configure refuses for all-words variants). */
    lemma SolutionsAreValid(wordList: seq<string>, solutions: seq<string>)
      requires ListsAccepted(wordList, solutions)
      requires forall s :: s in solutions ==> |s| == wordLength
      requires naive ==> wordList != [AllWordsToken]
      ensures forall w :: w in GetSolutions(wordList, solutions) ==> IsValidWord(wordList, w)
    {
    }
  }
}
