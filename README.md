# Wordle solver, modelled in Dafny

This project models the engine of a Wordle solver and proves properties of that model.

The solver keeps two groups of five-letter words:
- the guesses still worth playing;
- the solutions still possible.

Given the feedback for a guess, the solution group filters itself. It does this through three indices:
- position and letter to words;
- letter to words containing it;
- letter and exact count to words.

The group keeps a one-step undo snapshot (`reset`). The guess group drops guesses that are dominated given the letters no solution uses.

Each guess is ranked by the size of the largest class into which its feedback splits the solutions. The rank is computed by filtering speculatively and resetting after each feedback. The best guesses are those of least rank, narrowed to possible solutions when any of them is one.

Around the engine, the model also covers four smaller pieces:
- a variant's settings and word-list validators;
- the turn log;
- the in-memory cache tree of best guesses, with its lookup and its writer;
- the format check for typed feedback and the scraper's list validator.

Modules, one file each:
- `Words` (words.dfy): the word length `L = 5`, the alphabet, letter counting, and `set(list)` helpers.
- `Results` (results.dfy): the `RESULTS` table and `result_possible`. It also holds the ghost Wordle feedback function `Feedback(guess, solution)`, a reference definition the filters are proved against.
- `Rules` (rules.dfy): what `filter_solutions` and `filter_guesses` keep, as predicates, with the theorem that for a feasible result a solution is kept exactly when its feedback is that result.
- `Parts` (parts.dfy): the feedback classes of a solution set, their sizes, and the rank.
- `WordGroups` (wordgroups.dfy): the class `WordGroup`, covering its indices, undo state, the two filters, `excluded_letters` and `guess_rank`.
- `Search` (search.dfy): `best_guesses`.
- `Ordering` (ordering.dfy): Python's order on strings and pairs, `sorted` and `zip`.
- `Contexts` (contexts.dfy): `Context`, its validators and the cache tree.
- `ResultFormat` (resultformat.dfy): `is_result`.
- `Scraper` (scraper.dfy): `check_solutions_word_lists`.

This version of wordle_solver.py is older than wordle_contexts.py, which calls it. The model follows wordle_solver.py:
- `best_guesses` returns `(best_guesses, best_rank)`;
- ranks are whole numbers, with no fractional tie-break, no early exit at rank 1 and no check that the two groups belong to the same variant.

Python's classes `WordGroup`, `GuessGroup` and `SolutionGroup` are one Dafny class, because `SolutionGroup` inherits every method of the other two.

## Model

| member | source | states |
|---|---|---|
| WordGroups.WordGroup.constructor | wordle_solver.py:13-29 | A new group holds exactly the given words, is unchanged, is its own snapshot, and its indices describe it. |
| WordGroups.WordGroup.CalculateStats | wordle_solver.py:46-85 | Rebuilds the three indices so that they describe the current set exactly, and changes nothing else. Exact means, for every letter c, position i < L and count 1 <= n <= L: a word is in bucket (i, c) iff its letter at i is c, in bucket c iff it contains c, and in bucket (c, n) iff c occurs exactly n times (IndicesExact). |
| WordGroups.WordGroup.ExcludedLetters | wordle_solver.py:87-99 | Returns exactly the letters of the alphabet that no current word contains, even when the loop stops early once every letter has been seen. |
| WordGroups.WordGroup.Reset | wordle_solver.py:101-104 | A changed group returns to its snapshot and becomes unchanged. An unchanged group stays as it is. The indices are untouched and the group invariant is kept. |
| WordGroups.WordGroup.FilterGuesses | wordle_solver.py:139-186 | The new set is the old set restricted to the guesses that GuessKept accepts. The old set becomes the snapshot, and the indices keep describing it. |
| Rules.GuessKeptRules | wordle_solver.py:149-186 | A word made only of excluded letters is dropped. A word with no excluded letter is kept. A word with k excluded letters, 0 < k < L, is dropped iff the entry set holds a word with fewer excluded letters that agrees with it at every non-excluded position. |
| Results.ResultsTable | wordle_solver.py:188-192 | RESULTS, built as the source builds it: the reversed `itertools.product`, filtered. Its contents, order and ends are stated by ResultsTableMembers, ResultsTableOrder and ResultsTableEnds. |
| Results.ResultsTableMembers | wordle_solver.py:188-192 | RESULTS holds exactly the length-L strings over g, y, b that do not have exactly one y and no b. |
| Results.ResultsTableOrder | wordle_solver.py:188-192 | RESULTS has no repeats and follows the reversed product order for g < y < b. |
| Results.ResultsTableEnds | wordle_solver.py:188-192 | RESULTS starts with "bbbbb" and ends with "ggggg". |
| Results.ResultPossible | wordle_solver.py:194-205 | result_possible as a function of the word and the result. ResultPossibleIff proves it true iff no y position carries a letter that occurs at an earlier b position; so a result with no y is always possible (NoPresentPossible). |
| Results.Possible | wordle_solver.py:194-205 | The scan returns true iff no y position carries a letter that occurs at an earlier b position. |
| Results.FeedbackInResultsTable | wordle_solver.py:188-205 | The feedback any solution actually produces for a guess is in RESULTS. |
| Results.FeedbackPossible | wordle_solver.py:194-205 | result_possible accepts the feedback any solution actually produces for a guess. |
| WordGroups.WordGroup.FilterSolutions | wordle_solver.py:211-271 | Only removes words: the new set is the old set restricted to SolutionKept, the positional rules and the repeated-letter count rules. The group becomes changed and the previous set becomes the snapshot. |
| Rules.PositionalAgreement | wordle_solver.py:218-235 | Under the positional rules, at each occurrence of a guess letter the result is g iff the word has that letter there. |
| Rules.SolutionKeptIffFeedback | wordle_solver.py:218-271 | For a feasible result, filter_solutions keeps a word iff that word's Wordle feedback for the guess is the result. |
| Rules.FeedbackIsKept | wordle_solver.py:218-271 | Every word survives the filter for its own feedback for the guess. |
| Parts.ImpossiblePartEmpty | wordle_solver.py:301-303 | A result that result_possible rejects has an empty class, so skipping it loses no word. |
| Parts.PartitionSizes | wordle_solver.py:283-327 | The class sizes over RESULTS add up to the size of the set, the source's `total == len(self)` check. The classes of two different results are disjoint (PartsDisjoint). |
| Parts.RankBounds | wordle_solver.py:317-325 | On a non-empty set the rank is at least 1 and at most the set's size. |
| WordGroups.WordGroup.GuessRank | wordle_solver.py:273-330 | Returns the size of the largest feedback class and the first result in RESULTS order that reaches it. The rank is between 1 and the size of the set. Afterwards the set is as on entry and the group is unchanged. |
| Search.BestGuesses | wordle_solver.py:342-391 | The guesses are first filtered by the letters no solution uses. The rank is the least rank of a remaining guess, and None iff no guess remains. The list holds each guess of that rank once, narrowed to those that are solutions when there are any. The guess group is left changed, with its old set as its snapshot. The solution set ends as it began. Once a guess is ranked, the solution group is unchanged and is its own snapshot (the `reset` in guess_rank); when no guess remains, its undo state is untouched. |
| Search.NoSolutionsNoGuesses | wordle_solver.py:149-162 | With no solution left, every letter is excluded and filter_guesses keeps no guess. |
| Search.RankGuesses | wordle_solver.py:358-369 | After the ranking loop, the rank is the least rank over all guesses and the list holds exactly the guesses of that rank, without repeats. |
| Search.PreferSolutions | wordle_solver.py:374-385 | If some best guess is a solution, the list becomes exactly those, without repeats. Otherwise it is unchanged. |
| Contexts.Configure | wordle_contexts.py:131-149 | Naive play is refused for a variant in the all-words table (wordle_contexts.py:37). A missing length is refused for a variant in the length-range table (line 38) and is 5 otherwise. A given length is kept. |
| Contexts.Context.constructor | wordle_contexts.py:131-156 | The context keeps the configured id, naive flag and word length, with no turns and no cache loaded. |
| Contexts.Context.Create | wordle_contexts.py:131-156 | A context is created, with no turns and no cache loaded, exactly when Configure accepts its settings; otherwise Configure's error is raised. |
| Contexts.Context.Reset | wordle_contexts.py:158-160 | The turn log becomes empty, so `turns` (Turns) is 0, and the cache is untouched. |
| Contexts.Context.NextTurn | wordle_contexts.py:162-172 | Appends one (word, result) pair and nothing else; the turn count `turns` (Turns) grows by one. |
| Contexts.CheckWords | wordle_contexts.py:216-221 | Raises iff some word has a character outside a to z. |
| Contexts.CheckWordListSolutions | wordle_contexts.py:223-244 | Raises only the repeat, illegal-letter and missing-solution errors. Which one, and exactly when, is stated by CheckRepeats, CheckLetters, CheckMissing and CheckAccepts. |
| Contexts.CheckRepeats | wordle_contexts.py:223-234 | A word list with repeats is reported first, then solutions with repeats. |
| Contexts.CheckLetters | wordle_contexts.py:216-240 | With no repeats, the check reports an illegal letter in two cases: in a solution, or in a word list that is not the all-words token. |
| Contexts.CheckMissing | wordle_contexts.py:239-244 | The missing-solution error is raised iff the other checks pass, the word list is not the token, and some solution is not in the word list. |
| Contexts.CheckAccepts | wordle_contexts.py:223-244 | The check returns normally iff there are no repeats, the solutions are over a to z, and the word list is either the all-words token or over a to z and holds every solution. |
| Contexts.Context.LoadGuessData | wordle_contexts.py:254-266 | The cache is read once. A missing file gives the empty tree. |
| Contexts.Lookup | wordle_contexts.py:284-307 | When the turn path is missing from the tree, the answer is (None, [], []). Otherwise the guess and foil lists have equal length, and the rank is None iff there are no guesses. The only error is a rank disagreement, raised iff the node reached holds two entries with different ranks (LookupFails). |
| Contexts.FindGuesses | wordle_contexts.py:284-307 | The two loops of load_guesses, the walk and the collection, compute Lookup. |
| Contexts.Context.LoadGuesses | wordle_contexts.py:278-307 | Loads the cache if none is loaded yet: the stored tree, or the empty tree when the file is missing. An already-loaded cache is kept. Answers Lookup on that tree for the recorded turns. |
| Contexts.Context.Refill | wordle_contexts.py:327-335 | The insertion loop into the cleared node builds Fill. |
| Contexts.FillDistinct | wordle_contexts.py:327-335 | For pairs with different guesses, the filled node holds one entry per pair, in the same order, each with the given rank and its foil. |
| Contexts.Context.SaveGuessesInternal | wordle_contexts.py:309-335 | The node at the recorded turns is replaced by the sorted (guess, foil) pairs, each with the given rank. Nothing changes when the first guessed word is absent. When a later one is absent, only empty feedback branches are added on the way (as the source's `setdefault` calls do), and load_guesses still finds nothing there. SaveGuesses never passes two or more turns. |
| Contexts.GraftReached | wordle_contexts.py:311-326 | When every guessed word is found along the path, the recorded turns lead to the node put in place. |
| Contexts.GraftUnreached | wordle_contexts.py:311-326 | When a guessed word is missing, the turns lead nowhere, both before and after saving. |
| Contexts.GraftOthers | wordle_contexts.py:311-326 | Saving keeps the key order and every other entry. In the entry it descends through, the rank, the foil and the other feedback branches stay as they were. |
| Contexts.SaveThenLoad | wordle_contexts.py:284-335 | Saving distinct guesses and then loading at the same turns gives back the rank and the zipped guesses in strictly ascending order, each with its foil. These pairs are a permutation of the zipped input. |
| Contexts.SaveUnreached | wordle_contexts.py:309-326 | Saving at turns whose path is missing leaves load_guesses answering (None, [], []) there, as before. |
| Contexts.Context.SaveGuesses | wordle_contexts.py:337-348 | Nothing is saved once more than one turn is recorded. Otherwise the cache is re-read from storage and the guesses are saved into it. |
| Contexts.Context.SolutionsAreValid | wordle_contexts.py:355-388 | Of get_solutions (GetSolutions: the word list in naive mode, the solutions otherwise) and is_valid_word (IsValidWord: a length test for the all-words token, otherwise membership in the word list): every offered solution is a valid word if the lists were accepted, the solutions have the context's length, and the token is not used in naive mode. |
| Ordering.Sorted | wordle_contexts.py:331 | `sorted` returns an ascending permutation of its input. |
| Ordering.InsertAscending | wordle_contexts.py:331 | Inserting into an ascending list keeps it ascending and adds exactly one element. |
| Ordering.BelowTotal | wordle_contexts.py:331 | Python's string order is total on different strings, which makes `sorted` well defined. |
| Words.InAlphabet | wordle_contexts.py:219-221 | Every character is in the alphabet string iff every character is between a and z. |
| Words.ElementsSize | wordle_contexts.py:226-234 | A list and its set have the same size iff the list has no repeats. |
| ResultFormat.IsResult | wordle_main.py:32-41 | The check returns false when the length differs from the word length or when some character is not b, g or y; otherwise it returns true. At word length L it accepts exactly the feedback strings (AcceptsFeedback), and its verdict depends only on the length and on which characters occur (OnlyLengthAndLetters). |
| ResultFormat.AcceptsTable | wordle_main.py:32-41 | Every member of RESULTS is accepted. |
| ResultFormat.ReorderedResult | wordle_main.py:32-41 | Any reordering of a result is accepted iff the result is. |
| Scraper.CheckSolutionsWordLists | wordle_scraper.py:94-119 | The lists pass iff every word has length 5 and only letters a to z, neither list repeats a word, and every solution is in the word list. |
| Scraper.ScanWords | wordle_scraper.py:96-104 | The scan passes iff every word has length 5 and only letters from a to z. |
| Scraper.ScanFirstBad | wordle_scraper.py:96-104 | The first bad word decides the error: wrong length, or an illegal letter. |
| Scraper.CheckBadOrRepeated | wordle_scraper.py:94-115 | The checks come in order. A bad word in either list comes first, then repeated solutions, then a repeated word list. |
| Scraper.CheckMissingSolution | wordle_scraper.py:106-119 | Otherwise the check raises the missing-solution error iff some solution is missing from the word list. |
| Scraper.ScrapedListsAccepted | wordle_scraper.py:94-119 | Lists the scraper accepts also pass the context's `_check_word_list_solutions`. |

## Left out

- The set views of `WordGroup` (`__len__`, `__contains__`, `__bool__`, `__iter__`, `__repr__`) are the `wordList` field itself.
- The `indexes` list in `filter_solutions` is built but never read, and is not modelled.
- The conversion of index buckets to `frozenset` does not change their contents, and is not modelled.
- The indices are flat maps keyed by (position, letter) and (letter, count), not nested dictionaries. IndicesExact states what each bucket holds.
- Words are visited in an unspecified order. Python's set iteration order is unspecified, so guesses and solutions are sets, and loops over them pick any element. The only order that matters is the foil tie-break, which follows RESULTS.
- The `__debug__` bookkeeping of `guess_rank` (`total` and its assertions) is not executed; Parts.PartitionSizes and Parts.PartsDisjoint prove the facts it checks.
- Console output, timing and progress printing in `best_guesses` are not modelled.
- WordGroups.WordGroup.constructor: requires every word to be L lower-case letters, a stricter demand than the source makes. In `calculate_stats`, a word shorter than L fails with IndexError on `word[index]` (wordle_solver.py:55), and a character outside a to z fails with KeyError, there or at `_letter_count[letter][count]` (wordle_solver.py:80). A longer word of lower-case letters is accepted: it stays in the group, indexed by its first L positions, unless a letter occurs more than L times, which fails with KeyError at line 80. Such longer words are not modelled, although a context may be configured with another length.
- WordGroups.WordGroup.GuessRank: requires a non-empty set. On an empty set the source fails its `assert rank`.
- Search.BestGuesses: requires two distinct group objects. Passing the same group twice is not modelled.
- `ask_context` and `get_all_contexts` are interactive input and enumeration, and are not modelled.
- Reading and writing files is not modelled: `load_words`, `save_words`, `_load_word_list_solutions`, the hjson dump, the temporary file, its `FileExistsError`, `os.replace` and the file locks.
- Contexts.Context.LoadGuessData: the tree stored in the file is a parameter.
- Contexts.Context.SaveGuesses: the tree stored in the file is a parameter, and writing the tree back is not modelled.
- Contexts.Context.GetSolutions: the word list and solutions are parameters, because loading them is I/O; `.copy()` has no effect on values.
- Contexts.Context.IsValidWord: the word list is a parameter, for the same reason.
- `name`, `_guesses_filename`, `get_word_list`, `get_guess_group` and `get_solution_group` are not modelled. `name` is a table lookup, `_guesses_filename` a path format, and `get_word_list` loads the word list from a file, which is I/O. `get_guess_group` calls `AllWordsGuessGroup`, which wordle_solver.py does not define (wordle_contexts.py:369). Otherwise it and `get_solution_group` call `GuessGroup` and `SolutionGroup` with two arguments (wordle_contexts.py:371, 378, 380), but the only constructor those classes have, `WordGroup.__init__` (wordle_solver.py:13), takes the word list alone.
- The re-sorting of `next_turn` keys with `_result_key` is not modelled; `_result_key` is not defined in wordle_solver.py, so `next_turn` is an unordered map.
- Contexts.Context.SaveGuessesInternal: the walk through nested dictionaries, which updates them in place, is modelled as a value update (`Graft`) of the whole tree. This is equivalent as long as the tree shares no sub-dictionaries, which holds for a tree read from JSON.
- A cache entry always has a rank and a foil. The KeyError raised for a malformed entry is not modelled.
- Errors are modelled by reason, not by message text. For `_check_words`, which word is reported depends on set order. For the scraper's checks, the format code `r` in the message itself raises ValueError before the intended message is built, so only the exception type is reliable.
- `is_result` takes the word length instead of the whole context.
