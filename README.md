# Letter Boxed puzzle solver, modelled in Dafny

This project models the core of a Letter Boxed puzzle solver. A puzzle is a
list of sides, each a set of letters. A word is playable when each letter
after the first lies on a different side from the letter before it. A
solution is a chain of dictionary words in which each word starts with the
last letter of the word before it and which together use every letter of
the board.

The model covers three parts:

- **The board** (`board.dfy`). The puzzle's argument checks and the
  adjacency map built from the sides. For each letter, the map holds the
  letters that may follow it.
- **The solution checker** (`checker.dfy`). An object holding the letters
  not yet used. `checkWord` walks one word through the adjacency map and
  removes the letters it accepts. `checkSolution` chains the words and
  classifies the result as valid, incomplete or invalid. Both methods are
  proved against functions of the old remaining-letter set
  (`CheckWordOutcome`, `CheckSolutionOutcome`). The properties are lemmas
  about those functions.
- **The solver** (`solver.dfy`). The solver first filters the dictionary, in
  sections, to the words playable on their own. It sorts them into the
  candidate pool, letter-efficient words first, and takes a window of the
  first `3 * threadCount` candidates. For each candidate it checks every
  two-word chain the candidate can start. It also checks the word alone,
  but only when the candidate's remaining-letter set is empty. It keeps
  the valid solutions and ranks them by the solution order.

The values of the core are datatypes:

- `PuzzleModels.PuzzleSolutionResult` has three cases: valid, incomplete with its remaining letters, and invalid with a message. It models the sealed class and its subclasses at `PuzzleModels.kt:1`, `:19` and `:36-37`.
- `PuzzleModels.CheckedWordResult` has two cases: a valid word with its remaining letters, and an invalid word with a message (`PuzzleModels.kt:38` and `:52-53`).
- `Solver.BoxedWords` is a candidate word paired with the puzzle letters it leaves unused (`LetterBoxedPuzzleSolver.kt:3`).
- `WordDictionary.Dictionary` is the dictionary's word list (`Dictionary.kt:7-9`).

The result values and the solution order are in `puzzle_models.dfy`.
Kotlin's `sorted()`, modelled as a stable insertion sort, is in
`sorting.dfy`. The dictionary's word list and membership test are in
`word_dictionary.dfy`. String helpers are in `strings.dfy`, and the
Option/Result types are in `wrappers.dfy`.

Thrown exceptions are modelled as `Failure` results:

- a puzzle that fails its argument checks (`NewPuzzle`);
- a dictionary with fewer words than threads, for which `chunked` gets a
  section size of zero (`FindPossibleWords`);
- a candidate pool shorter than the window, which makes `subList` throw
  (`TopSolutions`).

The model keeps two quirks of the code:

- **Only the first window is searched.** `findTopSolutions` computes the
  next window's bounds (`LetterBoxedPuzzleSolver.kt:59-60`) but has no loop
  that reads them. `stopEarly` therefore never changes the result
  (`FindTopSolutions`).
- **No tie-break on the words.** The solution order
  (`PuzzleModels.kt:25-33`) compares the number of repeated characters,
  then the length of the joined words. Two different solutions can
  therefore compare equal.

## Model

| member | source | states |
|---|---|---|
| WordDictionary.Dictionary.ValidWord | src/main/kotlin/Dictionary.kt:15-17 | Definition of `validWord`: the word occurs in the dictionary's list |
| Board.CheckArguments | src/main/kotlin/LetterBoxedPuzzle.kt:85-96 | Passes exactly for a non-empty list of sides whose first side has at least two letters and whose sides all have that size; otherwise fails with the message of the first check that fails, in the source's order |
| Board.Letters | src/main/kotlin/LetterBoxedPuzzle.kt:101 | Definition of `sides.flatten().toSet()`: the letters lying on some side |
| Board.LastSideOf | src/main/kotlin/LetterBoxedPuzzle.kt:99-103 | The side a letter takes its adjacency from: a side holding the letter, with no later side holding it |
| Board.ExtendAdjacency | src/main/kotlin/LetterBoxedPuzzle.kt:99-103 | Processing one more side maps each of its letters to every puzzle letter not on that side; the map then describes the first `n + 1` sides |
| Board.BuildTree | src/main/kotlin/LetterBoxedPuzzle.kt:98-104 | The keys are exactly the puzzle's letters; a letter maps to all puzzle letters except those of the last side holding it (later sides overwrite earlier ones) |
| Board.AdjacencyClosed | src/main/kotlin/LetterBoxedPuzzle.kt:98-104 | Every letter reachable in the adjacency map is itself a key, so the walk in `checkWord` never looks up a missing key |
| Board.NoLetterFollowsItself | src/main/kotlin/LetterBoxedPuzzle.kt:101 | No letter may follow itself |
| Board.AdjacencyOfDisjointSides | src/main/kotlin/LetterBoxedPuzzle.kt:98-104 | On a board whose sides share no letter, the letters that may follow `c` are exactly those on the other sides |
| Board.LetterBoxedPuzzle.constructor | src/main/kotlin/LetterBoxedPuzzle.kt:74-83 | From well-formed sides, builds a puzzle that keeps the sides and holds their adjacency map |
| Board.NewPuzzle | src/main/kotlin/LetterBoxedPuzzle.kt:80-96 | Fails exactly when the argument checks fail, with their message; otherwise returns a fresh, valid puzzle on the given sides |
| Checker.Walk | src/main/kotlin/LetterBoxedPuzzle.kt:39-46 | The number of letters the loop accepts, never more than the word's length |
| Checker.WalkIsLongestLegalPrefix | src/main/kotlin/LetterBoxedPuzzle.kt:39-46 | The accepted letters form a legal prefix, each allowed after its predecessor, and the letter where the walk stops is not allowed |
| Checker.WalkCompleteIffLegal | src/main/kotlin/LetterBoxedPuzzle.kt:39-46 | The walk accepts every letter if and only if the whole letter sequence is legal |
| Checker.WalkedLetters | src/main/kotlin/LetterBoxedPuzzle.kt:26-32 | Definition of the letters `checkWord` walks: the word without its first letter when an initial letter is given (`removeFirst`), else the whole word |
| Checker.StartingLetters | src/main/kotlin/LetterBoxedPuzzle.kt:34-38 | Definition of the initial `possibleLetters`: the initial letter's adjacency entry, else every puzzle letter |
| Checker.CheckWordGuards | src/main/kotlin/LetterBoxedPuzzle.kt:19-31 | An empty word, a word not in the dictionary, an initial letter not on the board and a word not starting with the initial letter are each rejected with their own message, and the remaining letters do not change |
| Checker.CheckWordShrinks | src/main/kotlin/LetterBoxedPuzzle.kt:18-48 | Checking a word never adds letters back, and the result names the word checked |
| Checker.CheckWordValidIff | src/main/kotlin/LetterBoxedPuzzle.kt:26-47 | Once past the guards, a word is valid exactly when its walked letters are legal from the starting set. Its walked letters, and only those, then leave the remaining set, and the result carries that set |
| Checker.CheckWordKeepsPartialRemovals | src/main/kotlin/LetterBoxedPuzzle.kt:39-46 | A word rejected during the walk is rejected at the first letter that is not allowed, with the cannot-form message; the letters accepted before that stay removed |
| Checker.CheckWordOutcome | src/main/kotlin/LetterBoxedPuzzle.kt:18-48 | Definition of `checkWord` on a given remaining set: the result and the remaining set afterwards. Its properties are the `CheckWord...` lemmas |
| Checker.ChainOutcome | src/main/kotlin/LetterBoxedPuzzle.kt:53-65 | Definition of the word loop of `checkSolution`: it stops at the first invalid word, and each later word must start with the previous word's last letter. Its properties are the `Chain...` lemmas |
| Checker.CheckSolutionOutcome | src/main/kotlin/LetterBoxedPuzzle.kt:53-71 | Definition of `checkSolution`: invalid with the message of the breaking word, else valid when no letter remains and incomplete otherwise. Its properties are `SolutionCompleteness` and `SolutionLinks` |
| Checker.ChainLinks | src/main/kotlin/LetterBoxedPuzzle.kt:53-65 | An unbroken chain holds only non-empty dictionary words, each starting with the last letter of the one before and the first with the initial letter |
| Checker.ChainRemovesItsLetters | src/main/kotlin/LetterBoxedPuzzle.kt:55-65 | When the initial letter, if any, is no longer remaining, an unbroken chain removes exactly the letters of its words from the remaining set |
| Checker.ChainOfConcat | src/main/kotlin/LetterBoxedPuzzle.kt:55-65 | The chain stops at the first invalid word and ignores the words after it; an unbroken chain continues from its last word's last letter and its remaining letters |
| Checker.SolutionCompleteness | src/main/kotlin/LetterBoxedPuzzle.kt:53-71 | A word list that passes every word check is valid exactly when its words cover the remaining letters; if incomplete, it reports exactly the letters they miss |
| Checker.SolutionLinks | src/main/kotlin/LetterBoxedPuzzle.kt:53-65 | A valid or incomplete solution consists of dictionary words, each linked to the previous word's last letter |
| Checker.LetterBoxedSolutionChecker.constructor | src/main/kotlin/LetterBoxedPuzzle.kt:3-12 | A new checker has every puzzle letter remaining |
| Checker.LetterBoxedSolutionChecker.Reset | src/main/kotlin/LetterBoxedPuzzle.kt:14-16 | After a reset every puzzle letter is remaining again |
| Checker.LetterBoxedSolutionChecker.CheckWord | src/main/kotlin/LetterBoxedPuzzle.kt:18-48 | The result and the new remaining letters are those of `CheckWordOutcome` from the old remaining letters, which only shrink |
| Checker.LetterBoxedSolutionChecker.WalkLetters | src/main/kotlin/LetterBoxedPuzzle.kt:39-46 | The letter loop accepts the whole word exactly when `Walk` reaches its end, and removes exactly the letters `Walk` accepted |
| Checker.LetterBoxedSolutionChecker.CheckSolution | src/main/kotlin/LetterBoxedPuzzle.kt:53-71 | The result and the new remaining letters are those of `CheckSolutionOutcome` from the old remaining letters |
| Checker.ReplayAfterReset | src/main/kotlin/LetterBoxedPuzzle.kt:10-16 | A reset checker gives the same result on a word list as a freshly built one, namely `checkSolution` from the full letter set, and ends in the state that run leaves |
| PuzzleModels.JoinLength | src/main/kotlin/PuzzleModels.kt:20 | The joined string's length is the total length of the words plus two per separator |
| PuzzleModels.JoinToString | src/main/kotlin/PuzzleModels.kt:20 | Definition of `joinToString()`: the words separated by a comma and a space. Its length is `JoinLength` |
| PuzzleModels.SolutionCharacterCount | src/main/kotlin/PuzzleModels.kt:20 | The character count is the words' total length plus two characters per separator |
| PuzzleModels.CountCharacterOverlap | src/main/kotlin/PuzzleModels.kt:21-23 | The overlap lies between zero and the character count, and is zero exactly when no character of the joined string repeats |
| PuzzleModels.CompareSolutions | src/main/kotlin/PuzzleModels.kt:25-33 | Returns -1, 0 or 1. It is negative exactly when the first solution has less overlap, or equal overlap and fewer characters, and zero exactly when both measures agree |
| PuzzleModels.IntCompareTo | src/main/kotlin/PuzzleModels.kt:31 | Definition of `Int.compareTo`: -1, 0 or 1 by the sign of the difference |
| PuzzleModels.CompareSolutionsAntisymmetric | src/main/kotlin/PuzzleModels.kt:25-33 | Swapping the solutions negates the comparison |
| PuzzleModels.CompareSolutionsTransitive | src/main/kotlin/PuzzleModels.kt:25-33 | The solution order is transitive, strictly so when either step is strict |
| Strings.Chars | src/main/kotlin/PuzzleModels.kt:22 | Definition of `toSet()` on a string: its distinct characters |
| Strings.Last | src/main/kotlin/LetterBoxedPuzzle.kt:58 | Definition of `last()`: the final character, for a non-empty string |
| Sorting.SortBy | src/main/kotlin/LetterBoxedPuzzleSolver.kt:62 | `sorted()` returns a permutation of its input |
| Sorting.SortBySorted | src/main/kotlin/LetterBoxedPuzzleSolver.kt:62 | Under a total preorder, the output of `sorted()` is in order |
| Sorting.SortByElements | src/main/kotlin/LetterBoxedPuzzleSolver.kt:62 | Sorting keeps exactly the input's elements |
| Sorting.InsertBy | src/main/kotlin/LetterBoxedPuzzleSolver.kt:62 | One insertion step of the sort: adds exactly one copy of the element |
| Sorting.InsertBySorted | src/main/kotlin/LetterBoxedPuzzleSolver.kt:62 | Under a total preorder, inserting into a sorted list keeps it sorted |
| Sorting.InsertByStable | src/main/kotlin/LetterBoxedPuzzleSolver.kt:62 | Inserting into a sorted list keeps the elements tied with any value in their order, and puts the new element after those it ties with |
| Sorting.SortByStable | src/main/kotlin/LetterBoxedPuzzleSolver.kt:62 | `sorted()` is stable: the elements that compare equal to any given value come out in their input order |
| Solver.StringCompareToZero | src/main/kotlin/LetterBoxedPuzzleSolver.kt:9 | String comparison is zero exactly for equal strings |
| Solver.StringCompareToAntisymmetric | src/main/kotlin/LetterBoxedPuzzleSolver.kt:9 | Swapping the strings negates the comparison |
| Solver.StringCompareToTransitive | src/main/kotlin/LetterBoxedPuzzleSolver.kt:9 | String order is transitive |
| Solver.StringCompareTo | src/main/kotlin/LetterBoxedPuzzleSolver.kt:9 | Definition of `String.compareTo`: the difference of the first differing characters, else of the lengths. Its properties are the three lemmas above |
| Solver.BoxedCompareTo | src/main/kotlin/LetterBoxedPuzzleSolver.kt:3-13 | Negative exactly when the first candidate has fewer remaining letters, or as many and a smaller word; zero exactly for equal counts and equal words |
| Solver.BoxedOrderIsTotalPreorder | src/main/kotlin/LetterBoxedPuzzleSolver.kt:3-13 | The candidate order is antisymmetric, total and transitive |
| Solver.SolutionOrderIsTotalPreorder | src/main/kotlin/PuzzleModels.kt:25-33 | The solution order is total and transitive, so ranking by it is well defined |
| Solver.PossibleWordsMembership | src/main/kotlin/LetterBoxedPuzzleSolver.kt:136-160 | A candidate is exactly a word of the section that passes the dictionary check and is legal on the board, paired with the puzzle letters it does not use |
| Solver.PossibleWordsOfConcat | src/main/kotlin/LetterBoxedPuzzleSolver.kt:118-129 | Filtering two sections and merging the results equals filtering their concatenation |
| Solver.PossibleWords | src/main/kotlin/LetterBoxedPuzzleSolver.kt:136-160 | Definition of what `findPossibleWordsPartitioned` collects from a section. Its properties are `PossibleWordsMembership` and `PossibleWordsOfConcat` |
| Solver.PoolWordsNonEmpty | src/main/kotlin/LetterBoxedPuzzleSolver.kt:74 | Every candidate word is non-empty, so `first()` and `last()` on it cannot throw |
| Solver.ChunkedFlatten | src/main/kotlin/LetterBoxedPuzzleSolver.kt:119 | The sections made by `chunked` together are the whole word list, in order |
| Solver.Chunked | src/main/kotlin/LetterBoxedPuzzleSolver.kt:119 | Definition of `chunked(size)`: consecutive sections of `size` words, the last possibly shorter. Its property is `ChunkedFlatten` |
| Solver.SectionSizeZero | src/main/kotlin/LetterBoxedPuzzleSolver.kt:119 | The section size is zero exactly when there are fewer words than threads |
| Solver.NextWordsMembership | src/main/kotlin/LetterBoxedPuzzleSolver.kt:74 | The successors are exactly the pool words starting with the given letter |
| Solver.NextWords | src/main/kotlin/LetterBoxedPuzzleSolver.kt:74 | Definition of the successor filter, in pool order. Its property is `NextWordsMembership` |
| Solver.PairResultsElement | src/main/kotlin/LetterBoxedPuzzleSolver.kt:89-91 | The `i`-th pair result is the check of the candidate followed by the `i`-th successor |
| Solver.PairResults | src/main/kotlin/LetterBoxedPuzzleSolver.kt:89-91 | One result per successor, in successor order |
| Solver.ValidOnlyMembership | src/main/kotlin/LetterBoxedPuzzleSolver.kt:47 | `filterIsInstance<ValidPuzzleSolution>()` keeps exactly the valid solutions |
| Solver.ValidOnly | src/main/kotlin/LetterBoxedPuzzleSolver.kt:47 | Definition of `filterIsInstance<ValidPuzzleSolution>()`, keeping order. Its property is `ValidOnlyMembership` |
| Solver.BestIncompleteIsFirstMinimum | src/main/kotlin/LetterBoxedPuzzleSolver.kt:98-103 | The kept alternative is the first incomplete result with the fewest remaining letters, and there is none exactly when no result is incomplete |
| Solver.Better | src/main/kotlin/LetterBoxedPuzzleSolver.kt:98-103 | Definition of one `bestAlternateSolution` update: an incomplete result with strictly fewer remaining letters replaces the kept one |
| Solver.BestIncomplete | src/main/kotlin/LetterBoxedPuzzleSolver.kt:98-103 | The kept alternative, when there is one, is an incomplete result from the list |
| Solver.CandidateSolutionsShape | src/main/kotlin/LetterBoxedPuzzleSolver.kt:109-115 | A candidate's results are never invalid. They are all valid when any is; otherwise they are at most the single best incomplete pair |
| Solver.CandidateSolutionsIncludeFinds | src/main/kotlin/LetterBoxedPuzzleSolver.kt:80-96 | Complete for the candidate: the word alone (when its remaining set is empty) and every chain with a pool word starting with its last letter are returned whenever they check valid |
| Solver.CandidateSolutionsFallback | src/main/kotlin/LetterBoxedPuzzleSolver.kt:98-115 | When neither the word alone nor any pair checks valid, the result is the single best incomplete pair, or empty when there is none |
| Solver.SingleWordSolutions | src/main/kotlin/LetterBoxedPuzzleSolver.kt:80-87 | Definition of the one-word check: kept only when the remaining set is empty and the word checks valid |
| Solver.Assemble | src/main/kotlin/LetterBoxedPuzzleSolver.kt:109-115 | Definition of the final choice: the valid results if any, else the best alternative if any, else nothing |
| Solver.CandidateSolutions | src/main/kotlin/LetterBoxedPuzzleSolver.kt:67-116 | Definition of what `checkWordsForSolution` returns for a pool. Its properties are the `CandidateSolutions...` lemmas |
| Solver.SolvedChainIsComplete | src/main/kotlin/LetterBoxedPuzzle.kt:53-71 | A valid solution checked from the full letter set is a linked chain of dictionary words, and every puzzle letter lies in one of its words |
| Solver.Solve | src/main/kotlin/LetterBoxedPuzzleSolver.kt:70-91 | Definition of `checkSolution` on a fresh or reset checker, which holds every puzzle letter. Its properties are `SolvedChainIsComplete` and `CheckThenReset` |
| Solver.CandidateSolutionsAreCompleteChains | src/main/kotlin/LetterBoxedPuzzleSolver.kt:67-116 | Each valid solution found for a candidate is the candidate alone, or the candidate followed by a pool word starting with its last letter. It is a linked chain of dictionary words covering every puzzle letter |
| Solver.WindowFinds | src/main/kotlin/LetterBoxedPuzzleSolver.kt:40-50 | Definition of the per-candidate finds: the valid part of each window candidate's results, in window order (the order the results are awaited). Its properties are the `WindowSolutions...` lemmas |
| Solver.WindowSolutions | src/main/kotlin/LetterBoxedPuzzleSolver.kt:36-51 | Definition of the gathered solutions: the window candidates' valid results joined in window order. Its properties are the `WindowSolutions...` lemmas |
| Solver.WindowSolutionsSnoc | src/main/kotlin/LetterBoxedPuzzleSolver.kt:45-51 | Awaiting one more candidate appends its valid results to those gathered so far |
| Solver.WindowSolutionsFromCandidates | src/main/kotlin/LetterBoxedPuzzleSolver.kt:40-51 | Everything gathered from the window is a valid solution found for one of its candidates |
| Solver.WindowSolutionsIncludeCandidates | src/main/kotlin/LetterBoxedPuzzleSolver.kt:40-51 | Every valid solution found for a window candidate is gathered |
| Solver.TopSolutions | src/main/kotlin/LetterBoxedPuzzleSolver.kt:31-62 | Definition of the search result: fails when the pool is shorter than the window, otherwise the valid solutions found in the window, sorted. Its properties are the `TopSolutions...` lemmas |
| Solver.TopSolutionsRanked | src/main/kotlin/LetterBoxedPuzzleSolver.kt:26-65 | The search succeeds exactly when the pool fills the window. It then returns only valid solutions, ranked, as a permutation of those found in the window |
| Solver.FirstWindowSolutions | src/main/kotlin/LetterBoxedPuzzleSolver.kt:31-51 | Definition of the solutions gathered from the first `bufferSize` candidates |
| Solver.TopSolutionsStable | src/main/kotlin/LetterBoxedPuzzleSolver.kt:37-62 | The returned solutions that compare equal to any given solution keep the order they were gathered in: window order, and for each candidate the word alone before its pairs in successor order |
| Solver.TopSolutionsIncludeWindowFinds | src/main/kotlin/LetterBoxedPuzzleSolver.kt:40-62 | Every valid result of a window candidate is returned |
| Solver.TopSolutionsIncludeValidChains | src/main/kotlin/LetterBoxedPuzzleSolver.kt:40-116 | Complete over the window: for a window candidate, the word alone (when its remaining set is empty) and each chain with a pool word starting with its last letter are returned whenever they check valid |
| Solver.TopSolutionsFromWindow | src/main/kotlin/LetterBoxedPuzzleSolver.kt:38-62 | Every returned solution starts with one of the first `bufferSize` pool words. It is a linked chain of non-empty words covering every puzzle letter |
| Solver.LetterBoxedPuzzleSolver.constructor | src/main/kotlin/LetterBoxedPuzzleSolver.kt:15-24 | A new solver has an empty word pool |
| Solver.LetterBoxedPuzzleSolver.FindPossibleWordsPartitioned | src/main/kotlin/LetterBoxedPuzzleSolver.kt:136-160 | Returns exactly the candidates of the section (none for an empty section), using one checker reset after every word |
| Solver.LetterBoxedPuzzleSolver.SortedCandidates | src/main/kotlin/LetterBoxedPuzzleSolver.kt:131 | The candidate set as a list in candidate order, holding each candidate once |
| Solver.LetterBoxedPuzzleSolver.FindPossibleWords | src/main/kotlin/LetterBoxedPuzzleSolver.kt:118-134 | Fails exactly when there are fewer words than threads; otherwise returns every candidate of the whole dictionary once, in candidate order |
| Solver.LetterBoxedPuzzleSolver.CheckThenReset | src/main/kotlin/LetterBoxedPuzzleSolver.kt:89-108 | A check followed by a reset gives the result of a checker holding every letter and leaves the checker holding every letter again |
| Solver.LetterBoxedPuzzleSolver.CheckPairs | src/main/kotlin/LetterBoxedPuzzleSolver.kt:89-108 | The loop over the successors appends the valid pair results in order and keeps the best incomplete one |
| Solver.LetterBoxedPuzzleSolver.CheckWordsForSolution | src/main/kotlin/LetterBoxedPuzzleSolver.kt:67-116 | Returns `CandidateSolutions` for the current pool. That value never holds an invalid result (`CandidateSolutionsShape`), holds every valid one-word and two-word chain from the candidate (`CandidateSolutionsIncludeFinds`), and otherwise holds the best incomplete pair (`CandidateSolutionsFallback`) |
| Solver.LetterBoxedPuzzleSolver.SearchWindow | src/main/kotlin/LetterBoxedPuzzleSolver.kt:38-51 | Gathers the valid results of every window candidate, in window order |
| Solver.LetterBoxedPuzzleSolver.FindTopSolutions | src/main/kotlin/LetterBoxedPuzzleSolver.kt:26-65 | Fails, leaving the pool unchanged, when there are fewer words than threads. Otherwise the pool is every candidate of the dictionary in candidate order, and the result is `TopSolutions` of the first `3 * threadCount` candidates, whatever `stopEarly` is |

## Left out

- Reading and sanitising the dictionary file, and `Main`, are not part of this model. The dictionary is its word list, and `validWord` is list membership.
- Coroutines: the tasks of `findPossibleWords` and `findTopSolutions` run one after another. Each task has its own checker, as in the source, so the order of completion does not change the sets gathered. Thread-pool scheduling is not modelled.
- `println` output and the `print` methods of the result classes are not modelled.
- The puzzle's `TreeMap` is a `map`. Its key order is never observed by the core.
- Characters are Dafny `char` values. `StringCompareTo` subtracts code points, which agrees with Kotlin's comparison of UTF-16 code units for words from the Basic Multilingual Plane; the model assumes dictionary words are drawn from it.
- Solver.LetterBoxedPuzzleSolver.constructor: requires `threadCount >= 1`, because `limitedParallelism` rejects anything smaller. The rejection is not modelled as a result.
- The sets of solutions in `checkWordsForSolution` and `findTopSolutions` are sequences. `mutableSetOf` builds a `LinkedHashSet`, which iterates in insertion order, and `ValidPuzzleSolution` has no value equality, so those sets never merge two results. A sequence in insertion order therefore keeps both the elements and their order (`TopSolutionsStable`).
- The set of candidate words is a `set` of values, as the data class `BoxedWords` has value equality.
- `remainingLetters` in a `ValidWord` or `IncompletePuzzleSolution` is a snapshot of the checker's set. The source hands out the checker's live set (`LetterBoxedPuzzle.kt:47`, `:69`). A result kept while the same checker goes on checking without a reset therefore loses the letters those checks remove (`:42`); the snapshot does not. The solver resets after every check (`LetterBoxedPuzzleSolver.kt:86`, `:107`, `:153`), `reset` assigns a fresh set (`LetterBoxedPuzzle.kt:15`), and `checkSolution` drops its per-word results, so no result the core keeps is affected.
- The exception texts of `chunked` and `subList` are stand-in constants. Only the failure itself and its condition are modelled.
- `threadCount * 3` is a Kotlin `Int` product, which wraps for `threadCount > 715,827,882`. The model computes it without wrapping. In the source the wrapped size is either negative, and `subList` throws, or smaller than intended.
- Solver.NextWords: tests `|word| > 0` before reading the first letter, where Kotlin's `first()` would throw. No pool word is empty (`PoolWordsNonEmpty`), so the two agree on every pool the solver builds.
- Solver.LetterBoxedPuzzleSolver.FindTopSolutions: sorts the candidates twice, as the source does (`sorted()` in `findPossibleWords` and again on its result). The second sort is stable and changes nothing; this is not stated as a lemma.
