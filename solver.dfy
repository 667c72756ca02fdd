/**
 * The search: filter the dictionary to the words playable on their own,
 * pair each of the best candidates with its successors, and rank the
 * complete solutions found. The source runs these steps as parallel tasks,
 * each with its own checker; here they run one after another.
 */
module Solver {
  import opened Wrappers
  import opened Strings
  import opened Sorting
  import opened PuzzleModels
  import opened WordDictionary
  import opened Board
  import opened Checker

  // ---------------------------------------------------------------------
  // Candidate words and their order

  /** A playable word with the letters it leaves unused when played alone. */
  datatype BoxedWords = BoxedWords(word: string, remainingLetters: set<char>)

  /**
   * Kotlin's `String.compareTo`: the difference of the first differing
   * characters, or else the difference of the lengths.
   */
  function StringCompareTo(a: string, b: string): int
    decreases |a|
  {
    if |a| == 0 || |b| == 0 then |a| - |b|
    else if a[0] != b[0] then a[0] as int - b[0] as int
    else StringCompareTo(a[1..], b[1..])
  }

  lemma {:induction false} StringCompareToZero(a: string, b: string)
    ensures StringCompareTo(a, b) == 0 <==> a == b
    decreases |a|
  {
    if |a| > 0 && |b| > 0 && a[0] == b[0] {
      StringCompareToZero(a[1..], b[1..]);
      assert a == [a[0]] + a[1..] && b == [b[0]] + b[1..];
    }
  }

  lemma {:induction false} StringCompareToAntisymmetric(a: string, b: string)
    ensures StringCompareTo(a, b) == -StringCompareTo(b, a)
    decreases |a|
  {
    if |a| > 0 && |b| > 0 && a[0] == b[0] {
      StringCompareToAntisymmetric(a[1..], b[1..]);
    }
  }

  lemma {:induction false} StringCompareToTransitive(a: string, b: string, c: string)
    requires StringCompareTo(a, b) < 0 && StringCompareTo(b, c) < 0
    ensures StringCompareTo(a, c) < 0
    decreases |a|
  {
    if |a| > 0 && |b| > 0 && |c| > 0 && a[0] == b[0] && b[0] == c[0] {
      StringCompareToTransitive(a[1..], b[1..], c[1..]);
    }
  }

  /**
   * `BoxedWords.compareTo`: fewer remaining letters first, then the word
   * in string order; zero only for equal counts and equal words.
   */
  function BoxedCompareTo(a: BoxedWords, b: BoxedWords): (r: int)
    ensures r < 0 <==>
      || |a.remainingLetters| < |b.remainingLetters|
      || (|a.remainingLetters| == |b.remainingLetters| && StringCompareTo(a.word, b.word) < 0)
    ensures r == 0 <==> |a.remainingLetters| == |b.remainingLetters| && a.word == b.word
  {
    StringCompareToZero(a.word, b.word);
    if |a.remainingLetters| < |b.remainingLetters| then -1
    else if |a.remainingLetters| > |b.remainingLetters| then 1
    else StringCompareTo(a.word, b.word)
  }

  predicate BoxedLe(a: BoxedWords, b: BoxedWords)
  {
    BoxedCompareTo(a, b) <= 0
  }

  /** The candidate order is antisymmetric and transitive, so sorting by it is well defined. */
  lemma BoxedOrderIsTotalPreorder()
    ensures forall a, b :: BoxedCompareTo(a, b) < 0 <==> BoxedCompareTo(b, a) > 0
    ensures IsTotalPreorder(BoxedLe)
  {
    forall a, b ensures BoxedCompareTo(a, b) < 0 <==> BoxedCompareTo(b, a) > 0 {
      StringCompareToAntisymmetric(a.word, b.word);
    }
    forall a, b, c | BoxedLe(a, b) && BoxedLe(b, c) ensures BoxedLe(a, c) {
      StringCompareToAntisymmetric(a.word, b.word);
      StringCompareToAntisymmetric(b.word, c.word);
      if StringCompareTo(a.word, b.word) < 0 && StringCompareTo(b.word, c.word) < 0 {
        StringCompareToTransitive(a.word, b.word, c.word);
      }
    }
  }

  predicate SolutionLe(a: PuzzleSolutionResult, b: PuzzleSolutionResult)
  {
    CompareSolutions(a.words, b.words) <= 0
  }

  lemma SolutionOrderIsTotalPreorder()
    ensures IsTotalPreorder(SolutionLe)
  {
    forall a, b, c | SolutionLe(a, b) && SolutionLe(b, c) ensures SolutionLe(a, c) {
      CompareSolutionsTransitive(a.words, b.words, c.words);
    }
  }

  // ---------------------------------------------------------------------
  // The candidate filter

  /** Checking a word list from a full letter set, as a fresh or reset checker does. */
  function Solve(puzzle: LetterBoxedPuzzle, dictionary: Dictionary, words: seq<string>): PuzzleSolutionResult
    requires puzzle.Valid()
  {
    CheckSolutionOutcome(puzzle, dictionary, Letters(puzzle.sides), words).0
  }

  /** What `findPossibleWordsPartitioned` collects from a section of the word list. */
  function PossibleWords(puzzle: LetterBoxedPuzzle, dictionary: Dictionary, section: seq<string>): set<BoxedWords>
    requires puzzle.Valid()
  {
    set w | w in section && CheckWordOutcome(puzzle, dictionary, Letters(puzzle.sides), w, None).0.ValidWord?
      :: BoxedWords(w, CheckWordOutcome(puzzle, dictionary, Letters(puzzle.sides), w, None).1)
  }

  /**
   * A candidate is a word of the section that is in the dictionary and can
   * be walked on the board, paired with the puzzle letters it does not use.
   */
  lemma PossibleWordsMembership(puzzle: LetterBoxedPuzzle, dictionary: Dictionary, section: seq<string>, b: BoxedWords)
    requires puzzle.Valid()
    ensures b in PossibleWords(puzzle, dictionary, section) <==>
              && b.word in section
              && PassesGuards(puzzle, dictionary, b.word, None)
              && Legal(puzzle.tree, Letters(puzzle.sides), b.word)
              && b.remainingLetters == Letters(puzzle.sides) - Chars(b.word)
  {
    if PassesGuards(puzzle, dictionary, b.word, None) {
      CheckWordValidIff(puzzle, dictionary, Letters(puzzle.sides), b.word, None);
    }
  }

  /** Filtering two sections and merging equals filtering their concatenation. */
  lemma PossibleWordsOfConcat(puzzle: LetterBoxedPuzzle, dictionary: Dictionary, a: seq<string>, b: seq<string>)
    requires puzzle.Valid()
    ensures PossibleWords(puzzle, dictionary, a + b) == PossibleWords(puzzle, dictionary, a) + PossibleWords(puzzle, dictionary, b)
  {
    forall w ensures w in a + b <==> w in a || w in b {
    }
  }

  predicate NonEmptyWords(pool: seq<BoxedWords>)
  {
    forall i :: 0 <= i < |pool| ==> |pool[i].word| > 0
  }

  /** Every candidate word is non-empty: the empty word fails the first check. */
  lemma PoolWordsNonEmpty(puzzle: LetterBoxedPuzzle, dictionary: Dictionary, section: seq<string>, pool: seq<BoxedWords>)
    requires puzzle.Valid()
    requires multiset(pool) == multiset(PossibleWords(puzzle, dictionary, section))
    ensures NonEmptyWords(pool)
  {
    forall i | 0 <= i < |pool| ensures |pool[i].word| > 0 {
      assert pool[i] in multiset(pool);
      PossibleWordsMembership(puzzle, dictionary, section, pool[i]);
    }
  }

  /** Kotlin's message when `chunked` is given a size that is not positive. */
  const ChunkSizeNotPositive := "size 0 must be greater than zero."

  /** The section size `n / threads` is zero exactly when there are fewer words than threads. */
  lemma SectionSizeZero(n: nat, threads: nat)
    requires threads >= 1
    ensures n / threads == 0 <==> n < threads
  {
    if n >= threads {
      assert n / threads >= 1 by {
        assert n == threads * (n / threads) + n % threads;
      }
    }
  }

  /** `chunked(size)`: consecutive sections of `size` words, the last one possibly shorter. */
  function Chunked(words: seq<string>, size: nat): seq<seq<string>>
    requires size > 0
    decreases |words|
  {
    if words == [] then []
    else if |words| <= size then [words]
    else [words[..size]] + Chunked(words[size..], size)
  }

  /** The sections joined back together, in order. */
  function Flatten<T>(chunks: seq<seq<T>>): seq<T>
  {
    if chunks == [] then [] else Flatten(chunks[..|chunks| - 1]) + chunks[|chunks| - 1]
  }

  lemma {:induction false} FlattenCons<T>(c: seq<T>, chunks: seq<seq<T>>)
    ensures Flatten([c] + chunks) == c + Flatten(chunks)
    decreases |chunks|
  {
    if chunks != [] {
      var n := |chunks| - 1;
      assert ([c] + chunks)[..n + 1] == [c] + chunks[..n];
      FlattenCons(c, chunks[..n]);
    }
  }

  /** An element of the joined sections is an element of one of them, and conversely. */
  lemma {:induction false} FlattenMembership<T>(chunks: seq<seq<T>>, x: T)
    ensures x in Flatten(chunks) <==> exists j :: 0 <= j < |chunks| && x in chunks[j]
  {
    if chunks != [] {
      var n := |chunks| - 1;
      FlattenMembership(chunks[..n], x);
      if x in chunks[n] {
        assert x in Flatten(chunks[..n]) + chunks[n];
      }
      if exists j :: 0 <= j < |chunks| && x in chunks[j] {
        var j :| 0 <= j < |chunks| && x in chunks[j];
        if j < n {
          assert chunks[..n][j] == chunks[j];
        }
      }
    }
  }

  /** The sections together are the whole list, so the chunking changes nothing but the load. */
  lemma {:induction false} ChunkedFlatten(words: seq<string>, size: nat)
    requires size > 0
    ensures Flatten(Chunked(words, size)) == words
    decreases |words|
  {
    if words != [] {
      if |words| <= size {
        assert Flatten([words]) == Flatten([]) + words;
      } else {
        ChunkedFlatten(words[size..], size);
        FlattenCons(words[..size], Chunked(words[size..], size));
        assert words[..size] + words[size..] == words;
      }
    }
  }

  // ---------------------------------------------------------------------
  // The search for one candidate

  /** `possibleWordPool.filter { it.word.first() == c }`. */
  function NextWords(pool: seq<BoxedWords>, c: char): seq<BoxedWords>
  {
    if pool == [] then []
    else (if |pool[0].word| > 0 && pool[0].word[0] == c then [pool[0]] else []) + NextWords(pool[1..], c)
  }

  /**
   * The successors are exactly the pool entries starting with `c`; a
   * candidate whose first and last letters agree is its own successor.
   */
  lemma {:induction false} NextWordsMembership(pool: seq<BoxedWords>, c: char, b: BoxedWords)
    ensures b in NextWords(pool, c) <==> b in pool && |b.word| > 0 && b.word[0] == c
  {
    if pool != [] {
      NextWordsMembership(pool[1..], c, b);
      assert b in pool <==> b == pool[0] || b in pool[1..];
    }
  }

  /** The results of checking `[word, next.word]` for each successor, in order. */
  function PairResults(puzzle: LetterBoxedPuzzle, dictionary: Dictionary, word: string,
                       nexts: seq<BoxedWords>): (rs: seq<PuzzleSolutionResult>)
    requires puzzle.Valid()
    ensures |rs| == |nexts|
  {
    if nexts == [] then []
    else PairResults(puzzle, dictionary, word, nexts[..|nexts| - 1])
         + [Solve(puzzle, dictionary, [word, nexts[|nexts| - 1].word])]
  }

  /** The `i`-th pair result is the check of the candidate followed by the `i`-th successor. */
  lemma {:induction false} PairResultsElement(puzzle: LetterBoxedPuzzle, dictionary: Dictionary, word: string,
                                              nexts: seq<BoxedWords>, i: nat)
    requires puzzle.Valid() && i < |nexts|
    ensures PairResults(puzzle, dictionary, word, nexts)[i] == Solve(puzzle, dictionary, [word, nexts[i].word])
  {
    if i < |nexts| - 1 {
      PairResultsElement(puzzle, dictionary, word, nexts[..|nexts| - 1], i);
    }
  }

  lemma {:induction false} PairResultsOfElements(puzzle: LetterBoxedPuzzle, dictionary: Dictionary, word: string,
                                                 nexts: seq<BoxedWords>, pairs: seq<PuzzleSolutionResult>)
    requires puzzle.Valid() && |pairs| == |nexts|
    requires forall j :: 0 <= j < |pairs| ==> pairs[j] == Solve(puzzle, dictionary, [word, nexts[j].word])
    ensures PairResults(puzzle, dictionary, word, nexts) == pairs
  {
    if nexts != [] {
      var n := |nexts| - 1;
      PairResultsOfElements(puzzle, dictionary, word, nexts[..n], pairs[..n]);
      assert pairs == pairs[..n] + [pairs[n]];
    }
  }

  /** `filterIsInstance<ValidPuzzleSolution>()`. */
  function ValidOnly(rs: seq<PuzzleSolutionResult>): seq<PuzzleSolutionResult>
  {
    if rs == [] then []
    else ValidOnly(rs[..|rs| - 1]) + (if rs[|rs| - 1].ValidPuzzleSolution? then [rs[|rs| - 1]] else [])
  }

  /** The filter keeps exactly the valid solutions. */
  lemma {:induction false} ValidOnlyMembership(rs: seq<PuzzleSolutionResult>)
    ensures forall x :: x in ValidOnly(rs) <==> x in rs && x.ValidPuzzleSolution?
  {
    if rs != [] {
      var n := |rs| - 1;
      ValidOnlyMembership(rs[..n]);
      assert rs == rs[..n] + [rs[n]];
    }
  }

  lemma {:induction false} ValidOnlyOfValid(rs: seq<PuzzleSolutionResult>)
    requires forall i :: 0 <= i < |rs| ==> rs[i].ValidPuzzleSolution?
    ensures ValidOnly(rs) == rs
  {
    if rs != [] {
      ValidOnlyOfValid(rs[..|rs| - 1]);
    }
  }

  lemma ValidOnlySnoc(rs: seq<PuzzleSolutionResult>, r: PuzzleSolutionResult)
    ensures ValidOnly(rs + [r]) == ValidOnly(rs) + (if r.ValidPuzzleSolution? then [r] else [])
  {
    assert (rs + [r])[..|rs|] == rs;
  }

  /** One step of the `bestAlternateSolution` update: an incomplete result with strictly fewer letters wins. */
  function Better(best: Option<PuzzleSolutionResult>, r: PuzzleSolutionResult): Option<PuzzleSolutionResult>
    requires best.Some? ==> best.value.IncompletePuzzleSolution?
  {
    if r.IncompletePuzzleSolution?
       && (best.None? || |r.remainingLetters| < |best.value.remainingLetters|)
    then Some(r) else best
  }

  /** The best partial solution among `rs`, as the loop of `checkWordsForSolution` keeps it. */
  function BestIncomplete(rs: seq<PuzzleSolutionResult>): (b: Option<PuzzleSolutionResult>)
    ensures b.Some? ==> b.value.IncompletePuzzleSolution? && b.value in rs
  {
    if rs == [] then None
    else Better(BestIncomplete(rs[..|rs| - 1]), rs[|rs| - 1])
  }

  lemma BestIncompleteSnoc(rs: seq<PuzzleSolutionResult>, r: PuzzleSolutionResult)
    ensures BestIncomplete(rs + [r]) == Better(BestIncomplete(rs), r)
  {
    assert (rs + [r])[..|rs|] == rs;
  }

  /**
   * The kept partial solution is the first incomplete result with the
   * fewest remaining letters, and there is none only when no result is
   * incomplete.
   */
  lemma {:induction false} BestIncompleteIsFirstMinimum(rs: seq<PuzzleSolutionResult>)
    ensures BestIncomplete(rs).None? <==> forall i :: 0 <= i < |rs| ==> !rs[i].IncompletePuzzleSolution?
    ensures BestIncomplete(rs).Some? ==>
              exists k :: 0 <= k < |rs| && rs[k] == BestIncomplete(rs).value
                && (forall j :: 0 <= j < |rs| && rs[j].IncompletePuzzleSolution? ==>
                      |rs[j].remainingLetters| >= |rs[k].remainingLetters|)
                && (forall j :: 0 <= j < k && rs[j].IncompletePuzzleSolution? ==>
                      |rs[j].remainingLetters| > |rs[k].remainingLetters|)
  {
    if rs != [] {
      var n := |rs| - 1;
      var init := rs[..n];
      BestIncompleteIsFirstMinimum(init);
      var b := BestIncomplete(init);
      if rs[n].IncompletePuzzleSolution? && (b.None? || |rs[n].remainingLetters| < |b.value.remainingLetters|) {
        if b.Some? {
          var k :| 0 <= k < |init| && init[k] == b.value
            && (forall j :: 0 <= j < |init| && init[j].IncompletePuzzleSolution? ==>
                  |init[j].remainingLetters| >= |init[k].remainingLetters|);
          forall j | 0 <= j < n && rs[j].IncompletePuzzleSolution?
            ensures |rs[j].remainingLetters| > |rs[n].remainingLetters|
          {
            assert init[j] == rs[j];
          }
        } else {
          forall j | 0 <= j < n ensures !rs[j].IncompletePuzzleSolution? {
            assert init[j] == rs[j];
          }
        }
      } else if b.Some? {
        var k :| 0 <= k < |init| && init[k] == b.value
          && (forall j :: 0 <= j < |init| && init[j].IncompletePuzzleSolution? ==>
                |init[j].remainingLetters| >= |init[k].remainingLetters|)
          && (forall j :: 0 <= j < k && init[j].IncompletePuzzleSolution? ==>
                |init[j].remainingLetters| > |init[k].remainingLetters|);
        assert rs[k] == init[k];
        forall j | 0 <= j < |rs| && rs[j].IncompletePuzzleSolution?
          ensures |rs[j].remainingLetters| >= |rs[k].remainingLetters|
        {
          if j < n { assert init[j] == rs[j]; }
        }
        forall j | 0 <= j < k && rs[j].IncompletePuzzleSolution?
          ensures |rs[j].remainingLetters| > |rs[k].remainingLetters|
        {
          assert init[j] == rs[j];
        }
      } else {
        forall i | 0 <= i < |rs| ensures !rs[i].IncompletePuzzleSolution? {
          if i < n { assert init[i] == rs[i]; }
        }
      }
    }
  }

  /** The one-word solution, kept only when the candidate alone uses every letter and checks valid. */
  function SingleWordSolutions(puzzle: LetterBoxedPuzzle, dictionary: Dictionary, candidate: BoxedWords): seq<PuzzleSolutionResult>
    requires puzzle.Valid()
  {
    if candidate.remainingLetters == {} && Solve(puzzle, dictionary, [candidate.word]).ValidPuzzleSolution?
    then [Solve(puzzle, dictionary, [candidate.word])]
    else []
  }

  lemma SingleWordSolutionsMembership(puzzle: LetterBoxedPuzzle, dictionary: Dictionary, candidate: BoxedWords,
                                      x: PuzzleSolutionResult)
    requires puzzle.Valid()
    requires x in SingleWordSolutions(puzzle, dictionary, candidate)
    ensures x == Solve(puzzle, dictionary, [candidate.word]) && x.ValidPuzzleSolution?
    ensures x.words == [candidate.word]
  {
    SolvedChainIsComplete(puzzle, dictionary, [candidate.word]);
  }

  /** What `checkWordsForSolution(candidate)` returns, with `pool` as the word pool. */
  function CandidateSolutions(puzzle: LetterBoxedPuzzle, dictionary: Dictionary, pool: seq<BoxedWords>,
                              candidate: BoxedWords): seq<PuzzleSolutionResult>
    requires puzzle.Valid() && |candidate.word| > 0
  {
    var pairs := PairResults(puzzle, dictionary, candidate.word, NextWords(pool, Last(candidate.word)));
    Assemble(SingleWordSolutions(puzzle, dictionary, candidate) + ValidOnly(pairs), BestIncomplete(pairs))
  }

  /** The valid solutions if there are any, else the best partial one if there is one. */
  function Assemble(valid: seq<PuzzleSolutionResult>, best: Option<PuzzleSolutionResult>): seq<PuzzleSolutionResult>
  {
    if valid != [] then valid
    else if best.Some? then [best.value]
    else []
  }

  /**
   * A candidate's results are all valid solutions if any was found, or
   * else at most one partial solution, the best of the two-word chains;
   * never an invalid one.
   */
  lemma CandidateSolutionsShape(puzzle: LetterBoxedPuzzle, dictionary: Dictionary, pool: seq<BoxedWords>, candidate: BoxedWords)
    requires puzzle.Valid() && |candidate.word| > 0
    ensures var rs := CandidateSolutions(puzzle, dictionary, pool, candidate);
            && (forall i :: 0 <= i < |rs| ==> !rs[i].InvalidPuzzleSolution?)
            && ((exists i :: 0 <= i < |rs| && rs[i].ValidPuzzleSolution?) ==>
                  forall i :: 0 <= i < |rs| ==> rs[i].ValidPuzzleSolution?)
            && ((exists i :: 0 <= i < |rs| && rs[i].IncompletePuzzleSolution?) ==>
                  var pairs := PairResults(puzzle, dictionary, candidate.word, NextWords(pool, Last(candidate.word)));
                  |rs| == 1 && BestIncomplete(pairs) == Some(rs[0]))
  {
    var rs := CandidateSolutions(puzzle, dictionary, pool, candidate);
    var pairs := PairResults(puzzle, dictionary, candidate.word, NextWords(pool, Last(candidate.word)));
    var valid := SingleWordSolutions(puzzle, dictionary, candidate) + ValidOnly(pairs);
    ValidOnlyMembership(pairs);
    forall i | 0 <= i < |valid| ensures valid[i].ValidPuzzleSolution? {
      assert valid[i] in valid;
    }
  }

  /** A valid solution found from the full letter set is a chain of dictionary words using every letter. */
  lemma SolvedChainIsComplete(puzzle: LetterBoxedPuzzle, dictionary: Dictionary, words: seq<string>)
    requires puzzle.Valid()
    ensures Solve(puzzle, dictionary, words).words == words
    ensures Solve(puzzle, dictionary, words).ValidPuzzleSolution? ==>
              && Letters(puzzle.sides) <= AllChars(words)
              && (forall i :: 0 <= i < |words| ==> |words[i]| > 0 && dictionary.ValidWord(words[i]))
              && (forall i :: 1 <= i < |words| ==> words[i][0] == Last(words[i - 1]))
    ensures Solve(puzzle, dictionary, words).ValidPuzzleSolution? ==>
              forall c :: c in Letters(puzzle.sides) ==> exists i :: 0 <= i < |words| && c in words[i]
  {
    if Solve(puzzle, dictionary, words).ValidPuzzleSolution? {
      SolutionCompleteness(puzzle, dictionary, Letters(puzzle.sides), words);
      SolutionLinks(puzzle, dictionary, Letters(puzzle.sides), words);
      forall c | c in Letters(puzzle.sides)
        ensures exists i :: 0 <= i < |words| && c in words[i]
      {
        AllCharsMembership(words, c);
      }
    }
  }

  /**
   * Every valid solution found for a candidate starts with the candidate
   * and is either the candidate alone or the candidate followed by a pool
   * word starting with its last letter; it is a chain of dictionary words
   * that uses every puzzle letter.
   */
  lemma CandidateSolutionsAreCompleteChains(puzzle: LetterBoxedPuzzle, dictionary: Dictionary, pool: seq<BoxedWords>,
                                            candidate: BoxedWords, x: PuzzleSolutionResult)
    requires puzzle.Valid() && |candidate.word| > 0
    requires x in CandidateSolutions(puzzle, dictionary, pool, candidate) && x.ValidPuzzleSolution?
    ensures x.words == [candidate.word]
            || (exists b :: b in pool && x.words == [candidate.word, b.word] && |b.word| > 0 && b.word[0] == Last(candidate.word))
    ensures Letters(puzzle.sides) <= AllChars(x.words)
    ensures forall i :: 0 <= i < |x.words| ==> |x.words[i]| > 0 && dictionary.ValidWord(x.words[i])
    ensures forall i :: 1 <= i < |x.words| ==> x.words[i][0] == Last(x.words[i - 1])
  {
    var nexts := NextWords(pool, Last(candidate.word));
    var pairs := PairResults(puzzle, dictionary, candidate.word, nexts);
    var single := SingleWordSolutions(puzzle, dictionary, candidate);
    var valid := single + ValidOnly(pairs);
    assert x in valid;
    if x in single {
      SingleWordSolutionsMembership(puzzle, dictionary, candidate, x);
    } else {
      ValidOnlyMembership(pairs);
      assert x in ValidOnly(pairs);
      var i :| 0 <= i < |pairs| && pairs[i] == x;
      var b := nexts[i];
      PairResultsElement(puzzle, dictionary, candidate.word, nexts, i);
      NextWordsMembership(pool, Last(candidate.word), b);
      SolvedChainIsComplete(puzzle, dictionary, [candidate.word, b.word]);
    }
    SolvedChainIsComplete(puzzle, dictionary, x.words);
  }

  /**
   * Nothing valid is dropped: the candidate alone, when its own letters
   * use the board and it checks valid, and every valid two-word chain
   * with a pool word starting with the candidate's last letter are among
   * the candidate's results.
   */
  lemma CandidateSolutionsIncludeFinds(puzzle: LetterBoxedPuzzle, dictionary: Dictionary, pool: seq<BoxedWords>,
                                       candidate: BoxedWords, b: BoxedWords)
    requires puzzle.Valid() && |candidate.word| > 0
    ensures candidate.remainingLetters == {} && Solve(puzzle, dictionary, [candidate.word]).ValidPuzzleSolution?
            ==> Solve(puzzle, dictionary, [candidate.word]) in CandidateSolutions(puzzle, dictionary, pool, candidate)
    ensures b in pool && |b.word| > 0 && b.word[0] == Last(candidate.word)
            && Solve(puzzle, dictionary, [candidate.word, b.word]).ValidPuzzleSolution?
            ==> Solve(puzzle, dictionary, [candidate.word, b.word]) in CandidateSolutions(puzzle, dictionary, pool, candidate)
  {
    var nexts := NextWords(pool, Last(candidate.word));
    var pairs := PairResults(puzzle, dictionary, candidate.word, nexts);
    var single := SingleWordSolutions(puzzle, dictionary, candidate);
    var r := Solve(puzzle, dictionary, [candidate.word, b.word]);
    if b in pool && |b.word| > 0 && b.word[0] == Last(candidate.word) && r.ValidPuzzleSolution? {
      NextWordsMembership(pool, Last(candidate.word), b);
      var i :| 0 <= i < |nexts| && nexts[i] == b;
      PairResultsElement(puzzle, dictionary, candidate.word, nexts, i);
      ValidOnlyMembership(pairs);
      assert r in ValidOnly(pairs);
      assert r in single + ValidOnly(pairs);
    }
  }

  lemma {:induction false} ValidOnlyEmpty(rs: seq<PuzzleSolutionResult>)
    requires forall i :: 0 <= i < |rs| ==> !rs[i].ValidPuzzleSolution?
    ensures ValidOnly(rs) == []
  {
    if rs != [] {
      ValidOnlyEmpty(rs[..|rs| - 1]);
    }
  }

  /**
   * When neither the candidate alone nor any two-word chain starting with
   * it is valid, the candidate yields the best partial chain if there is
   * one, and nothing otherwise.
   */
  lemma CandidateSolutionsFallback(puzzle: LetterBoxedPuzzle, dictionary: Dictionary, pool: seq<BoxedWords>,
                                   candidate: BoxedWords)
    requires puzzle.Valid() && |candidate.word| > 0
    requires !(candidate.remainingLetters == {} && Solve(puzzle, dictionary, [candidate.word]).ValidPuzzleSolution?)
    requires forall b :: b in pool && |b.word| > 0 && b.word[0] == Last(candidate.word) ==>
                           !Solve(puzzle, dictionary, [candidate.word, b.word]).ValidPuzzleSolution?
    ensures var pairs := PairResults(puzzle, dictionary, candidate.word, NextWords(pool, Last(candidate.word)));
            CandidateSolutions(puzzle, dictionary, pool, candidate)
              == (if BestIncomplete(pairs).Some? then [BestIncomplete(pairs).value] else [])
  {
    var nexts := NextWords(pool, Last(candidate.word));
    var pairs := PairResults(puzzle, dictionary, candidate.word, nexts);
    forall i | 0 <= i < |pairs| ensures !pairs[i].ValidPuzzleSolution? {
      PairResultsElement(puzzle, dictionary, candidate.word, nexts, i);
      NextWordsMembership(pool, Last(candidate.word), nexts[i]);
    }
    ValidOnlyEmpty(pairs);
  }

  // ---------------------------------------------------------------------
  // The window and the ranking

  /** The valid solutions found for each of the first `n` candidates of the window, each searched against `pool`. */
  function WindowFinds(puzzle: LetterBoxedPuzzle, dictionary: Dictionary, pool: seq<BoxedWords>,
                       window: seq<BoxedWords>, n: nat): seq<seq<PuzzleSolutionResult>>
    requires puzzle.Valid() && NonEmptyWords(window) && n <= |window|
  {
    seq(n, j requires 0 <= j < n => ValidOnly(CandidateSolutions(puzzle, dictionary, pool, window[j])))
  }

  /** The valid solutions collected from the first `n` candidates of the window, in window order. */
  function WindowSolutions(puzzle: LetterBoxedPuzzle, dictionary: Dictionary, pool: seq<BoxedWords>,
                           window: seq<BoxedWords>, n: nat): seq<PuzzleSolutionResult>
    requires puzzle.Valid() && NonEmptyWords(window) && n <= |window|
  {
    Flatten(WindowFinds(puzzle, dictionary, pool, window, n))
  }

  /** Awaiting one more candidate appends its valid solutions. */
  lemma WindowSolutionsSnoc(puzzle: LetterBoxedPuzzle, dictionary: Dictionary, pool: seq<BoxedWords>,
                            window: seq<BoxedWords>, n: nat)
    requires puzzle.Valid() && NonEmptyWords(window) && n < |window|
    ensures WindowSolutions(puzzle, dictionary, pool, window, n + 1)
            == WindowSolutions(puzzle, dictionary, pool, window, n)
               + ValidOnly(CandidateSolutions(puzzle, dictionary, pool, window[n]))
  {
    var finds := WindowFinds(puzzle, dictionary, pool, window, n + 1);
    assert finds[..n] == WindowFinds(puzzle, dictionary, pool, window, n);
  }

  lemma WindowSolutionsFromCandidates(puzzle: LetterBoxedPuzzle, dictionary: Dictionary,
                                      pool: seq<BoxedWords>, window: seq<BoxedWords>, n: nat,
                                      x: PuzzleSolutionResult)
    requires puzzle.Valid() && NonEmptyWords(window) && n <= |window|
    requires x in WindowSolutions(puzzle, dictionary, pool, window, n)
    ensures x.ValidPuzzleSolution?
    ensures exists i :: 0 <= i < n && x in CandidateSolutions(puzzle, dictionary, pool, window[i])
  {
    var finds := WindowFinds(puzzle, dictionary, pool, window, n);
    FlattenMembership(finds, x);
    var i :| 0 <= i < n && x in finds[i];
    ValidOnlyMembership(CandidateSolutions(puzzle, dictionary, pool, window[i]));
  }

  /** Every valid solution found for one of the first `n` window candidates is collected. */
  lemma WindowSolutionsIncludeCandidates(puzzle: LetterBoxedPuzzle, dictionary: Dictionary,
                                         pool: seq<BoxedWords>, window: seq<BoxedWords>, n: nat,
                                         i: nat, x: PuzzleSolutionResult)
    requires puzzle.Valid() && NonEmptyWords(window) && n <= |window| && i < n
    requires x in CandidateSolutions(puzzle, dictionary, pool, window[i]) && x.ValidPuzzleSolution?
    ensures x in WindowSolutions(puzzle, dictionary, pool, window, n)
  {
    var finds := WindowFinds(puzzle, dictionary, pool, window, n);
    ValidOnlyMembership(CandidateSolutions(puzzle, dictionary, pool, window[i]));
    assert x in finds[i];
    FlattenMembership(finds, x);
  }

  /** The first `n` words of a pool of non-empty words are non-empty. */
  lemma PrefixWordsNonEmpty(pool: seq<BoxedWords>, n: nat)
    requires NonEmptyWords(pool) && n <= |pool|
    ensures NonEmptyWords(pool[..n])
  {
    forall i | 0 <= i < n ensures |pool[..n][i].word| > 0 {
      assert pool[..n][i] == pool[i];
    }
  }

  const SubListOutOfBounds := "subList: toIndex exceeds the size of the word pool"

  /**
   * What `findTopSolutions` returns for a pool: the valid solutions found
   * for the first `bufferSize` candidates, sorted; `subList` throws when
   * the pool is shorter than that window.
   */
  function TopSolutions(puzzle: LetterBoxedPuzzle, dictionary: Dictionary, pool: seq<BoxedWords>, bufferSize: nat)
    : Result<seq<PuzzleSolutionResult>>
    requires puzzle.Valid() && NonEmptyWords(pool)
  {
    if |pool| < bufferSize then Failure(SubListOutOfBounds)
    else Success(SortBy(ValidOnly(FirstWindowSolutions(puzzle, dictionary, pool, bufferSize)), SolutionLe))
  }

  /** The valid solutions found for the first `bufferSize` candidates of the pool. */
  function FirstWindowSolutions(puzzle: LetterBoxedPuzzle, dictionary: Dictionary, pool: seq<BoxedWords>, bufferSize: nat)
    : seq<PuzzleSolutionResult>
    requires puzzle.Valid() && NonEmptyWords(pool) && bufferSize <= |pool|
  {
    PrefixWordsNonEmpty(pool, bufferSize);
    WindowSolutions(puzzle, dictionary, pool, pool[..bufferSize], bufferSize)
  }

  /**
   * The returned list holds only valid solutions, ranked by the solution
   * order, and is a permutation of those found in the window.
   */
  lemma TopSolutionsRanked(puzzle: LetterBoxedPuzzle, dictionary: Dictionary, pool: seq<BoxedWords>, bufferSize: nat)
    requires puzzle.Valid() && NonEmptyWords(pool)
    ensures TopSolutions(puzzle, dictionary, pool, bufferSize).Success? <==> bufferSize <= |pool|
    ensures TopSolutions(puzzle, dictionary, pool, bufferSize).Success? ==>
              var top := TopSolutions(puzzle, dictionary, pool, bufferSize).value;
              && (forall i :: 0 <= i < |top| ==> top[i].ValidPuzzleSolution?)
              && SortedBy(top, SolutionLe)
              && multiset(top) == multiset(FirstWindowSolutions(puzzle, dictionary, pool, bufferSize))
  {
    if bufferSize <= |pool| {
      var found := FirstWindowSolutions(puzzle, dictionary, pool, bufferSize);
      PrefixWordsNonEmpty(pool, bufferSize);
      forall i | 0 <= i < |found| ensures found[i].ValidPuzzleSolution? {
        WindowSolutionsFromCandidates(puzzle, dictionary, pool, pool[..bufferSize], bufferSize, found[i]);
      }
      ValidOnlyOfValid(found);
      SolutionOrderIsTotalPreorder();
      SortBySorted(found, SolutionLe);
      var top := SortBy(found, SolutionLe);
      forall i | 0 <= i < |top| ensures top[i].ValidPuzzleSolution? {
        SortByElements(found, SolutionLe, top[i]);
      }
    }
  }

  /**
   * Solutions the order ranks equal keep the order in which they were
   * found: window order, and for each candidate the word alone before its
   * pairs, the pairs in successor order.
   */
  lemma TopSolutionsStable(puzzle: LetterBoxedPuzzle, dictionary: Dictionary, pool: seq<BoxedWords>, bufferSize: nat,
                           y: PuzzleSolutionResult)
    requires puzzle.Valid() && NonEmptyWords(pool) && bufferSize <= |pool|
    ensures TopSolutions(puzzle, dictionary, pool, bufferSize).Success?
    ensures TiedWith(TopSolutions(puzzle, dictionary, pool, bufferSize).value, y, SolutionLe)
            == TiedWith(FirstWindowSolutions(puzzle, dictionary, pool, bufferSize), y, SolutionLe)
  {
    var found := FirstWindowSolutions(puzzle, dictionary, pool, bufferSize);
    PrefixWordsNonEmpty(pool, bufferSize);
    forall i | 0 <= i < |found| ensures found[i].ValidPuzzleSolution? {
      WindowSolutionsFromCandidates(puzzle, dictionary, pool, pool[..bufferSize], bufferSize, found[i]);
    }
    ValidOnlyOfValid(found);
    SolutionOrderIsTotalPreorder();
    SortByStable(found, SolutionLe, y);
  }

  /**
   * Only the window is searched: every returned solution is a complete
   * chain that starts with one of the first `bufferSize` pool words.
   */
  lemma TopSolutionsFromWindow(puzzle: LetterBoxedPuzzle, dictionary: Dictionary, pool: seq<BoxedWords>, bufferSize: nat,
                               x: PuzzleSolutionResult)
    requires puzzle.Valid() && NonEmptyWords(pool)
    requires TopSolutions(puzzle, dictionary, pool, bufferSize).Success?
    requires x in TopSolutions(puzzle, dictionary, pool, bufferSize).value
    ensures exists i :: 0 <= i < bufferSize && |x.words| > 0 && x.words[0] == pool[i].word
    ensures Letters(puzzle.sides) <= AllChars(x.words)
    ensures forall i :: 0 <= i < |x.words| ==> |x.words[i]| > 0
    ensures forall i :: 1 <= i < |x.words| ==> x.words[i][0] == Last(x.words[i - 1])
  {
    var window := pool[..bufferSize];
    PrefixWordsNonEmpty(pool, bufferSize);
    var all := WindowSolutions(puzzle, dictionary, pool, window, bufferSize);
    SortByElements(ValidOnly(all), SolutionLe, x);
    ValidOnlyMembership(all);
    WindowSolutionsFromCandidates(puzzle, dictionary, pool, window, bufferSize, x);
    var i :| 0 <= i < bufferSize && x in CandidateSolutions(puzzle, dictionary, pool, window[i]);
    assert window[i] == pool[i];
    CandidateSolutionsAreCompleteChains(puzzle, dictionary, pool, pool[i], x);
  }

  /**
   * Nothing found in the window is lost: every valid solution found for
   * one of the first `bufferSize` pool words is in the returned list.
   */
  lemma TopSolutionsIncludeWindowFinds(puzzle: LetterBoxedPuzzle, dictionary: Dictionary, pool: seq<BoxedWords>,
                                       bufferSize: nat, i: nat, x: PuzzleSolutionResult)
    requires puzzle.Valid() && NonEmptyWords(pool) && bufferSize <= |pool| && i < bufferSize
    requires x in CandidateSolutions(puzzle, dictionary, pool, pool[i]) && x.ValidPuzzleSolution?
    ensures TopSolutions(puzzle, dictionary, pool, bufferSize).Success?
    ensures x in TopSolutions(puzzle, dictionary, pool, bufferSize).value
  {
    var window := pool[..bufferSize];
    PrefixWordsNonEmpty(pool, bufferSize);
    assert window[i] == pool[i];
    WindowSolutionsIncludeCandidates(puzzle, dictionary, pool, window, bufferSize, i, x);
    TopSolutionsIncludeFound(puzzle, dictionary, pool, bufferSize, x);
  }

  /** Every valid solution found in the window is in the returned list. */
  lemma TopSolutionsIncludeFound(puzzle: LetterBoxedPuzzle, dictionary: Dictionary, pool: seq<BoxedWords>,
                                 bufferSize: nat, x: PuzzleSolutionResult)
    requires puzzle.Valid() && NonEmptyWords(pool) && bufferSize <= |pool|
    requires x in FirstWindowSolutions(puzzle, dictionary, pool, bufferSize) && x.ValidPuzzleSolution?
    ensures TopSolutions(puzzle, dictionary, pool, bufferSize).Success?
    ensures x in TopSolutions(puzzle, dictionary, pool, bufferSize).value
  {
    var all := FirstWindowSolutions(puzzle, dictionary, pool, bufferSize);
    ValidOnlyMembership(all);
    SortByElements(ValidOnly(all), SolutionLe, x);
  }

  /**
   * The search is complete over its window: for a window word `w`, the
   * word alone (when its letters use the board) and every two-word chain
   * from `w` to a pool word are returned whenever they check valid.
   */
  lemma TopSolutionsIncludeValidChains(puzzle: LetterBoxedPuzzle, dictionary: Dictionary, pool: seq<BoxedWords>,
                                       bufferSize: nat, i: nat, b: BoxedWords)
    requires puzzle.Valid() && NonEmptyWords(pool) && bufferSize <= |pool| && i < bufferSize
    ensures TopSolutions(puzzle, dictionary, pool, bufferSize).Success?
    ensures pool[i].remainingLetters == {} && Solve(puzzle, dictionary, [pool[i].word]).ValidPuzzleSolution?
            ==> Solve(puzzle, dictionary, [pool[i].word]) in TopSolutions(puzzle, dictionary, pool, bufferSize).value
    ensures b in pool && b.word[0] == Last(pool[i].word)
            && Solve(puzzle, dictionary, [pool[i].word, b.word]).ValidPuzzleSolution?
            ==> Solve(puzzle, dictionary, [pool[i].word, b.word]) in TopSolutions(puzzle, dictionary, pool, bufferSize).value
  {
    CandidateSolutionsIncludeFinds(puzzle, dictionary, pool, pool[i], b);
    var one := Solve(puzzle, dictionary, [pool[i].word]);
    var two := Solve(puzzle, dictionary, [pool[i].word, b.word]);
    if pool[i].remainingLetters == {} && one.ValidPuzzleSolution? {
      TopSolutionsIncludeWindowFinds(puzzle, dictionary, pool, bufferSize, i, one);
    }
    if b in pool && b.word[0] == Last(pool[i].word) && two.ValidPuzzleSolution? {
      TopSolutionsIncludeWindowFinds(puzzle, dictionary, pool, bufferSize, i, two);
    }
  }

  // ---------------------------------------------------------------------
  // The solver object

  class LetterBoxedPuzzleSolver {
    const puzzle: LetterBoxedPuzzle
    const dictionary: Dictionary
    const threadCount: nat
    var possibleWordPool: seq<BoxedWords>

    ghost predicate Valid()
    {
      puzzle.Valid() && threadCount >= 1
    }

    constructor (puzzle: LetterBoxedPuzzle, dictionary: Dictionary, threadCount: nat)
      requires puzzle.Valid() && threadCount >= 1
      ensures Valid()
      ensures this.puzzle == puzzle && this.dictionary == dictionary && this.threadCount == threadCount
      ensures possibleWordPool == []
    {
      this.puzzle := puzzle;
      this.dictionary := dictionary;
      this.threadCount := threadCount;
      possibleWordPool := [];
    }

    /** `findPossibleWordsPartitioned`: one checker, reset after every word. */
    method FindPossibleWordsPartitioned(dictionaryWordsSection: seq<string>) returns (result: set<BoxedWords>)
      requires Valid()
      ensures result == PossibleWords(puzzle, dictionary, dictionaryWordsSection)
      ensures dictionaryWordsSection == [] ==> result == {}
    {
      result := {};
      if |dictionaryWordsSection| == 0 {
        return;
      }
      var checker := new LetterBoxedSolutionChecker(puzzle, dictionary);
      for i := 0 to |dictionaryWordsSection|
        invariant checker.Valid() && checker.puzzle == puzzle && checker.dictionary == dictionary
        invariant checker.remainingLetters == Letters(puzzle.sides)
        invariant result == PossibleWords(puzzle, dictionary, dictionaryWordsSection[..i])
      {
        var dWord := dictionaryWordsSection[i];
        assert dictionaryWordsSection[..i + 1] == dictionaryWordsSection[..i] + [dWord];
        PossibleWordsOfConcat(puzzle, dictionary, dictionaryWordsSection[..i], [dWord]);
        var wordResult := checker.CheckWord(dWord, None);
        if wordResult.ValidWord? {
          result := result + {BoxedWords(dWord, wordResult.remainingLetters)};
        }
        checker.Reset();
      }
      assert dictionaryWordsSection[..|dictionaryWordsSection|] == dictionaryWordsSection;
    }

    /** The set-to-list `sorted()` of the filtered words; the set's iteration order is left open. */
    static method SortedCandidates(candidates: set<BoxedWords>) returns (sorted: seq<BoxedWords>)
      ensures SortedBy(sorted, BoxedLe)
      ensures multiset(sorted) == multiset(candidates)
    {
      BoxedOrderIsTotalPreorder();
      sorted := [];
      var rest := candidates;
      while rest != {}
        invariant rest <= candidates
        invariant SortedBy(sorted, BoxedLe)
        invariant multiset(sorted) + multiset(rest) == multiset(candidates)
        decreases |rest|
      {
        var x :| x in rest;
        InsertBySorted(x, sorted, BoxedLe);
        sorted := InsertBy(x, sorted, BoxedLe);
        assert multiset(rest - {x}) + multiset{x} == multiset(rest);
        rest := rest - {x};
      }
    }

    /**
     * `findPossibleWords`: filter each section of the dictionary, merge, sort.
     * With fewer words than threads the section size is zero, which
     * `chunked` rejects.
     */
    method FindPossibleWords() returns (r: Result<seq<BoxedWords>>)
      requires Valid()
      ensures r.Failure? <==> |dictionary.words| < threadCount
      ensures r.Failure? ==> r.error == ChunkSizeNotPositive
      ensures r.Success? ==> SortedBy(r.value, BoxedLe)
      ensures r.Success? ==> multiset(r.value) == multiset(PossibleWords(puzzle, dictionary, dictionary.words))
    {
      var size := |dictionary.words| / threadCount;
      SectionSizeZero(|dictionary.words|, threadCount);
      if size == 0 {
        return Failure(ChunkSizeNotPositive);
      }
      var partitionedWords := Chunked(dictionary.words, size);
      var result: set<BoxedWords> := {};
      for i := 0 to |partitionedWords|
        invariant result == PossibleWords(puzzle, dictionary, Flatten(partitionedWords[..i]))
      {
        assert partitionedWords[..i + 1][..i] == partitionedWords[..i];
        PossibleWordsOfConcat(puzzle, dictionary, Flatten(partitionedWords[..i]), partitionedWords[i]);
        var part := FindPossibleWordsPartitioned(partitionedWords[i]);
        result := result + part;
      }
      assert partitionedWords[..|partitionedWords|] == partitionedWords;
      ChunkedFlatten(dictionary.words, size);
      var sorted := SortedCandidates(result);
      r := Success(sorted);
    }

    /**
     * `checker.checkSolution(words)` followed by `checker.reset()`, as every
     * check in `checkWordsForSolution` is: the result is that of a checker
     * holding every letter, which holds every letter again afterwards.
     */
    static method CheckThenReset(checker: LetterBoxedSolutionChecker, words: seq<string>) returns (r: PuzzleSolutionResult)
      requires checker.Valid() && checker.remainingLetters == Letters(checker.puzzle.sides)
      modifies checker
      ensures checker.Valid() && checker.remainingLetters == Letters(checker.puzzle.sides)
      ensures r == Solve(checker.puzzle, checker.dictionary, words)
    {
      r := checker.CheckSolution(words);
      checker.Reset();
    }

    /**
     * The loop of `checkWordsForSolution` over the successors: each two-word
     * chain is checked, a valid one appended to `valid`, and an incomplete one
     * kept as the best alternative when it leaves strictly fewer letters.
     */
    static method CheckPairs(checker: LetterBoxedSolutionChecker, word: string, nexts: seq<BoxedWords>,
                             valid0: seq<PuzzleSolutionResult>)
      returns (valid: seq<PuzzleSolutionResult>, best: Option<PuzzleSolutionResult>)
      requires checker.Valid() && checker.remainingLetters == Letters(checker.puzzle.sides)
      modifies checker
      ensures checker.Valid() && checker.remainingLetters == Letters(checker.puzzle.sides)
      ensures valid == valid0 + ValidOnly(PairResults(checker.puzzle, checker.dictionary, word, nexts))
      ensures best == BestIncomplete(PairResults(checker.puzzle, checker.dictionary, word, nexts))
    {
      ghost var puzzle, dictionary := checker.puzzle, checker.dictionary;
      valid, best := valid0, None;
      ghost var pairs: seq<PuzzleSolutionResult> := [];
      for i := 0 to |nexts|
        invariant checker.Valid() && checker.puzzle == puzzle && checker.dictionary == dictionary
        invariant checker.remainingLetters == Letters(puzzle.sides)
        invariant |pairs| == i
        invariant forall j :: 0 <= j < i ==> pairs[j] == Solve(puzzle, dictionary, [word, nexts[j].word])
        invariant valid == valid0 + ValidOnly(pairs)
        invariant best == BestIncomplete(pairs)
      {
        var wordList := [word, nexts[i].word];
        var slnResult := CheckThenReset(checker, wordList);
        ValidOnlySnoc(pairs, slnResult);
        BestIncompleteSnoc(pairs, slnResult);
        if slnResult.ValidPuzzleSolution? {
          assert (valid0 + ValidOnly(pairs)) + [slnResult] == valid0 + (ValidOnly(pairs) + [slnResult]);
          valid := valid + [slnResult];
        } else if slnResult.IncompletePuzzleSolution? {
          if best.None? || |slnResult.remainingLetters| < |best.value.remainingLetters| {
            best := Some(slnResult);
          }
        }
        pairs := pairs + [slnResult];
      }
      PairResultsOfElements(puzzle, dictionary, word, nexts, pairs);
    }

    /** `checkWordsForSolution`: the one-word chain if it may be complete, then every two-word chain. */
    method CheckWordsForSolution(boxedWords: BoxedWords) returns (solutions: seq<PuzzleSolutionResult>)
      requires Valid()
      requires |boxedWords.word| > 0
      ensures solutions == CandidateSolutions(puzzle, dictionary, possibleWordPool, boxedWords)
    {
      var checker := new LetterBoxedSolutionChecker(puzzle, dictionary);
      var lastLetter := Last(boxedWords.word);
      ghost var pool := possibleWordPool;
      var possibleNextWords := NextWords(possibleWordPool, lastLetter);
      var bestAlternateSolution: Option<PuzzleSolutionResult> := None;
      var possibleValidSolutions: seq<PuzzleSolutionResult> := [];
      if boxedWords.remainingLetters == {} {
        var maybeSingleWordSolution := CheckThenReset(checker, [boxedWords.word]);
        if maybeSingleWordSolution.ValidPuzzleSolution? {
          possibleValidSolutions := possibleValidSolutions + [maybeSingleWordSolution];
        }
      }
      ghost var single := possibleValidSolutions;
      assert single == SingleWordSolutions(puzzle, dictionary, boxedWords);
      possibleValidSolutions, bestAlternateSolution := CheckPairs(checker, boxedWords.word, possibleNextWords, possibleValidSolutions);
      assert possibleWordPool == pool;
      if possibleValidSolutions != [] {
        solutions := possibleValidSolutions;
      } else if bestAlternateSolution.Some? {
        solutions := [bestAlternateSolution.value];
      } else {
        solutions := [];
      }
    }

    /** The `runBlocking` block of `findTopSolutions`: every candidate of the window is searched and its valid solutions kept. */
    method SearchWindow(currentSubPool: seq<BoxedWords>) returns (solutions: seq<PuzzleSolutionResult>)
      requires Valid() && NonEmptyWords(currentSubPool)
      ensures solutions == WindowSolutions(puzzle, dictionary, possibleWordPool, currentSubPool, |currentSubPool|)
    {
      ghost var pool := possibleWordPool;
      solutions := [];
      for i := 0 to |currentSubPool|
        invariant solutions == WindowSolutions(puzzle, dictionary, pool, currentSubPool, i)
      {
        var candidateSolutions := CheckWordsForSolution(currentSubPool[i]);
        solutions := solutions + ValidOnly(candidateSolutions);
        WindowSolutionsSnoc(puzzle, dictionary, pool, currentSubPool, i);
      }
    }

    /**
     * `findTopSolutions`: builds the sorted pool, searches its first window
     * of `3 * threadCount` candidates and ranks the valid solutions. The
     * window bounds are advanced but never read again, so `stopEarly` has
     * no effect on the result.
     */
    method FindTopSolutions(stopEarly: bool) returns (r: Result<seq<PuzzleSolutionResult>>)
      requires Valid()
      modifies this
      ensures |dictionary.words| < threadCount ==>
                r == Failure(ChunkSizeNotPositive) && possibleWordPool == old(possibleWordPool)
      ensures |dictionary.words| >= threadCount ==>
                && SortedBy(possibleWordPool, BoxedLe)
                && multiset(possibleWordPool) == multiset(PossibleWords(puzzle, dictionary, dictionary.words))
                && NonEmptyWords(possibleWordPool)
                && r == TopSolutions(puzzle, dictionary, possibleWordPool, threadCount * 3)
    {
      var possibleWords := FindPossibleWords();
      if possibleWords.Failure? {
        return Failure(possibleWords.error);
      }
      var found := possibleWords.value;
      BoxedOrderIsTotalPreorder();
      SortBySorted(found, BoxedLe);
      possibleWordPool := SortBy(found, BoxedLe);
      ghost var pool := possibleWordPool;
      PoolWordsNonEmpty(puzzle, dictionary, dictionary.words, pool);
      var bufferSize := threadCount * 3;
      var startIndex := 0;
      var endIndex := bufferSize;
      if endIndex > |possibleWordPool| {
        return Failure(SubListOutOfBounds);
      }
      var currentSubPool := possibleWordPool[startIndex..endIndex];
      PrefixWordsNonEmpty(pool, bufferSize);
      assert currentSubPool == pool[..bufferSize];
      var solutions := SearchWindow(currentSubPool);
      if !(stopEarly && exists k :: 0 <= k < |solutions| && solutions[k].ValidPuzzleSolution?) {
        startIndex := endIndex;
        endIndex := endIndex + bufferSize;
      }
      var validSolutions := SortBy(ValidOnly(solutions), SolutionLe);
      assert solutions == FirstWindowSolutions(puzzle, dictionary, pool, bufferSize);
      assert possibleWordPool == pool;
      r := Success(validSolutions);
    }
  }
}
