/**
 * The solution checker: a stateful validator holding the set of puzzle
 * letters not yet used. Its methods are proved against the value-level
 * functions `CheckWordOutcome` and `CheckSolutionOutcome`, which give the
 * result and the new remaining-letter set from the old one.
 */
module Checker {
  import opened Wrappers
  import opened Strings
  import opened PuzzleModels
  import opened WordDictionary
  import opened Board

  const NotInDictionary := "The given word is not in the dictionary"

  function FirstLetterNotPossible(initialLetter: char): string
  {
    "first letter '" + [initialLetter] + "' not possible"
  }

  function FirstLetterMismatch(word: string, initialLetter: char): string
  {
    "first letter of '" + word + "' must match initial letter " + [initialLetter]
  }

  function CannotForm(word: string): string
  {
    "cannot form word '" + word + "' given current puzzle"
  }

  // ---------------------------------------------------------------------
  // Walking a word through the adjacency relation

  /**
   * The letters allowed at position `i` of a walk that starts from the set
   * `possible`: that set for the first letter, the adjacency of the
   * previous letter afterwards.
   */
  function Allowed(tree: map<char, set<char>>, possible: set<char>, letters: string, i: nat): set<char>
    requires i < |letters|
  {
    if i == 0 then possible
    else if letters[i - 1] in tree then tree[letters[i - 1]]
    else {}
  }

  /** Every letter is allowed after its predecessor. */
  ghost predicate Legal(tree: map<char, set<char>>, possible: set<char>, letters: string)
  {
    forall i :: 0 <= i < |letters| ==> letters[i] in Allowed(tree, possible, letters, i)
  }

  /**
   * The number of letters the loop of `checkWord` accepts before it meets
   * a letter outside the current possible set.
   */
  function Walk(tree: map<char, set<char>>, possible: set<char>, letters: string): (n: nat)
    requires Closed(tree) && possible <= tree.Keys
    ensures n <= |letters|
    decreases |letters|
  {
    if letters == [] || letters[0] !in possible then 0
    else 1 + Walk(tree, tree[letters[0]], letters[1..])
  }

  /** `Walk` stops exactly at the end of the longest legal prefix. */
  lemma {:induction false} WalkIsLongestLegalPrefix(tree: map<char, set<char>>, possible: set<char>, letters: string)
    requires Closed(tree) && possible <= tree.Keys
    ensures Legal(tree, possible, letters[..Walk(tree, possible, letters)])
    ensures Walk(tree, possible, letters) < |letters| ==>
              letters[Walk(tree, possible, letters)] !in Allowed(tree, possible, letters, Walk(tree, possible, letters))
    decreases |letters|
  {
    var n := Walk(tree, possible, letters);
    if letters != [] && letters[0] in possible {
      var tail := letters[1..];
      var next := tree[letters[0]];
      WalkIsLongestLegalPrefix(tree, next, tail);
      var m := Walk(tree, next, tail);
      assert n == m + 1;
      forall i | 0 <= i < |tail|
        ensures Allowed(tree, possible, letters, i + 1) == Allowed(tree, next, tail, i)
      {
      }
      forall i | 0 <= i < n
        ensures letters[..n][i] in Allowed(tree, possible, letters[..n], i)
      {
        if i > 0 {
          assert tail[..m][i - 1] in Allowed(tree, next, tail[..m], i - 1);
          assert Allowed(tree, next, tail[..m], i - 1) == Allowed(tree, next, tail, i - 1);
        }
      }
    }
  }

  lemma WalkCompleteIffLegal(tree: map<char, set<char>>, possible: set<char>, letters: string)
    requires Closed(tree) && possible <= tree.Keys
    ensures Walk(tree, possible, letters) == |letters| <==> Legal(tree, possible, letters)
  {
    WalkIsLongestLegalPrefix(tree, possible, letters);
    assert letters[..|letters|] == letters;
  }

  // ---------------------------------------------------------------------
  // checkWord and checkSolution as functions of the remaining-letter set

  /** The letters `checkWord` walks: the word without its first letter when an initial letter is given. */
  function WalkedLetters(word: string, initialLetter: Option<char>): string
    requires |word| > 0
  {
    if initialLetter.Some? then word[1..] else word
  }

  /** The set the walk starts from: the initial letter's adjacency, or every puzzle letter. */
  function StartingLetters(puzzle: LetterBoxedPuzzle, initialLetter: Option<char>): set<char>
    requires initialLetter.Some? ==> initialLetter.value in puzzle.tree
  {
    if initialLetter.Some? then puzzle.tree[initialLetter.value] else Letters(puzzle.sides)
  }

  /**
   * `checkWord(word, initialLetter)` on a checker whose remaining letters
   * are `remaining`: the result and the remaining letters afterwards.
   */
  function CheckWordOutcome(puzzle: LetterBoxedPuzzle, dictionary: Dictionary, remaining: set<char>,
                            word: string, initialLetter: Option<char>): (CheckedWordResult, set<char>)
    requires puzzle.Valid()
  {
    if |word| == 0 || !dictionary.ValidWord(word) then
      (InvalidWord(word, NotInDictionary), remaining)
    else if initialLetter.Some? && initialLetter.value !in puzzle.tree then
      (InvalidWord(word, FirstLetterNotPossible(initialLetter.value)), remaining)
    else if initialLetter.Some? && word[0] != initialLetter.value then
      (InvalidWord(word, FirstLetterMismatch(word, initialLetter.value)), remaining)
    else
      AdjacencyClosed(puzzle.sides, puzzle.tree);
      var letters := WalkedLetters(word, initialLetter);
      var n := Walk(puzzle.tree, StartingLetters(puzzle, initialLetter), letters);
      var after := remaining - Chars(letters[..n]);
      if n == |letters| then (ValidWord(word, after), after)
      else (InvalidWord(word, CannotForm(word)), after)
  }

  /** Where a chain of words got to: still going, or stopped by an invalid word. */
  datatype Chain = Chained(remaining: set<char>) | Broken(message: string, remaining: set<char>)

  /** The loop of `checkSolution`: each word must start with the previous word's last letter. */
  function ChainOutcome(puzzle: LetterBoxedPuzzle, dictionary: Dictionary, remaining: set<char>,
                        words: seq<string>, initialLetter: Option<char>): Chain
    requires puzzle.Valid()
    decreases |words|
  {
    if words == [] then Chained(remaining)
    else
      var (result, after) := CheckWordOutcome(puzzle, dictionary, remaining, words[0], initialLetter);
      match result
      case InvalidWord(_, message) => Broken(message, after)
      case ValidWord(_, _) => ChainOutcome(puzzle, dictionary, after, words[1..], Some(Last(words[0])))
  }

  /** `checkSolution(words)`: the result and the remaining letters afterwards. */
  function CheckSolutionOutcome(puzzle: LetterBoxedPuzzle, dictionary: Dictionary, remaining: set<char>,
                                words: seq<string>): (PuzzleSolutionResult, set<char>)
    requires puzzle.Valid()
  {
    match ChainOutcome(puzzle, dictionary, remaining, words, None)
    case Broken(message, after) => (InvalidPuzzleSolution(words, message), after)
    case Chained(after) =>
      (if after == {} then ValidPuzzleSolution(words) else IncompletePuzzleSolution(words, after), after)
  }

  // ---------------------------------------------------------------------
  // Properties of checkWord

  /**
   * The empty word and a word missing from the dictionary are rejected
   * before anything else, and the remaining letters do not change; so are
   * an initial letter that is not on the board and a word not starting with it.
   */
  lemma CheckWordGuards(puzzle: LetterBoxedPuzzle, dictionary: Dictionary, remaining: set<char>,
                        word: string, initialLetter: Option<char>)
    requires puzzle.Valid()
    ensures |word| == 0 || !dictionary.ValidWord(word) ==>
              CheckWordOutcome(puzzle, dictionary, remaining, word, initialLetter) == (InvalidWord(word, NotInDictionary), remaining)
    ensures |word| > 0 && dictionary.ValidWord(word) && initialLetter.Some? && initialLetter.value !in puzzle.tree ==>
              CheckWordOutcome(puzzle, dictionary, remaining, word, initialLetter)
              == (InvalidWord(word, FirstLetterNotPossible(initialLetter.value)), remaining)
    ensures |word| > 0 && dictionary.ValidWord(word) && initialLetter.Some? && initialLetter.value in puzzle.tree
            && word[0] != initialLetter.value ==>
              CheckWordOutcome(puzzle, dictionary, remaining, word, initialLetter)
              == (InvalidWord(word, FirstLetterMismatch(word, initialLetter.value)), remaining)
  {
  }

  /** Checking a word never adds letters back, and reports on that same word. */
  lemma CheckWordShrinks(puzzle: LetterBoxedPuzzle, dictionary: Dictionary, remaining: set<char>,
                         word: string, initialLetter: Option<char>)
    requires puzzle.Valid()
    ensures CheckWordOutcome(puzzle, dictionary, remaining, word, initialLetter).1 <= remaining
    ensures CheckWordOutcome(puzzle, dictionary, remaining, word, initialLetter).0.word == word
  {
  }

  /** The checks before the walk pass. */
  ghost predicate PassesGuards(puzzle: LetterBoxedPuzzle, dictionary: Dictionary, word: string, initialLetter: Option<char>)
  {
    && |word| > 0
    && dictionary.ValidWord(word)
    && (initialLetter.Some? ==> initialLetter.value in puzzle.tree && word[0] == initialLetter.value)
  }

  /**
   * Past the guards, a word is valid exactly when every walked letter is
   * allowed after its predecessor, and then the walked letters, and only
   * they, leave the remaining set; the result carries that set.
   */
  lemma CheckWordValidIff(puzzle: LetterBoxedPuzzle, dictionary: Dictionary, remaining: set<char>,
                          word: string, initialLetter: Option<char>)
    requires puzzle.Valid()
    requires PassesGuards(puzzle, dictionary, word, initialLetter)
    ensures var out := CheckWordOutcome(puzzle, dictionary, remaining, word, initialLetter);
            && (out.0.ValidWord? <==> Legal(puzzle.tree, StartingLetters(puzzle, initialLetter), WalkedLetters(word, initialLetter)))
            && (out.0.ValidWord? ==>
                  out.1 == remaining - Chars(WalkedLetters(word, initialLetter)) && out.0.remainingLetters == out.1)
  {
    AdjacencyClosed(puzzle.sides, puzzle.tree);
    var letters := WalkedLetters(word, initialLetter);
    WalkCompleteIffLegal(puzzle.tree, StartingLetters(puzzle, initialLetter), letters);
    assert letters[..|letters|] == letters;
  }

  /**
   * Past the guards, a word that is rejected during the walk is rejected at
   * the first letter not allowed after its predecessor, and the letters
   * walked before it stay removed.
   */
  lemma CheckWordKeepsPartialRemovals(puzzle: LetterBoxedPuzzle, dictionary: Dictionary, remaining: set<char>,
                                      word: string, initialLetter: Option<char>)
    requires puzzle.Valid()
    requires PassesGuards(puzzle, dictionary, word, initialLetter)
    requires CheckWordOutcome(puzzle, dictionary, remaining, word, initialLetter).0.InvalidWord?
    ensures var out, letters := CheckWordOutcome(puzzle, dictionary, remaining, word, initialLetter),
                                 WalkedLetters(word, initialLetter);
            && out.0.message == CannotForm(word)
            && exists n ::
                 && 0 <= n < |letters|
                 && Legal(puzzle.tree, StartingLetters(puzzle, initialLetter), letters[..n])
                 && letters[n] !in Allowed(puzzle.tree, StartingLetters(puzzle, initialLetter), letters, n)
                 && out.1 == remaining - Chars(letters[..n])
  {
    AdjacencyClosed(puzzle.sides, puzzle.tree);
    var letters := WalkedLetters(word, initialLetter);
    WalkIsLongestLegalPrefix(puzzle.tree, StartingLetters(puzzle, initialLetter), letters);
  }

  // ---------------------------------------------------------------------
  // Properties of checkSolution

  /**
   * A chain that is not broken consists of dictionary words, the first
   * starting with the initial letter if one is given and every later one
   * with the last letter of the word before it.
   */
  lemma {:induction false} ChainLinks(puzzle: LetterBoxedPuzzle, dictionary: Dictionary, remaining: set<char>,
                                      words: seq<string>, initialLetter: Option<char>)
    requires puzzle.Valid()
    requires ChainOutcome(puzzle, dictionary, remaining, words, initialLetter).Chained?
    ensures forall i :: 0 <= i < |words| ==> |words[i]| > 0 && dictionary.ValidWord(words[i])
    ensures forall i :: 1 <= i < |words| ==> words[i][0] == Last(words[i - 1])
    ensures initialLetter.Some? && |words| > 0 ==> words[0][0] == initialLetter.value
    decreases |words|
  {
    if words != [] {
      var after := CheckWordOutcome(puzzle, dictionary, remaining, words[0], initialLetter).1;
      var rest := words[1..];
      ChainLinks(puzzle, dictionary, after, rest, Some(Last(words[0])));
      forall i | 1 <= i < |words|
        ensures words[i][0] == Last(words[i - 1])
      {
        if i > 1 { assert rest[i - 1][0] == Last(rest[i - 2]); }
      }
      forall i | 0 <= i < |words|
        ensures |words[i]| > 0 && dictionary.ValidWord(words[i])
      {
        if i > 0 { assert rest[i - 1] == words[i]; }
      }
    }
  }

  /**
   * An unbroken chain removes exactly the letters of its words from the
   * remaining set, provided the initial letter, if any, is already gone.
   */
  lemma {:induction false} ChainRemovesItsLetters(puzzle: LetterBoxedPuzzle, dictionary: Dictionary, remaining: set<char>,
                                                  words: seq<string>, initialLetter: Option<char>)
    requires puzzle.Valid()
    requires initialLetter.Some? ==> initialLetter.value !in remaining
    requires ChainOutcome(puzzle, dictionary, remaining, words, initialLetter).Chained?
    ensures ChainOutcome(puzzle, dictionary, remaining, words, initialLetter).remaining == remaining - AllChars(words)
    decreases |words|
  {
    if words != [] {
      var w := words[0];
      CheckWordValidIff(puzzle, dictionary, remaining, w, initialLetter);
      var after := CheckWordOutcome(puzzle, dictionary, remaining, w, initialLetter).1;
      assert w == [w[0]] + w[1..];
      CharsOfConcat([w[0]], w[1..]);
      assert after == remaining - Chars(w);
      assert Last(w) in Chars(w);
      ChainRemovesItsLetters(puzzle, dictionary, after, words[1..], Some(Last(w)));
    }
  }

  /**
   * `checkSolution` stops at the first invalid word: words after it are not
   * looked at. A chain that is not broken continues from where it stopped.
   */
  lemma {:induction false} ChainOfConcat(puzzle: LetterBoxedPuzzle, dictionary: Dictionary, remaining: set<char>,
                                         words: seq<string>, more: seq<string>, initialLetter: Option<char>)
    requires puzzle.Valid()
    ensures ChainOutcome(puzzle, dictionary, remaining, words, initialLetter).Broken? ==>
              ChainOutcome(puzzle, dictionary, remaining, words + more, initialLetter)
              == ChainOutcome(puzzle, dictionary, remaining, words, initialLetter)
    ensures ChainOutcome(puzzle, dictionary, remaining, words, initialLetter).Chained? && words != [] ==>
              |words[|words| - 1]| > 0 &&
              ChainOutcome(puzzle, dictionary, remaining, words + more, initialLetter)
              == ChainOutcome(puzzle, dictionary, ChainOutcome(puzzle, dictionary, remaining, words, initialLetter).remaining,
                              more, Some(Last(words[|words| - 1])))
    decreases |words|
  {
    if words != [] {
      assert (words + more)[0] == words[0];
      assert (words + more)[1..] == words[1..] + more;
      var (result, after) := CheckWordOutcome(puzzle, dictionary, remaining, words[0], initialLetter);
      if result.ValidWord? {
        ChainOfConcat(puzzle, dictionary, after, words[1..], more, Some(Last(words[0])));
      }
    }
  }

  /**
   * Completeness: a word list that passes every word check is a valid
   * solution exactly when its words use every remaining letter, and is
   * otherwise incomplete with exactly the letters they do not use.
   */
  lemma SolutionCompleteness(puzzle: LetterBoxedPuzzle, dictionary: Dictionary, remaining: set<char>, words: seq<string>)
    requires puzzle.Valid()
    ensures var r := CheckSolutionOutcome(puzzle, dictionary, remaining, words).0;
            !r.InvalidPuzzleSolution? ==>
              && (r.ValidPuzzleSolution? <==> remaining <= AllChars(words))
              && (r.IncompletePuzzleSolution? ==> r.remainingLetters == remaining - AllChars(words))
  {
    var chain := ChainOutcome(puzzle, dictionary, remaining, words, None);
    if chain.Chained? {
      ChainRemovesItsLetters(puzzle, dictionary, remaining, words, None);
      var left := remaining - AllChars(words);
      assert chain.remaining == left;
      if remaining <= AllChars(words) {
        assert left == {};
      } else {
        var x :| x in remaining && x !in AllChars(words);
        assert x in left;
      }
    }
  }

  /**
   * Chaining: a list accepted as a valid or incomplete solution holds only
   * dictionary words, each after the first starting with the last letter
   * of the previous one; so a broken link makes the solution invalid.
   */
  lemma SolutionLinks(puzzle: LetterBoxedPuzzle, dictionary: Dictionary, remaining: set<char>, words: seq<string>)
    requires puzzle.Valid()
    requires !CheckSolutionOutcome(puzzle, dictionary, remaining, words).0.InvalidPuzzleSolution?
    ensures forall i :: 0 <= i < |words| ==> |words[i]| > 0 && dictionary.ValidWord(words[i])
    ensures forall i :: 1 <= i < |words| ==> words[i][0] == Last(words[i - 1])
  {
    ChainLinks(puzzle, dictionary, remaining, words, None);
  }

  // ---------------------------------------------------------------------
  // The checker object

  class LetterBoxedSolutionChecker {
    const puzzle: LetterBoxedPuzzle
    const dictionary: Dictionary
    var remainingLetters: set<char>

    ghost predicate Valid()
      reads this
    {
      puzzle.Valid() && remainingLetters <= Letters(puzzle.sides)
    }

    constructor (puzzle: LetterBoxedPuzzle, dictionary: Dictionary)
      requires puzzle.Valid()
      ensures Valid()
      ensures this.puzzle == puzzle && this.dictionary == dictionary
      ensures remainingLetters == Letters(puzzle.sides)
    {
      this.puzzle := puzzle;
      this.dictionary := dictionary;
      remainingLetters := Letters(puzzle.sides);
    }

    /** `reset`: every puzzle letter is remaining again. */
    method Reset()
      requires Valid()
      modifies this
      ensures Valid()
      ensures remainingLetters == Letters(puzzle.sides)
    {
      remainingLetters := Letters(puzzle.sides);
    }

    /** `checkWord`: a walk that fails midway keeps the letters it already removed. */
    method CheckWord(word: string, initialLetter: Option<char>) returns (r: CheckedWordResult)
      requires Valid()
      modifies this
      ensures Valid()
      ensures remainingLetters <= old(remainingLetters)
      ensures (r, remainingLetters) == CheckWordOutcome(puzzle, dictionary, old(remainingLetters), word, initialLetter)
    {
      if |word| == 0 || !dictionary.ValidWord(word) {
        return InvalidWord(word, NotInDictionary);
      }
      if initialLetter.Some? && initialLetter.value !in puzzle.tree {
        return InvalidWord(word, FirstLetterNotPossible(initialLetter.value));
      }
      var letters := word;
      if initialLetter.Some? {
        if word[0] != initialLetter.value {
          return InvalidWord(word, FirstLetterMismatch(word, initialLetter.value));
        }
        letters := letters[1..];
      }
      AdjacencyClosed(puzzle.sides, puzzle.tree);
      var complete := WalkLetters(letters, if initialLetter.Some? then puzzle.tree[initialLetter.value] else Letters(puzzle.sides));
      if complete {
        r := ValidWord(word, remainingLetters);
      } else {
        r := InvalidWord(word, CannotForm(word));
      }
    }

    /**
     * The letter loop of `checkWord`: accepts letters while each lies in the
     * current possible set, removing each accepted letter from the remaining
     * ones, and reports whether the whole of `letters` was accepted.
     */
    method WalkLetters(letters: string, possible: set<char>) returns (complete: bool)
      requires Valid() && Closed(puzzle.tree) && possible <= puzzle.tree.Keys
      modifies this
      ensures Valid()
      ensures complete <==> Walk(puzzle.tree, possible, letters) == |letters|
      ensures remainingLetters == old(remainingLetters) - Chars(letters[..Walk(puzzle.tree, possible, letters)])
    {
      var possibleLetters := possible;
      for i := 0 to |letters|
        invariant possibleLetters <= puzzle.tree.Keys
        invariant Walk(puzzle.tree, possible, letters) == i + Walk(puzzle.tree, possibleLetters, letters[i..])
        invariant remainingLetters == old(remainingLetters) - Chars(letters[..i])
      {
        assert letters[..i + 1] == letters[..i] + [letters[i]];
        CharsOfConcat(letters[..i], [letters[i]]);
        if letters[i] in possibleLetters {
          assert letters[i..][1..] == letters[i + 1..];
          possibleLetters := puzzle.tree[letters[i]];
          remainingLetters := remainingLetters - {letters[i]};
        } else {
          return false;
        }
      }
      assert letters[..|letters|] == letters;
      return true;
    }

    /** `checkSolution`: chains the words and classifies the leftover letters. */
    method CheckSolution(words: seq<string>) returns (r: PuzzleSolutionResult)
      requires Valid()
      modifies this
      ensures Valid()
      ensures remainingLetters <= old(remainingLetters)
      ensures (r, remainingLetters) == CheckSolutionOutcome(puzzle, dictionary, old(remainingLetters), words)
    {
      var firstCharacter: Option<char> := None;
      for i := 0 to |words|
        invariant Valid()
        invariant remainingLetters <= old(remainingLetters)
        invariant ChainOutcome(puzzle, dictionary, old(remainingLetters), words, None)
               == ChainOutcome(puzzle, dictionary, remainingLetters, words[i..], firstCharacter)
      {
        assert words[i..][1..] == words[i + 1..];
        var wordResult := CheckWord(words[i], firstCharacter);
        match wordResult
        case ValidWord(_, _) =>
          firstCharacter := Some(Last(words[i]));
        case InvalidWord(_, message) =>
          return InvalidPuzzleSolution(words, message);
      }
      if remainingLetters == {} {
        r := ValidPuzzleSolution(words);
      } else {
        r := IncompletePuzzleSolution(words, remainingLetters);
      }
    }
  }

  /** A reset checker replays a word list exactly as a freshly built one does. */
  method ReplayAfterReset(checker: LetterBoxedSolutionChecker, words: seq<string>)
    returns (replayed: PuzzleSolutionResult, first: PuzzleSolutionResult)
    requires checker.Valid()
    modifies checker
    ensures replayed == first
    ensures first == CheckSolutionOutcome(checker.puzzle, checker.dictionary, Letters(checker.puzzle.sides), words).0
    ensures checker.remainingLetters == CheckSolutionOutcome(checker.puzzle, checker.dictionary, Letters(checker.puzzle.sides), words).1
  {
    var newChecker := new LetterBoxedSolutionChecker(checker.puzzle, checker.dictionary);
    first := newChecker.CheckSolution(words);
    checker.Reset();
    replayed := checker.CheckSolution(words);
  }
}
