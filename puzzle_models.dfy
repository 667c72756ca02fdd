/**
 * The result values of the checker and the solver, and the ranking of
 * complete solutions.
 */
module PuzzleModels {
  import opened Strings

  /** The outcome of checking a chain of words against a puzzle. */
  datatype PuzzleSolutionResult =
    | ValidPuzzleSolution(words: seq<string>)
    | IncompletePuzzleSolution(words: seq<string>, remainingLetters: set<char>)
    | InvalidPuzzleSolution(words: seq<string>, message: string)

  /** The outcome of checking one word; `remainingLetters` is a snapshot of the checker's state. */
  datatype CheckedWordResult =
    | ValidWord(word: string, remainingLetters: set<char>)
    | InvalidWord(word: string, message: string)

  /** `words.joinToString()`: the words separated by a comma and a space. */
  function JoinToString(words: seq<string>): string
  {
    if |words| == 0 then ""
    else if |words| == 1 then words[0]
    else words[0] + ", " + JoinToString(words[1..])
  }

  /** The sum of the lengths of the words. */
  function TotalLength(words: seq<string>): nat
  {
    if words == [] then 0 else |words[0]| + TotalLength(words[1..])
  }

  /** The number of separators `joinToString` puts between the words. */
  function SeparatorCount(words: seq<string>): nat
  {
    if |words| == 0 then 0 else |words| - 1
  }

  lemma {:induction false} JoinLength(words: seq<string>)
    ensures |JoinToString(words)| == TotalLength(words) + 2 * SeparatorCount(words)
  {
    if |words| > 1 {
      JoinLength(words[1..]);
    }
  }

  /**
   * `solutionCharacterCount`: the length of the joined string, so the
   * letters of every word plus two characters per separator.
   */
  function SolutionCharacterCount(words: seq<string>): (n: nat)
    ensures n == TotalLength(words) + 2 * SeparatorCount(words)
  {
    JoinLength(words);
    |JoinToString(words)|
  }

  /**
   * `countCharacterOverlap`: how many characters of the joined string
   * (separators included) repeat an earlier one. Never negative, and zero
   * exactly when no character of the joined string repeats.
   */
  function CountCharacterOverlap(words: seq<string>): (n: int)
    ensures 0 <= n <= SolutionCharacterCount(words)
    ensures n == 0 <==> Distinct(JoinToString(words))
  {
    var joined := JoinToString(words);
    CharsBound(joined);
    CharsCountDistinct(joined);
    SolutionCharacterCount(words) - |Chars(joined)|
  }

  /** Kotlin's `Int.compareTo`: the sign of `a - b`. */
  function IntCompareTo(a: int, b: int): int
  {
    if a < b then -1 else if a > b then 1 else 0
  }

  /**
   * `ValidPuzzleSolution.compareTo` on the solutions' word lists: fewer
   * overlapping characters first, then fewer characters in all.
   */
  function CompareSolutions(a: seq<string>, b: seq<string>): (r: int)
    ensures r == -1 || r == 0 || r == 1
    ensures r < 0 <==>
      || CountCharacterOverlap(a) < CountCharacterOverlap(b)
      || (CountCharacterOverlap(a) == CountCharacterOverlap(b) && SolutionCharacterCount(a) < SolutionCharacterCount(b))
    ensures r == 0 <==>
      CountCharacterOverlap(a) == CountCharacterOverlap(b) && SolutionCharacterCount(a) == SolutionCharacterCount(b)
  {
    if CountCharacterOverlap(a) < CountCharacterOverlap(b) then -1
    else if CountCharacterOverlap(a) > CountCharacterOverlap(b) then 1
    else IntCompareTo(SolutionCharacterCount(a), SolutionCharacterCount(b))
  }

  lemma CompareSolutionsAntisymmetric(a: seq<string>, b: seq<string>)
    ensures CompareSolutions(a, b) == -CompareSolutions(b, a)
  {
  }

  lemma CompareSolutionsTransitive(a: seq<string>, b: seq<string>, c: seq<string>)
    requires CompareSolutions(a, b) <= 0 && CompareSolutions(b, c) <= 0
    ensures CompareSolutions(a, c) <= 0
    ensures CompareSolutions(a, b) < 0 || CompareSolutions(b, c) < 0 ==> CompareSolutions(a, c) < 0
  {
  }
}
