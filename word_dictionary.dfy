/**
 * The dictionary as the core sees it: the list of words it was loaded with,
 * and a membership test. How the list is read and sanitised is not modelled.
 */
module WordDictionary {

  datatype Dictionary = Dictionary(words: seq<string>)
  {
    /** `validWord`: the word occurs in the list. */
    predicate ValidWord(word: string)
    {
      word in words
    }
  }
}
