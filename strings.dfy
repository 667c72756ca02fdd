/** Helpers over Kotlin strings, modelled as sequences of characters. */
module Strings {

  /** `s.toSet()`: the distinct characters of a string. */
  function Chars(s: string): set<char>
  {
    set c | c in s
  }

  /** `s.last()`, which throws on an empty string. */
  function Last(s: string): char
    requires |s| > 0
  {
    s[|s| - 1]
  }

  /** The distinct characters used by a list of words. */
  function AllChars(words: seq<string>): set<char>
  {
    if words == [] then {} else Chars(words[0]) + AllChars(words[1..])
  }

  /** A string has no more distinct characters than characters. */
  lemma {:induction false} CharsBound(s: string)
    ensures |Chars(s)| <= |s|
  {
    if s != [] {
      CharsBound(s[1..]);
      assert Chars(s) == Chars(s[1..]) + {s[0]};
    }
  }

  lemma CharsOfConcat(a: string, b: string)
    ensures Chars(a + b) == Chars(a) + Chars(b)
  {
    assert forall c :: c in a + b <==> c in a || c in b;
  }

  lemma {:induction false} AllCharsMembership(words: seq<string>, c: char)
    ensures c in AllChars(words) <==> exists i :: 0 <= i < |words| && c in words[i]
  {
    if words != [] {
      AllCharsMembership(words[1..], c);
      if c in AllChars(words[1..]) {
        var i :| 0 <= i < |words[1..]| && c in words[1..][i];
        assert c in words[i + 1];
      }
      if exists i :: 0 <= i < |words| && c in words[i] {
        var i :| 0 <= i < |words| && c in words[i];
        if i > 0 { assert c in words[1..][i - 1]; }
      }
    }
  }

  /** No character of `s` occurs twice. */
  predicate Distinct(s: string)
  {
    forall i, j :: 0 <= i < j < |s| ==> s[i] != s[j]
  }

  /** A string has as many distinct characters as characters exactly when none repeats. */
  lemma {:induction false} CharsCountDistinct(s: string)
    ensures |Chars(s)| == |s| <==> Distinct(s)
  {
    if s != [] {
      var t := s[1..];
      CharsCountDistinct(t);
      CharsBound(t);
      assert Chars(s) == Chars(t) + {s[0]};
      if s[0] in t {
        var k :| 0 <= k < |t| && t[k] == s[0];
        assert s[k + 1] == s[0];
      } else {
        assert Distinct(s) <==> Distinct(t) by {
          if Distinct(t) {
            forall i, j | 0 <= i < j < |s| ensures s[i] != s[j] {
              if i == 0 { assert s[j] == t[j - 1]; } else { assert s[i] == t[i - 1] && s[j] == t[j - 1]; }
            }
          }
          if Distinct(s) {
            forall i, j | 0 <= i < j < |t| ensures t[i] != t[j] {
              assert t[i] == s[i + 1] && t[j] == s[j + 1];
            }
          }
        }
      }
    }
  }
}
