/**
 * The board: an ordered list of sides, each a set of letters, and the
 * relation saying which letter may follow which inside a word.
 */
module Board {
  import opened Wrappers

  const EmptyPuzzle := "cannot use an empty puzzle"
  const SideTooShort := "sides must be at least of length 2"
  const UnequalSides := "all sides must be of equal length"

  /** `sides.flatten().toSet()`: every letter of the puzzle. */
  function Letters(sides: seq<set<char>>): set<char>
  {
    set i, c | 0 <= i < |sides| && c in sides[i] :: c
  }

  /** What construction demands of the sides. */
  predicate WellFormedSides(sides: seq<set<char>>)
  {
    && |sides| > 0
    && |sides[0]| >= 2
    && forall i :: 0 <= i < |sides| ==> |sides[i]| == |sides[0]|
  }

  /**
   * `checkArguments`: the first failed check, in the order the source makes
   * them, or `Pass`.
   */
  function CheckArguments(sides: seq<set<char>>): (r: Outcome)
    ensures r.Pass? <==> WellFormedSides(sides)
    ensures |sides| == 0 ==> r == Fail(EmptyPuzzle)
    ensures |sides| > 0 && |sides[0]| < 2 ==> r == Fail(SideTooShort)
    ensures |sides| > 0 && |sides[0]| >= 2 && (exists i :: 0 <= i < |sides| && |sides[i]| != |sides[0]|) ==>
              r == Fail(UnequalSides)
  {
    if |sides| == 0 then Fail(EmptyPuzzle)
    else if |sides[0]| < 2 then Fail(SideTooShort)
    else if exists i :: 0 <= i < |sides| && |sides[i]| != |sides[0]| then Fail(UnequalSides)
    else Pass
  }

  /**
   * The index of the last side holding `c`. A letter written on two sides
   * takes its adjacency from the later one, because `buildTree` visits the
   * sides in order and overwrites.
   */
  function LastSideOf(sides: seq<set<char>>, c: char): (i: nat)
    requires c in Letters(sides)
    ensures i < |sides| && c in sides[i]
    ensures forall j :: i < j < |sides| ==> c !in sides[j]
  {
    var n := |sides| - 1;
    if c in sides[n] then n
    else
      assert c in Letters(sides[..n]) by {
        var k :| 0 <= k < |sides| && c in sides[k];
        assert sides[..n][k] == sides[k];
      }
      LastSideOf(sides[..n], c)
  }

  /**
   * `tree` as `buildTree` leaves it after the first `n` sides: a key for
   * every letter of those sides, mapped to all puzzle letters except those
   * of the letter's last side among them.
   */
  ghost predicate IsAdjacencyUpTo(sides: seq<set<char>>, n: nat, tree: map<char, set<char>>)
    requires n <= |sides|
  {
    && tree.Keys == Letters(sides[..n])
    && forall c :: c in tree ==> tree[c] == Letters(sides) - sides[LastSideOf(sides[..n], c)]
  }

  ghost predicate IsAdjacency(sides: seq<set<char>>, tree: map<char, set<char>>)
  {
    assert sides[..|sides|] == sides;
    IsAdjacencyUpTo(sides, |sides|, tree)
  }

  /** Every letter the relation can reach is itself a key of the relation. */
  ghost predicate Closed(tree: map<char, set<char>>)
  {
    forall c :: c in tree ==> tree[c] <= tree.Keys
  }

  /** Processing side `n` turns the relation for the first `n` sides into the one for `n + 1`. */
  lemma ExtendAdjacency(sides: seq<set<char>>, n: nat, tree: map<char, set<char>>)
    requires n < |sides|
    requires IsAdjacencyUpTo(sides, n, tree)
    ensures IsAdjacencyUpTo(sides, n + 1, tree + map c | c in sides[n] :: Letters(sides) - sides[n])
  {
    var tree' := tree + map c | c in sides[n] :: Letters(sides) - sides[n];
    var pre, pre' := sides[..n], sides[..n + 1];
    assert pre'[..n] == pre;
    forall c ensures c in Letters(pre') <==> c in Letters(pre) || c in sides[n] {
      if c in Letters(pre') {
        var k :| 0 <= k < |pre'| && c in pre'[k];
        if k < n { assert pre[k] == pre'[k]; }
      }
      if c in Letters(pre) {
        var k :| 0 <= k < |pre| && c in pre[k];
        assert pre'[k] == pre[k];
      }
      if c in sides[n] { assert pre'[n] == sides[n]; }
    }
    forall c | c in tree'
      ensures tree'[c] == Letters(sides) - sides[LastSideOf(pre', c)]
    {
      if c !in sides[n] {
        assert LastSideOf(pre', c) == LastSideOf(pre, c);
      }
    }
  }

  /**
   * `buildTree`: for each side in order, and each letter on it, map the
   * letter to every puzzle letter not on that side.
   */
  method BuildTree(sides: seq<set<char>>) returns (tree: map<char, set<char>>)
    ensures IsAdjacency(sides, tree)
    ensures tree.Keys == Letters(sides)
    ensures forall i, c :: 0 <= i < |sides| && c in sides[i] && (forall j :: i < j < |sides| ==> c !in sides[j]) ==>
              tree[c] == Letters(sides) - sides[i]
  {
    tree := map[];
    for i := 0 to |sides|
      invariant IsAdjacencyUpTo(sides, i, tree)
    {
      ghost var before := tree;
      var letters := sides[i];
      var rest := letters;
      while rest != {}
        invariant rest <= letters
        invariant tree == before + map c | c in letters - rest :: Letters(sides) - letters
      {
        var letter :| letter in rest;
        tree := tree[letter := Letters(sides) - letters];
        rest := rest - {letter};
      }
      assert letters - rest == sides[i];
      ExtendAdjacency(sides, i, before);
    }
    assert sides[..|sides|] == sides;
    forall i, c | 0 <= i < |sides| && c in sides[i] && (forall j :: i < j < |sides| ==> c !in sides[j])
      ensures tree[c] == Letters(sides) - sides[i]
    {
      var k := LastSideOf(sides, c);
      assert k == i;
    }
  }

  lemma AdjacencyClosed(sides: seq<set<char>>, tree: map<char, set<char>>)
    requires IsAdjacency(sides, tree)
    ensures Closed(tree)
    ensures tree.Keys == Letters(sides)
  {
    assert sides[..|sides|] == sides;
  }

  /** A letter may never follow itself: it lies on the side its adjacency comes from. */
  lemma NoLetterFollowsItself(sides: seq<set<char>>, tree: map<char, set<char>>, c: char)
    requires IsAdjacency(sides, tree)
    requires c in tree
    ensures c !in tree[c]
  {
    assert sides[..|sides|] == sides;
    var k := LastSideOf(sides, c);
  }

  /** No two sides share a letter (true of real puzzles, not checked by construction). */
  predicate DisjointSides(sides: seq<set<char>>)
  {
    forall i, j :: 0 <= i < j < |sides| ==> sides[i] !! sides[j]
  }

  /**
   * On a board whose sides share no letter, the letters that may follow `c`
   * are exactly those of the other sides: none of `c`'s own side.
   */
  lemma AdjacencyOfDisjointSides(sides: seq<set<char>>, tree: map<char, set<char>>, i: nat, c: char)
    requires IsAdjacency(sides, tree)
    requires DisjointSides(sides)
    requires i < |sides| && c in sides[i]
    ensures c in tree
    ensures tree[c] !! sides[i]
    ensures forall x :: x in tree[c] <==> exists j :: 0 <= j < |sides| && j != i && x in sides[j]
  {
    assert sides[..|sides|] == sides;
    var k := LastSideOf(sides, c);
    forall x ensures x in tree[c] <==> exists j :: 0 <= j < |sides| && j != i && x in sides[j] {
      if exists j :: 0 <= j < |sides| && j != i && x in sides[j] {
        var j :| 0 <= j < |sides| && j != i && x in sides[j];
        if i < j { assert sides[i] !! sides[j]; } else { assert sides[j] !! sides[i]; }
      }
    }
  }

  /** A constructed puzzle: well-formed sides and the adjacency relation built from them. */
  class LetterBoxedPuzzle {
    const sides: seq<set<char>>
    const tree: map<char, set<char>>

    ghost predicate Valid()
    {
      WellFormedSides(sides) && IsAdjacency(sides, tree)
    }

    /** Construction on sides that pass `checkArguments`; `NewPuzzle` covers the failing case. */
    constructor (sides: seq<set<char>>)
      requires WellFormedSides(sides)
      ensures this.sides == sides
      ensures Valid()
    {
      var tree := BuildTree(sides);
      this.sides := sides;
      this.tree := tree;
    }
  }

  /** `LetterBoxedPuzzle(sides)`: fails with the message of the first failed check, or builds the tree. */
  method NewPuzzle(sides: seq<set<char>>) returns (r: Result<LetterBoxedPuzzle>)
    ensures r.Failure? <==> !WellFormedSides(sides)
    ensures r.Failure? ==> CheckArguments(sides) == Fail(r.error)
    ensures r.Success? ==> fresh(r.value) && r.value.sides == sides && r.value.Valid()
  {
    match CheckArguments(sides)
    case Fail(message) =>
      r := Failure(message);
    case Pass =>
      var puzzle := new LetterBoxedPuzzle(sides);
      r := Success(puzzle);
  }
}
