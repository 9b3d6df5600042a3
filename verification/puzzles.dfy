/** The puzzle pool: puzzle/solution pairs grouped by difficulty, the
    fallback for an unknown difficulty, and the random draw of one entry. */
module Puzzles {
  import opened Board
  import Validation

  datatype Entry = Entry(puzzle: Grid, solution: Grid)

  /** Difficulty name to its puzzles, in order. */
  type Pool = map<string, seq<Entry>>

  /** The difficulty the game starts on and falls back to. */
  const DefaultDifficulty: string := "medium"

  /** What an entry is meant to be: givens in 0..9, a full rule-consistent
      solution, and every given agreeing with it. The game itself never
      checks this. */
  ghost predicate WellFormedEntry(e: Entry) {
    && (forall q: Cell :: 0 <= At(e.puzzle, q) <= 9)
    && Validation.ValidSolution(e.solution)
    && Validation.GivensMatch(e.puzzle, e.solution)
  }

  ghost predicate WellFormedPool(pool: Pool) {
    forall d, i :: d in pool && 0 <= i < |pool[d]| ==> WellFormedEntry(pool[d][i])
  }

  /** The difficulty whose pool is used: the requested one when the pool has
      that key (even with no entries), otherwise the default. */
  function ResolveDifficulty(pool: Pool, d: string): (key: string)
    ensures key == d || key == DefaultDifficulty
    ensures key == d <==> d in pool || d == DefaultDifficulty
  {
    if d in pool then d else DefaultDifficulty
  }

  /** The index drawn from a pool of `n` entries by a random number `rand`
      in [0, 1): the integer part of `rand * n`. */
  function PickIndex(rand: real, n: int): (i: int)
    requires 0.0 <= rand < 1.0
    requires n > 0
    ensures 0 <= i < n
  {
    var scaled := rand * n as real;
    assert 0.0 <= scaled by {
      assert 0.0 <= rand && 0.0 < n as real;
    }
    assert scaled < n as real by {
      assert n as real - scaled == (1.0 - rand) * n as real;
      assert 0.0 < 1.0 - rand && 0.0 < n as real;
    }
    scaled.Floor
  }

  /** Every entry of a pool can be drawn. */
  lemma EveryIndexCanBeDrawn(n: int, i: int)
    requires 0 <= i < n
    ensures 0.0 <= i as real / n as real < 1.0
    ensures PickIndex(i as real / n as real, n) == i
  {
  }
}
