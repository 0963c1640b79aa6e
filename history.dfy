/**
 * A game history as the solvers and the state encoders walk it: the outer
 * zip over (guess, feedback) pairs, the inner zip over (letter, state)
 * pairs of one guess, and the Python indexing rules the encoders rely on
 * when they turn a letter into a table row or column.
 */
module GameHistory {
  import opened Common

  /** The number of pairs zip walks through: the length of the shorter
      sequence. The encoders zip guesses with feedbacks, and each guess's
      letters with its states. */
  function ZipLength<A, B>(xs: seq<A>, ys: seq<B>): (n: nat)
    ensures n <= |xs| && n <= |ys|
    ensures n == |xs| || n == |ys|
  {
    if |xs| <= |ys| then |xs| else |ys|
  }

  /** One (letter, state) pair of a guess, with its position in the guess. */
  datatype Observation = Observation(letter: char, tile: Tile, pos: nat)

  /** The observations of one guess, position by position. */
  function Zip(guess: string, feedback: Pattern): seq<Observation>
  {
    seq(ZipLength(guess, feedback), j requires 0 <= j < ZipLength(guess, feedback) =>
      Observation(guess[j], feedback[j], j))
  }

  /** The observations of the first n pairs, in the order the nested loops
      visit them. */
  function History(guesses: seq<string>, feedbacks: seq<Pattern>, n: nat): seq<Observation>
    requires n <= |guesses| && n <= |feedbacks|
  {
    if n == 0 then []
    else History(guesses, feedbacks, n - 1) + Zip(guesses[n - 1], feedbacks[n - 1])
  }

  /** Every observation of the whole history. */
  function Observations(guesses: seq<string>, feedbacks: seq<Pattern>): seq<Observation>
  {
    History(guesses, feedbacks, ZipLength(guesses, feedbacks))
  }

  /** One more step of the inner loop appends the observation it visits;
      once the inner loop is done the next pair is complete. */
  lemma ZipStep(guesses: seq<string>, feedbacks: seq<Pattern>, i: nat, j: nat)
    requires i < |guesses| && i < |feedbacks| && j < ZipLength(guesses[i], feedbacks[i])
    ensures History(guesses, feedbacks, i) + Zip(guesses[i], feedbacks[i])[..j]
              + [Observation(guesses[i][j], feedbacks[i][j], j)]
            == History(guesses, feedbacks, i) + Zip(guesses[i], feedbacks[i])[..j + 1]
    ensures j + 1 == ZipLength(guesses[i], feedbacks[i]) ==>
              History(guesses, feedbacks, i) + Zip(guesses[i], feedbacks[i])[..j + 1]
              == History(guesses, feedbacks, i + 1)
  {
    var z := Zip(guesses[i], feedbacks[i]);
    assert z[..j + 1] == z[..j] + [z[j]];
    if j + 1 == ZipLength(guesses[i], feedbacks[i]) {
      assert z[..j + 1] == z;
    }
  }

  /** ord(letter) - ord('a'). */
  function LetterIndex(c: char): int
  {
    c as int - 'a' as int
  }

  /** Whether Python accepts i as an index into an axis of `size`
      entries: negative indices down to -size count from the end. */
  predicate OnAxis(i: int, size: nat)
  {
    -(size as int) <= i < size
  }

  /** The entry an accepted index i selects on an axis of `size` entries. */
  function Axis(i: int, size: nat): (k: int)
    requires OnAxis(i, size)
    ensures 0 <= k < size
    ensures k == i || k == i + size
  {
    if i < 0 then i + size else i
  }
}
