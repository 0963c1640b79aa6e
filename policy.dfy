/**
 * The state encoder of the supervised policy (WordleDataset.encode_state).
 *
 * It keeps a dict from letter to a priority state (0 unknown, 1 absent,
 * 2 present, 3 correct) that only ever moves up, and a grid with one row
 * per position of the dataset's word length and one column per letter,
 * where the last correct or absent observation of a letter at a position
 * leaves 1 or -1. The feature vector is the guess count, the 26 letter
 * states in alphabet order, then the grid row by row. Letters become
 * columns through ord(letter) - ord('a'), with Python's negative indexing;
 * the float divisions (by 6 and by 3) are left to the caller, and the model
 * keeps the integer codes.
 */
module TrainPolicy {
  import opened Common
  import opened GameHistory

  // ---------------------------------------------------------------------
  // Letter states

  /** letter_states.get(c, 0). */
  function StateOf(states: map<char, int>, c: char): int
  {
    if c in states then states[c] else 0
  }

  /** One observation applied to the dict: correct sets 3, present sets 2
      while the letter is below 2, absent sets 1 for a letter not yet in
      the dict, anything else changes nothing. */
  function Observe(states: map<char, int>, o: Observation): map<char, int>
  {
    if o.tile == Correct then states[o.letter := 3]
    else if o.tile == Present && StateOf(states, o.letter) < 2 then states[o.letter := 2]
    else if o.tile == Absent && o.letter !in states then states[o.letter := 1]
    else states
  }

  /** The dict after all of `obs`, in order; every state it holds is 1, 2
      or 3. */
  function LetterStates(obs: seq<Observation>): (states: map<char, int>)
    ensures forall c :: c in states ==> 1 <= states[c] <= 3
  {
    if obs == [] then map[]
    else Observe(LetterStates(obs[..|obs| - 1]), obs[|obs| - 1])
  }

  /** One observation never lowers any letter's state, and a correct one
      raises its letter to 3. */
  lemma ObserveRaises(states: map<char, int>, o: Observation, c: char)
    requires forall d :: d in states ==> 1 <= states[d] <= 3
    ensures StateOf(states, c) <= StateOf(Observe(states, o), c)
    ensures o.tile == Correct ==> StateOf(Observe(states, o), o.letter) == 3
    ensures c != o.letter ==> StateOf(Observe(states, o), c) == StateOf(states, c)
  {
  }

  /** Across any prefix of the observations, each letter's state only
      grows. */
  lemma {:induction false} StatesNeverDecrease(obs: seq<Observation>, n: nat, c: char)
    requires n <= |obs|
    ensures StateOf(LetterStates(obs[..n]), c) <= StateOf(LetterStates(obs), c)
    decreases |obs|
  {
    if n < |obs| {
      var prefix := obs[..|obs| - 1];
      assert obs[..n] == prefix[..n];
      StatesNeverDecrease(prefix, n, c);
      ObserveRaises(LetterStates(prefix), obs[|obs| - 1], c);
    } else {
      assert obs[..n] == obs;
    }
  }

  /** Once a letter has been seen correct its state is 3 for good. */
  lemma CorrectStaysThree(obs: seq<Observation>, k: nat)
    requires k < |obs| && obs[k].tile == Correct
    ensures StateOf(LetterStates(obs), obs[k].letter) == 3
  {
    var upTo := obs[..k + 1];
    assert upTo[..k] == obs[..k];
    ObserveRaises(LetterStates(obs[..k]), obs[k], obs[k].letter);
    StatesNeverDecrease(obs, k + 1, obs[k].letter);
  }

  /** A letter is in the dict exactly when some observation of it has a
      recognised state; every other letter encodes as 0. */
  lemma {:induction false} UnobservedIsZero(obs: seq<Observation>, c: char)
    ensures c in LetterStates(obs) <==> exists k :: 0 <= k < |obs| && obs[k].letter == c && obs[k].tile != Unknown
  {
    if obs != [] {
      var prefix := obs[..|obs| - 1];
      UnobservedIsZero(prefix, c);
      assert forall k :: 0 <= k < |prefix| ==> prefix[k] == obs[k];
      if c in LetterStates(prefix) {
        var k :| 0 <= k < |prefix| && prefix[k].letter == c && prefix[k].tile != Unknown;
        assert obs[k].letter == c;
      }
    }
  }

  // ---------------------------------------------------------------------
  // Position constraints

  /** The grid column an observation of c writes. */
  function ConstraintColumn(c: char): int
  {
    if OnAxis(LetterIndex(c), 26) then Axis(LetterIndex(c), 26) else -1
  }

  /** Cell (pos, col) of the grid after `obs`: the last correct or absent
      observation at pos whose letter lands on col leaves 1 or -1; a cell
      nothing lands on stays 0. */
  function ConstraintCell(obs: seq<Observation>, pos: int, col: int): (v: int)
    ensures -1 <= v <= 1
  {
    if obs == [] then 0
    else
      var o := obs[|obs| - 1];
      if o.pos == pos && o.tile == Correct && ConstraintColumn(o.letter) == col then 1
      else if o.pos == pos && o.tile == Absent && ConstraintColumn(o.letter) == col then -1
      else ConstraintCell(obs[..|obs| - 1], pos, col)
  }

  /** Whether observation o writes grid cell (pos, col). */
  predicate Writes(o: Observation, pos: int, col: int)
  {
    o.pos == pos && o.tile in {Correct, Absent} && ConstraintColumn(o.letter) == col
  }

  /** The last write to a cell wins: 1 for correct, -1 for absent. */
  lemma {:induction false} ConstraintLastWrite(obs: seq<Observation>, pos: int, col: int, k: nat)
    requires k < |obs| && Writes(obs[k], pos, col)
    requires forall k' :: k < k' < |obs| ==> !Writes(obs[k'], pos, col)
    ensures ConstraintCell(obs, pos, col) == if obs[k].tile == Correct then 1 else -1
  {
    if k < |obs| - 1 {
      var prefix := obs[..|obs| - 1];
      assert forall k' :: k < k' < |prefix| ==> prefix[k'] == obs[k'];
      assert !Writes(obs[|obs| - 1], pos, col);
      ConstraintLastWrite(prefix, pos, col, k);
    }
  }

  /** A cell that no correct or absent observation lands on stays 0;
      present and unrecognised states never write. */
  lemma {:induction false} ConstraintUntouched(obs: seq<Observation>, pos: int, col: int)
    requires forall k :: 0 <= k < |obs| ==> !Writes(obs[k], pos, col)
    ensures ConstraintCell(obs, pos, col) == 0
  {
    if obs != [] {
      var prefix := obs[..|obs| - 1];
      assert forall k :: 0 <= k < |prefix| ==> prefix[k] == obs[k];
      assert !Writes(obs[|obs| - 1], pos, col);
      ConstraintUntouched(prefix, pos, col);
    }
  }

  /** Every correct or absent observation has a row and a column in the
      grid: otherwise the list indexing raises an IndexError. */
  ghost predicate ConstraintsIndexed(guesses: seq<string>, feedbacks: seq<Pattern>, length: nat)
  {
    forall i, j :: 0 <= i < ZipLength(guesses, feedbacks) && 0 <= j < ZipLength(guesses[i], feedbacks[i])
                   && feedbacks[i][j] in {Correct, Absent}
                   ==> j < length && OnAxis(LetterIndex(guesses[i][j]), 26)
  }

  ghost predicate ConstraintGrid(grid: array2<int>, rows: nat, obs: seq<Observation>)
    reads grid
  {
    && grid.Length0 == rows && grid.Length1 == 26
    && forall p, c :: 0 <= p < rows && 0 <= c < 26 ==> grid[p, c] == ConstraintCell(obs, p, c)
  }

  /** The input width the training script gives the network. */
  function InputSize(length: nat): nat
  {
    1 + 26 + length * 26
  }

  /** chr(ord('a') + i). */
  function Alphabet(i: nat): char
    requires i < 26
  {
    ('a' as int + i) as char
  }

  class WordleDataset {
    /** The word length of the dataset. */
    const length: nat

    constructor(length: nat)
      ensures this.length == length
    {
      this.length := length;
    }

    /** The letter_states loop of encode_state. */
    method LetterStateMap(guessHistory: seq<string>, feedbackHistory: seq<Pattern>)
      returns (letterStates: map<char, int>)
      ensures letterStates == LetterStates(Observations(guessHistory, feedbackHistory))
    {
      letterStates := map[];
      ghost var seen: seq<Observation> := [];
      for i := 0 to ZipLength(guessHistory, feedbackHistory)
        invariant seen == History(guessHistory, feedbackHistory, i)
        invariant letterStates == LetterStates(seen)
      {
        var guess, feedback := guessHistory[i], feedbackHistory[i];
        for j := 0 to ZipLength(guess, feedback)
          invariant seen == History(guessHistory, feedbackHistory, i) + Zip(guess, feedback)[..j]
          invariant letterStates == LetterStates(seen)
        {
          var letter, state := guess[j], feedback[j];
          ghost var o := Observation(letter, state, j);
          assert (seen + [o])[..|seen|] == seen;
          assert LetterStates(seen + [o]) == Observe(letterStates, o);
          if state == Correct {
            letterStates := letterStates[letter := 3];
          } else if state == Present && StateOf(letterStates, letter) < 2 {
            letterStates := letterStates[letter := 2];
          } else if state == Absent && letter !in letterStates {
            letterStates := letterStates[letter := 1];
          }
          ZipStep(guessHistory, feedbackHistory, i, j);
          seen := seen + [o];
        }
        if ZipLength(guess, feedback) == 0 {
          assert Zip(guess, feedback) == [];
        } else {
          ZipStep(guessHistory, feedbackHistory, i, ZipLength(guess, feedback) - 1);
        }
      }
    }

    /** One step of the position loop: correct writes 1 and absent writes
        -1 at the letter's column of row pos; other states write nothing. */
    method WriteConstraint(grid: array2<int>, ghost seen: seq<Observation>, letter: char, state: Tile, pos: nat)
      modifies grid
      requires ConstraintGrid(grid, length, seen)
      requires state in {Correct, Absent} ==> pos < length && OnAxis(LetterIndex(letter), 26)
      ensures ConstraintGrid(grid, length, seen + [Observation(letter, state, pos)])
    {
      assert (seen + [Observation(letter, state, pos)])[..|seen|] == seen;
      var letterIdx := LetterIndex(letter);
      if state == Correct {
        grid[pos, Axis(letterIdx, 26)] := 1;
      } else if state == Absent {
        grid[pos, Axis(letterIdx, 26)] := -1;
      }
    }

    /** The position_constraints loop of encode_state. */
    method PositionConstraints(guessHistory: seq<string>, feedbackHistory: seq<Pattern>)
      returns (grid: array2<int>)
      requires ConstraintsIndexed(guessHistory, feedbackHistory, length)
      ensures fresh(grid) && ConstraintGrid(grid, length, Observations(guessHistory, feedbackHistory))
    {
      grid := new int[length, 26]((p: int, c: int) => 0);
      ghost var seen: seq<Observation> := [];
      for i := 0 to ZipLength(guessHistory, feedbackHistory)
        invariant seen == History(guessHistory, feedbackHistory, i)
        invariant ConstraintGrid(grid, length, seen)
      {
        var guess, feedback := guessHistory[i], feedbackHistory[i];
        for pos := 0 to ZipLength(guess, feedback)
          invariant seen == History(guessHistory, feedbackHistory, i) + Zip(guess, feedback)[..pos]
          invariant ConstraintGrid(grid, length, seen)
        {
          var letter, state := guess[pos], feedback[pos];
          if state in {Correct, Absent} {
            assert guessHistory[i][pos] == letter;
          }
          WriteConstraint(grid, seen, letter, state, pos);
          ZipStep(guessHistory, feedbackHistory, i, pos);
          seen := seen + [Observation(letter, state, pos)];
        }
        if ZipLength(guess, feedback) == 0 {
          assert Zip(guess, feedback) == [];
        } else {
          ZipStep(guessHistory, feedbackHistory, i, ZipLength(guess, feedback) - 1);
        }
      }
    }

    /** encode_state: the guess count, the 26 letter states in alphabet
        order, then the grid row by row; as wide as the network's input. */
    method EncodeState(guessHistory: seq<string>, feedbackHistory: seq<Pattern>)
      returns (features: seq<int>)
      requires ConstraintsIndexed(guessHistory, feedbackHistory, length)
      ensures |features| == InputSize(length)
      ensures features[0] == |guessHistory|
      ensures forall i :: 0 <= i < 26 ==>
        features[1 + i] == StateOf(LetterStates(Observations(guessHistory, feedbackHistory)), Alphabet(i))
      ensures forall p, c :: 0 <= p < length && 0 <= c < 26 ==>
        features[1 + 26 + 26 * p + c] == ConstraintCell(Observations(guessHistory, feedbackHistory), p, c)
    {
      ghost var obs := Observations(guessHistory, feedbackHistory);
      features := [|guessHistory|];

      var letterStates := LetterStateMap(guessHistory, feedbackHistory);
      for i := 0 to 26
        invariant |features| == 1 + i && features[0] == |guessHistory|
        invariant forall i' :: 0 <= i' < i ==> features[1 + i'] == StateOf(LetterStates(obs), Alphabet(i'))
      {
        var letter := Alphabet(i);
        features := features + [StateOf(letterStates, letter)];
      }

      var grid := PositionConstraints(guessHistory, feedbackHistory);
      for p := 0 to length
        invariant |features| == 1 + 26 + 26 * p && features[0] == |guessHistory|
        invariant forall i :: 0 <= i < 26 ==> features[1 + i] == StateOf(LetterStates(obs), Alphabet(i))
        invariant forall p', c :: 0 <= p' < p && 0 <= c < 26 ==> features[1 + 26 + 26 * p' + c] == ConstraintCell(obs, p', c)
      {
        for c := 0 to 26
          invariant |features| == 1 + 26 + 26 * p + c && features[0] == |guessHistory|
          invariant forall i :: 0 <= i < 26 ==> features[1 + i] == StateOf(LetterStates(obs), Alphabet(i))
          invariant forall p', c' :: 0 <= p' < p && 0 <= c' < 26 ==> features[1 + 26 + 26 * p' + c'] == ConstraintCell(obs, p', c')
          invariant forall c' :: 0 <= c' < c ==> features[1 + 26 + 26 * p + c'] == ConstraintCell(obs, p, c')
        {
          features := features + [grid[p, c]];
        }
      }
      assert 26 * length == length * 26;
    }
  }
}
