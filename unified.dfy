/**
 * The state encoder of the unified policy (encode_game_state) and its
 * opener lookup (get_smart_starter).
 *
 * The encoder keeps two numpy tables: letter_states, one row of four
 * one-hot slots (unknown, absent, present, correct) per letter a..z, and
 * position_info, one row per position holding a column per letter and a
 * last "any" column. The feature vector is the guess count followed by
 * both tables flattened row by row. Letters become rows and columns through
 * ord(letter) - ord('a'), with Python's negative indexing; the float
 * division of the guess count is left to the caller, and the model keeps
 * the count itself.
 */
module UnifiedModel {
  import opened Common
  import opened GameHistory

  // ---------------------------------------------------------------------
  // Letter states

  /** Column of a recognised state in state_map; Unknown is never looked
      up. */
  function StateColumn(t: Tile): nat
  {
    match t
    case Absent => 1
    case Present => 2
    case Correct => 3
    case Unknown => 0
  }

  /** The row of letter_states that an observation of c writes. */
  function LetterRow(c: char): int
  {
    if OnAxis(LetterIndex(c), 26) then Axis(LetterIndex(c), 26) else -1
  }

  /** The slot of row `row` that holds the 1 after `obs`: the state of the
      last recognised observation whose letter lands on that row, or the
      unknown slot 0 when there is none. */
  function LetterSlot(obs: seq<Observation>, row: int): (s: nat)
    ensures s < 4
  {
    if obs == [] then 0
    else
      var o := obs[|obs| - 1];
      if o.tile != Unknown && LetterRow(o.letter) == row then StateColumn(o.tile)
      else LetterSlot(obs[..|obs| - 1], row)
  }

  /** Cell (row, slot) of letter_states after `obs`. */
  function LetterCell(obs: seq<Observation>, row: int, slot: int): int
  {
    if slot == LetterSlot(obs, row) then 1 else 0
  }

  /** Every row has exactly one 1 and zeros elsewhere. */
  lemma LetterRowOneHot(obs: seq<Observation>, row: int)
    ensures exists s :: 0 <= s < 4 && LetterCell(obs, row, s) == 1
                        && forall t :: 0 <= t < 4 && t != s ==> LetterCell(obs, row, t) == 0
  {
    var s := LetterSlot(obs, row);
    assert LetterCell(obs, row, s) == 1;
  }

  /** A row stays in the unknown slot exactly when no recognised
      observation lands on it. */
  lemma {:induction false} LetterUnseen(obs: seq<Observation>, row: int)
    ensures LetterSlot(obs, row) == 0
            <==> forall k :: 0 <= k < |obs| && obs[k].tile != Unknown ==> LetterRow(obs[k].letter) != row
  {
    if obs != [] {
      var prefix := obs[..|obs| - 1];
      LetterUnseen(prefix, row);
      assert forall k :: 0 <= k < |prefix| ==> prefix[k] == obs[k];
    }
  }

  /** The last recognised observation landing on a row decides it; later
      unrecognised states leave it alone. */
  lemma {:induction false} LetterLastWins(obs: seq<Observation>, row: int, k: nat)
    requires k < |obs| && obs[k].tile != Unknown && LetterRow(obs[k].letter) == row
    requires forall k' :: k < k' < |obs| && obs[k'].tile != Unknown ==> LetterRow(obs[k'].letter) != row
    ensures LetterSlot(obs, row) == StateColumn(obs[k].tile)
  {
    if k < |obs| - 1 {
      var prefix := obs[..|obs| - 1];
      assert forall k' :: k < k' < |prefix| ==> prefix[k'] == obs[k'];
      LetterLastWins(prefix, row, k);
    }
  }

  /** Every letter an encoder reads with a recognised state has a row:
      otherwise numpy raises an IndexError. */
  ghost predicate LettersIndexed(guesses: seq<string>, feedbacks: seq<Pattern>)
  {
    forall i, j :: 0 <= i < ZipLength(guesses, feedbacks) && 0 <= j < ZipLength(guesses[i], feedbacks[i])
                   && feedbacks[i][j] != Unknown
                   ==> OnAxis(LetterIndex(guesses[i][j]), 26)
  }

  ghost predicate LetterTable(table: array2<int>, obs: seq<Observation>)
    reads table
  {
    && table.Length0 == 26 && table.Length1 == 4
    && forall r, s :: 0 <= r < 26 && 0 <= s < 4 ==> table[r, s] == LetterCell(obs, r, s)
  }

  /** One step of the letter_states loop: a recognised state clears the
      letter's row and sets its slot; any other state string is skipped. */
  method WriteLetter(letterStates: array2<int>, ghost seen: seq<Observation>, letter: char, state: Tile, pos: nat)
    modifies letterStates
    requires LetterTable(letterStates, seen)
    requires state != Unknown ==> OnAxis(LetterIndex(letter), 26)
    ensures LetterTable(letterStates, seen + [Observation(letter, state, pos)])
  {
    var letterIdx := LetterIndex(letter);
    ghost var o := Observation(letter, state, pos);
    assert (seen + [o])[..|seen|] == seen;
    if state != Unknown {
      var row := Axis(letterIdx, 26);
      for s := 0 to 4
        invariant forall r, t :: 0 <= r < 26 && 0 <= t < 4 ==>
          letterStates[r, t] == (if r == row && t < s then 0 else LetterCell(seen, r, t))
      {
        letterStates[row, s] := 0;
      }
      letterStates[row, StateColumn(state)] := 1;
    }
  }

  /** The letter_states phase of encode_game_state. */
  method LetterStates(guesses: seq<string>, feedbacks: seq<Pattern>) returns (letterStates: array2<int>)
    requires LettersIndexed(guesses, feedbacks)
    ensures fresh(letterStates) && LetterTable(letterStates, Observations(guesses, feedbacks))
  {
    letterStates := new int[26, 4]((r: int, s: int) => if s == 0 then 1 else 0);
    ghost var seen: seq<Observation> := [];
    for i := 0 to ZipLength(guesses, feedbacks)
      invariant seen == History(guesses, feedbacks, i)
      invariant LetterTable(letterStates, seen)
    {
      var guess, feedback := guesses[i], feedbacks[i];
      for j := 0 to ZipLength(guess, feedback)
        invariant seen == History(guesses, feedbacks, i) + Zip(guess, feedback)[..j]
        invariant LetterTable(letterStates, seen)
      {
        var letter, state := guess[j], feedback[j];
        if state != Unknown {
          assert OnAxis(LetterIndex(guesses[i][j]), 26);
        }
        WriteLetter(letterStates, seen, letter, state, j);
        ZipStep(guesses, feedbacks, i, j);
        seen := seen + [Observation(letter, state, j)];
      }
      if ZipLength(guess, feedback) == 0 {
        assert Zip(guess, feedback) == [];
      } else {
        ZipStep(guesses, feedbacks, i, ZipLength(guess, feedback) - 1);
      }
    }
  }

  // ---------------------------------------------------------------------
  // Position constraints

  /** The column of position_info that an observation of c writes; index
      26 is the "any" column, so ord(c) - ord('a') == -1 lands there. */
  function PositionColumn(c: char): int
  {
    if OnAxis(LetterIndex(c), 27) then Axis(LetterIndex(c), 27) else -1
  }

  /** Cell (pos, col) of position_info after `obs`: starts as 1 in the
      "any" column and 0 elsewhere; a correct observation at pos makes the
      row one-hot at its letter, an absent one writes -1 at its letter,
      anything else leaves the row alone. */
  function PositionCell(obs: seq<Observation>, pos: int, col: int): (v: int)
    ensures -1 <= v <= 1
  {
    if obs == [] then (if col == 26 then 1 else 0)
    else
      var o := obs[|obs| - 1];
      if o.pos == pos && o.tile == Correct then (if col == PositionColumn(o.letter) then 1 else 0)
      else if o.pos == pos && o.tile == Absent && col == PositionColumn(o.letter) then -1
      else PositionCell(obs[..|obs| - 1], pos, col)
  }

  /** A position without correct or absent observations keeps only its
      "any" column set. */
  lemma {:induction false} PositionUntouched(obs: seq<Observation>, pos: int, col: int)
    requires forall k :: 0 <= k < |obs| && obs[k].pos == pos ==> obs[k].tile !in {Correct, Absent}
    ensures PositionCell(obs, pos, col) == if col == 26 then 1 else 0
  {
    if obs != [] {
      var prefix := obs[..|obs| - 1];
      assert forall k :: 0 <= k < |prefix| ==> prefix[k] == obs[k];
      PositionUntouched(prefix, pos, col);
    }
  }

  /** After the last correct observation at a position, with no absent one
      after it, the row is one-hot at that letter. */
  lemma {:induction false} PositionCorrectLast(obs: seq<Observation>, pos: int, k: nat, col: int)
    requires k < |obs| && obs[k].pos == pos && obs[k].tile == Correct
    requires forall k' :: k < k' < |obs| && obs[k'].pos == pos ==> obs[k'].tile !in {Correct, Absent}
    ensures PositionCell(obs, pos, col) == if col == PositionColumn(obs[k].letter) then 1 else 0
  {
    if k < |obs| - 1 {
      var prefix := obs[..|obs| - 1];
      assert forall k' :: k < k' < |prefix| ==> prefix[k'] == obs[k'];
      PositionCorrectLast(prefix, pos, k, col);
    }
  }

  /** An absent observation leaves -1 at its letter's column until a later
      correct observation at the same position clears the row. */
  lemma {:induction false} PositionAbsentStays(obs: seq<Observation>, pos: int, k: nat)
    requires k < |obs| && obs[k].pos == pos && obs[k].tile == Absent
    requires forall k' :: k < k' < |obs| && obs[k'].pos == pos ==> obs[k'].tile != Correct
    ensures PositionCell(obs, pos, PositionColumn(obs[k].letter)) == -1
  {
    if k < |obs| - 1 {
      var prefix := obs[..|obs| - 1];
      assert forall k' :: k < k' < |prefix| ==> prefix[k'] == obs[k'];
      PositionAbsentStays(prefix, pos, k);
    }
  }

  ghost predicate PositionTable(table: array2<int>, rows: nat, obs: seq<Observation>)
    reads table
  {
    && table.Length0 == rows && table.Length1 == 27
    && forall p, c :: 0 <= p < rows && 0 <= c < 27 ==> table[p, c] == PositionCell(obs, p, c)
  }

  /** One step of the position_info loop: positions past max_length are
      skipped; a correct state makes the row one-hot at the letter, an
      absent one writes -1 at the letter, any other leaves the row alone. */
  method WritePosition(positionInfo: array2<int>, maxLength: nat, ghost seen: seq<Observation>,
                       letter: char, state: Tile, pos: nat)
    modifies positionInfo
    requires PositionTable(positionInfo, maxLength, seen)
    requires state != Unknown ==> OnAxis(LetterIndex(letter), 26)
    ensures PositionTable(positionInfo, maxLength, seen + [Observation(letter, state, pos)])
  {
    ghost var o := Observation(letter, state, pos);
    assert (seen + [o])[..|seen|] == seen;
    if pos < maxLength {
      var letterIdx := LetterIndex(letter);
      if state == Correct {
        for c := 0 to 27
          invariant forall p, c' :: 0 <= p < maxLength && 0 <= c' < 27 ==>
            positionInfo[p, c'] == (if p == pos && c' < c then 0 else PositionCell(seen, p, c'))
        {
          positionInfo[pos, c] := 0;
        }
        positionInfo[pos, Axis(letterIdx, 27)] := 1;
      } else if state == Absent {
        positionInfo[pos, Axis(letterIdx, 27)] := -1;
      }
    }
  }

  /** The position_info phase of encode_game_state. */
  method PositionInfo(guesses: seq<string>, feedbacks: seq<Pattern>, maxLength: nat)
    returns (positionInfo: array2<int>)
    requires LettersIndexed(guesses, feedbacks)
    ensures fresh(positionInfo) && PositionTable(positionInfo, maxLength, Observations(guesses, feedbacks))
  {
    positionInfo := new int[maxLength, 27]((p: int, c: int) => if c == 26 then 1 else 0);
    ghost var seen: seq<Observation> := [];
    for i := 0 to ZipLength(guesses, feedbacks)
      invariant seen == History(guesses, feedbacks, i)
      invariant PositionTable(positionInfo, maxLength, seen)
    {
      var guess, feedback := guesses[i], feedbacks[i];
      for pos := 0 to ZipLength(guess, feedback)
        invariant seen == History(guesses, feedbacks, i) + Zip(guess, feedback)[..pos]
        invariant PositionTable(positionInfo, maxLength, seen)
      {
        var letter, state := guess[pos], feedback[pos];
        if state != Unknown {
          assert OnAxis(LetterIndex(guesses[i][pos]), 26);
        }
        WritePosition(positionInfo, maxLength, seen, letter, state, pos);
        ZipStep(guesses, feedbacks, i, pos);
        seen := seen + [Observation(letter, state, pos)];
      }
      if ZipLength(guess, feedback) == 0 {
        assert Zip(guess, feedback) == [];
      } else {
        ZipStep(guesses, feedbacks, i, ZipLength(guess, feedback) - 1);
      }
    }
  }

  // ---------------------------------------------------------------------
  // The feature vector

  /** encode_game_state: the guess count, then letter_states and
      position_info flattened row by row. encode_game_state takes `length`
      and never reads it; so does this method. */
  method EncodeGameState(guesses: seq<string>, feedbacks: seq<Pattern>, length: int, maxLength: nat)
    returns (features: seq<int>)
    requires LettersIndexed(guesses, feedbacks)
    ensures |features| == 1 + 26 * 4 + maxLength * 27
    ensures features[0] == |guesses|
    ensures forall r, c :: 0 <= r < 26 && 0 <= c < 4 ==>
      features[1 + 4 * r + c] == LetterCell(Observations(guesses, feedbacks), r, c)
    ensures forall p, c :: 0 <= p < maxLength && 0 <= c < 27 ==>
      features[1 + 26 * 4 + 27 * p + c] == PositionCell(Observations(guesses, feedbacks), p, c)
  {
    ghost var obs := Observations(guesses, feedbacks);
    features := [|guesses|];

    var letterStates := LetterStates(guesses, feedbacks);
    for r := 0 to 26
      invariant |features| == 1 + 4 * r && features[0] == |guesses|
      invariant forall r', c :: 0 <= r' < r && 0 <= c < 4 ==> features[1 + 4 * r' + c] == LetterCell(obs, r', c)
    {
      for c := 0 to 4
        invariant |features| == 1 + 4 * r + c && features[0] == |guesses|
        invariant forall r', c' :: 0 <= r' < r && 0 <= c' < 4 ==> features[1 + 4 * r' + c'] == LetterCell(obs, r', c')
        invariant forall c' :: 0 <= c' < c ==> features[1 + 4 * r + c'] == LetterCell(obs, r, c')
      {
        features := features + [letterStates[r, c]];
      }
    }

    var positionInfo := PositionInfo(guesses, feedbacks, maxLength);
    for p := 0 to maxLength
      invariant |features| == 1 + 26 * 4 + 27 * p && features[0] == |guesses|
      invariant forall r, c :: 0 <= r < 26 && 0 <= c < 4 ==> features[1 + 4 * r + c] == LetterCell(obs, r, c)
      invariant forall p', c :: 0 <= p' < p && 0 <= c < 27 ==> features[1 + 26 * 4 + 27 * p' + c] == PositionCell(obs, p', c)
    {
      for c := 0 to 27
        invariant |features| == 1 + 26 * 4 + 27 * p + c && features[0] == |guesses|
        invariant forall r, c' :: 0 <= r < 26 && 0 <= c' < 4 ==> features[1 + 4 * r + c'] == LetterCell(obs, r, c')
        invariant forall p', c' :: 0 <= p' < p && 0 <= c' < 27 ==> features[1 + 26 * 4 + 27 * p' + c'] == PositionCell(obs, p', c')
        invariant forall c' :: 0 <= c' < c ==> features[1 + 26 * 4 + 27 * p + c'] == PositionCell(obs, p, c')
      {
        features := features + [positionInfo[p, c]];
      }
    }
    assert 27 * maxLength == maxLength * 27;
  }

  // ---------------------------------------------------------------------
  // Opener lookup

  /** OPTIMAL_STARTERS.get(length, []). */
  function OptimalStarters(length: int): seq<string>
  {
    if length == 3 then ["are", "ate", "one", "our", "out"]
    else if length == 4 then ["tale", "late", "rate", "sane", "lean"]
    else if length == 5 then ["arose", "slate", "least", "stale", "steal"]
    else if length == 6 then ["strain", "trails", "learns", "master", "realist"]
    else if length == 7 then ["stainer", "eastern", "angriest", "strange", "learnt"]
    else []
  }

  /** The table lists five openers for each length 3 to 7 and none for any
      other length; every opener has its row's length except "realist"
      (seven letters, row 6), "angriest" (eight letters, row 7) and
      "learnt" (six letters, row 7). */
  lemma StartersTable(length: int)
    ensures 3 <= length <= 7 <==> |OptimalStarters(length)| == 5
    ensures !(3 <= length <= 7) ==> OptimalStarters(length) == []
    ensures forall k :: 0 <= k < |OptimalStarters(length)| ==>
      (|OptimalStarters(length)[k]| == length
       <==> OptimalStarters(length)[k] !in {"realist", "angriest", "learnt"})
  {
  }

  /** get_smart_starter: the first opener for this length that is
      available, else the first available word, else nothing. */
  function GetSmartStarter(length: int, availableWords: seq<string>): (r: Option<string>)
    ensures r.Some? ==> r.value in availableWords
    ensures r.None? <==> availableWords == []
  {
    match FirstAvailable(OptimalStarters(length), availableWords)
    case Some(w) => Some(w)
    case None => if availableWords != [] then Some(availableWords[0]) else None
  }

  /** The starter is the earliest listed opener that is available; only
      when none is (in particular for a length without openers) is it the
      first available word. */
  lemma SmartStarterSpec(length: int, availableWords: seq<string>)
    ensures var r := GetSmartStarter(length, availableWords);
      var listed := OptimalStarters(length);
      && ((exists w :: w in listed && w in availableWords) ==>
            exists k :: 0 <= k < |listed| && r == Some(listed[k])
                        && forall j :: 0 <= j < k ==> listed[j] !in availableWords)
      && ((forall w :: w in listed ==> w !in availableWords) && availableWords != [] ==>
            r == Some(availableWords[0]))
  {
  }

  /** With an available list of words of one length, the starter has that
      length too, whatever the table says. */
  lemma SmartStarterLength(length: int, availableWords: seq<string>, n: nat)
    requires forall w :: w in availableWords ==> |w| == n
    ensures GetSmartStarter(length, availableWords).Some? ==> |GetSmartStarter(length, availableWords).value| == n
  {
  }
}
