/**
 * The heuristic solver (ml/generate_quick_trajectories.py): its copy of
 * the feedback oracle, a filter that checks each word against the whole
 * guess history, a letter-frequency score, the table of opening words and
 * the per-game loop that opens with a table word and then prefers words
 * with many distinct letters.
 */
module QuickTrajectories {
  import opened Common
  import opened Oracle
  import opened GameHistory

  // ---------------------------------------------------------------------
  // Feedback oracle

  /** generate_feedback: the same two passes as the entropy generator's,
      but both loops run over the len(guess) positions. */
  method GenerateFeedback(guess: string, secret: string) returns (feedback: Pattern)
    requires |guess| <= |secret|
    ensures feedback == QuickFeedback(guess, secret)
  {
    var length := |guess|;
    feedback := seq(|secret|, _ => Absent);
    var secretCounts: map<char, int> := map c | c in secret :: Occ(secret, c);
    RowEnds(guess, secret, length);

    // First pass: correct positions
    for i := 0 to length
      invariant feedback == Row(guess, secret, length, i, 0)
      invariant secretCounts == Counter(guess, secret, length, i, 0)
    {
      Pass1Step(guess, secret, length, i, feedback, secretCounts);
      if guess[i] == secret[i] {
        feedback := feedback[i := Correct];
        secretCounts := secretCounts[guess[i] := secretCounts[guess[i]] - 1];
      }
    }

    // Second pass: present letters
    for i := 0 to length
      invariant feedback == Row(guess, secret, length, length, i)
      invariant secretCounts == Counter(guess, secret, length, length, i)
    {
      Pass2Step(guess, secret, length, i, feedback, secretCounts);
      if feedback[i] != Correct {
        if guess[i] in secretCounts && secretCounts[guess[i]] > 0 {
          feedback := feedback[i := Present];
          secretCounts := secretCounts[guess[i] := secretCounts[guess[i]] - 1];
        }
      }
    }
  }

  // ---------------------------------------------------------------------
  // Filter over the whole history

  /** Every guess can be compared with every word of the pool. */
  ghost predicate Comparable(guesses: seq<string>, candidates: seq<string>)
  {
    forall i, k :: 0 <= i < |guesses| && 0 <= k < |candidates| ==> |guesses[i]| <= |candidates[k]|
  }

  /** The first `n` guesses are no longer than `word` and all give it the
      feedback that was recorded for them. */
  predicate Matches(word: string, guesses: seq<string>, feedbacks: seq<Pattern>, n: nat)
    requires n <= |guesses| && n <= |feedbacks|
  {
    n == 0
    || (Matches(word, guesses, feedbacks, n - 1)
        && |guesses[n - 1]| <= |word| && QuickFeedback(guesses[n - 1], word) == feedbacks[n - 1])
  }

  /** Matching the first `n` pairs is agreeing on each of them. */
  lemma {:induction false} MatchesIff(word: string, guesses: seq<string>, feedbacks: seq<Pattern>, n: nat)
    requires n <= |guesses| && n <= |feedbacks|
    ensures Matches(word, guesses, feedbacks, n)
            <==> forall i :: 0 <= i < n ==> |guesses[i]| <= |word| && QuickFeedback(guesses[i], word) == feedbacks[i]
  {
    if n > 0 {
      MatchesIff(word, guesses, feedbacks, n - 1);
    }
  }

  /** The words of the pool, in order, that match every recorded pair.
      A guess longer than a word counts as a mismatch here; the filter
      method itself is only called where no guess is longer than a word,
      since generate_feedback raises IndexError there. */
  function Filtered(candidates: seq<string>, guesses: seq<string>, feedbacks: seq<Pattern>): seq<string>
  {
    if candidates == [] then []
    else
      var word := candidates[|candidates| - 1];
      Filtered(candidates[..|candidates| - 1], guesses, feedbacks)
      + (if Matches(word, guesses, feedbacks, ZipLength(guesses, feedbacks)) then [word] else [])
  }

  /** filter_candidates: for each word, walk the pairs and stop at the
      first guess whose feedback on the word differs from the record. */
  method FilterCandidates(candidates: seq<string>, guesses: seq<string>, feedbacks: seq<Pattern>)
    returns (valid: seq<string>)
    requires Comparable(guesses, candidates)
    ensures valid == Filtered(candidates, guesses, feedbacks)
  {
    var n := ZipLength(guesses, feedbacks);
    valid := [];
    for k := 0 to |candidates|
      invariant valid == Filtered(candidates[..k], guesses, feedbacks)
    {
      var word := candidates[k];
      var isValid := true;
      for j := 0 to n
        invariant isValid && Matches(word, guesses, feedbacks, j)
      {
        var testFeedback := GenerateFeedback(guesses[j], word);
        if testFeedback != feedbacks[j] {
          isValid := false;
          MatchesIff(word, guesses, feedbacks, n);
          break;
        }
      }
      if isValid {
        valid := valid + [word];
      }
      assert candidates[..k + 1][..k] == candidates[..k];
    }
    assert candidates[..|candidates|] == candidates;
  }

  /** The filter only keeps words of the pool. */
  lemma {:induction false} FilteredWithin(candidates: seq<string>, guesses: seq<string>, feedbacks: seq<Pattern>)
    ensures forall w :: w in Filtered(candidates, guesses, feedbacks) ==> w in candidates
    decreases |candidates|
  {
    if candidates != [] {
      var rest := candidates[..|candidates| - 1];
      assert forall w :: w in rest ==> w in candidates;
      FilteredWithin(rest, guesses, feedbacks);
    }
  }

  /** A word survives the filter exactly when it is in the pool and every
      recorded guess is no longer than it and gives it the recorded
      feedback. */
  lemma {:induction false} FilteredMembers(candidates: seq<string>, guesses: seq<string>, feedbacks: seq<Pattern>)
    ensures forall w :: w in Filtered(candidates, guesses, feedbacks) <==>
      w in candidates
      && forall i :: 0 <= i < ZipLength(guesses, feedbacks) ==>
           |guesses[i]| <= |w| && QuickFeedback(guesses[i], w) == feedbacks[i]
    decreases |candidates|
  {
    if candidates != [] {
      var rest := candidates[..|candidates| - 1];
      var word := candidates[|candidates| - 1];
      assert candidates == rest + [word];
      FilteredMembers(rest, guesses, feedbacks);
      MatchesIff(word, guesses, feedbacks, ZipLength(guesses, feedbacks));
    }
  }

  /** The filter keeps the pool's order: its result is a subsequence, so
      the pool never grows. */
  lemma {:induction false} FilteredOrder(candidates: seq<string>, guesses: seq<string>, feedbacks: seq<Pattern>)
    ensures IsSubsequence(Filtered(candidates, guesses, feedbacks), candidates)
    ensures |Filtered(candidates, guesses, feedbacks)| <= |candidates|
    decreases |candidates|
  {
    if candidates != [] {
      var rest := candidates[..|candidates| - 1];
      var word := candidates[|candidates| - 1];
      assert candidates == rest + [word];
      FilteredOrder(rest, guesses, feedbacks);
      var r0 := Filtered(rest, guesses, feedbacks);
      SubsequenceExtend(r0, rest, word);
      if Matches(word, guesses, feedbacks, ZipLength(guesses, feedbacks)) {
        assert Filtered(candidates, guesses, feedbacks) == r0 + [word];
      } else {
        assert Filtered(candidates, guesses, feedbacks) == r0;
      }
    }
    SubsequenceFacts(Filtered(candidates, guesses, feedbacks), candidates);
  }

  /** Filtering twice by the same history gives the same pool as once. */
  lemma {:induction false} FilteredIdempotent(candidates: seq<string>, guesses: seq<string>, feedbacks: seq<Pattern>)
    ensures var once := Filtered(candidates, guesses, feedbacks);
      Filtered(once, guesses, feedbacks) == once
    decreases |candidates|
  {
    if candidates != [] {
      var rest := candidates[..|candidates| - 1];
      var word := candidates[|candidates| - 1];
      FilteredIdempotent(rest, guesses, feedbacks);
      var r0 := Filtered(rest, guesses, feedbacks);
      var once := Filtered(candidates, guesses, feedbacks);
      if Matches(word, guesses, feedbacks, ZipLength(guesses, feedbacks)) {
        assert once == r0 + [word];
        assert once[..|once| - 1] == r0 && once[|once| - 1] == word;
      } else {
        assert once == r0;
      }
    }
  }

  /** A word of the pool that produced every recorded feedback is never
      filtered out: in particular the secret, while the history is the one
      its own feedback made. */
  lemma SecretKept(candidates: seq<string>, guesses: seq<string>, feedbacks: seq<Pattern>, secret: string)
    requires |guesses| == |feedbacks|
    requires Matches(secret, guesses, feedbacks, |guesses|)
    ensures secret in candidates ==> secret in Filtered(candidates, guesses, feedbacks)
  {
    FilteredMembers(candidates, guesses, feedbacks);
    MatchesIff(secret, guesses, feedbacks, |guesses|);
  }

  /** A history the word agrees with stays so when a pair the word agrees
      with is appended; every guess of such a history is no longer than
      the word. */
  lemma MatchesExtend(word: string, guesses: seq<string>, feedbacks: seq<Pattern>, guess: string, feedback: Pattern)
    requires |guesses| == |feedbacks|
    requires |guess| <= |word| && QuickFeedback(guess, word) == feedback
    requires Matches(word, guesses, feedbacks, |guesses|)
    ensures forall g :: g in guesses + [guess] ==> |g| <= |word|
    ensures Matches(word, guesses + [guess], feedbacks + [feedback], |guesses| + 1)
  {
    var gs, fs := guesses + [guess], feedbacks + [feedback];
    MatchesIff(word, guesses, feedbacks, |guesses|);
    MatchesIff(word, gs, fs, |gs|);
  }

  // ---------------------------------------------------------------------
  // Letter-frequency score

  /** What letter `c` at position `i` adds: its table entry, or 0 when the
      letter or the position is missing. */
  function Contribution(freq: map<char, map<int, int>>, c: char, i: nat): int
  {
    if c in freq && i in freq[c] then freq[c][i] else 0
  }

  /** The frequency score of the first `n` letters of `word`. */
  function FrequencyScore(word: string, freq: map<char, map<int, int>>, n: nat): int
    requires n <= |word|
  {
    if n == 0 then 0 else FrequencyScore(word, freq, n - 1) + Contribution(freq, word[n - 1], n - 1)
  }

  /** score_word_frequency: the sum, over the positions of the word, of
      the table entry for the letter there. */
  method ScoreWordFrequency(word: string, freq: map<char, map<int, int>>) returns (score: int)
    ensures score == FrequencyScore(word, freq, |word|)
  {
    score := 0;
    for i := 0 to |word|
      invariant score == FrequencyScore(word, freq, i)
    {
      var letter := word[i];
      if letter in freq {
        score := score + (if i in freq[letter] then freq[letter][i] else 0);
      }
    }
  }

  /** With every table entry between 0 and `top`, a word scores between 0
      and `top` per letter; letters missing from the table add nothing. */
  lemma {:induction false} FrequencyScoreBounds(word: string, freq: map<char, map<int, int>>, n: nat, top: int)
    requires n <= |word| && 0 <= top
    requires forall c, i :: c in freq && i in freq[c] ==> 0 <= freq[c][i] <= top
    ensures 0 <= FrequencyScore(word, freq, n) <= n * top
    ensures (forall i :: 0 <= i < n ==> word[i] !in freq) ==> FrequencyScore(word, freq, n) == 0
  {
    if n > 0 {
      FrequencyScoreBounds(word, freq, n - 1, top);
      assert (n - 1) * top + top == n * top;
    }
  }

  // ---------------------------------------------------------------------
  // Opening words

  /** get_optimal_first_guesses, looked up by word length: the lengths
      outside the table raise KeyError, modelled as None. The length-7
      list names "strange" twice. */
  function OptimalFirstGuesses(length: int): Option<seq<string>>
  {
    if length == 3 then Some(["are", "ate", "ear", "era", "tea", "eta", "art", "rat", "tar", "oar"])
    else if length == 4 then Some(["tear", "rate", "late", "tale", "real", "earl", "lean", "lane", "sane", "sale"])
    else if length == 5 then Some(["arose", "stare", "slate", "crane", "crate", "trace", "lance", "dance", "glare", "spare"])
    else if length == 6 then Some(["strain", "trains", "grants", "plants", "brains", "drains", "straps", "strand", "trails", "grains"])
    else if length == 7 then Some(["strange", "threads", "streaks", "strains", "strange", "streams", "strands", "spreads", "strides", "stripes"])
    else None
  }

  /** The table has exactly the lengths 3 to 7, ten openers each, every
      one of the length it is listed under. */
  lemma FirstGuessesTable(length: int)
    ensures OptimalFirstGuesses(length).Some? <==> 3 <= length <= 7
    ensures OptimalFirstGuesses(length).Some? ==>
      |OptimalFirstGuesses(length).value| == 10
      && forall w :: w in OptimalFirstGuesses(length).value ==> |w| == length
  {
  }

  // ---------------------------------------------------------------------
  // Guess choice

  /** The opening guess: the first table word that is still a candidate,
      or the first candidate. */
  function FirstGuess(starters: seq<string>, candidates: seq<string>): (g: string)
    requires |candidates| > 0
    ensures g in candidates
  {
    match FirstAvailable(starters, candidates)
    case Some(w) => w
    case None => candidates[0]
  }

  /** The opening guess is the first listed opener that is a candidate,
      and the first candidate only when no opener is. */
  lemma FirstGuessSpec(starters: seq<string>, candidates: seq<string>)
    requires |candidates| > 0
    ensures var g := FirstGuess(starters, candidates);
      && (forall j :: 0 <= j < |starters| && starters[j] in candidates ==>
            exists k :: 0 <= k <= j && g == starters[k] && forall m :: 0 <= m < k ==> starters[m] !in candidates)
      && ((forall w :: w in starters ==> w !in candidates) ==> g == candidates[0])
  {
    var r := FirstAvailable(starters, candidates);
    forall j | 0 <= j < |starters| && starters[j] in candidates
      ensures exists k :: 0 <= k <= j && FirstGuess(starters, candidates) == starters[k]
                          && forall m :: 0 <= m < k ==> starters[m] !in candidates
    {
      assert r.Some?;
    }
  }

  /** The number of distinct letters of a word: len(set(w)). */
  function DistinctLetters(w: string): nat
  {
    |set c | c in w|
  }

  /** max(candidates, key=len(set(w))): the scan keeps the first word of
      largest key and moves only on a strictly larger one. */
  function MostDistinct(candidates: seq<string>): string
    requires |candidates| > 0
  {
    if |candidates| == 1 then candidates[0]
    else
      var best := MostDistinct(candidates[..|candidates| - 1]);
      var last := candidates[|candidates| - 1];
      if DistinctLetters(last) > DistinctLetters(best) then last else best
  }

  /** The choice is the first candidate with the most distinct letters. */
  lemma {:induction false} MostDistinctIsFirstMaximum(candidates: seq<string>)
    requires |candidates| > 0
    ensures var g := MostDistinct(candidates);
      && (forall w :: w in candidates ==> DistinctLetters(w) <= DistinctLetters(g))
      && exists k :: 0 <= k < |candidates| && candidates[k] == g
                     && forall j :: 0 <= j < k ==> DistinctLetters(candidates[j]) < DistinctLetters(g)
    decreases |candidates|
  {
    if |candidates| > 1 {
      var n := |candidates| - 1;
      var prefix := candidates[..n];
      MostDistinctIsFirstMaximum(prefix);
      var best := MostDistinct(prefix);
      assert candidates == prefix + [candidates[n]];
      var k :| 0 <= k < n && prefix[k] == best
               && forall j :: 0 <= j < k ==> DistinctLetters(prefix[j]) < DistinctLetters(best);
      if DistinctLetters(candidates[n]) <= DistinctLetters(best) {
        assert candidates[k] == best;
        assert forall j :: 0 <= j < k ==> candidates[j] == prefix[j];
      }
    }
  }

  /** The guess of turn `attempt`: the opener on the first turn, then the
      first candidate while at most two remain, otherwise the candidate
      with the most distinct letters. */
  function NextGuess(starters: seq<string>, candidates: seq<string>, attempt: nat): (g: string)
    requires |candidates| > 0
    ensures g in candidates
  {
    if attempt == 0 then FirstGuess(starters, candidates)
    else if |candidates| <= 2 then candidates[0]
    else
      MostDistinctIsFirstMaximum(candidates);
      MostDistinct(candidates)
  }

  // ---------------------------------------------------------------------
  // One game

  /** What play_smart_game returns: the guesses, their feedback and
      whether the secret was found. */
  datatype Outcome = Outcome(guesses: seq<string>, feedbacks: seq<Pattern>, won: bool)

  /** The first `n` words all come from `list`. */
  ghost predicate Drawn(words: seq<string>, n: nat, list: seq<string>)
    requires n <= |words|
  {
    n == 0 || (Drawn(words, n - 1, list) && words[n - 1] in list)
  }

  /** Being drawn from the list is having each word in it. */
  lemma {:induction false} DrawnIff(words: seq<string>, n: nat, list: seq<string>)
    requires n <= |words|
    ensures Drawn(words, n, list) <==> forall i :: 0 <= i < n ==> words[i] in list
  {
    if n > 0 {
      DrawnIff(words, n - 1, list);
    }
  }

  /** Appending a word of the list keeps a sequence drawn from it. */
  lemma DrawnExtend(words: seq<string>, list: seq<string>, w: string)
    requires Drawn(words, |words|, list) && w in list
    ensures Drawn(words + [w], |words + [w]|, list)
  {
    DrawnIff(words, |words|, list);
    DrawnIff(words + [w], |words + [w]|, list);
  }

  /** A rule for the next guess, from the pool and the turn number, that
      always picks a word of a non-empty pool. */
  ghost predicate ChooserValid(choose: (seq<string>, nat) --> string)
  {
    forall c, a {:trigger choose.requires(c, a)} ::
      |c| > 0 ==> choose.requires(c, a) && choose(c, a) in c
  }

  /** The heuristic's rule for a given opener list. */
  ghost function SmartChooser(starters: seq<string>): (seq<string>, nat) --> string
  {
    (c: seq<string>, a: nat) requires |c| > 0 => NextGuess(starters, c, a)
  }

  /** The heuristic always guesses a word of the pool. */
  lemma SmartChooserValid(starters: seq<string>)
    ensures ChooserValid(SmartChooser(starters))
  {
  }

  /** The rest of a game from a given state: the pool, the history so far
      and the number of turns still allowed. Each turn guesses, records
      the feedback, stops when the guess is the secret (the feedback is
      then all correct, and only then: see PlayTurn), filters the pool by
      the whole history and stops when it is empty. What the game records
      is stated by the lemmas that follow. */
  ghost function SmartRun(choose: (seq<string>, nat) --> string, secret: string, allWords: seq<string>,
                          candidates: seq<string>, guesses: seq<string>, feedbacks: seq<Pattern>, remaining: nat): Outcome
    requires |guesses| == |feedbacks|
    requires ChooserValid(choose)
    requires forall w {:trigger w in allWords} :: w in allWords ==> |w| == |secret|
    requires forall w :: w in candidates ==> w in allWords
    requires remaining > 0 ==> |candidates| > 0
    decreases remaining
  {
    if remaining == 0 then Outcome(guesses, feedbacks, false)
    else
      var guess := choose(candidates, |guesses|);
      var feedback := QuickFeedback(guess, secret);
      var gs, fs := guesses + [guess], feedbacks + [feedback];
      if guess == secret then Outcome(gs, fs, true)
      else
        FilteredWithin(candidates, gs, fs);
        var next := Filtered(candidates, gs, fs);
        if |next| == 0 then Outcome(gs, fs, false)
        else SmartRun(choose, secret, allWords, next, gs, fs, remaining - 1)
  }

  /** The rest of a game keeps its history and adds at most `remaining`
      turns, one at least when any remain. */
  lemma {:induction false} SmartRunHistory(choose: (seq<string>, nat) --> string, secret: string, allWords: seq<string>,
                                           candidates: seq<string>, guesses: seq<string>, feedbacks: seq<Pattern>, remaining: nat)
    requires |guesses| == |feedbacks|
    requires ChooserValid(choose)
    requires forall w {:trigger w in allWords} :: w in allWords ==> |w| == |secret|
    requires forall w :: w in candidates ==> w in allWords
    requires remaining > 0 ==> |candidates| > 0
    ensures var r := SmartRun(choose, secret, allWords, candidates, guesses, feedbacks, remaining);
      && |r.guesses| == |r.feedbacks|
      && |guesses| <= |r.guesses| <= |guesses| + remaining
      && (remaining > 0 ==> |guesses| < |r.guesses|)
      && r.guesses[..|guesses|] == guesses && r.feedbacks[..|guesses|] == feedbacks
    decreases remaining
  {
    if remaining > 0 {
      var guess := choose(candidates, |guesses|);
      var feedback := QuickFeedback(guess, secret);
      var gs, fs := guesses + [guess], feedbacks + [feedback];
      SmartTurn(choose, secret, allWords, candidates, guesses, feedbacks, remaining, guess, feedback);
      if guess != secret {
        var next := Filtered(candidates, gs, fs);
        if |next| > 0 {
          SmartRunHistory(choose, secret, allWords, next, gs, fs, remaining - 1);
          var r := SmartRun(choose, secret, allWords, next, gs, fs, remaining - 1);
          assert r.guesses[..|guesses|] == r.guesses[..|gs|][..|guesses|];
          assert r.feedbacks[..|guesses|] == r.feedbacks[..|fs|][..|guesses|];
        }
      }
    }
  }

  /** A game is won exactly when its last guess is the secret, and no
      earlier new guess is the secret. */
  lemma {:induction false} SmartRunEnds(choose: (seq<string>, nat) --> string, secret: string, allWords: seq<string>,
                                        candidates: seq<string>, guesses: seq<string>, feedbacks: seq<Pattern>, remaining: nat)
    requires |guesses| == |feedbacks|
    requires ChooserValid(choose)
    requires forall w {:trigger w in allWords} :: w in allWords ==> |w| == |secret|
    requires forall w :: w in candidates ==> w in allWords
    requires remaining > 0 ==> |candidates| > 0
    ensures var r := SmartRun(choose, secret, allWords, candidates, guesses, feedbacks, remaining);
      && (r.won ==> |guesses| < |r.guesses|)
      && (forall i :: |guesses| <= i < |r.guesses| ==>
            (r.guesses[i] == secret <==> r.won && i == |r.guesses| - 1))
    decreases remaining
  {
    if remaining > 0 {
      var guess := choose(candidates, |guesses|);
      var feedback := QuickFeedback(guess, secret);
      var gs, fs := guesses + [guess], feedbacks + [feedback];
      SmartTurn(choose, secret, allWords, candidates, guesses, feedbacks, remaining, guess, feedback);
      if guess != secret {
        var next := Filtered(candidates, gs, fs);
        if |next| > 0 {
          SmartRunEnds(choose, secret, allWords, next, gs, fs, remaining - 1);
          SmartRunHistory(choose, secret, allWords, next, gs, fs, remaining - 1);
          var r := SmartRun(choose, secret, allWords, next, gs, fs, remaining - 1);
          assert r.guesses[|guesses|] == r.guesses[..|gs|][|guesses|];
        }
      }
    }
  }

  /** With the secret in the pool, the pool never runs dry: a game that
      is not won uses every remaining turn. */
  lemma {:induction false} SmartRunFull(choose: (seq<string>, nat) --> string, secret: string, allWords: seq<string>,
                                        candidates: seq<string>, guesses: seq<string>, feedbacks: seq<Pattern>, remaining: nat)
    requires |guesses| == |feedbacks|
    requires ChooserValid(choose)
    requires forall w {:trigger w in allWords} :: w in allWords ==> |w| == |secret|
    requires forall w :: w in candidates ==> w in allWords
    requires remaining > 0 ==> |candidates| > 0
    requires Matches(secret, guesses, feedbacks, |guesses|)
    ensures var r := SmartRun(choose, secret, allWords, candidates, guesses, feedbacks, remaining);
      secret in candidates ==> r.won || |r.guesses| == |guesses| + remaining
    decreases remaining
  {
    if remaining > 0 {
      var guess := choose(candidates, |guesses|);
      var feedback := QuickFeedback(guess, secret);
      var gs, fs := guesses + [guess], feedbacks + [feedback];
      SmartTurn(choose, secret, allWords, candidates, guesses, feedbacks, remaining, guess, feedback);
      MatchesExtend(secret, guesses, feedbacks, guess, feedback);
      if guess != secret {
        SecretKept(candidates, gs, fs, secret);
        var next := Filtered(candidates, gs, fs);
        if |next| > 0 {
          SmartRunFull(choose, secret, allWords, next, gs, fs, remaining - 1);
        }
      }
    }
  }

  /** Every guess of a game is a word of the list, and every feedback
      recorded is the secret's true feedback for its guess. */
  lemma {:induction false} SmartRunRecords(choose: (seq<string>, nat) --> string, secret: string, allWords: seq<string>,
                                           candidates: seq<string>, guesses: seq<string>, feedbacks: seq<Pattern>, remaining: nat)
    requires |guesses| == |feedbacks|
    requires ChooserValid(choose)
    requires forall w {:trigger w in allWords} :: w in allWords ==> |w| == |secret|
    requires forall w :: w in candidates ==> w in allWords
    requires remaining > 0 ==> |candidates| > 0
    requires Matches(secret, guesses, feedbacks, |guesses|)
    requires Drawn(guesses, |guesses|, allWords)
    ensures var r := SmartRun(choose, secret, allWords, candidates, guesses, feedbacks, remaining);
      && |r.guesses| == |r.feedbacks|
      && Drawn(r.guesses, |r.guesses|, allWords) && Matches(secret, r.guesses, r.feedbacks, |r.guesses|)
    decreases remaining
  {
    if remaining > 0 {
      var guess := choose(candidates, |guesses|);
      var feedback := QuickFeedback(guess, secret);
      var gs, fs := guesses + [guess], feedbacks + [feedback];
      SmartTurn(choose, secret, allWords, candidates, guesses, feedbacks, remaining, guess, feedback);
      MatchesExtend(secret, guesses, feedbacks, guess, feedback);
      DrawnExtend(guesses, allWords, guess);
      if guess != secret {
        var next := Filtered(candidates, gs, fs);
        if |next| > 0 {
          SmartRunRecords(choose, secret, allWords, next, gs, fs, remaining - 1);
        }
      }
    }
  }



  /** play_smart_game: None when the word length has no opener list. */
  ghost function SmartGame(secret: string, allWords: seq<string>, maxGuesses: nat): Option<Outcome>
    requires forall w {:trigger w in allWords} :: w in allWords ==> |w| == |secret|
    requires maxGuesses > 0 && 3 <= |secret| <= 7 ==> |allWords| > 0
  {
    match OptimalFirstGuesses(|secret|)
    case None => None
    case Some(starters) =>
      FirstGuessesTable(|secret|);
      SmartChooserValid(starters);
      Some(SmartRun(SmartChooser(starters), secret, allWords, allWords, [], [], maxGuesses))
  }

  /** A game of a listed length makes at most max_guesses guesses, at
      least one when any is allowed, with their true feedback; it is won
      exactly when a guess is the secret, and that guess is the last; and
      with the secret in the word list the pool never runs dry, so a game
      that is not won uses every turn. */
  lemma SmartGameProperties(secret: string, allWords: seq<string>, maxGuesses: nat)
    requires forall w {:trigger w in allWords} :: w in allWords ==> |w| == |secret|
    requires maxGuesses > 0 && 3 <= |secret| <= 7 ==> |allWords| > 0
    ensures SmartGame(secret, allWords, maxGuesses).Some? <==> 3 <= |secret| <= 7
    ensures SmartGame(secret, allWords, maxGuesses).Some? ==>
      var r := SmartGame(secret, allWords, maxGuesses).value;
      && |r.guesses| == |r.feedbacks| <= maxGuesses
      && (maxGuesses > 0 ==> 1 <= |r.guesses|)
      && (r.won ==> 1 <= |r.guesses|)
      && (forall i :: 0 <= i < |r.guesses| ==>
            r.guesses[i] in allWords && r.feedbacks[i] == QuickFeedback(r.guesses[i], secret))
      && (forall i :: 0 <= i < |r.guesses| ==> (r.guesses[i] == secret <==> r.won && i == |r.guesses| - 1))
      && (forall i :: 0 <= i < |r.guesses| ==>
            (r.feedbacks[i] == AllCorrect(|secret|) <==> r.won && i == |r.guesses| - 1))
      && (secret in allWords ==> r.won || |r.guesses| == maxGuesses)
  {
    FirstGuessesTable(|secret|);
    var g := SmartGame(secret, allWords, maxGuesses);
    if g.Some? {
      var starters := OptimalFirstGuesses(|secret|).value;
      SmartChooserValid(starters);
      SmartRunHistory(SmartChooser(starters), secret, allWords, allWords, [], [], maxGuesses);
      SmartRunEnds(SmartChooser(starters), secret, allWords, allWords, [], [], maxGuesses);
      SmartRunFull(SmartChooser(starters), secret, allWords, allWords, [], [], maxGuesses);
      SmartRunRecords(SmartChooser(starters), secret, allWords, allWords, [], [], maxGuesses);
      var r := g.value;
      MatchesIff(secret, r.guesses, r.feedbacks, |r.guesses|);
      DrawnIff(r.guesses, |r.guesses|, allWords);
      forall i | 0 <= i < |r.guesses|
        ensures r.guesses[i] == secret <==> r.feedbacks[i] == AllCorrect(|secret|)
      {
        AllCorrectIff(r.guesses[i], secret);
        OraclesAgree(r.guesses[i], secret);
      }
    }
  }

  /** The state play_smart_game starts its loop from. */
  lemma SmartGameStart(secret: string, allWords: seq<string>, maxGuesses: nat, starters: seq<string>)
    requires forall w {:trigger w in allWords} :: w in allWords ==> |w| == |secret|
    requires maxGuesses > 0 && 3 <= |secret| <= 7 ==> |allWords| > 0
    requires OptimalFirstGuesses(|secret|) == Some(starters)
    ensures ChooserValid(SmartChooser(starters))
    ensures |allWords| == 0 ==> maxGuesses == 0
    ensures SmartGame(secret, allWords, maxGuesses)
            == Some(SmartRun(SmartChooser(starters), secret, allWords, allWords, [], [], maxGuesses))
  {
    FirstGuessesTable(|secret|);
    SmartChooserValid(starters);
  }

  /** One turn of a game, given its guess and feedback. */
  lemma SmartTurn(choose: (seq<string>, nat) --> string, secret: string, allWords: seq<string>,
                  candidates: seq<string>, guesses: seq<string>, feedbacks: seq<Pattern>, remaining: nat,
                  guess: string, feedback: Pattern)
    requires |guesses| == |feedbacks|
    requires ChooserValid(choose)
    requires forall w {:trigger w in allWords} :: w in allWords ==> |w| == |secret|
    requires forall w :: w in candidates ==> w in allWords
    requires remaining > 0 && |candidates| > 0
    requires choose.requires(candidates, |guesses|) && guess == choose(candidates, |guesses|)
    requires feedback == QuickFeedback(guess, secret)
    ensures var gs, fs := guesses + [guess], feedbacks + [feedback];
      var r := SmartRun(choose, secret, allWords, candidates, guesses, feedbacks, remaining);
      && |guess| == |secret|
      && (guess == secret ==> r == Outcome(gs, fs, true))
      && (guess != secret ==>
            var next := Filtered(candidates, gs, fs);
            && (forall w :: w in next ==> w in allWords)
            && (|next| == 0 ==> r == Outcome(gs, fs, false))
            && (|next| > 0 ==> r == SmartRun(choose, secret, allWords, next, gs, fs, remaining - 1)))
  {
    var gs, fs := guesses + [guess], feedbacks + [feedback];
    FilteredWithin(candidates, gs, fs);
  }

  /** Guesses that match the secret are no longer than any word of a pool
      of words of the secret's length, so the pool can be filtered by
      them. */
  lemma HistoryComparable(secret: string, allWords: seq<string>, candidates: seq<string>,
                          guesses: seq<string>, feedbacks: seq<Pattern>)
    requires |guesses| == |feedbacks|
    requires forall w {:trigger w in allWords} :: w in allWords ==> |w| == |secret|
    requires forall w :: w in candidates ==> w in allWords
    requires Matches(secret, guesses, feedbacks, |guesses|)
    ensures Comparable(guesses, candidates)
  {
    MatchesIff(secret, guesses, feedbacks, |guesses|);
    forall i, k | 0 <= i < |guesses| && 0 <= k < |candidates|
      ensures |guesses[i]| <= |candidates[k]|
    {
      assert candidates[k] in candidates;
    }
  }

  /** A game in progress: `game` is the rest of the game from this pool,
      history and number of remaining turns. */
  ghost predicate Playing(game: Outcome, choose: (seq<string>, nat) --> string, secret: string, allWords: seq<string>,
                          candidates: seq<string>, guesses: seq<string>, feedbacks: seq<Pattern>, remaining: nat)
  {
    && |guesses| == |feedbacks|
    && ChooserValid(choose)
    && (forall w {:trigger w in allWords} :: w in allWords ==> |w| == |secret|)
    && (forall w :: w in candidates ==> w in allWords)
    && (remaining > 0 ==> |candidates| > 0)
    && Matches(secret, guesses, feedbacks, |guesses|)
    && game == SmartRun(choose, secret, allWords, candidates, guesses, feedbacks, remaining)
  }

  /** One turn of play_smart_game: the guess, its feedback and, unless
      the feedback is all correct, the pool filtered by the whole history.
      The turn ends the game as a win exactly when the feedback is all
      correct, which happens exactly when the guess is the secret; it ends
      it as a loss when the filtered pool is empty; otherwise the game goes
      on from the filtered pool and the longer history. */
  method PlayTurn(ghost game: Outcome, ghost choose: (seq<string>, nat) --> string, starters: seq<string>,
                  secret: string, allWords: seq<string>, candidates: seq<string>,
                  guesses: seq<string>, feedbacks: seq<Pattern>, ghost remaining: nat)
    returns (guess: string, feedback: Pattern, solved: bool, next: seq<string>)
    requires choose == SmartChooser(starters) && remaining > 0
    requires Playing(game, choose, secret, allWords, candidates, guesses, feedbacks, remaining)
    ensures |guess| == |secret| && feedback == QuickFeedback(guess, secret)
    ensures solved <==> feedback == AllCorrect(|secret|)
    ensures solved <==> guess == secret
    ensures solved ==> game == Outcome(guesses + [guess], feedbacks + [feedback], true)
    ensures !solved ==> next == Filtered(candidates, guesses + [guess], feedbacks + [feedback])
    ensures !solved && |next| == 0 ==> game == Outcome(guesses + [guess], feedbacks + [feedback], false)
    ensures !solved && |next| > 0 ==>
      Playing(game, choose, secret, allWords, next, guesses + [guess], feedbacks + [feedback], remaining - 1)
  {
    guess := NextGuess(starters, candidates, |guesses|);
    feedback := GenerateFeedback(guess, secret);
    AllCorrectIff(guess, secret);
    OraclesAgree(guess, secret);
    SmartTurn(choose, secret, allWords, candidates, guesses, feedbacks, remaining, guess, feedback);
    MatchesExtend(secret, guesses, feedbacks, guess, feedback);
    solved := feedback == AllCorrect(|secret|);
    next := [];
    if !solved {
      HistoryComparable(secret, allWords, candidates, guesses + [guess], feedbacks + [feedback]);
      next := FilterCandidates(candidates, guesses + [guess], feedbacks + [feedback]);
    }
  }

  /** The loop of play_smart_game, once the opener list of the word
      length has been looked up: guess, observe, stop on an all-correct
      feedback, filter the pool by the whole history, stop when it is
      empty. */
  method PlayWithOpeners(optimalStarters: seq<string>, secret: string, allWords: seq<string>, maxGuesses: nat)
    returns (r: Outcome)
    requires forall w {:trigger w in allWords} :: w in allWords ==> |w| == |secret|
    requires maxGuesses > 0 ==> |allWords| > 0
    ensures ChooserValid(SmartChooser(optimalStarters))
    ensures r == SmartRun(SmartChooser(optimalStarters), secret, allWords, allWords, [], [], maxGuesses)
  {
    SmartChooserValid(optimalStarters);
    ghost var choose := SmartChooser(optimalStarters);
    ghost var game := SmartRun(choose, secret, allWords, allWords, [], [], maxGuesses);

    var candidates := allWords;
    var guesses: seq<string> := [];
    var feedbacks: seq<Pattern> := [];

    ghost var remaining := maxGuesses;
    for attempt := 0 to maxGuesses
      invariant |guesses| == attempt && remaining == maxGuesses - attempt
      invariant Playing(game, choose, secret, allWords, candidates, guesses, feedbacks, remaining)
    {
      var guess, feedback, solved, next := PlayTurn(game, choose, optimalStarters, secret, allWords, candidates,
                                                    guesses, feedbacks, remaining);
      remaining := remaining - 1;
      guesses := guesses + [guess];
      feedbacks := feedbacks + [feedback];

      if solved {
        return Outcome(guesses, feedbacks, true);
      }

      candidates := next;
      if |candidates| == 0 {
        break;
      }
    }
    return Outcome(guesses, feedbacks, false);
  }

  /** play_smart_game: None when the word length has no opener list, where
      play_smart_game raises KeyError. */
  method PlaySmartGame(secret: string, allWords: seq<string>, maxGuesses: nat) returns (r: Option<Outcome>)
    requires forall w {:trigger w in allWords} :: w in allWords ==> |w| == |secret|
    requires maxGuesses > 0 && 3 <= |secret| <= 7 ==> |allWords| > 0
    ensures r == SmartGame(secret, allWords, maxGuesses)
  {
    var table := OptimalFirstGuesses(|secret|);
    if table.None? {
      return None;
    }
    SmartGameStart(secret, allWords, maxGuesses, table.value);
    var outcome := PlayWithOpeners(table.value, secret, allWords, maxGuesses);
    return Some(outcome);
  }
}
