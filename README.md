# Wordle solver core, modelled in Dafny

This project models the deterministic core of a Wordle-style solver and
proves its properties:

- the two trajectory generators (an entropy-driven solver and a
  heuristic solver);
- the two game-state encoders that turn a guess/feedback history into
  integer tables;
- the opener lookup that sits next to the first encoder.

Modules:

- `Common` (common.dfy): tiles, feedback patterns, `Option`, in-order
  subsequences, and the "first listed word that is available" search
  shared by the opener tables.
- `Oracle` (oracle.dfy): the reference definition of the two-pass,
  duplicate-aware feedback, `TwoPass(guess, secret, n)`, with the
  loop-state functions `Row` and `Counter` and the lemmas about them:
  - tile shape;
  - correct-tile positions;
  - per-letter bound on correct+present tiles;
  - all-correct iff guess == secret;
  - agreement of the two generators' oracles.
- `OptimalTrajectories` (optimal.dfy): `generate_feedback`,
  `apply_feedback_to_candidates`, the pattern buckets behind
  `calculate_entropy`, `get_optimal_guess` and `play_optimal_game`. The
  entropy formula is a parameter, so the selector is proved for every
  scoring function.
- `QuickTrajectories` (quick.dfy): `generate_feedback`,
  `filter_candidates` over the whole history, `score_word_frequency`,
  the opener table of `get_optimal_first_guesses` and `play_smart_game`.
- `GameHistory` (history.dfy): the zip over (guess, feedback) pairs and
  over (letter, state) pairs that both encoders walk, flattened into a
  sequence of observations. Also Python's index rules for
  `ord(letter) - ord('a')`, including negative indices.
- `UnifiedModel` (unified.dfy): `encode_game_state`, which fills two
  `array2` tables in place (`letter_states` 26×4 and `position_info`
  max_length×27) and flattens them. Also `OPTIMAL_STARTERS` and
  `get_smart_starter`.
- `TrainPolicy` (policy.dfy): `WordleDataset.encode_state`, with its
  letter-priority map and its length×26 position grid.

Each method that loops is proved against a specification function of
its inputs, and the properties are lemmas about that function:

- `Feedback` / `QuickFeedback` for the oracles;
- `Consistent` and `Filtered` for the filters;
- `Buckets` for the entropy partition;
- `EvaluationSet` and `Choose` for the selector;
- `Run` and `SmartRun` for the games;
- `LetterCell`, `PositionCell`, `LetterStates` and `ConstraintCell` for
  the encoders.

The two generators' feedback loops run to different bounds, and the
model follows the code: the entropy generator scans `len(secret)`
positions, the heuristic generator `len(guess)`. `OraclesAgree` shows
that they coincide on words of equal length.

Tables are stated as they are written:

- `OPTIMAL_STARTERS` lists "realist" (7 letters) under 6, and "angriest"
  (8) and "learnt" (6) under 7 (`StartersTable`). `get_smart_starter`
  still only returns available words, so over a word list of one length
  its answer has that length (`SmartStarterLength`).
- The length-7 row of `get_optimal_first_guesses` names "strange" twice.
  The lookup is a first-match scan, so the duplicate is harmless.

The letter table of encode_game_state follows the code, not its
comment. The comment at ml/unified_model.py:267 speaks of a higher
priority overwriting a lower one. Lines 269-272 overwrite
unconditionally, so the last recognised observation of a letter
decides its row (`LetterLastWins`). For example, guess "aaa" against
secret "ate" gives [correct, absent, absent], and 'a' ends in the
absent slot. The training encoder's dict, in contrast, does keep the
highest priority (`StatesNeverDecrease`).

## Model

| member | source | states |
|---|---|---|
| Common.FirstAvailable | ml/unified_model.py:311-314 | the result is available, it is the earliest listed word that is, and it is None exactly when no listed word is available |
| Oracle.TwoPassShape | ml/generate_optimal_trajectories.py:31-48 | the row has len(secret) tiles, each Correct, Present or Absent; a scanned tile is Correct exactly where guess and secret agree; unscanned tiles stay Absent |
| Oracle.LetterBound | ml/generate_optimal_trajectories.py:33-46 | for every letter, Correct plus Present tiles never exceed its occurrences in the secret; when a scanned tile of that letter is Absent, they equal them |
| Oracle.MatchedWithinSecret | ml/generate_optimal_trajectories.py:36-39 | pass 1 never removes a letter from the counter more often than the secret holds it |
| Oracle.CounterNonNegative | ml/generate_optimal_trajectories.py:42-46 | the counter never goes negative through pass 2 |
| Oracle.OccZero | ml/generate_optimal_trajectories.py:33 | a letter has no occurrences exactly when it is not in the word, so the counter's membership test is its count being positive |
| Oracle.RowEnds | ml/generate_optimal_trajectories.py:32-33 | the loops start from an all-Absent row and the full letter counts, and end at the feedback row |
| Oracle.Pass1Step | ml/generate_optimal_trajectories.py:36-39 | one pass-1 step: an exact match becomes Correct and takes one copy of its letter out of the counter; other positions change nothing |
| Oracle.Pass2Step | ml/generate_optimal_trajectories.py:42-46 | one pass-2 step: a non-Correct position whose letter is still counted becomes Present and uses one copy; otherwise nothing changes, and Correct tiles are never changed |
| Oracle.SelfFeedback | ml/generate_optimal_trajectories.py:29-48 | guessing the secret itself gives the all-correct row, under both oracles |
| Oracle.AllCorrectIff | ml/generate_optimal_trajectories.py:36-38 | for equal lengths the row is all correct exactly when guess == secret |
| Oracle.OraclesAgree | ml/generate_quick_trajectories.py:12-30 | on equal-length words the heuristic generator's oracle equals the entropy generator's |
| OptimalTrajectories.GenerateFeedback | ml/generate_optimal_trajectories.py:29-48 | the two loops over a list and a letter counter compute exactly Feedback(guess, secret) |
| OptimalTrajectories.ApplyFeedbackToCandidates | ml/generate_optimal_trajectories.py:51-61 | the filtering loop returns exactly Consistent(candidates, guess, feedback) |
| OptimalTrajectories.ConsistentCounts | ml/generate_optimal_trajectories.py:55-59 | each word with the observed feedback keeps its multiplicity; every other word is dropped |
| OptimalTrajectories.ConsistentMembers | ml/generate_optimal_trajectories.py:55-59 | a word survives iff it is a candidate and generate_feedback(guess, word) equals the feedback |
| OptimalTrajectories.ConsistentWithin | ml/generate_optimal_trajectories.py:51-61 | survivors come from the pool |
| OptimalTrajectories.ConsistentOrder | ml/generate_optimal_trajectories.py:51-61 | the result is an in-order subsequence of the pool |
| OptimalTrajectories.ConsistentShrinks | ml/generate_optimal_trajectories.py:51-61 | the filter never grows the pool |
| OptimalTrajectories.ConsistentIdempotent | ml/generate_optimal_trajectories.py:51-61 | filtering twice by the same observation equals filtering once |
| OptimalTrajectories.SecretRetained | ml/generate_optimal_trajectories.py:168-179 | the secret is never filtered out by the feedback it produced |
| OptimalTrajectories.BucketSizes | ml/generate_optimal_trajectories.py:73-78 | each pattern's count is the number of candidates that would survive that feedback (0 for patterns without a bucket) |
| OptimalTrajectories.BucketsPartition | ml/generate_optimal_trajectories.py:73-78 | a pattern has a bucket iff some candidate produces it, and every bucket count is at least 1 |
| OptimalTrajectories.BucketHasWitness | ml/generate_optimal_trajectories.py:75-78 | a bucket exists only for a pattern some candidate produced |
| OptimalTrajectories.BucketsBound | ml/generate_optimal_trajectories.py:73-78 | there are never more buckets than candidates |
| OptimalTrajectories.BucketsTotal | ml/generate_optimal_trajectories.py:73-81 | the bucket counts sum to len(candidates) |
| OptimalTrajectories.TotalRemove | ml/generate_optimal_trajectories.py:84-87 | summing the counts can start from any bucket |
| OptimalTrajectories.TotalUpdate | ml/generate_optimal_trajectories.py:78 | changing one bucket's count changes the sum by the difference |
| OptimalTrajectories.CalculateEntropy | ml/generate_optimal_trajectories.py:64-89 | 0 for an empty pool; otherwise the score function applied to the pattern counts built by the loop and to the pool size |
| OptimalTrajectories.StarterLengths | ml/generate_optimal_trajectories.py:118-124 | every opener in the selector's table has the length it is listed under |
| OptimalTrajectories.WithOpenersSpec | ml/generate_optimal_trajectories.py:126-129 | adding openers only appends words of all_words that were not yet there, each at most once, and every such opener ends up in the set |
| OptimalTrajectories.WithOpenersOrder | ml/generate_optimal_trajectories.py:126-129 | the appended openers are an in-order subsequence of the table, so they keep its order, on which the selector's first-maximum tie-break depends |
| OptimalTrajectories.EvaluationSetSpec | ml/generate_optimal_trajectories.py:109-133 | at most max_search words are scored; each is a candidate or, for a pool over 50, an opener from all_words; the pool's first words come first; a pool of at most 10 is scored whole up to the cut |
| OptimalTrajectories.EvaluationSetScored | ml/generate_optimal_trajectories.py:109-133 | the pool's first 20 words (the whole pool below 20) are scored unless max_search cuts earlier; with no openers added exactly those, cut to max_search; for a pool over 50 with a listed length that the cut leaves whole, every opener found in all_words is scored too |
| OptimalTrajectories.EvaluationLengths | ml/generate_optimal_trajectories.py:109-133 | every scored word has the pool's word length |
| OptimalTrajectories.WordsToEvaluate | ml/generate_optimal_trajectories.py:109-133 | the branches and the opener loop build exactly EvaluationSet |
| OptimalTrajectories.Scores | ml/generate_optimal_trajectories.py:139-144 | one score per evaluated word |
| OptimalTrajectories.ChooseIsFirstMaximum | ml/generate_optimal_trajectories.py:136-150 | the strict `>` scan returns the first word of maximal score (every score is at most it, and earlier words score strictly less), or candidates[0] when nothing beats -1.0 |
| OptimalTrajectories.BestScoring | ml/generate_optimal_trajectories.py:136-150 | the best_word/best_score loop with entropy plus bonus computes Choose over the scores |
| OptimalTrajectories.OptimalGuessSpec | ml/generate_optimal_trajectories.py:101-150 | with 1 or 2 candidates the guess is candidates[0]; the guess always has the pool's length and is a candidate, or a word of all_words when the pool has more than 50 words |
| OptimalTrajectories.GetOptimalGuess | ml/generate_optimal_trajectories.py:92-150 | the method returns OptimalGuess of its inputs |
| OptimalTrajectories.OptimalPolicyValid | ml/generate_optimal_trajectories.py:92-150 | over a word list of one length, every guess is a word of the list |
| OptimalTrajectories.Survivors | ml/generate_optimal_trajectories.py:179 | the pool after successive filtering stays within the initial pool |
| OptimalTrajectories.SurvivorsOrder | ml/generate_optimal_trajectories.py:179 | the pool after successive filtering is an in-order subsequence of the initial pool |
| OptimalTrajectories.AgreesIff | ml/generate_optimal_trajectories.py:179 | agreeing with the history means every guess gives the word its recorded feedback |
| OptimalTrajectories.SurvivorsAgree | ml/generate_optimal_trajectories.py:179 | a word survives successive filtering iff it is in the pool and agrees with the history |
| OptimalTrajectories.SurvivorsSpec | ml/generate_optimal_trajectories.py:163-183 | a word survives the turns iff it is in the pool and each guess gives it the recorded feedback |
| OptimalTrajectories.RunHistory | ml/generate_optimal_trajectories.py:163-191 | the rest of a game keeps the secret and the history it starts from, with equal-length guesses, feedbacks and num_guesses, and adds at most `remaining` turns, at least one when any remain |
| OptimalTrajectories.RunEnds | ml/generate_optimal_trajectories.py:173-176 | the game is won iff its last guess is the secret, and no earlier new guess is the secret |
| OptimalTrajectories.RunFull | ml/generate_optimal_trajectories.py:178-183 | with the secret in the pool the pool never runs dry, so a game that is not won uses every turn |
| OptimalTrajectories.RunRecords | ml/generate_optimal_trajectories.py:165-171 | every guess a game adds is a word of all_words, recorded with its true feedback |
| OptimalTrajectories.RunTurn | ml/generate_optimal_trajectories.py:165-183 | one turn: a hit ends the game as won, an empty filtered pool ends it as lost, otherwise the game continues from the filtered pool |
| OptimalTrajectories.GameStart | ml/generate_optimal_trajectories.py:158-161 | the game starts from the whole word list with empty history |
| OptimalTrajectories.GameProperties | ml/generate_optimal_trajectories.py:153-191 | at most max_guesses guesses, at least one when allowed; guesses and feedbacks equal in length with num_guesses; each guess from all_words with its true feedback; won iff the last guess is the secret, which appears nowhere earlier, so a game with no guesses (max_guesses 0) is not won; with the secret in all_words a lost game uses every turn, so the empty-pool break is never taken |
| OptimalTrajectories.PlayTurn | ml/generate_optimal_trajectories.py:165-183 | one turn computes the policy's guess and its true feedback: a hit ends the game as won, an empty filtered pool ends it as lost, otherwise the game goes on with one turn fewer from the filtered pool, which is again Survivors of all_words under the whole recorded history |
| OptimalTrajectories.PlayOptimalGame | ml/generate_optimal_trajectories.py:153-191 | the loop with its two breaks returns exactly Game(...) |
| QuickTrajectories.GenerateFeedback | ml/generate_quick_trajectories.py:12-30 | the two loops over len(guess) positions compute exactly QuickFeedback(guess, secret) |
| QuickTrajectories.MatchesIff | ml/generate_quick_trajectories.py:40-44 | matching the history means every guess is no longer than the word and gives it the recorded feedback |
| QuickTrajectories.FilterCandidates | ml/generate_quick_trajectories.py:33-49 | the nested loop with its early break returns exactly Filtered(candidates, guesses, feedbacks) |
| QuickTrajectories.FilteredWithin | ml/generate_quick_trajectories.py:33-49 | survivors come from the pool |
| QuickTrajectories.FilteredMembers | ml/generate_quick_trajectories.py:37-47 | a word survives iff it is a candidate and every (guess, feedback) pair zip visits matches it |
| QuickTrajectories.FilteredOrder | ml/generate_quick_trajectories.py:33-49 | the result is an in-order subsequence of the pool and never longer |
| QuickTrajectories.FilteredIdempotent | ml/generate_quick_trajectories.py:33-49 | filtering twice by the same history equals filtering once |
| QuickTrajectories.SecretKept | ml/generate_quick_trajectories.py:101 | a secret that produced every recorded feedback is never filtered out |
| QuickTrajectories.MatchesExtend | ml/generate_quick_trajectories.py:93-95 | appending a pair the word agrees with keeps the history matching |
| QuickTrajectories.ScoreWordFrequency | ml/generate_quick_trajectories.py:52-58 | the loop computes the sum over positions of the table entry, missing letters and positions adding 0 |
| QuickTrajectories.FrequencyScoreBounds | ml/generate_quick_trajectories.py:52-58 | with entries in [0, top] a word scores between 0 and top per letter; a word whose letters are all missing from the table scores 0 |
| QuickTrajectories.FirstGuessesTable | ml/generate_quick_trajectories.py:61-69 | the table has exactly the lengths 3 to 7, ten openers each, all of the listed length |
| QuickTrajectories.FirstGuess | ml/generate_quick_trajectories.py:84 | the opening guess is a candidate |
| QuickTrajectories.FirstGuessSpec | ml/generate_quick_trajectories.py:84 | the opening guess is the first listed opener that is a candidate, and candidates[0] only when none is |
| QuickTrajectories.MostDistinctIsFirstMaximum | ml/generate_quick_trajectories.py:91 | max(key=len(set(w))) picks the first candidate with the most distinct letters |
| QuickTrajectories.NextGuess | ml/generate_quick_trajectories.py:82-91 | every guess is a candidate: the opener on turn 0, candidates[0] while at most 2 remain, else the most distinct letters |
| QuickTrajectories.DrawnIff | ml/generate_quick_trajectories.py:94 | a history is drawn from the list iff each guess is in it |
| QuickTrajectories.DrawnExtend | ml/generate_quick_trajectories.py:94 | appending a word of the list keeps the history drawn from it |
| QuickTrajectories.SmartChooserValid | ml/generate_quick_trajectories.py:82-91 | the heuristic picks a word of every non-empty pool |
| QuickTrajectories.SmartRunHistory | ml/generate_quick_trajectories.py:81-107 | a game keeps its history and adds at most `remaining` turns, at least one when any remain, with equal-length guess and feedback lists |
| QuickTrajectories.SmartRunEnds | ml/generate_quick_trajectories.py:97-98 | the game is won iff its last guess is the secret, and no earlier new guess is the secret |
| QuickTrajectories.SmartRunFull | ml/generate_quick_trajectories.py:101-105 | with the secret in the pool the pool never runs dry, so a game that is not won uses every turn |
| QuickTrajectories.SmartRunRecords | ml/generate_quick_trajectories.py:93-95 | every recorded guess is a word of the list and every recorded feedback is its true feedback |
| QuickTrajectories.SmartGameProperties | ml/generate_quick_trajectories.py:72-107 | there is a game exactly for lengths 3 to 7, and it has: at most max_guesses guesses (at least one when allowed); every guess a word of the list with its true feedback; won iff the last guess is the secret, so a game with no guesses is not won; all-correct feedback exactly on that last guess; every turn used unless won when the secret is in the list |
| QuickTrajectories.SmartGameStart | ml/generate_quick_trajectories.py:74-79 | the game starts from the whole list and the opener row of its length |
| QuickTrajectories.SmartTurn | ml/generate_quick_trajectories.py:81-105 | one turn: the guess has the secret's length, a hit ends the game as won, an empty filtered pool ends it as lost, otherwise the game continues from the filtered pool |
| QuickTrajectories.HistoryComparable | ml/generate_quick_trajectories.py:101 | guesses that match the secret can be compared against every word of the pool |
| QuickTrajectories.PlayTurn | ml/generate_quick_trajectories.py:81-105 | one turn: solved iff the feedback is all correct iff the guess is the secret; otherwise the pool is filtered by the whole history, and the game ends or continues accordingly |
| QuickTrajectories.PlayWithOpeners | ml/generate_quick_trajectories.py:75-107 | the loop with its return and break yields exactly SmartRun from the whole list |
| QuickTrajectories.PlaySmartGame | ml/generate_quick_trajectories.py:72-107 | the method yields SmartGame, which is None for a length without openers |
| GameHistory.ZipLength | ml/unified_model.py:263-264 | zip walks as many pairs as the shorter sequence has: over the history min(len(guesses), len(feedbacks)), over one guess min(len(guess), len(feedback)) |
| GameHistory.ZipStep | ml/unified_model.py:263-264 | each inner step appends the observation it visits, and finishing the inner loop completes the next pair |
| GameHistory.Axis | ml/unified_model.py:265 | a Python index accepted on an axis of n entries selects entry i or i + n, within range |
| UnifiedModel.LetterSlot | ml/unified_model.py:263-272 | every letter row's 1 is in one of its four slots |
| UnifiedModel.LetterRowOneHot | ml/unified_model.py:260-272 | each letter row has exactly one 1 and zeros elsewhere |
| UnifiedModel.LetterUnseen | ml/unified_model.py:261 | a row stays in the unknown slot iff no recognised observation lands on it |
| UnifiedModel.LetterLastWins | ml/unified_model.py:267-272 | the last recognised observation of a letter decides its row; unrecognised states leave it alone |
| UnifiedModel.WriteLetter | ml/unified_model.py:268-272 | one inner step updates the table to LetterCell of the observations seen plus this one |
| UnifiedModel.LetterStates | ml/unified_model.py:260-272 | the 26×4 array after the loops holds LetterCell of all observations |
| UnifiedModel.PositionCell | ml/unified_model.py:278-290 | every cell of position_info is -1, 0 or 1 |
| UnifiedModel.PositionUntouched | ml/unified_model.py:279 | a position with no correct or absent observation keeps only the "any" column set |
| UnifiedModel.PositionCorrectLast | ml/unified_model.py:286-288 | after the last correct observation at a position, with no absent one after it, the row is one-hot at that letter |
| UnifiedModel.PositionAbsentStays | ml/unified_model.py:289-290 | an absent observation leaves -1 at its letter until a later correct one at that position |
| UnifiedModel.WritePosition | ml/unified_model.py:282-290 | one inner step: positions ≥ max_length are skipped, correct makes the row one-hot, absent writes -1 |
| UnifiedModel.PositionInfo | ml/unified_model.py:278-290 | the max_length×27 array after the loops holds PositionCell of all observations |
| UnifiedModel.EncodeGameState | ml/unified_model.py:236-294 | 1 + 26·4 + max_length·27 features: the guess count, then both tables row by row |
| UnifiedModel.StartersTable | ml/unified_model.py:298-304 | five openers for each length 3 to 7 and none otherwise; every opener has its row's length except "realist", "angriest" and "learnt" |
| UnifiedModel.GetSmartStarter | ml/unified_model.py:307-317 | the starter is an available word, and None exactly when no word is available |
| UnifiedModel.SmartStarterSpec | ml/unified_model.py:309-317 | the starter is the earliest listed opener that is available; otherwise available_words[0], also for unknown lengths |
| UnifiedModel.SmartStarterLength | ml/unified_model.py:307-317 | over available words of one length the starter has that length |
| TrainPolicy.LetterStates | ml/train_policy.py:102-110 | every state in the map is 1, 2 or 3 |
| TrainPolicy.ObserveRaises | ml/train_policy.py:105-110 | one observation never lowers a state, correct sets 3, and other letters are untouched |
| TrainPolicy.StatesNeverDecrease | ml/train_policy.py:103-110 | a letter's state never decreases across observations |
| TrainPolicy.CorrectStaysThree | ml/train_policy.py:105-106 | once a letter is seen correct its state stays 3 |
| TrainPolicy.UnobservedIsZero | ml/train_policy.py:112-114 | a letter is in the map iff it was observed with a recognised state; otherwise it encodes 0 |
| TrainPolicy.ConstraintCell | ml/train_policy.py:117-124 | every grid cell is -1, 0 or 1 |
| TrainPolicy.ConstraintLastWrite | ml/train_policy.py:121-124 | the last correct or absent write to a cell wins, as 1 or -1 |
| TrainPolicy.ConstraintUntouched | ml/train_policy.py:117-124 | a cell that no correct or absent observation writes stays 0; present never writes |
| TrainPolicy.WordleDataset.constructor | ml/train_policy.py:23-30 | the dataset keeps its word length |
| TrainPolicy.WordleDataset.LetterStateMap | ml/train_policy.py:102-110 | the dict loop computes LetterStates of the observations |
| TrainPolicy.WordleDataset.WriteConstraint | ml/train_policy.py:120-124 | one inner step updates the grid to ConstraintCell of the observations seen plus this one |
| TrainPolicy.WordleDataset.PositionConstraints | ml/train_policy.py:117-124 | the length×26 grid after the loops holds ConstraintCell of all observations |
| TrainPolicy.WordleDataset.EncodeState | ml/train_policy.py:86-129 | InputSize(length) = 1 + 26 + length·26 features, as in input_size at line 172: the guess count, the 26 letter states in alphabet order, then the grid row by row |

## Left out

- The entropy value `-sum p·log2 p` (floating point) is the parameter
  `entropy` of `CalculateEntropy`, `GetOptimalGuess` and
  `PlayOptimalGame`. Everything proved about the selector holds for any
  score function. The parameter sees the pattern counts as an unordered
  map. calculate_entropy sums its floats in the dict's insertion order
  (ml/generate_optimal_trajectories.py:84-87), so its rounding, and with
  it a tie under the strict `>` of the selection loop, can depend on
  that order. The model does not capture this.
- `CandidateBonus` is the exact real 0.1, not a binary float.
- File reading and writing: `load_word_list`, `generate_trajectories`,
  `main`, and the JSON loading in `WordleDataset.__init__`. The
  constructor keeps only the word length.
- Random sampling of word lists and secrets, `np.random` in
  `__getitem__`, all PyTorch code, ml/train_unified.py and the scripts
  directory: not part of this model.
- The float normalisations of the encoders (`/ 6.0`, `/ 3.0`) and the
  float32 conversion. The features are the integer codes before
  division.
- Python exceptions become preconditions or `None`, not modelled
  errors:
  - an `IndexError` from a letter outside the table, or from a position
    past the dataset length, is the requires `LettersIndexed` /
    `ConstraintsIndexed`;
  - `candidates[0]` on an empty pool is a requires on the selection
    members;
  - the two `generate_feedback` functions raise IndexError for words of
    different lengths, in opposite directions:
    - the entropy generator loops over `len(secret)`, so it fails for a
      guess shorter than the secret; `Oracle.Feedback` and every member
      that filters with it require `|secret| <= |guess|`;
    - the heuristic generator loops over `len(guess)`, so it fails for a
      guess longer than the secret; `Oracle.QuickFeedback`,
      `QuickTrajectories.GenerateFeedback` and
      `QuickTrajectories.MatchesExtend` require `|guess| <= |secret|`,
      and `QuickTrajectories.FilterCandidates` requires it of every
      pair through `Comparable`;
  - the `KeyError` of an unlisted length in `play_smart_game` is `None`.
- `OptimalTrajectories.GetOptimalGuess`, `OptimalGuess`,
  `OptimalGuessSpec` and `EvaluationLengths` require a pool of words of
  one length. get_optimal_guess itself returns `candidates[0]` for a
  pool of one or two words of any lengths (`["ab", "abc"]` gives "ab").
  For a larger mixed pool, scoring may raise IndexError or may not,
  depending on the lengths. The model covers one-length pools only.
- `OptimalTrajectories.PlayOptimalGame`, `Game`, `GameProperties`,
  `Run` and its lemmas, and `QuickTrajectories.PlaySmartGame`,
  `SmartGame`, `SmartGameProperties`, `SmartRun` and its lemmas require
  every word of the list to have the secret's length. load_word_list
  does not filter by length, and a game over a mixed list (which may
  raise IndexError part-way) is not modelled.
- Returned dicts and tuples become the datatypes `Trajectory` and
  `Outcome`. The `secret` and `num_guesses` keys are fields.
- `EncodeGameState` accepts `length` and does not use it;
  encode_game_state never reads that parameter either.
- `OptimalTrajectories.Run` and `QuickTrajectories.SmartRun`: each game
  is a ghost function of an abstract guess rule. Their properties are
  in the `Run*` and `SmartRun*` lemmas rather than in their own
  contracts.
