/**
 * The entropy-driven solver (ml/generate_optimal_trajectories.py): its
 * feedback oracle, the candidate filter, the partition of the pool by
 * feedback pattern that the entropy is computed from, the bounded-search
 * guess selector and the per-game simulation loop.
 *
 * The entropy value itself is a floating-point formula over the bucket
 * sizes; the selector and the game take it as a parameter
 * `entropy(guess, pool)`, so everything proved here holds for any scoring
 * function.
 */
module OptimalTrajectories {
  import opened Common
  import opened Oracle

  // ---------------------------------------------------------------------
  // Feedback oracle

  /** generate_feedback: two passes over the len(secret) positions with a
      letter counter of the secret. */
  method GenerateFeedback(guess: string, secret: string) returns (feedback: Pattern)
    requires |secret| <= |guess|
    ensures feedback == Feedback(guess, secret)
  {
    var length := |secret|;
    feedback := seq(length, _ => Absent);
    var secretCounts: map<char, int> := map c | c in secret :: Occ(secret, c);
    RowEnds(guess, secret, length);

    // First pass: mark correct positions
    for i := 0 to length
      invariant feedback == Row(guess, secret, length, i, 0)
      invariant secretCounts == Counter(guess, secret, length, i, 0)
    {
      Pass1Step(guess, secret, length, i, feedback, secretCounts);
      if guess[i] == secret[i] {
        feedback := feedback[i := Correct];
        secretCounts := secretCounts[guess[i] := secretCounts[guess[i]] - 1];
      }
    }

    // Second pass: mark present letters
    for i := 0 to length
      invariant feedback == Row(guess, secret, length, length, i)
      invariant secretCounts == Counter(guess, secret, length, length, i)
    {
      Pass2Step(guess, secret, length, i, feedback, secretCounts);
      if feedback[i] != Correct && guess[i] in secretCounts {
        if secretCounts[guess[i]] > 0 {
          feedback := feedback[i := Present];
          secretCounts := secretCounts[guess[i] := secretCounts[guess[i]] - 1];
        }
      }
    }
  }

  // ---------------------------------------------------------------------
  // Candidate filter

  /** The candidates, in their order, whose feedback against `guess` is
      exactly `feedback`. */
  function Consistent(candidates: seq<string>, guess: string, feedback: Pattern): seq<string>
    requires forall w :: w in candidates ==> |w| <= |guess|
  {
    if candidates == [] then []
    else
      var rest := candidates[..|candidates| - 1];
      var word := candidates[|candidates| - 1];
      assert forall w :: w in rest ==> w in candidates;
      Consistent(rest, guess, feedback) + (if Feedback(guess, word) == feedback then [word] else [])
  }

  /** apply_feedback_to_candidates */
  method ApplyFeedbackToCandidates(candidates: seq<string>, guess: string, feedback: Pattern)
    returns (newCandidates: seq<string>)
    requires forall w :: w in candidates ==> |w| <= |guess|
    ensures newCandidates == Consistent(candidates, guess, feedback)
  {
    newCandidates := [];
    for i := 0 to |candidates|
      invariant newCandidates == Consistent(candidates[..i], guess, feedback)
    {
      var word := candidates[i];
      var testFeedback := GenerateFeedback(guess, word);
      if testFeedback == feedback {
        newCandidates := newCandidates + [word];
      }
      assert candidates[..i + 1][..i] == candidates[..i];
    }
    assert candidates[..|candidates|] == candidates;
  }

  /** The filter keeps each consistent word as many times as the pool
      lists it, and drops every other word. */
  lemma {:induction false} ConsistentCounts(candidates: seq<string>, guess: string, feedback: Pattern)
    requires forall w :: w in candidates ==> |w| <= |guess|
    ensures forall w :: |w| <= |guess| ==>
      multiset(Consistent(candidates, guess, feedback))[w]
      == if Feedback(guess, w) == feedback then multiset(candidates)[w] else 0
    decreases |candidates|
  {
    if candidates != [] {
      var rest := candidates[..|candidates| - 1];
      var word := candidates[|candidates| - 1];
      assert candidates == rest + [word];
      ConsistentCounts(rest, guess, feedback);
      var r0 := Consistent(rest, guess, feedback);
      var r := Consistent(candidates, guess, feedback);
      if Feedback(guess, word) == feedback {
        assert r == r0 + [word];
      } else {
        assert r == r0;
      }
    }
  }

  /** Every survivor of the filter comes from the pool. */
  lemma {:induction false} ConsistentWithin(candidates: seq<string>, guess: string, feedback: Pattern)
    requires forall w :: w in candidates ==> |w| <= |guess|
    ensures forall w :: w in Consistent(candidates, guess, feedback) ==> w in candidates
    decreases |candidates|
  {
    if candidates != [] {
      var rest := candidates[..|candidates| - 1];
      assert forall w :: w in rest ==> w in candidates;
      ConsistentWithin(rest, guess, feedback);
    }
  }

  /** A word survives the filter exactly when it is in the pool and
      produces the observed feedback. */
  lemma ConsistentMembers(candidates: seq<string>, guess: string, feedback: Pattern)
    requires forall w :: w in candidates ==> |w| <= |guess|
    ensures forall w :: w in Consistent(candidates, guess, feedback)
                        <==> w in candidates && Feedback(guess, w) == feedback
  {
    ConsistentCounts(candidates, guess, feedback);
    var r := Consistent(candidates, guess, feedback);
    forall w ensures w in r <==> w in candidates && Feedback(guess, w) == feedback
    {
      if w in r {
        ConsistentOrder(candidates, guess, feedback);
        SubsequenceFacts(r, candidates);
        assert multiset(r)[w] > 0;
      }
      if w in candidates {
        assert multiset(candidates)[w] > 0;
      }
    }
  }

  /** The filter keeps the pool's order: its result is a subsequence. */
  lemma {:induction false} ConsistentOrder(candidates: seq<string>, guess: string, feedback: Pattern)
    requires forall w :: w in candidates ==> |w| <= |guess|
    ensures IsSubsequence(Consistent(candidates, guess, feedback), candidates)
    decreases |candidates|
  {
    if candidates != [] {
      var rest := candidates[..|candidates| - 1];
      var word := candidates[|candidates| - 1];
      assert candidates == rest + [word];
      ConsistentOrder(rest, guess, feedback);
      var r0 := Consistent(rest, guess, feedback);
      SubsequenceExtend(r0, rest, word);
      if Feedback(guess, word) == feedback {
        assert Consistent(candidates, guess, feedback) == r0 + [word];
      } else {
        assert Consistent(candidates, guess, feedback) == r0;
      }
    }
  }

  /** The filter never grows the pool. */
  lemma ConsistentShrinks(candidates: seq<string>, guess: string, feedback: Pattern)
    requires forall w :: w in candidates ==> |w| <= |guess|
    ensures |Consistent(candidates, guess, feedback)| <= |candidates|
  {
    ConsistentOrder(candidates, guess, feedback);
    SubsequenceFacts(Consistent(candidates, guess, feedback), candidates);
  }

  /** Filtering twice by the same observation gives the same pool as once. */
  lemma {:induction false} ConsistentIdempotent(candidates: seq<string>, guess: string, feedback: Pattern)
    requires forall w :: w in candidates ==> |w| <= |guess|
    ensures var once := Consistent(candidates, guess, feedback);
      (forall w :: w in once ==> |w| <= |guess|)
      && Consistent(once, guess, feedback) == once
    decreases |candidates|
  {
    ConsistentMembers(candidates, guess, feedback);
    if candidates != [] {
      var rest := candidates[..|candidates| - 1];
      var word := candidates[|candidates| - 1];
      ConsistentMembers(rest, guess, feedback);
      ConsistentIdempotent(rest, guess, feedback);
      var r0 := Consistent(rest, guess, feedback);
      var once := Consistent(candidates, guess, feedback);
      if Feedback(guess, word) == feedback {
        assert once == r0 + [word];
        assert once[..|once| - 1] == r0 && once[|once| - 1] == word;
        assert Consistent(once, guess, feedback) == Consistent(r0, guess, feedback) + [word];
      } else {
        assert once == r0;
      }
    }
  }

  /** The true secret survives filtering by the feedback it produced. */
  lemma SecretRetained(candidates: seq<string>, guess: string, secret: string)
    requires forall w :: w in candidates ==> |w| <= |guess|
    requires |secret| <= |guess|
    ensures secret in candidates ==> secret in Consistent(candidates, guess, Feedback(guess, secret))
  {
    ConsistentMembers(candidates, guess, Feedback(guess, secret));
  }

  // ---------------------------------------------------------------------
  // Partition of the pool by feedback pattern

  /** pattern_counts: how many candidates produce each feedback pattern
      against `guess`, built by one pass over the pool. */
  function Buckets(guess: string, candidates: seq<string>): map<Pattern, nat>
    requires forall w :: w in candidates ==> |w| <= |guess|
  {
    if candidates == [] then map[]
    else
      var rest := candidates[..|candidates| - 1];
      assert forall w :: w in rest ==> w in candidates;
      var counts := Buckets(guess, rest);
      var pattern := Feedback(guess, candidates[|candidates| - 1]);
      counts[pattern := (if pattern in counts then counts[pattern] else 0) + 1]
  }

  /** Each bucket holds as many candidates as would survive its pattern
      as feedback; a pattern without a bucket would leave none. */
  lemma {:induction false} BucketSizes(guess: string, candidates: seq<string>)
    requires forall w :: w in candidates ==> |w| <= |guess|
    ensures var counts := Buckets(guess, candidates);
      forall q :: (if q in counts then counts[q] else 0) == |Consistent(candidates, guess, q)|
    decreases |candidates|
  {
    if candidates != [] {
      var rest := candidates[..|candidates| - 1];
      assert forall w :: w in rest ==> w in candidates;
      BucketSizes(guess, rest);
    }
  }

  /** The buckets partition the pool: a pattern has a bucket exactly when
      some candidate produces it, and its size is the number of candidates
      that would survive that feedback, at least one. */
  lemma BucketsPartition(guess: string, candidates: seq<string>)
    requires forall w :: w in candidates ==> |w| <= |guess|
    ensures var counts := Buckets(guess, candidates);
      && (forall q :: q in counts <==> exists w :: w in candidates && Feedback(guess, w) == q)
      && (forall q :: q in counts ==> counts[q] == |Consistent(candidates, guess, q)| >= 1)
  {
    var counts := Buckets(guess, candidates);
    BucketSizes(guess, candidates);
    forall q
      ensures q in counts <==> exists w :: w in candidates && Feedback(guess, w) == q
      ensures q in counts ==> counts[q] >= 1
    {
      ConsistentMembers(candidates, guess, q);
      var r := Consistent(candidates, guess, q);
      if q in counts {
        assert |r| >= 1 by {
          if |r| == 0 {
            // the bucket exists only once some candidate produced q
            BucketHasWitness(guess, candidates, q);
          }
        }
        assert r[0] in r;
      }
      if w :| w in candidates && Feedback(guess, w) == q {
        assert w in r;
      }
    }
  }

  /** A bucket exists only for a pattern some candidate produced. */
  lemma {:induction false} BucketHasWitness(guess: string, candidates: seq<string>, q: Pattern)
    requires forall w :: w in candidates ==> |w| <= |guess|
    requires q in Buckets(guess, candidates)
    ensures exists w :: w in candidates && Feedback(guess, w) == q
    decreases |candidates|
  {
    var rest := candidates[..|candidates| - 1];
    var word := candidates[|candidates| - 1];
    assert forall w :: w in rest ==> w in candidates;
    if Feedback(guess, word) != q {
      BucketHasWitness(guess, rest, q);
    }
  }

  /** The buckets never outnumber the candidates. */
  lemma {:induction false} BucketsBound(guess: string, candidates: seq<string>)
    requires forall w :: w in candidates ==> |w| <= |guess|
    ensures |Buckets(guess, candidates)| <= |candidates|
    decreases |candidates|
  {
    if candidates != [] {
      var rest := candidates[..|candidates| - 1];
      assert forall w :: w in rest ==> w in candidates;
      BucketsBound(guess, rest);
      var counts := Buckets(guess, rest);
      var pattern := Feedback(guess, candidates[|candidates| - 1]);
      assert Buckets(guess, candidates).Keys == counts.Keys + {pattern};
    }
  }

  /** Some key of a non-empty table. */
  ghost function Pick<K>(counts: map<K, nat>): (q: K)
    requires |counts| > 0
    ensures q in counts
  {
    var q :| q in counts; q
  }

  /** The sum of the counts of a table. */
  ghost function Total<K>(counts: map<K, nat>): nat
    decreases |counts|
  {
    if |counts| == 0 then 0
    else counts[Pick(counts)] + Total(counts - {Pick(counts)})
  }

  /** The sum can start from any key of the table. */
  lemma {:induction false} TotalRemove<K>(counts: map<K, nat>, q: K)
    requires q in counts
    ensures Total(counts) == counts[q] + Total(counts - {q})
    decreases |counts|
  {
    var p := Pick(counts);
    if p != q {
      TotalRemove(counts - {p}, q);
      TotalRemove(counts - {q}, p);
      assert counts - {p} - {q} == counts - {q} - {p};
    }
  }

  /** Setting one key's count changes the sum by the difference. */
  lemma TotalUpdate<K>(counts: map<K, nat>, q: K, v: nat)
    ensures Total(counts[q := v]) + (if q in counts then counts[q] else 0) == Total(counts) + v
  {
    TotalRemove(counts[q := v], q);
    assert counts[q := v] - {q} == counts - {q};
    if q in counts {
      TotalRemove(counts, q);
    } else {
      assert counts - {q} == counts;
    }
  }

  /** The counts add up to the number of candidates: every candidate lands
      in exactly one bucket. */
  lemma {:induction false} BucketsTotal(guess: string, candidates: seq<string>)
    requires forall w :: w in candidates ==> |w| <= |guess|
    ensures Total(Buckets(guess, candidates)) == |candidates|
    decreases |candidates|
  {
    if candidates != [] {
      var rest := candidates[..|candidates| - 1];
      assert forall w :: w in rest ==> w in candidates;
      BucketsTotal(guess, rest);
      var counts := Buckets(guess, rest);
      var pattern := Feedback(guess, candidates[|candidates| - 1]);
      TotalUpdate(counts, pattern, (if pattern in counts then counts[pattern] else 0) + 1);
    }
  }

  /** The information score of `guess` over the pool: zero for an empty
      pool, otherwise `entropy` applied to the pattern counts and the pool
      size. The floating-point formula -sum p*log2(p) is the parameter
      `entropy`. */
  function Entropy(entropy: (map<Pattern, nat>, nat) -> real, guess: string, candidates: seq<string>): real
    requires forall w :: w in candidates ==> |w| <= |guess|
  {
    if candidates == [] then 0.0 else entropy(Buckets(guess, candidates), |candidates|)
  }

  /** calculate_entropy: group the pool by pattern, then score the groups. */
  method CalculateEntropy(entropy: (map<Pattern, nat>, nat) -> real, guess: string, candidates: seq<string>)
    returns (score: real)
    requires forall w :: w in candidates ==> |w| <= |guess|
    ensures score == Entropy(entropy, guess, candidates)
  {
    if candidates == [] {
      return 0.0;
    }
    var patternCounts: map<Pattern, nat> := map[];
    for i := 0 to |candidates|
      invariant patternCounts == Buckets(guess, candidates[..i])
    {
      var feedback := GenerateFeedback(guess, candidates[i]);
      var count := if feedback in patternCounts then patternCounts[feedback] else 0;
      patternCounts := patternCounts[feedback := count + 1];
      assert candidates[..i + 1][..i] == candidates[..i];
    }
    assert candidates[..|candidates|] == candidates;
    score := entropy(patternCounts, |candidates|);
  }

  // ---------------------------------------------------------------------
  // Guess selection

  /** Opener words added to the search when the pool is large, by word
      length; lengths outside the table have none. */
  function CommonStarters(length: nat): Option<seq<string>>
  {
    if length == 3 then Some(["are", "ate", "ear"])
    else if length == 4 then Some(["tear", "rate", "late"])
    else if length == 5 then Some(["arose", "slate", "crane"])
    else if length == 6 then Some(["strain", "trains", "grains"])
    else if length == 7 then Some(["stainer", "trained", "detains"])
    else None
  }

  /** Every opener has the length it is listed under. */
  lemma StarterLengths(length: nat)
    ensures CommonStarters(length).Some? ==> forall w :: w in CommonStarters(length).value ==> |w| == length
  {
  }

  /** The bonus added to the score of a word that may itself be the
      answer. */
  const CandidateBonus: real := 0.1

  /** Appending, in table order, each opener that is in the word list and
      not yet to be evaluated. */
  function WithOpeners(words: seq<string>, openers: seq<string>, allWords: seq<string>): seq<string>
  {
    if openers == [] then words
    else
      var before := WithOpeners(words, openers[..|openers| - 1], allWords);
      var word := openers[|openers| - 1];
      if word in allWords && word !in before then before + [word] else before
  }

  /** Openers only append, each at most once, and only words of the list
      that were not there yet; every opener of the list ends up in the
      result. */
  lemma {:induction false} WithOpenersSpec(words: seq<string>, openers: seq<string>, allWords: seq<string>)
    ensures var r := WithOpeners(words, openers, allWords);
      && |words| <= |r| <= |words| + |openers|
      && r[..|words|] == words
      && (forall j :: |words| <= j < |r| ==> r[j] in openers && r[j] in allWords && r[j] !in r[..j])
      && (forall w :: w in openers && w in allWords ==> w in r)
    decreases |openers|
  {
    if openers != [] {
      var rest := openers[..|openers| - 1];
      WithOpenersSpec(words, rest, allWords);
      var before := WithOpeners(words, rest, allWords);
      var r := WithOpeners(words, openers, allWords);
      assert openers == rest + [openers[|openers| - 1]];
      if r != before {
        assert r == before + [openers[|openers| - 1]];
        assert r[..|before|] == before;
        assert r[..|words|] == before[..|words|];
      }
    }
  }

  /** The appended openers keep the table's order. */
  lemma {:induction false} WithOpenersOrder(words: seq<string>, openers: seq<string>, allWords: seq<string>)
    ensures var r := WithOpeners(words, openers, allWords);
      |words| <= |r| && IsSubsequence(r[|words|..], openers)
    decreases |openers|
  {
    if openers == [] {
      assert WithOpeners(words, openers, allWords)[|words|..] == [];
    } else {
      var rest := openers[..|openers| - 1];
      var word := openers[|openers| - 1];
      WithOpenersOrder(words, rest, allWords);
      var before := WithOpeners(words, rest, allWords);
      var r := WithOpeners(words, openers, allWords);
      assert openers == rest + [word];
      SubsequenceExtend(before[|words|..], rest, word);
      if r != before {
        assert r[|words|..] == before[|words|..] + [word];
      }
    }
  }

  /** words_to_evaluate: the whole pool when it has at most ten words,
      otherwise its first twenty plus, for a pool over fifty, the openers
      of its word length; then cut to max_search words. */
  function EvaluationSet(candidates: seq<string>, allWords: seq<string>, maxSearch: nat): seq<string>
    requires |candidates| > 0
  {
    var base :=
      if |candidates| <= 10 then candidates
      else
        var first := if |candidates| < 20 then candidates else candidates[..20];
        if |candidates| > 50 && CommonStarters(|candidates[0]|).Some?
        then WithOpeners(first, CommonStarters(|candidates[0]|).value, allWords)
        else first;
    if |base| > maxSearch then base[..maxSearch] else base
  }

  /** At most max_search words are scored, each of them a candidate or
      one of the openers added for a large pool; the pool's own words come
      first, in pool order; a pool of at most ten words is scored whole up
      to the cut. */
  lemma EvaluationSetSpec(candidates: seq<string>, allWords: seq<string>, maxSearch: nat)
    requires |candidates| > 0
    ensures var e := EvaluationSet(candidates, allWords, maxSearch);
      && |e| <= maxSearch
      && (forall w :: w in e ==>
            w in candidates
            || (|candidates| > 50 && w in allWords && CommonStarters(|candidates[0]|).Some?
                && w in CommonStarters(|candidates[0]|).value))
      && (forall j :: 0 <= j < |e| && j < 20 && j < |candidates| ==> e[j] == candidates[j])
      && (|candidates| <= 10 ==> e == candidates[..if |candidates| <= maxSearch then |candidates| else maxSearch])
  {
    var e := EvaluationSet(candidates, allWords, maxSearch);
    if 10 < |candidates| {
      var first := if |candidates| < 20 then candidates else candidates[..20];
      if |candidates| > 50 && CommonStarters(|candidates[0]|).Some? {
        var openers := CommonStarters(|candidates[0]|).value;
        WithOpenersSpec(first, openers, allWords);
        var base := WithOpeners(first, openers, allWords);
        forall w | w in base
          ensures w in candidates || (w in allWords && w in openers)
        {
          var j :| 0 <= j < |base| && base[j] == w;
          if j < |first| {
            assert w == first[j];
          }
        }
        forall j | 0 <= j < |e| && j < 20 && j < |candidates|
          ensures e[j] == candidates[j]
        {
          assert e[j] == base[j] == base[..|first|][j];
        }
      }
    } else {
      assert candidates[..|candidates|] == candidates;
    }
  }

  /** The words actually scored: the pool's first twenty (all of a smaller
      pool) unless max_search cuts earlier, exactly those when no openers
      are added, and, for a pool over fifty with a listed length that the
      cut leaves whole, every opener of the word list as well. */
  lemma EvaluationSetScored(candidates: seq<string>, allWords: seq<string>, maxSearch: nat)
    requires |candidates| > 0
    ensures var e := EvaluationSet(candidates, allWords, maxSearch);
      var head := (if |candidates| < 20 then |candidates| else 20);
      var large := (|candidates| > 50 && CommonStarters(|candidates[0]|).Some?);
      && (|e| == maxSearch || head <= |e|)
      && (!large ==> |e| == if head <= maxSearch then head else maxSearch)
      && (large && |e| < maxSearch ==>
            forall w :: w in CommonStarters(|candidates[0]|).value && w in allWords ==> w in e)
  {
    if |candidates| > 50 && CommonStarters(|candidates[0]|).Some? {
      var first := candidates[..20];
      WithOpenersSpec(first, CommonStarters(|candidates[0]|).value, allWords);
    }
  }

  /** Every word scored has the pool's word length. */
  lemma EvaluationLengths(candidates: seq<string>, allWords: seq<string>, maxSearch: nat)
    requires |candidates| > 0
    requires forall w :: w in candidates ==> |w| == |candidates[0]|
    ensures forall w :: w in EvaluationSet(candidates, allWords, maxSearch) ==> |w| == |candidates[0]|
  {
    EvaluationSetSpec(candidates, allWords, maxSearch);
    StarterLengths(|candidates[0]|);
  }

  /** The score of a word: its entropy over the pool, plus the bonus when
      the word is itself a candidate. */
  function Score(entropy: (map<Pattern, nat>, nat) -> real, candidates: seq<string>, word: string): real
    requires forall w :: w in candidates ==> |w| <= |word|
  {
    Entropy(entropy, word, candidates) + (if word in candidates then CandidateBonus else 0.0)
  }

  /** Every word of `words` can score the pool. */
  ghost predicate Scorable(words: seq<string>, candidates: seq<string>)
  {
    forall w, x :: w in words && x in candidates ==> |x| <= |w|
  }

  /** The scores of `words` over the pool, in order. */
  function Scores(entropy: (map<Pattern, nat>, nat) -> real, words: seq<string>, candidates: seq<string>): (r: seq<real>)
    requires Scorable(words, candidates)
    ensures |r| == |words|
  {
    seq(|words|, j requires 0 <= j < |words| => Score(entropy, candidates, words[j]))
  }

  /** The scan over the words to evaluate: start from `fallback` with
      score -1.0 and move to a word only on a strictly higher score.
      Returns the chosen word and its score. */
  function Choose(words: seq<string>, scores: seq<real>, fallback: string): (string, real)
    requires |scores| == |words|
  {
    if words == [] then (fallback, -1.0)
    else
      var (best, bestScore) := Choose(words[..|words| - 1], scores[..|words| - 1], fallback);
      if scores[|words| - 1] > bestScore then (words[|words| - 1], scores[|words| - 1]) else (best, bestScore)
  }

  /** The scan picks the first word of highest score, unless no word
      scores above -1.0, in which case it keeps the fallback. */
  lemma {:induction false} ChooseIsFirstMaximum(words: seq<string>, scores: seq<real>, fallback: string)
    requires |scores| == |words|
    ensures var (best, bestScore) := Choose(words, scores, fallback);
      && (forall j :: 0 <= j < |words| ==> scores[j] <= bestScore)
      && ((best == fallback && bestScore == -1.0)
          || exists k :: 0 <= k < |words| && words[k] == best && bestScore == scores[k] > -1.0
                 && forall j :: 0 <= j < k ==> scores[j] < bestScore)
    decreases |words|
  {
    if words != [] {
      var n := |words| - 1;
      ChooseIsFirstMaximum(words[..n], scores[..n], fallback);
      var (best0, score0) := Choose(words[..n], scores[..n], fallback);
      assert forall j :: 0 <= j < n ==> scores[..n][j] == scores[j];
      if scores[n] <= score0 && (best0 != fallback || score0 != -1.0) {
        var k :| 0 <= k < n && words[..n][k] == best0 && score0 == scores[..n][k] > -1.0
                 && forall j :: 0 <= j < k ==> scores[..n][j] < score0;
        assert words[k] == best0;
      }
    }
  }

  /** get_optimal_guess as a function of its inputs. */
  function OptimalGuess(entropy: (map<Pattern, nat>, nat) -> real, candidates: seq<string>, allWords: seq<string>, maxSearch: nat): string
    requires |candidates| > 0
    requires forall w :: w in candidates ==> |w| == |candidates[0]|
  {
    if |candidates| <= 2 then candidates[0]
    else
      var words := EvaluationSet(candidates, allWords, maxSearch);
      EvaluationLengths(candidates, allWords, maxSearch);
      Choose(words, Scores(entropy, words, candidates), candidates[0]).0
  }

  /** The chosen guess is a candidate, or a word of the list added as an
      opener for a pool of more than fifty words; with one or two
      candidates it is the first. */
  lemma OptimalGuessSpec(entropy: (map<Pattern, nat>, nat) -> real, candidates: seq<string>, allWords: seq<string>, maxSearch: nat)
    requires |candidates| > 0
    requires forall w :: w in candidates ==> |w| == |candidates[0]|
    ensures var g := OptimalGuess(entropy, candidates, allWords, maxSearch);
      && |g| == |candidates[0]|
      && (g in candidates || (|candidates| > 50 && g in allWords))
      && (|candidates| <= 2 ==> g == candidates[0])
  {
    if |candidates| > 2 {
      var g := OptimalGuess(entropy, candidates, allWords, maxSearch);
      var e := EvaluationSet(candidates, allWords, maxSearch);
      EvaluationLengths(candidates, allWords, maxSearch);
      var scores := Scores(entropy, e, candidates);
      ChooseIsFirstMaximum(e, scores, candidates[0]);
      assert g == Choose(e, scores, candidates[0]).0;
      if g != candidates[0] {
        assert g in e;
        EvaluationSetSpec(candidates, allWords, maxSearch);
      }
    }
  }

  /** The words get_optimal_guess scores: its first three steps. */
  method WordsToEvaluate(candidates: seq<string>, allWords: seq<string>, maxSearch: nat)
    returns (wordsToEvaluate: seq<string>)
    requires |candidates| > 0
    ensures wordsToEvaluate == EvaluationSet(candidates, allWords, maxSearch)
  {
    if |candidates| <= 10 {
      wordsToEvaluate := candidates;
    } else {
      wordsToEvaluate := if |candidates| < 20 then candidates else candidates[..20];
      if |candidates| > 50 {
        var length := |candidates[0]|;
        if CommonStarters(length).Some? {
          var openers := CommonStarters(length).value;
          ghost var first := wordsToEvaluate;
          for k := 0 to |openers|
            invariant wordsToEvaluate == WithOpeners(first, openers[..k], allWords)
          {
            var word := openers[k];
            if word in allWords && word !in wordsToEvaluate {
              wordsToEvaluate := wordsToEvaluate + [word];
            }
            assert openers[..k + 1][..k] == openers[..k];
          }
          assert openers[..|openers|] == openers;
        }
      }
    }
    if |wordsToEvaluate| > maxSearch {
      wordsToEvaluate := wordsToEvaluate[..maxSearch];
    }
  }

  /** get_optimal_guess */
  method GetOptimalGuess(entropy: (map<Pattern, nat>, nat) -> real, candidates: seq<string>, allWords: seq<string>, maxSearch: nat)
    returns (bestWord: string)
    requires |candidates| > 0
    requires forall w :: w in candidates ==> |w| == |candidates[0]|
    ensures bestWord == OptimalGuess(entropy, candidates, allWords, maxSearch)
  {
    if |candidates| == 1 {
      return candidates[0];
    }
    if |candidates| == 2 {
      return candidates[0];
    }
    var wordsToEvaluate := WordsToEvaluate(candidates, allWords, maxSearch);
    EvaluationLengths(candidates, allWords, maxSearch);
    bestWord := BestScoring(entropy, wordsToEvaluate, candidates);
  }

  /** The scoring loop of get_optimal_guess: the first word of highest
      score, or the first candidate when no word scores above -1.0. */
  method BestScoring(entropy: (map<Pattern, nat>, nat) -> real, wordsToEvaluate: seq<string>, candidates: seq<string>)
    returns (bestWord: string)
    requires |candidates| > 0 && Scorable(wordsToEvaluate, candidates)
    ensures bestWord == Choose(wordsToEvaluate, Scores(entropy, wordsToEvaluate, candidates), candidates[0]).0
  {
    ghost var scores := Scores(entropy, wordsToEvaluate, candidates);
    bestWord := candidates[0];
    var bestScore := -1.0;
    for i := 0 to |wordsToEvaluate|
      invariant (bestWord, bestScore) == Choose(wordsToEvaluate[..i], scores[..i], candidates[0])
    {
      var word := wordsToEvaluate[i];
      var score := CalculateEntropy(entropy, word, candidates);
      var isCandidate := word in candidates;
      score := score + (if isCandidate then CandidateBonus else 0.0);
      assert score == scores[i];
      assert wordsToEvaluate[..i + 1][..i] == wordsToEvaluate[..i];
      assert scores[..i + 1][..i] == scores[..i];
      if score > bestScore {
        bestScore := score;
        bestWord := word;
      }
    }
    assert wordsToEvaluate[..|wordsToEvaluate|] == wordsToEvaluate;
    assert scores[..|scores|] == scores;
  }

  // ---------------------------------------------------------------------
  // One game

  /** The record of one simulated game. */
  datatype Trajectory = Trajectory(secret: string, guesses: seq<string>, feedbacks: seq<Pattern>,
                                   won: bool, numGuesses: nat)

  /** The default bound on the number of words scored per guess. */
  const MaxSearch: nat := 30

  /** The pool left after filtering by each observation in turn. */
  function Survivors(pool: seq<string>, guesses: seq<string>, feedbacks: seq<Pattern>, length: nat): (r: seq<string>)
    requires |guesses| == |feedbacks|
    requires forall w :: w in pool ==> |w| == length
    requires forall g :: g in guesses ==> |g| == length
    ensures forall w :: w in r ==> w in pool
  {
    if guesses == [] then pool
    else
      var n := |guesses| - 1;
      assert forall g :: g in guesses[..n] ==> g in guesses;
      var before := Survivors(pool, guesses[..n], feedbacks[..n], length);
      ConsistentWithin(before, guesses[n], feedbacks[n]);
      Consistent(before, guesses[n], feedbacks[n])
  }

  /** Successive filtering keeps the pool's order: the survivors are an
      in-order subsequence of the pool. */
  lemma {:induction false} SurvivorsOrder(pool: seq<string>, guesses: seq<string>, feedbacks: seq<Pattern>, length: nat)
    requires |guesses| == |feedbacks|
    requires forall w :: w in pool ==> |w| == length
    requires forall g :: g in guesses ==> |g| == length
    ensures IsSubsequence(Survivors(pool, guesses, feedbacks, length), pool)
    decreases |guesses|
  {
    if guesses == [] {
      SubsequenceRefl(pool);
    } else {
      var n := |guesses| - 1;
      assert forall g :: g in guesses[..n] ==> g in guesses;
      var before := Survivors(pool, guesses[..n], feedbacks[..n], length);
      SurvivorsOrder(pool, guesses[..n], feedbacks[..n], length);
      ConsistentOrder(before, guesses[n], feedbacks[n]);
      SubsequenceTrans(Consistent(before, guesses[n], feedbacks[n]), before, pool);
    }
  }

  /** Every guess of the history gives `word` the feedback that was
      observed. */
  ghost predicate Agrees(word: string, guesses: seq<string>, feedbacks: seq<Pattern>)
    requires |guesses| == |feedbacks|
    requires forall g :: g in guesses ==> |word| <= |g|
  {
    if guesses == [] then true
    else
      var n := |guesses| - 1;
      assert forall g :: g in guesses[..n] ==> g in guesses;
      Agrees(word, guesses[..n], feedbacks[..n]) && Feedback(guesses[n], word) == feedbacks[n]
  }

  lemma {:induction false} AgreesIff(word: string, guesses: seq<string>, feedbacks: seq<Pattern>)
    requires |guesses| == |feedbacks|
    requires forall g :: g in guesses ==> |word| <= |g|
    ensures Agrees(word, guesses, feedbacks)
            <==> forall i :: 0 <= i < |guesses| ==> Feedback(guesses[i], word) == feedbacks[i]
    decreases |guesses|
  {
    if guesses != [] {
      var n := |guesses| - 1;
      assert forall g :: g in guesses[..n] ==> g in guesses;
      AgreesIff(word, guesses[..n], feedbacks[..n]);
      assert forall i :: 0 <= i < n ==> guesses[..n][i] == guesses[i] && feedbacks[..n][i] == feedbacks[i];
    }
  }

  lemma {:induction false} SurvivorsAgree(pool: seq<string>, guesses: seq<string>, feedbacks: seq<Pattern>, length: nat)
    requires |guesses| == |feedbacks|
    requires forall w :: w in pool ==> |w| == length
    requires forall g :: g in guesses ==> |g| == length
    ensures forall w :: w in Survivors(pool, guesses, feedbacks, length) <==> w in pool && Agrees(w, guesses, feedbacks)
    decreases |guesses|
  {
    if guesses != [] {
      var n := |guesses| - 1;
      assert forall g :: g in guesses[..n] ==> g in guesses;
      SurvivorsAgree(pool, guesses[..n], feedbacks[..n], length);
      ConsistentMembers(Survivors(pool, guesses[..n], feedbacks[..n], length), guesses[n], feedbacks[n]);
    }
  }

  /** A word survives the whole history exactly when it is in the pool and
      every guess of the history gives it the feedback that was observed. */
  lemma SurvivorsSpec(pool: seq<string>, guesses: seq<string>, feedbacks: seq<Pattern>, length: nat)
    requires |guesses| == |feedbacks|
    requires forall w :: w in pool ==> |w| == length
    requires forall g :: g in guesses ==> |g| == length
    ensures forall w :: w in Survivors(pool, guesses, feedbacks, length) <==>
      w in pool && forall i :: 0 <= i < |guesses| ==> Feedback(guesses[i], w) == feedbacks[i]
  {
    SurvivorsAgree(pool, guesses, feedbacks, length);
    forall w | w in pool
      ensures Agrees(w, guesses, feedbacks)
              <==> forall i :: 0 <= i < |guesses| ==> Feedback(guesses[i], w) == feedbacks[i]
    {
      AgreesIff(w, guesses, feedbacks);
    }
  }

  /** A guess policy: from every non-empty pool drawn from the word list
      it picks a word of the list. */
  ghost predicate PolicyValid(policy: seq<string> --> string, allWords: seq<string>)
  {
    forall c {:trigger policy.requires(c)} {:trigger policy(c)} :: 0 < |c| && (forall w :: w in c ==> w in allWords) ==> policy.requires(c) && policy(c) in allWords
  }

  /** get_optimal_guess, with the default search bound, as a policy. */
  ghost function OptimalPolicy(entropy: (map<Pattern, nat>, nat) -> real, allWords: seq<string>): seq<string> --> string
  {
    c requires 0 < |c| && (forall w :: w in c ==> |w| == |c[0]|) => OptimalGuess(entropy, c, allWords, MaxSearch)
  }

  /** Over a word list of one length, get_optimal_guess always returns a
      word of the list. */
  lemma OptimalPolicyValid(entropy: (map<Pattern, nat>, nat) -> real, allWords: seq<string>, length: nat)
    requires forall w :: w in allWords ==> |w| == length
    ensures PolicyValid(OptimalPolicy(entropy, allWords), allWords)
  {
    var policy := OptimalPolicy(entropy, allWords);
    forall c | 0 < |c| && (forall w :: w in c ==> w in allWords)
      ensures policy.requires(c) && policy(c) in allWords
    {
      assert c[0] in c;
      OptimalGuessSpec(entropy, c, allWords, MaxSearch);
    }
  }

  /** The rest of a game from a given state: the pool still possible, the
      history so far and the number of guesses still allowed. Each turn
      the policy picks from the pool, the feedback against the secret is
      recorded, and the game ends on a hit, on an empty pool or when no
      guess remains. What the game records is stated by the lemmas that
      follow. */
  ghost function Run(policy: seq<string> --> string, secret: string, allWords: seq<string>,
                     candidates: seq<string>, guesses: seq<string>, feedbacks: seq<Pattern>, remaining: nat): Trajectory
    requires |guesses| == |feedbacks|
    requires forall w {:trigger w in allWords} :: w in allWords ==> |w| == |secret|
    requires PolicyValid(policy, allWords)
    requires forall w :: w in candidates ==> w in allWords
    requires remaining > 0 ==> |candidates| > 0
    decreases remaining
  {
    if remaining == 0 then Trajectory(secret, guesses, feedbacks, false, |guesses|)
    else
      var guess := policy(candidates);
      var feedback := Feedback(guess, secret);
      if guess == secret then Trajectory(secret, guesses + [guess], feedbacks + [feedback], true, |guesses| + 1)
      else
        ConsistentWithin(candidates, guess, feedback);
        var next := Consistent(candidates, guess, feedback);
        if |next| == 0 then Trajectory(secret, guesses + [guess], feedbacks + [feedback], false, |guesses| + 1)
        else Run(policy, secret, allWords, next, guesses + [guess], feedbacks + [feedback], remaining - 1)
  }

  /** One turn of a game, given the guess the policy picks and its
      feedback. */
  lemma RunTurn(policy: seq<string> --> string, secret: string, allWords: seq<string>,
                candidates: seq<string>, guesses: seq<string>, feedbacks: seq<Pattern>, remaining: nat,
                guess: string, feedback: Pattern)
    requires |guesses| == |feedbacks|
    requires forall w {:trigger w in allWords} :: w in allWords ==> |w| == |secret|
    requires PolicyValid(policy, allWords)
    requires forall w :: w in candidates ==> w in allWords
    requires remaining > 0 && |candidates| > 0
    requires policy.requires(candidates) && guess == policy(candidates)
    requires |guess| == |secret| && feedback == Feedback(guess, secret)
    ensures var t := Run(policy, secret, allWords, candidates, guesses, feedbacks, remaining);
      guess == secret ==> t == Trajectory(secret, guesses + [guess], feedbacks + [feedback], true, |guesses| + 1)
    ensures var t := Run(policy, secret, allWords, candidates, guesses, feedbacks, remaining);
      guess != secret && |Consistent(candidates, guess, feedback)| == 0
      ==> t == Trajectory(secret, guesses + [guess], feedbacks + [feedback], false, |guesses| + 1)
    ensures var t := Run(policy, secret, allWords, candidates, guesses, feedbacks, remaining);
      var next := Consistent(candidates, guess, feedback);
      guess != secret && |next| > 0
      ==> (forall w :: w in next ==> w in allWords)
          && t == Run(policy, secret, allWords, next, guesses + [guess], feedbacks + [feedback], remaining - 1)
  {
    ConsistentWithin(candidates, guess, feedback);
  }

  /** The rest of a game keeps the history it starts from and adds at most
      `remaining` turns, at least one when any remain. */
  lemma {:induction false} RunHistory(policy: seq<string> --> string, secret: string, allWords: seq<string>,
                                      candidates: seq<string>, guesses: seq<string>, feedbacks: seq<Pattern>, remaining: nat)
    requires |guesses| == |feedbacks|
    requires forall w {:trigger w in allWords} :: w in allWords ==> |w| == |secret|
    requires PolicyValid(policy, allWords)
    requires forall w :: w in candidates ==> w in allWords
    requires remaining > 0 ==> |candidates| > 0
    ensures var t := Run(policy, secret, allWords, candidates, guesses, feedbacks, remaining);
      && t.secret == secret
      && |t.guesses| == |t.feedbacks| == t.numGuesses
      && |guesses| <= t.numGuesses <= |guesses| + remaining
      && (remaining > 0 ==> |guesses| < t.numGuesses)
      && t.guesses[..|guesses|] == guesses && t.feedbacks[..|guesses|] == feedbacks
    decreases remaining
  {
    if remaining > 0 {
      var guess := policy(candidates);
      var feedback := Feedback(guess, secret);
      var gs, fs := guesses + [guess], feedbacks + [feedback];
      assert guess in allWords;
      RunTurn(policy, secret, allWords, candidates, guesses, feedbacks, remaining, guess, feedback);
      if guess != secret {
        var next := Consistent(candidates, guess, feedback);
        if |next| > 0 {
          RunHistory(policy, secret, allWords, next, gs, fs, remaining - 1);
          var t := Run(policy, secret, allWords, next, gs, fs, remaining - 1);
          assert t.guesses[..|guesses|] == t.guesses[..|gs|][..|guesses|];
          assert t.feedbacks[..|guesses|] == t.feedbacks[..|fs|][..|guesses|];
        }
      }
    }
  }

  /** A game is won exactly when its last guess is the secret, and no
      earlier new guess is the secret. */
  lemma {:induction false} RunEnds(policy: seq<string> --> string, secret: string, allWords: seq<string>,
                                   candidates: seq<string>, guesses: seq<string>, feedbacks: seq<Pattern>, remaining: nat)
    requires |guesses| == |feedbacks|
    requires forall w {:trigger w in allWords} :: w in allWords ==> |w| == |secret|
    requires PolicyValid(policy, allWords)
    requires forall w :: w in candidates ==> w in allWords
    requires remaining > 0 ==> |candidates| > 0
    ensures var t := Run(policy, secret, allWords, candidates, guesses, feedbacks, remaining);
      && |t.guesses| == t.numGuesses
      && (t.won ==> |guesses| < t.numGuesses)
      && (forall i :: |guesses| <= i < t.numGuesses ==>
            (t.guesses[i] == secret <==> t.won && i == t.numGuesses - 1))
    decreases remaining
  {
    if remaining > 0 {
      var guess := policy(candidates);
      var feedback := Feedback(guess, secret);
      var gs, fs := guesses + [guess], feedbacks + [feedback];
      assert guess in allWords;
      RunTurn(policy, secret, allWords, candidates, guesses, feedbacks, remaining, guess, feedback);
      if guess != secret {
        var next := Consistent(candidates, guess, feedback);
        if |next| > 0 {
          RunEnds(policy, secret, allWords, next, gs, fs, remaining - 1);
          RunHistory(policy, secret, allWords, next, gs, fs, remaining - 1);
          var t := Run(policy, secret, allWords, next, gs, fs, remaining - 1);
          assert t.guesses[|guesses|] == t.guesses[..|gs|][|guesses|];
        }
      }
    }
  }

  /** With the secret in the pool the pool never runs dry: a game that is
      not won uses every remaining turn. */
  lemma {:induction false} RunFull(policy: seq<string> --> string, secret: string, allWords: seq<string>,
                                   candidates: seq<string>, guesses: seq<string>, feedbacks: seq<Pattern>, remaining: nat)
    requires |guesses| == |feedbacks|
    requires forall w {:trigger w in allWords} :: w in allWords ==> |w| == |secret|
    requires PolicyValid(policy, allWords)
    requires forall w :: w in candidates ==> w in allWords
    requires remaining > 0 ==> |candidates| > 0
    ensures var t := Run(policy, secret, allWords, candidates, guesses, feedbacks, remaining);
      secret in candidates ==> t.won || t.numGuesses == |guesses| + remaining
    decreases remaining
  {
    if remaining > 0 {
      var guess := policy(candidates);
      var feedback := Feedback(guess, secret);
      var gs, fs := guesses + [guess], feedbacks + [feedback];
      assert guess in allWords;
      RunTurn(policy, secret, allWords, candidates, guesses, feedbacks, remaining, guess, feedback);
      if guess != secret {
        SecretRetained(candidates, guess, secret);
        var next := Consistent(candidates, guess, feedback);
        if |next| > 0 {
          RunFull(policy, secret, allWords, next, gs, fs, remaining - 1);
        }
      }
    }
  }

  /** Every guess a game adds is a word of the list, recorded with its true
      feedback. */
  lemma {:induction false} RunRecords(policy: seq<string> --> string, secret: string, allWords: seq<string>,
                                      candidates: seq<string>, guesses: seq<string>, feedbacks: seq<Pattern>, remaining: nat)
    requires |guesses| == |feedbacks|
    requires forall w {:trigger w in allWords} :: w in allWords ==> |w| == |secret|
    requires PolicyValid(policy, allWords)
    requires forall w :: w in candidates ==> w in allWords
    requires remaining > 0 ==> |candidates| > 0
    ensures var t := Run(policy, secret, allWords, candidates, guesses, feedbacks, remaining);
      && |t.guesses| == |t.feedbacks|
      && forall i :: |guesses| <= i < |t.guesses| ==>
           t.guesses[i] in allWords && t.feedbacks[i] == Feedback(t.guesses[i], secret)
    decreases remaining
  {
    if remaining > 0 {
      var guess := policy(candidates);
      var feedback := Feedback(guess, secret);
      var gs, fs := guesses + [guess], feedbacks + [feedback];
      assert guess in allWords;
      RunTurn(policy, secret, allWords, candidates, guesses, feedbacks, remaining, guess, feedback);
      var next := Consistent(candidates, guess, feedback);
      if guess != secret && |next| > 0 {
        RunRecords(policy, secret, allWords, next, gs, fs, remaining - 1);
        RunHistory(policy, secret, allWords, next, gs, fs, remaining - 1);
        var t := Run(policy, secret, allWords, next, gs, fs, remaining - 1);
        assert t.guesses[..|gs|][|guesses|] == guess && t.feedbacks[..|gs|][|guesses|] == feedback;
      }
    }
  }

  /** The state play_optimal_game starts from. */
  lemma GameStart(entropy: (map<Pattern, nat>, nat) -> real, secret: string, allWords: seq<string>, maxGuesses: nat)
    requires forall w {:trigger w in allWords} :: w in allWords ==> |w| == |secret|
    requires maxGuesses > 0 ==> |allWords| > 0
    ensures PolicyValid(OptimalPolicy(entropy, allWords), allWords)
    ensures Game(entropy, secret, allWords, maxGuesses)
            == Run(OptimalPolicy(entropy, allWords), secret, allWords, allWords, [], [], maxGuesses)
  {
    OptimalPolicyValid(entropy, allWords, |secret|);
  }

  /** The game play_optimal_game plays. */
  ghost function Game(entropy: (map<Pattern, nat>, nat) -> real, secret: string, allWords: seq<string>, maxGuesses: nat): Trajectory
    requires forall w {:trigger w in allWords} :: w in allWords ==> |w| == |secret|
    requires maxGuesses > 0 ==> |allWords| > 0
  {
    OptimalPolicyValid(entropy, allWords, |secret|);
    Run(OptimalPolicy(entropy, allWords), secret, allWords, allWords, [], [], maxGuesses)
  }

  /** play_optimal_game makes at most max_guesses guesses, at least one
      when any is allowed, each a word of the list with its true feedback;
      the secret is guessed at most once, as the last guess, exactly when
      the game is won; and a secret from the word list is never filtered
      out, so a game that is not won uses every guess. */
  lemma GameProperties(entropy: (map<Pattern, nat>, nat) -> real, secret: string, allWords: seq<string>, maxGuesses: nat)
    requires forall w {:trigger w in allWords} :: w in allWords ==> |w| == |secret|
    requires maxGuesses > 0 ==> |allWords| > 0
    ensures var t := Game(entropy, secret, allWords, maxGuesses);
      && t.secret == secret
      && |t.guesses| == |t.feedbacks| == t.numGuesses <= maxGuesses
      && (maxGuesses > 0 ==> 1 <= t.numGuesses)
      && (t.won ==> 1 <= t.numGuesses)
      && (forall i :: 0 <= i < t.numGuesses ==>
            t.guesses[i] in allWords && t.feedbacks[i] == Feedback(t.guesses[i], secret))
      && (forall i :: 0 <= i < t.numGuesses ==> (t.guesses[i] == secret <==> t.won && i == t.numGuesses - 1))
      && (secret in allWords ==> t.won || t.numGuesses == maxGuesses)
  {
    GameStart(entropy, secret, allWords, maxGuesses);
    var policy := OptimalPolicy(entropy, allWords);
    RunHistory(policy, secret, allWords, allWords, [], [], maxGuesses);
    RunEnds(policy, secret, allWords, allWords, [], [], maxGuesses);
    RunFull(policy, secret, allWords, allWords, [], [], maxGuesses);
    RunRecords(policy, secret, allWords, allWords, [], [], maxGuesses);
  }

  /** The state of play_optimal_game between turns: the history so far,
      the pool, which is the word list filtered by every recorded
      (guess, feedback) pair, and the game they lead to. */
  ghost predicate Playing(game: Trajectory, policy: seq<string> --> string, secret: string, allWords: seq<string>,
                          candidates: seq<string>, guesses: seq<string>, feedbacks: seq<Pattern>, remaining: nat)
  {
    && |guesses| == |feedbacks|
    && (forall w {:trigger w in allWords} :: w in allWords ==> |w| == |secret|)
    && PolicyValid(policy, allWords)
    && (forall g :: g in guesses ==> |g| == |secret|)
    && candidates == Survivors(allWords, guesses, feedbacks, |secret|)
    && (forall w :: w in candidates ==> w in allWords)
    && (remaining > 0 ==> |candidates| > 0)
    && game == Run(policy, secret, allWords, candidates, guesses, feedbacks, remaining)
  }

  /** One turn of play_optimal_game: the policy's guess and its feedback
      against the secret. A hit ends the game as won; otherwise an empty
      filtered pool ends it as lost, and a non-empty one carries it on. */
  method PlayTurn(ghost game: Trajectory, ghost policy: seq<string> --> string,
                  entropy: (map<Pattern, nat>, nat) -> real, secret: string, allWords: seq<string>, candidates: seq<string>,
                  ghost guesses: seq<string>, ghost feedbacks: seq<Pattern>, ghost remaining: nat)
    returns (guess: string, feedback: Pattern)
    requires policy == OptimalPolicy(entropy, allWords) && remaining > 0
    requires Playing(game, policy, secret, allWords, candidates, guesses, feedbacks, remaining)
    ensures |guess| == |secret| && feedback == Feedback(guess, secret)
    ensures guess == secret ==> game == Trajectory(secret, guesses + [guess], feedbacks + [feedback], true, |guesses| + 1)
    ensures guess != secret && |Consistent(candidates, guess, feedback)| == 0
            ==> game == Trajectory(secret, guesses + [guess], feedbacks + [feedback], false, |guesses| + 1)
    ensures guess != secret && |Consistent(candidates, guess, feedback)| > 0
            ==> Playing(game, policy, secret, allWords, Consistent(candidates, guess, feedback),
                        guesses + [guess], feedbacks + [feedback], remaining - 1)
  {
    assert candidates[0] in candidates;
    guess := GetOptimalGuess(entropy, candidates, allWords, MaxSearch);
    assert |guess| == |secret| by {
      OptimalGuessSpec(entropy, candidates, allWords, MaxSearch);
    }
    feedback := GenerateFeedback(guess, secret);
    RunTurn(policy, secret, allWords, candidates, guesses, feedbacks, remaining, guess, feedback);
    ghost var gs, fs := guesses + [guess], feedbacks + [feedback];
    assert gs[..|guesses|] == guesses && fs[..|guesses|] == feedbacks;
    assert Survivors(allWords, gs, fs, |secret|) == Consistent(candidates, guess, feedback);
  }

  /** play_optimal_game: guess, observe, filter, until the secret is
      guessed, the pool runs dry or the guesses run out. */
  method PlayOptimalGame(entropy: (map<Pattern, nat>, nat) -> real, secret: string, allWords: seq<string>, maxGuesses: nat)
    returns (t: Trajectory)
    requires forall w {:trigger w in allWords} :: w in allWords ==> |w| == |secret|
    requires maxGuesses > 0 ==> |allWords| > 0
    ensures t == Game(entropy, secret, allWords, maxGuesses)
  {
    GameStart(entropy, secret, allWords, maxGuesses);
    ghost var policy := OptimalPolicy(entropy, allWords);
    ghost var game := Game(entropy, secret, allWords, maxGuesses);

    var candidates := allWords;
    var guesses: seq<string> := [];
    var feedbacks: seq<Pattern> := [];
    var won := false;
    ghost var remaining := maxGuesses;

    for guessNum := 0 to maxGuesses
      invariant |guesses| == guessNum && remaining == maxGuesses - guessNum && !won
      invariant Playing(game, policy, secret, allWords, candidates, guesses, feedbacks, remaining)
    {
      var guess, feedback := PlayTurn(game, policy, entropy, secret, allWords, candidates, guesses, feedbacks, remaining);
      guesses := guesses + [guess];
      feedbacks := feedbacks + [feedback];
      remaining := remaining - 1;

      if guess == secret {
        won := true;
        break;
      }

      candidates := ApplyFeedbackToCandidates(candidates, guess, feedback);
      if |candidates| == 0 {
        break;
      }
    }
    t := Trajectory(secret, guesses, feedbacks, won, |guesses|);
  }
}
