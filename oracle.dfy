/**
 * The duplicate-aware, two-pass tile feedback that both trajectory
 * generators compute, as a specification, and what it guarantees.
 *
 * Pass 1 marks Correct every scanned position where the guess and the
 * secret agree and takes that letter out of the secret's letter counter.
 * Pass 2 marks Present, left to right, every other scanned position whose
 * letter still has a positive count, and takes it out too; everything else
 * stays Absent. `n` is the number of positions the two loops scan: the
 * entropy generator scans len(secret), the heuristic generator len(guess).
 *
 * The counter is described letter by letter: once pass 1 is done and
 * pass 2 has scanned k positions, letter c has
 * Occ(secret, c) - MatchedCount(.., n, c) - PresentCount(.., k, c) copies left.
 */
module Oracle {
  import opened Common

  /** Occurrences of c in s. */
  function Occ(s: string, c: char): nat
  {
    if s == [] then 0
    else Occ(s[..|s| - 1], c) + (if s[|s| - 1] == c then 1 else 0)
  }

  /** Positions j < k where pass 1 marks letter c Correct. */
  function MatchedCount(guess: string, secret: string, k: nat, c: char): nat
    requires k <= |guess| && k <= |secret|
  {
    if k == 0 then 0
    else MatchedCount(guess, secret, k - 1, c)
         + (if guess[k - 1] == secret[k - 1] && guess[k - 1] == c then 1 else 0)
  }

  /** The tile of scanned position i: Correct on an exact match, else
      Present while the counter still holds a copy of the letter, else
      Absent. */
  function TileAt(guess: string, secret: string, n: nat, i: nat): Tile
    requires i < n <= |guess| && n <= |secret|
    decreases i, 1
  {
    var c := guess[i];
    if c == secret[i] then Correct
    else if MatchedCount(guess, secret, n, c) + PresentCount(guess, secret, n, i, c) < Occ(secret, c)
    then Present
    else Absent
  }

  /** Positions j < k that pass 2 marks Present with letter c. */
  function PresentCount(guess: string, secret: string, n: nat, k: nat, c: char): nat
    requires k <= n <= |guess| && n <= |secret|
    decreases k, 0
  {
    if k == 0 then 0
    else PresentCount(guess, secret, n, k - 1, c)
         + (if guess[k - 1] == c && TileAt(guess, secret, n, k - 1) == Present then 1 else 0)
  }

  /** The feedback row when the loops scan the first n positions; the
      row has one tile per letter of the secret. */
  function TwoPass(guess: string, secret: string, n: nat): Pattern
    requires n <= |guess| && n <= |secret|
  {
    seq(|secret|, i requires 0 <= i < |secret| => if i < n then TileAt(guess, secret, n, i) else Absent)
  }

  /** generate_feedback of the entropy generator: it scans len(secret). */
  function Feedback(guess: string, secret: string): Pattern
    requires |secret| <= |guess|
  {
    TwoPass(guess, secret, |secret|)
  }

  /** generate_feedback of the heuristic generator: it scans len(guess). */
  function QuickFeedback(guess: string, secret: string): Pattern
    requires |guess| <= |secret|
  {
    TwoPass(guess, secret, |guess|)
  }

  /** Number of positions i < |tiles| holding letter c and tile t. */
  function TileCount(guess: string, tiles: seq<Tile>, c: char, t: Tile): nat
    requires |tiles| <= |guess|
  {
    if tiles == [] then 0
    else TileCount(guess, tiles[..|tiles| - 1], c, t)
         + (if guess[|tiles| - 1] == c && tiles[|tiles| - 1] == t then 1 else 0)
  }

  /** Tiles that credit letter c to the secret: Correct or Present. */
  function Hits(guess: string, tiles: seq<Tile>, c: char): nat
    requires |tiles| <= |guess|
  {
    TileCount(guess, tiles, c, Correct) + TileCount(guess, tiles, c, Present)
  }

  // ---------------------------------------------------------------------
  // Shape: length and the tile alphabet

  /** The row has one tile per letter of the secret, every tile is Correct,
      Present or Absent, a scanned tile is Correct exactly where guess and
      secret agree, and an unscanned tile is Absent. */
  lemma TwoPassShape(guess: string, secret: string, n: nat)
    requires n <= |guess| && n <= |secret|
    ensures var r := TwoPass(guess, secret, n);
      && |r| == |secret|
      && (forall i :: 0 <= i < |r| ==> r[i] in {Absent, Present, Correct})
      && (forall i :: 0 <= i < n ==> (r[i] == Correct <==> guess[i] == secret[i]))
      && (forall i :: n <= i < |r| ==> r[i] == Absent)
  {
  }

  // ---------------------------------------------------------------------
  // Letter multiplicity

  /** A letter occurs in s exactly when its count is positive. */
  lemma {:induction false} OccZero(s: string, c: char)
    ensures Occ(s, c) == 0 <==> c !in s
    decreases |s|
  {
    if s != [] {
      OccZero(s[..|s| - 1], c);
      assert s == s[..|s| - 1] + [s[|s| - 1]];
    }
  }

  lemma {:induction false} OccPrefix(s: string, k: nat, c: char)
    requires k <= |s|
    ensures Occ(s[..k], c) <= Occ(s, c)
    decreases |s|
  {
    if k < |s| {
      OccPrefix(s[..|s| - 1], k, c);
      assert s[..|s| - 1][..k] == s[..k];
    } else {
      assert s[..k] == s;
    }
  }

  lemma {:induction false} MatchedWithin(guess: string, secret: string, k: nat, c: char)
    requires k <= |guess| && k <= |secret|
    ensures MatchedCount(guess, secret, k, c) <= Occ(secret[..k], c)
  {
    if k > 0 {
      MatchedWithin(guess, secret, k - 1, c);
      assert secret[..k][..k - 1] == secret[..k - 1];
    }
  }

  /** Pass 1 never takes a letter out of the counter more often than the
      secret holds it: the counter never goes negative. */
  lemma MatchedWithinSecret(guess: string, secret: string, k: nat, c: char)
    requires k <= |guess| && k <= |secret|
    ensures MatchedCount(guess, secret, k, c) <= Occ(secret, c)
  {
    MatchedWithin(guess, secret, k, c);
    OccPrefix(secret, k, c);
  }

  /** Pass 2 never takes a letter out of the counter more often than
      pass 1 left it. */
  lemma {:induction false} CounterNonNegative(guess: string, secret: string, n: nat, k: nat, c: char)
    requires k <= n <= |guess| && n <= |secret|
    ensures MatchedCount(guess, secret, n, c) + PresentCount(guess, secret, n, k, c) <= Occ(secret, c)
  {
    if k == 0 {
      MatchedWithinSecret(guess, secret, n, c);
    } else {
      CounterNonNegative(guess, secret, n, k - 1, c);
    }
  }

  lemma {:induction false} CountsOfRow(guess: string, secret: string, n: nat, k: nat, c: char)
    requires k <= n <= |guess| && n <= |secret|
    ensures TileCount(guess, TwoPass(guess, secret, n)[..k], c, Correct) == MatchedCount(guess, secret, k, c)
    ensures TileCount(guess, TwoPass(guess, secret, n)[..k], c, Present) == PresentCount(guess, secret, n, k, c)
  {
    if k > 0 {
      CountsOfRow(guess, secret, n, k - 1, c);
      var row := TwoPass(guess, secret, n);
      assert row[..k][..k - 1] == row[..k - 1];
    }
  }

  lemma {:induction false} PresentCountGrows(guess: string, secret: string, n: nat, i: nat, k: nat, c: char)
    requires i <= k <= n <= |guess| && n <= |secret|
    ensures PresentCount(guess, secret, n, i, c) <= PresentCount(guess, secret, n, k, c)
  {
    if i < k {
      PresentCountGrows(guess, secret, n, i, k - 1, c);
    }
  }

  /** For every letter, the Correct and Present tiles together never
      outnumber its occurrences in the secret; and a scanned Absent tile
      means the secret holds no further copy of its letter: its
      occurrences are all credited to other tiles. */
  lemma LetterBound(guess: string, secret: string, n: nat, c: char)
    requires n <= |guess| && n <= |secret|
    ensures Hits(guess, TwoPass(guess, secret, n)[..n], c) <= Occ(secret, c)
    ensures (exists i :: 0 <= i < n && guess[i] == c && TwoPass(guess, secret, n)[i] == Absent)
            ==> Hits(guess, TwoPass(guess, secret, n)[..n], c) == Occ(secret, c)
  {
    CountsOfRow(guess, secret, n, n, c);
    CounterNonNegative(guess, secret, n, n, c);
    if i :| 0 <= i < n && guess[i] == c && TwoPass(guess, secret, n)[i] == Absent {
      assert TileAt(guess, secret, n, i) == Absent;
      PresentCountGrows(guess, secret, n, i, n, c);
    }
  }

  // ---------------------------------------------------------------------
  // The row and the letter counter as the two loops hold them

  /** The counter, keyed by the letters of the secret, once pass 1 has
      scanned m positions and pass 2 has scanned k of the n positions. */
  function Counter(guess: string, secret: string, n: nat, m: nat, k: nat): map<char, int>
    requires m <= n && k <= n <= |guess| && n <= |secret|
  {
    map c | c in secret :: Occ(secret, c) - MatchedCount(guess, secret, m, c) - PresentCount(guess, secret, n, k, c)
  }

  /** The row once pass 1 has scanned m positions and pass 2 has scanned
      k of the n positions. */
  function Row(guess: string, secret: string, n: nat, m: nat, k: nat): Pattern
    requires m <= n && k <= n <= |guess| && n <= |secret|
  {
    seq(|secret|, j requires 0 <= j < |secret| =>
      if j < k then TileAt(guess, secret, n, j)
      else if j < m && guess[j] == secret[j] then Correct
      else Absent)
  }

  /** Before either pass the row is all Absent and the counter holds every
      letter of the secret as often as it occurs; after both passes the
      row is the feedback row. */
  lemma RowEnds(guess: string, secret: string, n: nat)
    requires n <= |guess| && n <= |secret|
    ensures Row(guess, secret, n, 0, 0) == seq(|secret|, _ => Absent)
    ensures Counter(guess, secret, n, 0, 0) == map c | c in secret :: Occ(secret, c)
    ensures Row(guess, secret, n, n, n) == TwoPass(guess, secret, n)
  {
  }

  /** One step of pass 1, from the row and counter held after i
      positions: an exact match is marked Correct and takes its letter out
      of the counter, which always holds that letter; any other position
      leaves row and counter alone. */
  lemma Pass1Step(guess: string, secret: string, n: nat, i: nat, row: Pattern, counts: map<char, int>)
    requires i < n <= |guess| && n <= |secret|
    requires row == Row(guess, secret, n, i, 0) && counts == Counter(guess, secret, n, i, 0)
    ensures guess[i] == secret[i] ==>
      && guess[i] in counts
      && Row(guess, secret, n, i + 1, 0) == row[i := Correct]
      && Counter(guess, secret, n, i + 1, 0) == counts[guess[i] := counts[guess[i]] - 1]
    ensures guess[i] != secret[i] ==>
      && Row(guess, secret, n, i + 1, 0) == row
      && Counter(guess, secret, n, i + 1, 0) == counts
  {
    var after := Counter(guess, secret, n, i + 1, 0);
    if guess[i] == secret[i] {
      assert guess[i] in counts;
      var expected := counts[guess[i] := counts[guess[i]] - 1];
      assert forall c :: c in after ==> after[c] == expected[c];
      assert after == expected;
    } else {
      assert forall c :: c in after ==> after[c] == counts[c];
      assert after == counts;
    }
  }

  /** One step of pass 2, from the row and counter held after i positions:
      position i becomes Present exactly when pass 1 left it unmarked and
      the counter still holds its letter, and then that letter is taken out
      of the counter; otherwise row and counter are left alone. */
  lemma Pass2Step(guess: string, secret: string, n: nat, i: nat, row: Pattern, counts: map<char, int>)
    requires i < n <= |guess| && n <= |secret|
    requires row == Row(guess, secret, n, n, i) && counts == Counter(guess, secret, n, n, i)
    ensures i < |row|
    ensures row[i] != Correct && guess[i] in counts && counts[guess[i]] > 0 ==>
      && Row(guess, secret, n, n, i + 1) == row[i := Present]
      && Counter(guess, secret, n, n, i + 1) == counts[guess[i] := counts[guess[i]] - 1]
    ensures !(row[i] != Correct && guess[i] in counts && counts[guess[i]] > 0) ==>
      && Row(guess, secret, n, n, i + 1) == row
      && Counter(guess, secret, n, n, i + 1) == counts
  {
    var after := Counter(guess, secret, n, n, i + 1);
    assert row[i] == (if guess[i] == secret[i] then Correct else Absent);
    if guess[i] !in secret {
      OccZero(secret, guess[i]);
    }
    assert Row(guess, secret, n, n, i + 1) == row[i := TileAt(guess, secret, n, i)];
    if TileAt(guess, secret, n, i) == Present {
      OccZero(secret, guess[i]);
      assert guess[i] in counts;
      var expected := counts[guess[i] := counts[guess[i]] - 1];
      assert forall c :: c in after ==> after[c] == expected[c];
      assert after == expected;
    } else {
      assert forall c :: c in after ==> after[c] == counts[c];
      assert after == counts;
    }
  }

  // ---------------------------------------------------------------------
  // Winning rows

  /** Guessing the secret itself gives the all-correct row. */
  lemma SelfFeedback(secret: string)
    ensures Feedback(secret, secret) == AllCorrect(|secret|)
    ensures QuickFeedback(secret, secret) == AllCorrect(|secret|)
  {
    TwoPassShape(secret, secret, |secret|);
  }

  /** For words of the same length the row is all correct exactly when the
      guess is the secret. */
  lemma AllCorrectIff(guess: string, secret: string)
    requires |guess| == |secret|
    ensures Feedback(guess, secret) == AllCorrect(|secret|) <==> guess == secret
  {
    TwoPassShape(guess, secret, |secret|);
    if Feedback(guess, secret) == AllCorrect(|secret|) {
      assert forall i :: 0 <= i < |secret| ==> guess[i] == secret[i];
    }
  }

  /** On words of equal length the two generators' oracles agree. */
  lemma OraclesAgree(guess: string, secret: string)
    requires |guess| == |secret|
    ensures Feedback(guess, secret) == QuickFeedback(guess, secret)
  {
  }
}
