/**
 * Shared vocabulary of the Wordle solver model: tiles, optional results,
 * in-order subsequences and the "first listed word that is available"
 * search used by every opener table.
 */
module Common {

  datatype Option<T> = None | Some(value: T)

  /** One tile of a feedback row. The two trajectory generators only ever
      produce Absent, Present and Correct; the state encoders read rows
      loaded from JSON, where any other state string may appear, and
      Unknown stands for every such string. */
  datatype Tile = Unknown | Absent | Present | Correct

  type Pattern = seq<Tile>

  /** The all-correct row of a game with words of length n. */
  function AllCorrect(n: nat): (r: Pattern)
    ensures |r| == n && forall i :: 0 <= i < n ==> r[i] == Correct
  {
    seq(n, _ => Correct)
  }

  /** a can be obtained from b by deleting elements, keeping the order. */
  ghost predicate IsSubsequence<T>(a: seq<T>, b: seq<T>)
    decreases |b|
  {
    if a == [] then true
    else if b == [] then false
    else (a[|a| - 1] == b[|b| - 1] && IsSubsequence(a[..|a| - 1], b[..|b| - 1]))
         || IsSubsequence(a, b[..|b| - 1])
  }

  lemma {:induction false} SubsequenceRefl<T>(a: seq<T>)
    ensures IsSubsequence(a, a)
    decreases |a|
  {
    if a != [] {
      SubsequenceRefl(a[..|a| - 1]);
    }
  }

  lemma {:induction false} SubsequenceFacts<T>(a: seq<T>, b: seq<T>)
    requires IsSubsequence(a, b)
    ensures |a| <= |b|
    ensures forall x :: x in a ==> x in b
    decreases |b|
  {
    if a != [] {
      assert b != [];
      var a', b' := a[..|a| - 1], b[..|b| - 1];
      if a[|a| - 1] == b[|b| - 1] && IsSubsequence(a', b') {
        SubsequenceFacts(a', b');
        assert a == a' + [a[|a| - 1]] && b == b' + [b[|b| - 1]];
      } else {
        SubsequenceFacts(a, b');
        assert b == b' + [b[|b| - 1]];
      }
    }
  }

  lemma {:induction false} SubsequenceTrans<T>(a: seq<T>, b: seq<T>, c: seq<T>)
    requires IsSubsequence(a, b) && IsSubsequence(b, c)
    ensures IsSubsequence(a, c)
    decreases |c|
  {
    if a != [] {
      SubsequenceFacts(a, b);
      SubsequenceFacts(b, c);
      var a', b', c' := a[..|a| - 1], b[..|b| - 1], c[..|c| - 1];
      if b[|b| - 1] == c[|c| - 1] && IsSubsequence(b', c') {
        if a[|a| - 1] == b[|b| - 1] && IsSubsequence(a', b') {
          SubsequenceTrans(a', b', c');
        } else {
          SubsequenceTrans(a, b', c');
        }
      } else {
        SubsequenceTrans(a, b, c');
      }
    }
  }

  /** Extending both sides by an element, or only the larger side, keeps
      the relation: the two steps of every filtering loop. */
  lemma SubsequenceExtend<T>(a: seq<T>, b: seq<T>, x: T)
    requires IsSubsequence(a, b)
    ensures IsSubsequence(a + [x], b + [x]) && IsSubsequence(a, b + [x])
  {
    assert (a + [x])[..|a|] == a && (b + [x])[..|b|] == b;
  }

  /** The first word of `listed`, in list order, that occurs in
      `available`: the early-return search over an opener table. */
  function FirstAvailable(listed: seq<string>, available: seq<string>): (r: Option<string>)
    ensures r.Some? ==> r.value in available
    ensures r.Some? ==> exists k :: 0 <= k < |listed| && listed[k] == r.value
                                  && forall j :: 0 <= j < k ==> listed[j] !in available
    ensures r.None? <==> forall w :: w in listed ==> w !in available
  {
    if listed == [] then None
    else if listed[0] in available then Some(listed[0])
    else
      var rest := FirstAvailable(listed[1..], available);
      assert forall w :: w in listed ==> w == listed[0] || w in listed[1..];
      rest
  }
}
