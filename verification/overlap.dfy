/**
  The reference meaning of `matching_skill_count`: the number of index pairs
  (i, j) at which a jobseeker's token i equals a job's token j. A token
  repeated on either side is counted once per occurrence, so the count is a
  product of multiplicities and not the size of a set intersection.
 */
module Overlap {

  /** The number of positions of `b` holding `t`. */
  function Occurrences(b: seq<string>, t: string): (n: nat)
    ensures n == multiset(b)[t]
    ensures n <= |b|
  {
    if |b| == 0 then 0
    else
      assert b == [b[0]] + b[1..];
      (if b[0] == t then 1 else 0) + Occurrences(b[1..], t)
  }

  /** The number of pairs (i, j) with `a[i] == b[j]`. */
  function MatchPairs(a: seq<string>, b: seq<string>): nat {
    if |a| == 0 then 0 else Occurrences(b, a[0]) + MatchPairs(a[1..], b)
  }

  /** The two token lists have a token in common. */
  predicate SharesToken(a: seq<string>, b: seq<string>) {
    exists i, j :: 0 <= i < |a| && 0 <= j < |b| && a[i] == b[j]
  }

  predicate NoDuplicates(a: seq<string>) {
    forall i, j :: 0 <= i < j < |a| ==> a[i] != a[j]
  }

  /** A pair is counted at least once exactly when the lists share a token. */
  lemma {:induction false} MatchPairsPositive(a: seq<string>, b: seq<string>)
    ensures MatchPairs(a, b) > 0 <==> SharesToken(a, b)
    decreases |a|
  {
    if |a| > 0 {
      MatchPairsPositive(a[1..], b);
      if SharesToken(a, b) {
        var i, j :| 0 <= i < |a| && 0 <= j < |b| && a[i] == b[j];
        if i == 0 {
          assert a[0] in b;
        } else {
          assert a[1..][i - 1] == b[j];
        }
      }
      if MatchPairs(a, b) > 0 {
        if Occurrences(b, a[0]) > 0 {
          var j :| 0 <= j < |b| && b[j] == a[0];
          assert a[0] == b[j];
        } else {
          var i, j :| 0 <= i < |a| - 1 && 0 <= j < |b| && a[1..][i] == b[j];
          assert a[i + 1] == b[j];
        }
      }
    }
  }

  /** Taking one token off the front of `b` takes its matches off the count. */
  lemma {:induction false} MatchPairsConsRight(a: seq<string>, y: string, b: seq<string>)
    ensures MatchPairs(a, [y] + b) == Occurrences(a, y) + MatchPairs(a, b)
    decreases |a|
  {
    if |a| > 0 {
      MatchPairsConsRight(a[1..], y, b);
      assert ([y] + b)[1..] == b;
    }
  }

  /** Counting pairs does not depend on which side is the jobseeker. */
  lemma {:induction false} MatchPairsSymmetric(a: seq<string>, b: seq<string>)
    ensures MatchPairs(a, b) == MatchPairs(b, a)
    decreases |b|
  {
    if |b| == 0 {
      MatchPairsEmptyRight(a);
    } else {
      assert b == [b[0]] + b[1..];
      MatchPairsConsRight(a, b[0], b[1..]);
      MatchPairsSymmetric(a, b[1..]);
    }
  }

  lemma {:induction false} MatchPairsEmptyRight(a: seq<string>)
    ensures MatchPairs(a, []) == 0
    decreases |a|
  {
    if |a| > 0 {
      MatchPairsEmptyRight(a[1..]);
    }
  }

  lemma {:induction false} OccurrencesAtMostOne(a: seq<string>, t: string)
    requires NoDuplicates(a)
    ensures Occurrences(a, t) <= 1
    decreases |a|
  {
    if |a| > 0 {
      OccurrencesAtMostOne(a[1..], t);
    }
  }

  lemma {:induction false} MatchPairsAtMostLength(b: seq<string>, a: seq<string>)
    requires NoDuplicates(a)
    ensures MatchPairs(b, a) <= |b|
    decreases |b|
  {
    if |b| > 0 {
      OccurrencesAtMostOne(a, b[0]);
      MatchPairsAtMostLength(b[1..], a);
    }
  }

  /** When the jobseeker lists no token twice, the count cannot exceed the
      number of the job's tokens, so the percentage is at most 100. */
  lemma MatchPairsBound(a: seq<string>, b: seq<string>)
    requires NoDuplicates(a)
    ensures MatchPairs(a, b) <= |b|
  {
    MatchPairsSymmetric(a, b);
    MatchPairsAtMostLength(b, a);
  }

  /** Without that condition the bound fails: "SQL, SQL" against "SQL" counts
      two matches for one required skill. */
  lemma DuplicatesInflateCount()
    ensures MatchPairs(["SQL", "SQL"], ["SQL"]) == 2 > |["SQL"]|
  {
    assert ["SQL", "SQL"][1..] == ["SQL"];
  }
}
