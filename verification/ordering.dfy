/**
  The order of the result table: `jobseeker_id` ascending, then
  `matching_skill_percent` descending, then `job_id` ascending.

  A percentage is kept as the exact ratio `Ratio(100 * count, num_skills)`
  and two ratios are compared by cross-multiplication, so the order is the
  order of the exact values. A zero denominator stands for a null
  percentage: a job whose skills cell is missing has a null `num_skills`,
  and null divided by anything is null. Nulls are equal to one another and
  placed before every value in the descending percentage column, as a
  polars sort places nulls first unless told otherwise.
 */
module Ordering {
  import opened Tables

  /** 0 for a value, 1 for null. */
  function Rank(p: Ratio): nat {
    if p.den > 0 then 0 else 1
  }

  /** The value of `a` is at most the value of `b`. */
  predicate AtMost(a: Ratio, b: Ratio) {
    || Rank(a) < Rank(b)
    || (Rank(a) == Rank(b) && (Rank(a) > 0 || a.num * b.den <= b.num * a.den))
  }

  lemma MulMonotone(x: nat, y: nat, z: nat)
    requires x <= y
    ensures x * z <= y * z
  {
  }

  lemma MulCancel(x: nat, y: nat, z: nat)
    requires z > 0 && z * x <= z * y
    ensures x <= y
  {
  }

  /** Comparison by cross-multiplication is transitive on positive
      denominators, as comparison of the fractions is. */
  lemma CrossTransitive(an: nat, ad: nat, bn: nat, bd: nat, cn: nat, cd: nat)
    requires ad > 0 && bd > 0 && cd > 0
    requires an * bd <= bn * ad && bn * cd <= cn * bd
    ensures an * cd <= cn * ad
  {
    MulMonotone(an * bd, bn * ad, cd);
    MulMonotone(bn * cd, cn * bd, ad);
    assert an * bd * cd == bd * (an * cd);
    assert bn * ad * cd == bn * cd * ad;
    assert cn * bd * ad == bd * (cn * ad);
    MulCancel(an * cd, cn * ad, bd);
  }

  lemma AtMostTotal(a: Ratio, b: Ratio)
    ensures AtMost(a, b) || AtMost(b, a)
  {
  }

  lemma AtMostTransitive(a: Ratio, b: Ratio, c: Ratio)
    requires AtMost(a, b) && AtMost(b, c)
    ensures AtMost(a, c)
  {
    if Rank(a) == Rank(b) == Rank(c) == 0 {
      CrossTransitive(a.num, a.den, b.num, b.den, c.num, c.den);
    }
  }

  /** Row `x` may stand before row `y` in the result. */
  predicate Precedes(x: ResultRow, y: ResultRow) {
    || x.jobseekerId < y.jobseekerId
    || (&& x.jobseekerId == y.jobseekerId
        && AtMost(y.matchingSkillPercent, x.matchingSkillPercent)
        && (AtMost(x.matchingSkillPercent, y.matchingSkillPercent) ==> x.jobId <= y.jobId))
  }

  predicate Sorted(rows: seq<ResultRow>) {
    forall i, j :: 0 <= i < j < |rows| ==> Precedes(rows[i], rows[j])
  }

  lemma PrecedesTotal(x: ResultRow, y: ResultRow)
    ensures Precedes(x, y) || Precedes(y, x)
  {
    AtMostTotal(x.matchingSkillPercent, y.matchingSkillPercent);
  }

  lemma PrecedesTransitive(x: ResultRow, y: ResultRow, z: ResultRow)
    requires Precedes(x, y) && Precedes(y, z)
    ensures Precedes(x, z)
  {
    var px, py, pz := x.matchingSkillPercent, y.matchingSkillPercent, z.matchingSkillPercent;
    if x.jobseekerId == y.jobseekerId == z.jobseekerId {
      AtMostTransitive(pz, py, px);
      if AtMost(px, pz) {
        AtMostTransitive(px, pz, py);
        AtMostTransitive(py, px, pz);
      }
    }
  }

  /** Two rows that may each stand before the other agree on both ids. */
  lemma PrecedesAntisymmetric(x: ResultRow, y: ResultRow)
    requires Precedes(x, y) && Precedes(y, x)
    ensures RowKey(x) == RowKey(y)
  {
  }

  // ---------------------------------------------------------------------------
  // Sorting
  // ---------------------------------------------------------------------------

  /** Inserts `x` before the first row it may precede. */
  function Insert(x: ResultRow, rows: seq<ResultRow>): (r: seq<ResultRow>)
    ensures multiset(r) == multiset(rows) + multiset{x}
    ensures Sorted(rows) ==> Sorted(r)
  {
    if |rows| == 0 then [x]
    else if Precedes(x, rows[0]) then
      InsertFrontSorted(x, rows);
      [x] + rows
    else
      var tail := Insert(x, rows[1..]);
      assert rows == [rows[0]] + rows[1..];
      PrecedesTotal(x, rows[0]);
      InsertBehindSorted(rows[0], x, rows[1..], tail);
      [rows[0]] + tail
  }

  lemma InsertFrontSorted(x: ResultRow, rows: seq<ResultRow>)
    requires |rows| > 0 && Precedes(x, rows[0])
    ensures Sorted(rows) ==> Sorted([x] + rows)
  {
    if Sorted(rows) {
      var r := [x] + rows;
      forall i, j | 0 <= i < j < |r| ensures Precedes(r[i], r[j]) {
        if i == 0 && j > 1 {
          PrecedesTransitive(x, rows[0], rows[j - 1]);
        }
      }
    }
  }

  lemma InsertBehindSorted(h: ResultRow, x: ResultRow, rest: seq<ResultRow>, tail: seq<ResultRow>)
    requires Precedes(h, x)
    requires multiset(tail) == multiset(rest) + multiset{x}
    requires Sorted([h] + rest) ==> Sorted(tail)
    ensures Sorted([h] + rest) ==> Sorted([h] + tail)
  {
    if Sorted([h] + rest) {
      var r := [h] + tail;
      forall i, j | 0 <= i < j < |r| ensures Precedes(r[i], r[j]) {
        assert r[j] == tail[j - 1];
        if i == 0 {
          assert r[0] == h;
          var y := tail[j - 1];
          assert y in multiset(tail);
          if y != x {
            assert y in multiset(rest);
            var k :| 0 <= k < |rest| && rest[k] == y;
            var hr := [h] + rest;
            assert hr[0] == h && hr[k + 1] == y;
            assert Precedes(hr[0], hr[k + 1]);
          }
        } else {
          assert r[i] == tail[i - 1];
          assert Precedes(tail[i - 1], tail[j - 1]);
        }
      }
    }
  }

  /** Sorts the result rows by insertion; the result is ordered and holds
      the same rows as often as the input does. */
  function SortRows(rows: seq<ResultRow>): (r: seq<ResultRow>)
    ensures Sorted(r)
    ensures multiset(r) == multiset(rows)
  {
    if |rows| == 0 then []
    else
      assert rows == [rows[0]] + rows[1..];
      Insert(rows[0], SortRows(rows[1..]))
  }

  /** No two distinct rows of `rows` share both ids. */
  predicate KeysDetermineRows(rows: seq<ResultRow>) {
    forall i, j :: 0 <= i < |rows| && 0 <= j < |rows| && RowKey(rows[i]) == RowKey(rows[j]) ==> rows[i] == rows[j]
  }

  lemma SortedTail(a: seq<ResultRow>)
    requires |a| > 0 && Sorted(a)
    ensures Sorted(a[1..])
  {
    forall p, q | 0 <= p < q < |a| - 1 ensures Precedes(a[1..][p], a[1..][q]) {
      assert a[p + 1] == a[1..][p] && a[q + 1] == a[1..][q];
    }
  }

  lemma KeysDetermineTail(a: seq<ResultRow>)
    requires |a| > 0 && KeysDetermineRows(a)
    ensures KeysDetermineRows(a[1..])
  {
    forall p, q | 0 <= p < |a| - 1 && 0 <= q < |a| - 1 && RowKey(a[1..][p]) == RowKey(a[1..][q])
      ensures a[1..][p] == a[1..][q]
    {
      assert a[p + 1] == a[1..][p] && a[q + 1] == a[1..][q];
    }
  }

  /** The first rows of two sorted arrangements of the same rows coincide. */
  lemma SortedSameHead(a: seq<ResultRow>, b: seq<ResultRow>)
    requires |a| > 0 && Sorted(a) && Sorted(b) && multiset(a) == multiset(b)
    requires KeysDetermineRows(a)
    ensures |b| > 0 && a[0] == b[0]
  {
    assert a[0] in multiset(b);
    var i :| 0 <= i < |b| && b[i] == a[0];
    assert b[0] in multiset(a);
    var j :| 0 <= j < |a| && a[j] == b[0];
    if i > 0 { assert Precedes(b[0], b[i]); }
    if j > 0 { assert Precedes(a[0], a[j]); }
    PrecedesAntisymmetric(a[0], b[0]);
    assert RowKey(a[0]) == RowKey(a[j]);
  }

  /** When both ids determine a row, there is only one sorted arrangement of
      a collection of rows: the order of the rows before sorting cannot be
      observed after it. */
  lemma {:induction false} SortedUnique(a: seq<ResultRow>, b: seq<ResultRow>)
    requires Sorted(a) && Sorted(b) && multiset(a) == multiset(b)
    requires KeysDetermineRows(a)
    ensures a == b
    decreases |a|
  {
    if |a| == 0 {
      assert |multiset(b)| == 0;
    } else {
      SortedSameHead(a, b);
      assert a == [a[0]] + a[1..] && b == [b[0]] + b[1..];
      assert multiset(a) == multiset{a[0]} + multiset(a[1..]);
      assert multiset(b) == multiset{b[0]} + multiset(b[1..]);
      assert multiset(a[1..]) == multiset(a) - multiset{a[0]};
      assert multiset(b[1..]) == multiset(b) - multiset{b[0]};
      KeysDetermineTail(a);
      SortedTail(a);
      SortedTail(b);
      SortedUnique(a[1..], b[1..]);
    }
  }

  /** No two rows of `rows` share both ids. */
  predicate KeysDistinct(rows: seq<ResultRow>) {
    forall i, j :: 0 <= i < j < |rows| ==> RowKey(rows[i]) != RowKey(rows[j])
  }

  lemma {:induction false} KeysDistinctOnce(rows: seq<ResultRow>, x: ResultRow)
    requires KeysDistinct(rows)
    ensures multiset(rows)[x] <= 1
    decreases |rows|
  {
    if |rows| > 0 {
      var rest := rows[1..];
      assert KeysDistinct(rest) by {
        forall i, j | 0 <= i < j < |rest| ensures RowKey(rest[i]) != RowKey(rest[j]) {
          assert rest[i] == rows[i + 1] && rest[j] == rows[j + 1];
        }
      }
      KeysDistinctOnce(rest, x);
      assert rows == [rows[0]] + rest;
      if rows[0] == x {
        assert x !in rest by {
          forall k | 0 <= k < |rest| ensures rest[k] != x {
            assert rows[k + 1] == rest[k];
          }
        }
      }
    }
  }

  lemma TwiceInMultiset(rows: seq<ResultRow>, i: int, j: int)
    requires 0 <= i < j < |rows| && rows[i] == rows[j]
    ensures multiset(rows)[rows[i]] >= 2
  {
    assert rows == rows[..j] + rows[j..];
    assert rows[i] == rows[..j][i];
    assert rows[j] == rows[j..][0];
    assert multiset(rows) == multiset(rows[..j]) + multiset(rows[j..]);
  }

  /** Rearranging rows whose keys are distinct keeps the keys distinct. */
  lemma KeysDistinctPermutation(a: seq<ResultRow>, b: seq<ResultRow>)
    requires KeysDistinct(a) && multiset(a) == multiset(b)
    ensures KeysDistinct(b)
  {
    forall i, j | 0 <= i < j < |b| ensures RowKey(b[i]) != RowKey(b[j]) {
      if RowKey(b[i]) == RowKey(b[j]) {
        assert b[i] in multiset(a) && b[j] in multiset(a);
        var p :| 0 <= p < |a| && a[p] == b[i];
        var q :| 0 <= q < |a| && a[q] == b[j];
        assert p == q;
        TwiceInMultiset(b, i, j);
        KeysDistinctOnce(a, b[i]);
        assert false;
      }
    }
  }

  lemma KeysDistinctDetermine(rows: seq<ResultRow>)
    requires KeysDistinct(rows)
    ensures KeysDetermineRows(rows)
  {
  }

  /** Sortedness can be read off neighbouring rows alone: each row may stand
      before the next one exactly when every row may stand before every
      later one. */
  lemma {:induction false} SortedAdjacent(rows: seq<ResultRow>)
    ensures Sorted(rows) <==> forall i :: 0 <= i < |rows| - 1 ==> Precedes(rows[i], rows[i + 1])
    decreases |rows|
  {
    if |rows| > 0 && forall i :: 0 <= i < |rows| - 1 ==> Precedes(rows[i], rows[i + 1]) {
      var rest := rows[1..];
      forall i | 0 <= i < |rest| - 1 ensures Precedes(rest[i], rest[i + 1]) {
        assert rest[i] == rows[i + 1] && rest[i + 1] == rows[i + 2];
      }
      SortedAdjacent(rest);
      forall i, j | 0 <= i < j < |rows| ensures Precedes(rows[i], rows[j]) {
        if i == 0 && j > 1 {
          assert rest[0] == rows[1] && rest[j - 1] == rows[j];
          PrecedesTransitive(rows[0], rows[1], rows[j]);
        } else if i > 0 {
          assert rest[i - 1] == rows[i] && rest[j - 1] == rows[j];
        }
      }
    }
  }

  /** For positive denominators, comparison by cross-multiplication is the
      comparison of the quotients. */
  lemma AtMostExact(a: Ratio, b: Ratio)
    requires a.den > 0 && b.den > 0
    ensures AtMost(a, b) <==> (a.num as real) / (a.den as real) <= (b.num as real) / (b.den as real)
  {
    var x, y := (a.num as real) / (a.den as real), (b.num as real) / (b.den as real);
    assert a.num as real == x * (a.den as real);
    assert b.num as real == y * (b.den as real);
    assert (a.num * b.den) as real == x * ((a.den * b.den) as real);
    assert (b.num * a.den) as real == y * ((a.den * b.den) as real);
  }

  /** Rows with distinct keys that all equal one row number at most one. */
  lemma SingleKeyAtMostOnce(rows: seq<ResultRow>, x: ResultRow)
    requires KeysDistinct(rows)
    requires forall i :: 0 <= i < |rows| ==> rows[i] == x
    ensures |rows| <= 1
  {
    if |rows| >= 2 {
      FirstTwoDiffer(rows);
      assert false;
    }
  }

  lemma FirstTwoDiffer(rows: seq<ResultRow>)
    requires KeysDistinct(rows) && |rows| >= 2
    ensures rows[0] != rows[1]
  {
  }

  /** Rows with distinct keys, each of them `x`, are `x` alone or nothing. */
  lemma OneOrNone(rows: seq<ResultRow>, x: ResultRow, present: bool)
    requires KeysDistinct(rows)
    requires forall row :: row in rows ==> present && row == x
    requires present ==> x in rows
    ensures rows == if present then [x] else []
  {
    forall i | 0 <= i < |rows| ensures rows[i] == x {
      assert rows[i] in rows;
    }
    SingleKeyAtMostOnce(rows, x);
    if !present && |rows| > 0 {
      HeadIn(rows);
      assert false;
    }
  }

  lemma HeadIn(rows: seq<ResultRow>)
    requires |rows| > 0
    ensures rows[0] in rows
  {
  }
}
