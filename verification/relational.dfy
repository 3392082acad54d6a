/**
  The overlap matcher's relational steps, written out without a dataframe
  engine: each preprocessed table is exploded to one row per skill token,
  the two exploded tables are inner-joined on token equality, and the joined
  rows are grouped by (jobseeker id, job id) and counted. The count of a
  group is then the reference pair count of the two skill lists.
 */
module Relational {
  import opened Tables
  import opened Overlap

  // ---------------------------------------------------------------------------
  // Explode
  // ---------------------------------------------------------------------------

  /** One row per token of an entity, in token order. */
  function ExplodeTokens(id: int, tokens: seq<string>): (r: seq<TokenRow>)
    ensures |r| == |tokens|
    ensures forall k :: 0 <= k < |r| ==> r[k] == TokenRow(id, tokens[k])
  {
    if |tokens| == 0 then [] else [TokenRow(id, tokens[0])] + ExplodeTokens(id, tokens[1..])
  }

  /** `explode("skills")`: one row per token of every jobseeker. */
  function ExplodeJobseekers(seekers: seq<Jobseeker>): seq<TokenRow> {
    if |seekers| == 0 then []
    else ExplodeTokens(seekers[0].jobseekerId, seekers[0].skills) + ExplodeJobseekers(seekers[1..])
  }

  /** `explode("required_skills")`: one row per token of every job. */
  function ExplodeJobs(jobs: seq<Job>): seq<TokenRow> {
    if |jobs| == 0 then []
    else ExplodeTokens(jobs[0].jobId, jobs[0].requiredSkills) + ExplodeJobs(jobs[1..])
  }

  /** An entity's exploded rows are its id paired with its tokens. */
  lemma ExplodeTokensMembers(id: int, tokens: seq<string>, row: TokenRow)
    ensures row in ExplodeTokens(id, tokens) <==> row.id == id && row.token in tokens
  {
    var r := ExplodeTokens(id, tokens);
    if row.id == id && row.token in tokens {
      var k :| 0 <= k < |tokens| && tokens[k] == row.token;
      assert r[k] == row;
    }
  }

  /** The exploded jobseekers hold (x, t) exactly when some jobseeker with id
      x has token t. */
  lemma {:induction false} ExplodeJobseekersMembers(seekers: seq<Jobseeker>, row: TokenRow)
    ensures row in ExplodeJobseekers(seekers) <==>
      exists a :: 0 <= a < |seekers| && row.id == seekers[a].jobseekerId && row.token in seekers[a].skills
    decreases |seekers|
  {
    if |seekers| > 0 {
      var rest := seekers[1..];
      ExplodeTokensMembers(seekers[0].jobseekerId, seekers[0].skills, row);
      ExplodeJobseekersMembers(rest, row);
      if row in ExplodeJobseekers(rest) {
        var a :| 0 <= a < |rest| && row.id == rest[a].jobseekerId && row.token in rest[a].skills;
        assert seekers[a + 1] == rest[a];
      }
      if exists a :: 0 <= a < |seekers| && row.id == seekers[a].jobseekerId && row.token in seekers[a].skills {
        var a :| 0 <= a < |seekers| && row.id == seekers[a].jobseekerId && row.token in seekers[a].skills;
        if a > 0 {
          assert rest[a - 1] == seekers[a];
        }
      }
    }
  }

  /** The exploded jobs hold (y, t) exactly when some job with id y requires
      token t. */
  lemma {:induction false} ExplodeJobsMembers(jobs: seq<Job>, row: TokenRow)
    ensures row in ExplodeJobs(jobs) <==>
      exists b :: 0 <= b < |jobs| && row.id == jobs[b].jobId && row.token in jobs[b].requiredSkills
    decreases |jobs|
  {
    if |jobs| > 0 {
      var rest := jobs[1..];
      ExplodeTokensMembers(jobs[0].jobId, jobs[0].requiredSkills, row);
      ExplodeJobsMembers(rest, row);
      if row in ExplodeJobs(rest) {
        var b :| 0 <= b < |rest| && row.id == rest[b].jobId && row.token in rest[b].requiredSkills;
        assert jobs[b + 1] == rest[b];
      }
      if exists b :: 0 <= b < |jobs| && row.id == jobs[b].jobId && row.token in jobs[b].requiredSkills {
        var b :| 0 <= b < |jobs| && row.id == jobs[b].jobId && row.token in jobs[b].requiredSkills;
        if b > 0 {
          assert rest[b - 1] == jobs[b];
        }
      }
    }
  }

  lemma {:induction false} ExplodeTokensCount(id: int, tokens: seq<string>, y: int, t: string)
    ensures multiset(ExplodeTokens(id, tokens))[TokenRow(y, t)]
         == if id == y then Occurrences(tokens, t) else 0
    decreases |tokens|
  {
    if |tokens| > 0 {
      ExplodeTokensCount(id, tokens[1..], y, t);
    }
  }

  /** In the exploded jobs table, the rows of job `jobs[b]` carrying `t` are
      as many as the occurrences of `t` among its required skills. */
  lemma {:induction false} ExplodeJobsCount(jobs: seq<Job>, y: int, t: string)
    requires UniqueJobIds(jobs)
    ensures multiset(ExplodeJobs(jobs))[TokenRow(y, t)]
         == if exists b :: 0 <= b < |jobs| && jobs[b].jobId == y
            then Occurrences(JobTokens(jobs, y), t) else 0
    decreases |jobs|
  {
    if |jobs| > 0 {
      var rest := jobs[1..];
      assert UniqueJobIds(rest) by {
        forall a, b | 0 <= a < |rest| && 0 <= b < |rest| && rest[a].jobId == rest[b].jobId
          ensures a == b
        {
          assert jobs[a + 1].jobId == jobs[b + 1].jobId;
        }
      }
      ExplodeJobsCount(rest, y, t);
      ExplodeTokensCount(jobs[0].jobId, jobs[0].requiredSkills, y, t);
      if jobs[0].jobId == y {
        forall b | 0 <= b < |rest| ensures rest[b].jobId != y {
          assert jobs[b + 1].jobId != jobs[0].jobId;
        }
      } else if exists b :: 0 <= b < |jobs| && jobs[b].jobId == y {
        var b :| 0 <= b < |jobs| && jobs[b].jobId == y;
        assert rest[b - 1].jobId == y;
      }
    }
  }

  /** With unique jobseeker ids, the exploded jobseekers hold (x, t) as often
      as t occurs among the tokens of jobseeker x, and never for an absent id. */
  lemma {:induction false} ExplodeJobseekersCount(seekers: seq<Jobseeker>, x: int, t: string)
    requires UniqueJobseekerIds(seekers)
    ensures multiset(ExplodeJobseekers(seekers))[TokenRow(x, t)]
         == if exists a :: 0 <= a < |seekers| && seekers[a].jobseekerId == x
            then Occurrences(SeekerTokens(seekers, x), t) else 0
    decreases |seekers|
  {
    if |seekers| > 0 {
      var rest := seekers[1..];
      assert UniqueJobseekerIds(rest) by {
        forall a, b | 0 <= a < |rest| && 0 <= b < |rest| && rest[a].jobseekerId == rest[b].jobseekerId
          ensures a == b
        {
          assert seekers[a + 1].jobseekerId == seekers[b + 1].jobseekerId;
        }
      }
      ExplodeJobseekersCount(rest, x, t);
      ExplodeTokensCount(seekers[0].jobseekerId, seekers[0].skills, x, t);
      if seekers[0].jobseekerId == x {
        forall a | 0 <= a < |rest| ensures rest[a].jobseekerId != x {
          assert seekers[a + 1].jobseekerId != seekers[0].jobseekerId;
        }
      } else if exists a :: 0 <= a < |seekers| && seekers[a].jobseekerId == x {
        var a :| 0 <= a < |seekers| && seekers[a].jobseekerId == x;
        assert rest[a - 1].jobseekerId == x;
      }
    }
  }

  /** The required skills of the first job with id `y`, if any. */
  function JobTokens(jobs: seq<Job>, y: int): seq<string> {
    if |jobs| == 0 then []
    else if jobs[0].jobId == y then jobs[0].requiredSkills
    else JobTokens(jobs[1..], y)
  }

  lemma {:induction false} JobTokensOfUnique(jobs: seq<Job>, b: int)
    requires UniqueJobIds(jobs) && 0 <= b < |jobs|
    ensures JobTokens(jobs, jobs[b].jobId) == jobs[b].requiredSkills
    decreases |jobs|
  {
    if b > 0 {
      assert jobs[0].jobId != jobs[b].jobId;
      var rest := jobs[1..];
      assert UniqueJobIds(rest) by {
        forall a, c | 0 <= a < |rest| && 0 <= c < |rest| && rest[a].jobId == rest[c].jobId
          ensures a == c
        {
          assert jobs[a + 1].jobId == jobs[c + 1].jobId;
        }
      }
      JobTokensOfUnique(rest, b - 1);
    }
  }

  // ---------------------------------------------------------------------------
  // Join on token equality
  // ---------------------------------------------------------------------------

  /** The keys of the right rows whose token equals `l`'s token. */
  function JoinRow(l: TokenRow, right: seq<TokenRow>): seq<PairKey> {
    if |right| == 0 then []
    else (if l.token == right[0].token then [PairKey(l.id, right[0].id)] else [])
         + JoinRow(l, right[1..])
  }

  /** The inner equi-join of the exploded jobseekers with the exploded jobs on
      the token, keeping the two ids of each joined row. */
  function JoinOnToken(left: seq<TokenRow>, right: seq<TokenRow>): seq<PairKey> {
    if |left| == 0 then [] else JoinRow(left[0], right) + JoinOnToken(left[1..], right)
  }

  /** One left row joins the right rows that carry its token. */
  lemma {:induction false} JoinRowMembers(l: TokenRow, right: seq<TokenRow>, key: PairKey)
    ensures key in JoinRow(l, right) <==>
      exists q :: q in right && q.token == l.token && key == PairKey(l.id, q.id)
    decreases |right|
  {
    if |right| > 0 {
      JoinRowMembers(l, right[1..], key);
      assert right == [right[0]] + right[1..];
    }
  }

  /** The join holds key (x, y) exactly when a left row of x and a right row
      of y carry the same token. */
  lemma {:induction false} JoinOnTokenMembers(left: seq<TokenRow>, right: seq<TokenRow>, key: PairKey)
    ensures key in JoinOnToken(left, right) <==>
      exists l, q :: l in left && q in right && l.token == q.token && key == PairKey(l.id, q.id)
    decreases |left|
  {
    if |left| > 0 {
      JoinRowMembers(left[0], right, key);
      JoinOnTokenMembers(left[1..], right, key);
      assert left == [left[0]] + left[1..];
    }
  }

  /** A left row joins with as many rows of job `y` as carry its token. */
  lemma {:induction false} JoinRowCount(l: TokenRow, right: seq<TokenRow>, x: int, y: int)
    ensures multiset(JoinRow(l, right))[PairKey(x, y)]
         == if l.id == x then multiset(right)[TokenRow(y, l.token)] else 0
    decreases |right|
  {
    if |right| > 0 {
      JoinRowCount(l, right[1..], x, y);
      assert right == [right[0]] + right[1..];
    }
  }

  lemma {:induction false} JoinOnTokenAppend(a: seq<TokenRow>, b: seq<TokenRow>, right: seq<TokenRow>)
    ensures JoinOnToken(a + b, right) == JoinOnToken(a, right) + JoinOnToken(b, right)
    decreases |a|
  {
    if |a| == 0 {
      assert a + b == b;
    } else {
      assert (a + b)[0] == a[0] && (a + b)[1..] == a[1..] + b;
      JoinOnTokenAppend(a[1..], b, right);
    }
  }

  /** The joined rows of one jobseeker with job `y` number the pairs of equal
      tokens, provided the right table holds job `y`'s tokens `jt`. */
  lemma {:induction false} JoinTokensCount(
    id: int, tokens: seq<string>, right: seq<TokenRow>, x: int, y: int, jt: seq<string>)
    requires forall t :: multiset(right)[TokenRow(y, t)] == Occurrences(jt, t)
    ensures multiset(JoinOnToken(ExplodeTokens(id, tokens), right))[PairKey(x, y)]
         == if id == x then MatchPairs(tokens, jt) else 0
    decreases |tokens|
  {
    if |tokens| > 0 {
      var l := TokenRow(id, tokens[0]);
      assert ExplodeTokens(id, tokens)[0] == l;
      assert ExplodeTokens(id, tokens)[1..] == ExplodeTokens(id, tokens[1..]);
      JoinRowCount(l, right, x, y);
      JoinTokensCount(id, tokens[1..], right, x, y, jt);
    }
  }

  /** Over the whole exploded jobseekers table, the rows with key (x, y) are
      the pairs of equal tokens between jobseeker `x` and job `y`, and none
      when no jobseeker has id `x`. */
  lemma {:induction false} JoinSeekersCount(
    seekers: seq<Jobseeker>, right: seq<TokenRow>, x: int, y: int, jt: seq<string>)
    requires UniqueJobseekerIds(seekers)
    requires forall t :: multiset(right)[TokenRow(y, t)] == Occurrences(jt, t)
    ensures multiset(JoinOnToken(ExplodeJobseekers(seekers), right))[PairKey(x, y)]
         == if exists a :: 0 <= a < |seekers| && seekers[a].jobseekerId == x
            then MatchPairs(SeekerTokens(seekers, x), jt) else 0
    decreases |seekers|
  {
    if |seekers| > 0 {
      var rest := seekers[1..];
      assert UniqueJobseekerIds(rest) by {
        forall a, b | 0 <= a < |rest| && 0 <= b < |rest| && rest[a].jobseekerId == rest[b].jobseekerId
          ensures a == b
        {
          assert seekers[a + 1].jobseekerId == seekers[b + 1].jobseekerId;
        }
      }
      var head := ExplodeTokens(seekers[0].jobseekerId, seekers[0].skills);
      JoinOnTokenAppend(head, ExplodeJobseekers(rest), right);
      JoinTokensCount(seekers[0].jobseekerId, seekers[0].skills, right, x, y, jt);
      JoinSeekersCount(rest, right, x, y, jt);
      if seekers[0].jobseekerId == x {
        forall a | 0 <= a < |rest| ensures rest[a].jobseekerId != x {
          assert seekers[a + 1].jobseekerId != seekers[0].jobseekerId;
        }
      } else if exists a :: 0 <= a < |seekers| && seekers[a].jobseekerId == x {
        var a :| 0 <= a < |seekers| && seekers[a].jobseekerId == x;
        assert rest[a - 1].jobseekerId == x;
      }
    }
  }

  /** The skills of the first jobseeker with id `x`, if any. */
  function SeekerTokens(seekers: seq<Jobseeker>, x: int): seq<string> {
    if |seekers| == 0 then []
    else if seekers[0].jobseekerId == x then seekers[0].skills
    else SeekerTokens(seekers[1..], x)
  }

  lemma {:induction false} SeekerTokensOfUnique(seekers: seq<Jobseeker>, a: int)
    requires UniqueJobseekerIds(seekers) && 0 <= a < |seekers|
    ensures SeekerTokens(seekers, seekers[a].jobseekerId) == seekers[a].skills
    decreases |seekers|
  {
    if a > 0 {
      assert seekers[0].jobseekerId != seekers[a].jobseekerId;
      var rest := seekers[1..];
      assert UniqueJobseekerIds(rest) by {
        forall b, c | 0 <= b < |rest| && 0 <= c < |rest| && rest[b].jobseekerId == rest[c].jobseekerId
          ensures b == c
        {
          assert seekers[b + 1].jobseekerId == seekers[c + 1].jobseekerId;
        }
      }
      SeekerTokensOfUnique(rest, a - 1);
    }
  }

  /** The skill join of the two preprocessed tables. */
  function SkillJoin(seekers: seq<Jobseeker>, jobs: seq<Job>): seq<PairKey> {
    JoinOnToken(ExplodeJobseekers(seekers), ExplodeJobs(jobs))
  }

  /** The skill join holds key (x, y) exactly when a jobseeker with id x and
      a job with id y have a token in common. */
  lemma SkillJoinMembers(seekers: seq<Jobseeker>, jobs: seq<Job>, key: PairKey)
    ensures key in SkillJoin(seekers, jobs) <==>
      exists a, b :: && 0 <= a < |seekers| && 0 <= b < |jobs|
                     && key == PairKey(seekers[a].jobseekerId, jobs[b].jobId)
                     && SharesToken(seekers[a].skills, jobs[b].requiredSkills)
  {
    var left, right := ExplodeJobseekers(seekers), ExplodeJobs(jobs);
    JoinOnTokenMembers(left, right, key);
    if key in SkillJoin(seekers, jobs) {
      var l, q :| l in left && q in right && l.token == q.token && key == PairKey(l.id, q.id);
      ExplodeJobseekersMembers(seekers, l);
      ExplodeJobsMembers(jobs, q);
      var a :| 0 <= a < |seekers| && l.id == seekers[a].jobseekerId && l.token in seekers[a].skills;
      var b :| 0 <= b < |jobs| && q.id == jobs[b].jobId && q.token in jobs[b].requiredSkills;
      SharedWitness(seekers[a].skills, jobs[b].requiredSkills, l.token);
    }
    if exists a, b :: && 0 <= a < |seekers| && 0 <= b < |jobs|
                      && key == PairKey(seekers[a].jobseekerId, jobs[b].jobId)
                      && SharesToken(seekers[a].skills, jobs[b].requiredSkills) {
      var a, b :| && 0 <= a < |seekers| && 0 <= b < |jobs|
                  && key == PairKey(seekers[a].jobseekerId, jobs[b].jobId)
                  && SharesToken(seekers[a].skills, jobs[b].requiredSkills);
      var i, j :| 0 <= i < |seekers[a].skills| && 0 <= j < |jobs[b].requiredSkills|
        && seekers[a].skills[i] == jobs[b].requiredSkills[j];
      var l := TokenRow(seekers[a].jobseekerId, seekers[a].skills[i]);
      var q := TokenRow(jobs[b].jobId, jobs[b].requiredSkills[j]);
      ExplodeJobseekersMembers(seekers, l);
      ExplodeJobsMembers(jobs, q);
      assert l in left && q in right && l.token == q.token && key == PairKey(l.id, q.id);
    }
  }

  lemma SharedWitness(a: seq<string>, b: seq<string>, t: string)
    requires t in a && t in b
    ensures SharesToken(a, b)
  {
    var i :| 0 <= i < |a| && a[i] == t;
    var j :| 0 <= j < |b| && b[j] == t;
  }

  /** With unique ids, the skill join holds key (x, y) exactly as often as
      there are pairs of equal tokens between jobseeker `x` and job `y`, and
      never when either id is absent from its table. */
  lemma SkillJoinCount(seekers: seq<Jobseeker>, jobs: seq<Job>, x: int, y: int)
    requires UniqueJobseekerIds(seekers) && UniqueJobIds(jobs)
    ensures multiset(SkillJoin(seekers, jobs))[PairKey(x, y)]
         == if (exists a :: 0 <= a < |seekers| && seekers[a].jobseekerId == x)
               && (exists b :: 0 <= b < |jobs| && jobs[b].jobId == y)
            then MatchPairs(SeekerTokens(seekers, x), JobTokens(jobs, y)) else 0
  {
    var right := ExplodeJobs(jobs);
    var present := exists b :: 0 <= b < |jobs| && jobs[b].jobId == y;
    var jt := if present then JobTokens(jobs, y) else [];
    forall t ensures multiset(right)[TokenRow(y, t)] == Occurrences(jt, t) {
      ExplodeJobsCount(jobs, y, t);
    }
    JoinSeekersCount(seekers, right, x, y, jt);
    MatchPairsEmptyRight(SeekerTokens(seekers, x));
  }

  // ---------------------------------------------------------------------------
  // Group by (jobseeker id, job id) and count
  // ---------------------------------------------------------------------------

  /** `keys` with every occurrence of `k` removed. */
  function RemoveKey(keys: seq<PairKey>, k: PairKey): (r: seq<PairKey>)
    ensures |r| == |keys| - multiset(keys)[k]
    ensures forall k' :: multiset(r)[k'] == if k' == k then 0 else multiset(keys)[k']
  {
    if |keys| == 0 then []
    else
      assert keys == [keys[0]] + keys[1..];
      (if keys[0] == k then [] else [keys[0]]) + RemoveKey(keys[1..], k)
  }

  /** Groups equal keys and counts the rows of each group, one match per
      distinct key, in order of first appearance. Every key of the input has
      a group, every group has at least one row, no key has two groups, and a
      group's count is the number of rows carrying its key. */
  function GroupCount(keys: seq<PairKey>): (groups: seq<Match>)
    ensures GroupsOf(keys, groups)
    decreases |keys|
  {
    if |keys| == 0 then []
    else
      var k := keys[0];
      var rest := RemoveKey(keys, k);
      var tail := GroupCount(rest);
      GroupTailCounts(keys, rest, tail);
      GroupTailCovers(keys, rest, tail);
      GroupCountStep(keys, |keys| - |rest|, tail);
      [Match(k.jobseekerId, k.jobId, |keys| - |rest|)] + tail
  }

  /** `groups` is a grouping of `keys` with row counts. */
  predicate GroupsOf(keys: seq<PairKey>, groups: seq<Match>) {
    && (forall i :: 0 <= i < |groups| ==>
          groups[i].matchingSkillCount == multiset(keys)[KeyOf(groups[i])] >= 1)
    && (forall k :: k in keys ==> exists i :: 0 <= i < |groups| && KeyOf(groups[i]) == k)
    && (forall i, j :: 0 <= i < j < |groups| ==> KeyOf(groups[i]) != KeyOf(groups[j]))
  }

  lemma GroupCountStep(keys: seq<PairKey>, c: nat, tail: seq<Match>)
    requires |keys| > 0 && c == multiset(keys)[keys[0]] >= 1
    requires forall i :: 0 <= i < |tail| ==>
      KeyOf(tail[i]) != keys[0] && tail[i].matchingSkillCount == multiset(keys)[KeyOf(tail[i])] >= 1
    requires forall k' :: k' in keys && k' != keys[0] ==>
      exists i :: 0 <= i < |tail| && KeyOf(tail[i]) == k'
    requires forall i, j :: 0 <= i < j < |tail| ==> KeyOf(tail[i]) != KeyOf(tail[j])
    ensures GroupsOf(keys, [Match(keys[0].jobseekerId, keys[0].jobId, c)] + tail)
  {
    var k := keys[0];
    var head := Match(k.jobseekerId, k.jobId, c);
    var groups := [head] + tail;
    assert groups[0] == head && KeyOf(head) == k;
    assert forall i :: 1 <= i < |groups| ==> groups[i] == tail[i - 1];
    forall k' | k' in keys
      ensures exists i :: 0 <= i < |groups| && KeyOf(groups[i]) == k'
    {
      if k' == k {
        assert KeyOf(groups[0]) == k';
      } else {
        var i :| 0 <= i < |tail| && KeyOf(tail[i]) == k';
        assert KeyOf(groups[i + 1]) == k';
      }
    }
  }

  lemma GroupTailCounts(keys: seq<PairKey>, rest: seq<PairKey>, tail: seq<Match>)
    requires |keys| > 0 && rest == RemoveKey(keys, keys[0])
    requires GroupsOf(rest, tail)
    ensures multiset(keys)[keys[0]] == |keys| - |rest| >= 1
    ensures forall i :: 0 <= i < |tail| ==>
      KeyOf(tail[i]) != keys[0] && tail[i].matchingSkillCount == multiset(keys)[KeyOf(tail[i])] >= 1
  {
    var k := keys[0];
    forall i | 0 <= i < |tail|
      ensures KeyOf(tail[i]) != k
      ensures tail[i].matchingSkillCount == multiset(keys)[KeyOf(tail[i])]
    {
      var ki := KeyOf(tail[i]);
      assert multiset(rest)[ki] >= 1;
      assert multiset(rest)[ki] == if ki == k then 0 else multiset(keys)[ki];
    }
  }

  lemma GroupTailCovers(keys: seq<PairKey>, rest: seq<PairKey>, tail: seq<Match>)
    requires |keys| > 0 && rest == RemoveKey(keys, keys[0])
    requires GroupsOf(rest, tail)
    ensures forall k' :: k' in keys && k' != keys[0] ==>
      exists i :: 0 <= i < |tail| && KeyOf(tail[i]) == k'
  {
    forall k' | k' in keys && k' != keys[0]
      ensures exists i :: 0 <= i < |tail| && KeyOf(tail[i]) == k'
    {
      assert multiset(rest)[k'] == multiset(keys)[k'] > 0;
      assert k' in rest;
    }
  }

  lemma GroupCountCovers(keys: seq<PairKey>, k: PairKey)
    requires k in keys
    ensures exists i :: 0 <= i < |GroupCount(keys)| && KeyOf(GroupCount(keys)[i]) == k
  {
    assert GroupsOf(keys, GroupCount(keys));
  }
}
