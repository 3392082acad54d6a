/**
  The matching pipeline `match_jobs_from_frames`: preprocess both tables,
  count the equal skill-token pairs of every (jobseeker, job) pair that has
  any, join the counts back to the job and jobseeker rows, compute the
  percentage, project the six output columns and sort.

  The pipeline is total: it is defined for every input, duplicate ids
  included. Its correctness theorems assume that ids are unique within each
  input table, without which the inner joins multiply rows.
 */
module Matcher {
  import opened SkillText
  import opened Tables
  import opened Preprocess
  import opened Overlap
  import opened Relational
  import opened Ordering

  // ---------------------------------------------------------------------------
  // Joining the counts back to the job and jobseeker rows
  // ---------------------------------------------------------------------------

  /** The job rows whose `job_id` equals the match's. */
  function JoinJob(m: Match, jobs: seq<Job>): (r: seq<JobMatch>)
    ensures forall k :: 0 <= k < |r| ==> r[k].m == m && r[k].job in jobs && r[k].job.jobId == m.jobId
  {
    if |jobs| == 0 then []
    else (if jobs[0].jobId == m.jobId then [JobMatch(m, jobs[0])] else []) + JoinJob(m, jobs[1..])
  }

  /** The inner join of the matches with the jobs on `job_id`. */
  function JoinJobs(ms: seq<Match>, jobs: seq<Job>): seq<JobMatch> {
    if |ms| == 0 then [] else JoinJob(ms[0], jobs) + JoinJobs(ms[1..], jobs)
  }

  /** The jobseeker rows whose `jobseeker_id` equals the match's. */
  function JoinSeeker(w: JobMatch, seekers: seq<Jobseeker>): (r: seq<FullMatch>)
    ensures forall k :: 0 <= k < |r| ==>
      r[k].m == w.m && r[k].job == w.job && r[k].seeker in seekers
      && r[k].seeker.jobseekerId == w.m.jobseekerId
  {
    if |seekers| == 0 then []
    else (if seekers[0].jobseekerId == w.m.jobseekerId then [FullMatch(w.m, w.job, seekers[0])] else [])
         + JoinSeeker(w, seekers[1..])
  }

  /** The inner join of the job matches with the jobseekers on `jobseeker_id`. */
  function JoinJobseekers(ws: seq<JobMatch>, seekers: seq<Jobseeker>): seq<FullMatch> {
    if |ws| == 0 then [] else JoinSeeker(ws[0], seekers) + JoinJobseekers(ws[1..], seekers)
  }

  /** `join(jobs, on="job_id")` for one match: the pairs of the match with a
      job row of the same `job_id`. */
  lemma {:induction false} JoinJobMembers(m: Match, jobs: seq<Job>, w: JobMatch)
    ensures w in JoinJob(m, jobs) <==> w.m == m && w.job in jobs && w.job.jobId == m.jobId
    decreases |jobs|
  {
    if |jobs| > 0 {
      JoinJobMembers(m, jobs[1..], w);
      assert jobs == [jobs[0]] + jobs[1..];
    }
  }

  /** The inner join on `job_id` holds exactly the pairs of a match and a job
      row with the same `job_id`. */
  lemma {:induction false} JoinJobsMembers(ms: seq<Match>, jobs: seq<Job>, w: JobMatch)
    ensures w in JoinJobs(ms, jobs) <==> w.m in ms && w.job in jobs && w.job.jobId == w.m.jobId
    decreases |ms|
  {
    if |ms| > 0 {
      JoinJobMembers(ms[0], jobs, w);
      JoinJobsMembers(ms[1..], jobs, w);
      assert ms == [ms[0]] + ms[1..];
    }
  }

  /** `join(jobseekers, on="jobseeker_id")` for one job match. */
  lemma {:induction false} JoinSeekerMembers(w: JobMatch, seekers: seq<Jobseeker>, f: FullMatch)
    ensures f in JoinSeeker(w, seekers) <==>
      f.m == w.m && f.job == w.job && f.seeker in seekers && f.seeker.jobseekerId == w.m.jobseekerId
    decreases |seekers|
  {
    if |seekers| > 0 {
      JoinSeekerMembers(w, seekers[1..], f);
      assert seekers == [seekers[0]] + seekers[1..];
    }
  }

  /** The inner join on `jobseeker_id` holds exactly the extensions of a job
      match with a jobseeker row of the same `jobseeker_id`. */
  lemma {:induction false} JoinJobseekersMembers(ws: seq<JobMatch>, seekers: seq<Jobseeker>, f: FullMatch)
    ensures f in JoinJobseekers(ws, seekers) <==>
      JobMatch(f.m, f.job) in ws && f.seeker in seekers && f.seeker.jobseekerId == f.m.jobseekerId
    decreases |ws|
  {
    if |ws| > 0 {
      JoinSeekerMembers(ws[0], seekers, f);
      JoinJobseekersMembers(ws[1..], seekers, f);
      assert ws == [ws[0]] + ws[1..];
    }
  }

  /** With unique job ids, a match whose job exists joins exactly that job. */
  lemma {:induction false} JoinJobOne(m: Match, jobs: seq<Job>, b: int)
    requires UniqueJobIds(jobs) && 0 <= b < |jobs| && jobs[b].jobId == m.jobId
    ensures JoinJob(m, jobs) == [JobMatch(m, jobs[b])]
    decreases |jobs|
  {
    var rest := jobs[1..];
    if b == 0 {
      forall c | 0 <= c < |rest| ensures rest[c].jobId != m.jobId {
        assert jobs[c + 1].jobId != jobs[0].jobId;
      }
      JoinJobNone(m, rest);
    } else {
      assert jobs[0].jobId != m.jobId;
      assert UniqueJobIds(rest) by {
        forall p, q | 0 <= p < |rest| && 0 <= q < |rest| && rest[p].jobId == rest[q].jobId
          ensures p == q
        {
          assert jobs[p + 1].jobId == jobs[q + 1].jobId;
        }
      }
      JoinJobOne(m, rest, b - 1);
    }
  }

  lemma {:induction false} JoinJobNone(m: Match, jobs: seq<Job>)
    requires forall c :: 0 <= c < |jobs| ==> jobs[c].jobId != m.jobId
    ensures JoinJob(m, jobs) == []
    decreases |jobs|
  {
    if |jobs| > 0 {
      JoinJobNone(m, jobs[1..]);
    }
  }

  /** With unique jobseeker ids, a row whose jobseeker exists joins exactly
      that jobseeker. */
  lemma {:induction false} JoinSeekerOne(w: JobMatch, seekers: seq<Jobseeker>, a: int)
    requires UniqueJobseekerIds(seekers) && 0 <= a < |seekers|
    requires seekers[a].jobseekerId == w.m.jobseekerId
    ensures JoinSeeker(w, seekers) == [FullMatch(w.m, w.job, seekers[a])]
    decreases |seekers|
  {
    var rest := seekers[1..];
    if a == 0 {
      forall c | 0 <= c < |rest| ensures rest[c].jobseekerId != w.m.jobseekerId {
        assert seekers[c + 1].jobseekerId != seekers[0].jobseekerId;
      }
      JoinSeekerNone(w, rest);
    } else {
      assert seekers[0].jobseekerId != w.m.jobseekerId;
      assert UniqueJobseekerIds(rest) by {
        forall p, q | 0 <= p < |rest| && 0 <= q < |rest| && rest[p].jobseekerId == rest[q].jobseekerId
          ensures p == q
        {
          assert seekers[p + 1].jobseekerId == seekers[q + 1].jobseekerId;
        }
      }
      JoinSeekerOne(w, rest, a - 1);
    }
  }

  lemma {:induction false} JoinSeekerNone(w: JobMatch, seekers: seq<Jobseeker>)
    requires forall c :: 0 <= c < |seekers| ==> seekers[c].jobseekerId != w.m.jobseekerId
    ensures JoinSeeker(w, seekers) == []
    decreases |seekers|
  {
    if |seekers| > 0 {
      JoinSeekerNone(w, seekers[1..]);
    }
  }

  /** Joining back to the jobs adds and drops no rows when job ids are unique
      and every match names an existing job: row i is match i with its job. */
  lemma {:induction false} JoinJobsOneToOne(ms: seq<Match>, jobs: seq<Job>)
    requires UniqueJobIds(jobs)
    requires forall i :: 0 <= i < |ms| ==> exists b :: 0 <= b < |jobs| && jobs[b].jobId == ms[i].jobId
    ensures |JoinJobs(ms, jobs)| == |ms|
    ensures forall i :: 0 <= i < |ms| ==>
      JoinJobs(ms, jobs)[i].m == ms[i] && JoinJobs(ms, jobs)[i].job in jobs
      && JoinJobs(ms, jobs)[i].job.jobId == ms[i].jobId
    decreases |ms|
  {
    if |ms| > 0 {
      var b :| 0 <= b < |jobs| && jobs[b].jobId == ms[0].jobId;
      JoinJobOne(ms[0], jobs, b);
      JoinJobsOneToOne(ms[1..], jobs);
      var r := JoinJobs(ms, jobs);
      assert r == [JobMatch(ms[0], jobs[b])] + JoinJobs(ms[1..], jobs);
      forall i | 0 < i < |ms| ensures r[i] == JoinJobs(ms[1..], jobs)[i - 1] && ms[i] == ms[1..][i - 1] { }
    }
  }

  /** Likewise for the join back to the jobseekers. */
  lemma {:induction false} JoinJobseekersOneToOne(ws: seq<JobMatch>, seekers: seq<Jobseeker>)
    requires UniqueJobseekerIds(seekers)
    requires forall i :: 0 <= i < |ws| ==>
      exists a :: 0 <= a < |seekers| && seekers[a].jobseekerId == ws[i].m.jobseekerId
    ensures |JoinJobseekers(ws, seekers)| == |ws|
    ensures forall i :: 0 <= i < |ws| ==>
      JoinJobseekers(ws, seekers)[i].m == ws[i].m && JoinJobseekers(ws, seekers)[i].job == ws[i].job
      && JoinJobseekers(ws, seekers)[i].seeker in seekers
      && JoinJobseekers(ws, seekers)[i].seeker.jobseekerId == ws[i].m.jobseekerId
    decreases |ws|
  {
    if |ws| > 0 {
      var a :| 0 <= a < |seekers| && seekers[a].jobseekerId == ws[0].m.jobseekerId;
      JoinSeekerOne(ws[0], seekers, a);
      JoinJobseekersOneToOne(ws[1..], seekers);
      var r := JoinJobseekers(ws, seekers);
      assert r == [FullMatch(ws[0].m, ws[0].job, seekers[a])] + JoinJobseekers(ws[1..], seekers);
      forall i | 0 < i < |ws| ensures r[i] == JoinJobseekers(ws[1..], seekers)[i - 1] && ws[i] == ws[1..][i - 1] { }
    }
  }

  // ---------------------------------------------------------------------------
  // Percentage, projection and the whole pipeline
  // ---------------------------------------------------------------------------

  /** `matching_skill_percent`, the exact value of 100 * count / num_skills. */
  function Percent(count: nat, numSkills: nat): Ratio {
    Ratio(100 * count, numSkills)
  }

  /** The percentage is the exact quotient 100 * count / num_skills when the
      job has tokens, and null when `num_skills` is null. */
  lemma PercentValue(count: nat, numSkills: nat)
    ensures numSkills > 0 ==>
      Rank(Percent(count, numSkills)) == 0
      && (Percent(count, numSkills).num as real) / (Percent(count, numSkills).den as real)
         == 100.0 * (count as real) / (numSkills as real)
    ensures numSkills == 0 ==> Rank(Percent(count, numSkills)) == 1
  {
  }

  /** Adds the percentage and keeps the six output columns. */
  function Project(f: FullMatch): ResultRow {
    ResultRow(
      f.m.jobseekerId, f.seeker.jobseekerName, f.m.jobId, f.job.jobTitle,
      f.m.matchingSkillCount, Percent(f.m.matchingSkillCount, f.job.numSkills))
  }

  function ProjectAll(fs: seq<FullMatch>): seq<ResultRow> {
    seq(|fs|, i requires 0 <= i < |fs| => Project(fs[i]))
  }

  /** The result rows before the final sort, in the order the engine happens
      to produce them. */
  function Scored(seekers: seq<Jobseeker>, jobs: seq<Job>): seq<ResultRow> {
    var groups := GroupCount(SkillJoin(seekers, jobs));
    ProjectAll(JoinJobseekers(JoinJobs(groups, jobs), seekers))
  }

  /** The source's `match_jobs_from_frames`. The result is sorted by
      `jobseeker_id` ascending, then percentage descending, then `job_id`
      ascending, and holds exactly the scored rows: the sort adds, drops and
      changes nothing. */
  function MatchJobsFromFrames(jobseekers: seq<RawJobseeker>, jobs: seq<RawJob>): (out: seq<ResultRow>)
    ensures Sorted(out)
    ensures var r := ReformatInputs(jobseekers, jobs);
            multiset(out) == multiset(Scored(r.jobseekers, r.jobs))
  {
    var r := ReformatInputs(jobseekers, jobs);
    SortRows(Scored(r.jobseekers, r.jobs))
  }

  // ---------------------------------------------------------------------------
  // What the result holds
  // ---------------------------------------------------------------------------

  /** The reference result row for a jobseeker and a job, computed from the
      raw rows: the count of equal token pairs and its percentage of the
      job's tokens. */
  function ExpectedRow(s: RawJobseeker, j: RawJob): ResultRow {
    var mine := ParseSkills(s.skills);
    var wanted := ParseSkills(j.requiredSkills);
    var count := MatchPairs(mine, wanted);
    ResultRow(s.id, s.name, j.id, j.title, count, Ratio(100 * count, |wanted|))
  }

  /** Jobseeker `a` and job `b` share a skill token after parsing. */
  predicate Overlaps(jobseekers: seq<RawJobseeker>, jobs: seq<RawJob>, a: int, b: int)
    requires 0 <= a < |jobseekers| && 0 <= b < |jobs|
  {
    SharesToken(ParseSkills(jobseekers[a].skills), ParseSkills(jobs[b].requiredSkills))
  }

  /** The reference result row for a preprocessed jobseeker and job. */
  function ExpectedParsed(s: Jobseeker, j: Job): ResultRow {
    var count := MatchPairs(s.skills, j.requiredSkills);
    ResultRow(s.jobseekerId, s.jobseekerName, j.jobId, j.jobTitle, count, Ratio(100 * count, j.numSkills))
  }

  /** Every group of the skill join belongs to an existing jobseeker and an
      existing job, and counts their equal token pairs. */
  lemma GroupsFromTables(seekers: seq<Jobseeker>, jobs: seq<Job>, i: int)
    requires UniqueJobseekerIds(seekers) && UniqueJobIds(jobs)
    requires 0 <= i < |GroupCount(SkillJoin(seekers, jobs))|
    ensures var g := GroupCount(SkillJoin(seekers, jobs))[i];
            exists a, b :: 0 <= a < |seekers| && 0 <= b < |jobs|
              && g.jobseekerId == seekers[a].jobseekerId && g.jobId == jobs[b].jobId
              && g.matchingSkillCount == MatchPairs(seekers[a].skills, jobs[b].requiredSkills)
  {
    var keys := SkillJoin(seekers, jobs);
    var g := GroupCount(keys)[i];
    SkillJoinCount(seekers, jobs, g.jobseekerId, g.jobId);
    assert multiset(keys)[KeyOf(g)] >= 1;
    var a :| 0 <= a < |seekers| && seekers[a].jobseekerId == g.jobseekerId;
    var b :| 0 <= b < |jobs| && jobs[b].jobId == g.jobId;
    SeekerTokensOfUnique(seekers, a);
    JobTokensOfUnique(jobs, b);
  }

  /** Every existing jobseeker and job that share a token meet in the skill join. */
  lemma OverlapInJoin(seekers: seq<Jobseeker>, jobs: seq<Job>, a: int, b: int)
    requires UniqueJobseekerIds(seekers) && UniqueJobIds(jobs)
    requires 0 <= a < |seekers| && 0 <= b < |jobs|
    requires SharesToken(seekers[a].skills, jobs[b].requiredSkills)
    ensures PairKey(seekers[a].jobseekerId, jobs[b].jobId) in SkillJoin(seekers, jobs)
  {
    var k := PairKey(seekers[a].jobseekerId, jobs[b].jobId);
    SkillJoinCount(seekers, jobs, k.jobseekerId, k.jobId);
    SeekerTokensOfUnique(seekers, a);
    JobTokensOfUnique(jobs, b);
    MatchPairsPositive(seekers[a].skills, jobs[b].requiredSkills);
    assert multiset(SkillJoin(seekers, jobs))[k] > 0;
  }

  /** Every existing jobseeker and job that share a token have a group. */
  lemma GroupsCoverTables(seekers: seq<Jobseeker>, jobs: seq<Job>, a: int, b: int)
    requires UniqueJobseekerIds(seekers) && UniqueJobIds(jobs)
    requires 0 <= a < |seekers| && 0 <= b < |jobs|
    requires SharesToken(seekers[a].skills, jobs[b].requiredSkills)
    ensures var groups := GroupCount(SkillJoin(seekers, jobs));
            exists i :: 0 <= i < |groups| && KeyOf(groups[i]) == PairKey(seekers[a].jobseekerId, jobs[b].jobId)
  {
    OverlapInJoin(seekers, jobs, a, b);
    GroupCountCovers(SkillJoin(seekers, jobs), PairKey(seekers[a].jobseekerId, jobs[b].jobId));
  }

  /** Row i of the scored rows is the reference row of its group's pair. */
  lemma ScoredRow(seekers: seq<Jobseeker>, jobs: seq<Job>, groups: seq<Match>, f: FullMatch, i: int)
    requires UniqueJobseekerIds(seekers) && UniqueJobIds(jobs)
    requires groups == GroupCount(SkillJoin(seekers, jobs)) && 0 <= i < |groups|
    requires f.m == groups[i] && f.job in jobs && f.job.jobId == groups[i].jobId
    requires f.seeker in seekers && f.seeker.jobseekerId == groups[i].jobseekerId
    ensures exists a, b :: 0 <= a < |seekers| && 0 <= b < |jobs|
              && SharesToken(seekers[a].skills, jobs[b].requiredSkills)
              && Project(f) == ExpectedParsed(seekers[a], jobs[b])
  {
    GroupsFromTables(seekers, jobs, i);
    var g := groups[i];
    var a, b :| 0 <= a < |seekers| && 0 <= b < |jobs|
      && g.jobseekerId == seekers[a].jobseekerId && g.jobId == jobs[b].jobId
      && g.matchingSkillCount == MatchPairs(seekers[a].skills, jobs[b].requiredSkills);
    var a' :| 0 <= a' < |seekers| && seekers[a'] == f.seeker;
    var b' :| 0 <= b' < |jobs| && jobs[b'] == f.job;
    assert a' == a && b' == b;
    assert g.matchingSkillCount >= 1;
    MatchPairsPositive(seekers[a].skills, jobs[b].requiredSkills);
    assert Project(f) == ExpectedParsed(seekers[a], jobs[b]);
  }

  /** The joins back to the tables keep the groups one to one. */
  lemma JoinedGroups(seekers: seq<Jobseeker>, jobs: seq<Job>)
    requires UniqueJobseekerIds(seekers) && UniqueJobIds(jobs)
    ensures var groups := GroupCount(SkillJoin(seekers, jobs));
            var fs := JoinJobseekers(JoinJobs(groups, jobs), seekers);
            && |fs| == |groups|
            && forall i :: 0 <= i < |groups| ==>
                 fs[i].m == groups[i] && fs[i].job in jobs && fs[i].job.jobId == groups[i].jobId
                 && fs[i].seeker in seekers && fs[i].seeker.jobseekerId == groups[i].jobseekerId
  {
    var groups := GroupCount(SkillJoin(seekers, jobs));
    forall i | 0 <= i < |groups|
      ensures exists b :: 0 <= b < |jobs| && jobs[b].jobId == groups[i].jobId
    {
      GroupsFromTables(seekers, jobs, i);
      var a, b :| 0 <= a < |seekers| && 0 <= b < |jobs| && groups[i].jobId == jobs[b].jobId;
    }
    JoinJobsOneToOne(groups, jobs);
    var ws := JoinJobs(groups, jobs);
    forall i | 0 <= i < |ws|
      ensures exists a :: 0 <= a < |seekers| && seekers[a].jobseekerId == ws[i].m.jobseekerId
    {
      GroupsFromTables(seekers, jobs, i);
      var a, b :| 0 <= a < |seekers| && 0 <= b < |jobs| && groups[i].jobseekerId == seekers[a].jobseekerId;
      assert ws[i].m == groups[i];
    }
    JoinJobseekersOneToOne(ws, seekers);
  }

  /** Every scored row is the reference row of a pair that shares a token,
      and no two scored rows share both ids. */
  lemma ScoredSound(seekers: seq<Jobseeker>, jobs: seq<Job>)
    requires UniqueJobseekerIds(seekers) && UniqueJobIds(jobs)
    ensures var pre := Scored(seekers, jobs);
            && (forall i :: 0 <= i < |pre| ==>
                  exists a, b :: 0 <= a < |seekers| && 0 <= b < |jobs|
                    && SharesToken(seekers[a].skills, jobs[b].requiredSkills)
                    && pre[i] == ExpectedParsed(seekers[a], jobs[b]))
            && (forall i, j :: 0 <= i < j < |pre| ==> RowKey(pre[i]) != RowKey(pre[j]))
  {
    var groups := GroupCount(SkillJoin(seekers, jobs));
    JoinedGroups(seekers, jobs);
    var fs := JoinJobseekers(JoinJobs(groups, jobs), seekers);
    var pre := ProjectAll(fs);
    assert pre == Scored(seekers, jobs);
    forall i | 0 <= i < |pre|
      ensures RowKey(pre[i]) == KeyOf(groups[i])
      ensures exists a, b :: 0 <= a < |seekers| && 0 <= b < |jobs|
                && SharesToken(seekers[a].skills, jobs[b].requiredSkills)
                && pre[i] == ExpectedParsed(seekers[a], jobs[b])
    {
      ScoredRow(seekers, jobs, groups, fs[i], i);
    }
  }

  /** Every pair that shares a token has its reference row among the scored rows. */
  lemma ScoredComplete(seekers: seq<Jobseeker>, jobs: seq<Job>, a: int, b: int)
    requires UniqueJobseekerIds(seekers) && UniqueJobIds(jobs)
    requires 0 <= a < |seekers| && 0 <= b < |jobs|
    requires SharesToken(seekers[a].skills, jobs[b].requiredSkills)
    ensures ExpectedParsed(seekers[a], jobs[b]) in Scored(seekers, jobs)
  {
    var groups := GroupCount(SkillJoin(seekers, jobs));
    JoinedGroups(seekers, jobs);
    var fs := JoinJobseekers(JoinJobs(groups, jobs), seekers);
    var pre := ProjectAll(fs);
    assert pre == Scored(seekers, jobs);
    GroupsCoverTables(seekers, jobs, a, b);
    var i :| 0 <= i < |groups| && KeyOf(groups[i]) == PairKey(seekers[a].jobseekerId, jobs[b].jobId);
    ScoredRow(seekers, jobs, groups, fs[i], i);
    var a', b' :| 0 <= a' < |seekers| && 0 <= b' < |jobs|
      && SharesToken(seekers[a'].skills, jobs[b'].requiredSkills)
      && Project(fs[i]) == ExpectedParsed(seekers[a'], jobs[b']);
    assert a' == a && b' == b;
    assert pre[i] == ExpectedParsed(seekers[a], jobs[b]);
  }

  // ---------------------------------------------------------------------------
  // Correctness of the pipeline on the raw tables
  // ---------------------------------------------------------------------------

  /** The reference row and the overlap test agree between a raw pair and its
      preprocessed pair. */
  lemma ExpectedAgrees(jobseekers: seq<RawJobseeker>, jobs: seq<RawJob>, a: int, b: int)
    requires 0 <= a < |jobseekers| && 0 <= b < |jobs|
    ensures var r := ReformatInputs(jobseekers, jobs);
            && |r.jobseekers| == |jobseekers| && |r.jobs| == |jobs|
            && ExpectedParsed(r.jobseekers[a], r.jobs[b]) == ExpectedRow(jobseekers[a], jobs[b])
            && (SharesToken(r.jobseekers[a].skills, r.jobs[b].requiredSkills) <==> Overlaps(jobseekers, jobs, a, b))
  {
  }

  /** With unique ids, the result holds exactly one row for every jobseeker
      and job that share a skill token after parsing, and nothing else: that
      row carries the jobseeker's id and name, the job's id and title, the
      number of equal token pairs and its percentage of the job's tokens. */
  lemma MatchJobsCorrect(jobseekers: seq<RawJobseeker>, jobs: seq<RawJob>)
    requires UniqueRawJobseekerIds(jobseekers) && UniqueRawJobIds(jobs)
    ensures var out := MatchJobsFromFrames(jobseekers, jobs);
            && (forall row :: row in out ==>
                  exists a, b :: 0 <= a < |jobseekers| && 0 <= b < |jobs|
                    && Overlaps(jobseekers, jobs, a, b) && row == ExpectedRow(jobseekers[a], jobs[b]))
            && (forall a, b :: 0 <= a < |jobseekers| && 0 <= b < |jobs| && Overlaps(jobseekers, jobs, a, b)
                  ==> ExpectedRow(jobseekers[a], jobs[b]) in out)
            && KeysDistinct(out)
  {
    var r := ReformatInputs(jobseekers, jobs);
    var pre := Scored(r.jobseekers, r.jobs);
    var out := MatchJobsFromFrames(jobseekers, jobs);
    ScoredSound(r.jobseekers, r.jobs);
    KeysDistinctPermutation(pre, out);
    forall row | row in out
      ensures exists a, b :: 0 <= a < |jobseekers| && 0 <= b < |jobs|
                && Overlaps(jobseekers, jobs, a, b) && row == ExpectedRow(jobseekers[a], jobs[b])
    {
      assert row in multiset(pre);
      var i :| 0 <= i < |pre| && pre[i] == row;
      var a, b :| 0 <= a < |r.jobseekers| && 0 <= b < |r.jobs|
        && SharesToken(r.jobseekers[a].skills, r.jobs[b].requiredSkills)
        && pre[i] == ExpectedParsed(r.jobseekers[a], r.jobs[b]);
      ExpectedAgrees(jobseekers, jobs, a, b);
    }
    forall a, b | 0 <= a < |jobseekers| && 0 <= b < |jobs| && Overlaps(jobseekers, jobs, a, b)
      ensures ExpectedRow(jobseekers[a], jobs[b]) in out
    {
      ExpectedAgrees(jobseekers, jobs, a, b);
      ScoredComplete(r.jobseekers, r.jobs, a, b);
      assert ExpectedRow(jobseekers[a], jobs[b]) in multiset(out);
    }
  }

  /** The reference row of a jobseeker and a job that share a token carries
      their ids, the jobseeker's name and the job's title, at least one
      matching pair, and a percentage over the job's positive token count. */
  lemma ExpectedRowFacts(s: RawJobseeker, j: RawJob)
    requires SharesToken(ParseSkills(s.skills), ParseSkills(j.requiredSkills))
    ensures var row := ExpectedRow(s, j);
            && row.jobseekerId == s.id && row.jobseekerName == s.name
            && row.jobId == j.id && row.jobTitle == j.title
            && row.matchingSkillCount >= 1
            && row.matchingSkillPercent.den == |ParseSkills(j.requiredSkills)| >= 1
            && row.matchingSkillPercent.num == 100 * row.matchingSkillCount
  {
    MatchPairsPositive(ParseSkills(s.skills), ParseSkills(j.requiredSkills));
  }

  /** The reference percentage is at most 100 when the jobseeker lists no
      skill token twice; `DuplicatesInflateCount` shows that it can exceed 100
      otherwise. */
  lemma ExpectedPercentAtMostHundred(s: RawJobseeker, j: RawJob)
    requires NoDuplicates(ParseSkills(s.skills))
    ensures ExpectedRow(s, j).matchingSkillPercent.num <= 100 * ExpectedRow(s, j).matchingSkillPercent.den
  {
    MatchPairsBound(ParseSkills(s.skills), ParseSkills(j.requiredSkills));
  }

  /** Every result row names a jobseeker and a job of the inputs, copies the
      jobseeker's name and the job's title, counts at least one matching
      pair, and divides by the job's positive number of parsed tokens. */
  lemma OutputRowFacts(jobseekers: seq<RawJobseeker>, jobs: seq<RawJob>)
    requires UniqueRawJobseekerIds(jobseekers) && UniqueRawJobIds(jobs)
    ensures forall row :: row in MatchJobsFromFrames(jobseekers, jobs) ==>
              && row.matchingSkillCount >= 1
              && row.matchingSkillPercent.den >= 1
              && row.matchingSkillPercent.num == 100 * row.matchingSkillCount
              && (exists a :: 0 <= a < |jobseekers|
                    && jobseekers[a].id == row.jobseekerId && jobseekers[a].name == row.jobseekerName)
              && (exists b :: 0 <= b < |jobs|
                    && jobs[b].id == row.jobId && jobs[b].title == row.jobTitle
                    && row.matchingSkillPercent.den == |ParseSkills(jobs[b].requiredSkills)|)
  {
    MatchJobsCorrect(jobseekers, jobs);
    forall row | row in MatchJobsFromFrames(jobseekers, jobs)
      ensures && row.matchingSkillCount >= 1
              && row.matchingSkillPercent.den >= 1
              && row.matchingSkillPercent.num == 100 * row.matchingSkillCount
              && (exists a :: 0 <= a < |jobseekers|
                    && jobseekers[a].id == row.jobseekerId && jobseekers[a].name == row.jobseekerName)
              && (exists b :: 0 <= b < |jobs|
                    && jobs[b].id == row.jobId && jobs[b].title == row.jobTitle
                    && row.matchingSkillPercent.den == |ParseSkills(jobs[b].requiredSkills)|)
    {
      var a, b :| 0 <= a < |jobseekers| && 0 <= b < |jobs|
        && Overlaps(jobseekers, jobs, a, b) && row == ExpectedRow(jobseekers[a], jobs[b]);
      ExpectedRowFacts(jobseekers[a], jobs[b]);
    }
  }

  /** A result row's percentage is at most 100 when its jobseeker lists no
      skill token twice. */
  lemma PercentAtMostHundred(jobseekers: seq<RawJobseeker>, jobs: seq<RawJob>)
    requires UniqueRawJobseekerIds(jobseekers) && UniqueRawJobIds(jobs)
    ensures forall row, a :: row in MatchJobsFromFrames(jobseekers, jobs)
              && 0 <= a < |jobseekers| && jobseekers[a].id == row.jobseekerId
              && NoDuplicates(ParseSkills(jobseekers[a].skills))
              ==> row.matchingSkillPercent.num <= 100 * row.matchingSkillPercent.den
  {
    MatchJobsCorrect(jobseekers, jobs);
    forall row, a | row in MatchJobsFromFrames(jobseekers, jobs)
      && 0 <= a < |jobseekers| && jobseekers[a].id == row.jobseekerId
      && NoDuplicates(ParseSkills(jobseekers[a].skills))
      ensures row.matchingSkillPercent.num <= 100 * row.matchingSkillPercent.den
    {
      var a', b :| 0 <= a' < |jobseekers| && 0 <= b < |jobs|
        && Overlaps(jobseekers, jobs, a', b) && row == ExpectedRow(jobseekers[a'], jobs[b]);
      assert a' == a;
      ExpectedPercentAtMostHundred(jobseekers[a], jobs[b]);
    }
  }

  /** The order in which the scored rows reach the sort cannot be observed:
      sorting any rearrangement of them gives the same table. */
  lemma SortOrderUnobservable(jobseekers: seq<RawJobseeker>, jobs: seq<RawJob>, arranged: seq<ResultRow>)
    requires UniqueRawJobseekerIds(jobseekers) && UniqueRawJobIds(jobs)
    requires var r := ReformatInputs(jobseekers, jobs);
             multiset(arranged) == multiset(Scored(r.jobseekers, r.jobs))
    ensures SortRows(arranged) == MatchJobsFromFrames(jobseekers, jobs)
  {
    var out := MatchJobsFromFrames(jobseekers, jobs);
    MatchJobsCorrect(jobseekers, jobs);
    KeysDistinctDetermine(out);
    SortedUnique(out, SortRows(arranged));
  }

  /** With unique ids, every sorted arrangement of the scored rows is the
      model's result, whatever sort algorithm produced it: an unstable sort
      cannot give a different table. */
  lemma AnySortAgrees(jobseekers: seq<RawJobseeker>, jobs: seq<RawJob>, sorted: seq<ResultRow>)
    requires UniqueRawJobseekerIds(jobseekers) && UniqueRawJobIds(jobs)
    requires Sorted(sorted)
    requires var r := ReformatInputs(jobseekers, jobs);
             multiset(sorted) == multiset(Scored(r.jobseekers, r.jobs))
    ensures sorted == MatchJobsFromFrames(jobseekers, jobs)
  {
    var out := MatchJobsFromFrames(jobseekers, jobs);
    MatchJobsCorrect(jobseekers, jobs);
    KeysDistinctDetermine(out);
    SortedUnique(out, sorted);
  }

  /** On one jobseeker and one job the result is their reference row when
      they share a token, and empty otherwise. */
  lemma SinglePair(jobseekers: seq<RawJobseeker>, jobs: seq<RawJob>)
    requires |jobseekers| == 1 && |jobs| == 1
    ensures MatchJobsFromFrames(jobseekers, jobs)
            == if Overlaps(jobseekers, jobs, 0, 0) then [ExpectedRow(jobseekers[0], jobs[0])] else []
  {
    var out := MatchJobsFromFrames(jobseekers, jobs);
    var x := ExpectedRow(jobseekers[0], jobs[0]);
    var present := Overlaps(jobseekers, jobs, 0, 0);
    MatchJobsCorrect(jobseekers, jobs);
    assert forall row :: row in out ==> present && row == x;
    OneOrNone(out, x, present);
  }

  // ---------------------------------------------------------------------------
  // Worked cases
  // ---------------------------------------------------------------------------

  lemma StripLeadingSpace(skill: string)
    requires Trimmed(skill)
    ensures Strip([' '] + skill) == skill
  {
    var e: string := [];
    var w: string := [' '];
    assert AllWhitespace(w);
    StripUnique(w, skill, e);
    assert w + skill + e == w + skill;
  }

  lemma SplitTwice(skill: string)
    requires Comma !in skill
    ensures Split(skill + [Comma, ' '] + skill) == [skill, [' '] + skill]
  {
    var spaced := [' '] + skill;
    assert Comma !in spaced;
    assert skill + [Comma, ' '] + skill == skill + [Comma] + spaced;
    SplitAfterPiece(skill, spaced);
    SplitNoComma(spaced);
  }

  lemma NormalizeOne(raw: string, p0: string, t0: string)
    requires Split(raw) == [p0] && Strip(p0) == t0
    ensures Normalize(raw) == [t0]
  {
    assert Normalize(raw)[0] == t0;
  }

  lemma NormalizeTwo(raw: string, p0: string, p1: string, t0: string, t1: string)
    requires Split(raw) == [p0, p1] && Strip(p0) == t0 && Strip(p1) == t1
    ensures Normalize(raw) == [t0, t1]
  {
  }

  lemma ParseOnce(skill: string)
    requires Trimmed(skill) && Comma !in skill
    ensures ParseSkills(Some(skill)) == [skill]
  {
    StripTrimmed(skill);
    SplitNoComma(skill);
    NormalizeOne(skill, skill, skill);
  }

  lemma ParseTwice(skill: string)
    requires Trimmed(skill) && Comma !in skill
    ensures ParseSkills(Some(skill + [Comma, ' '] + skill)) == [skill, skill]
  {
    SplitTwice(skill);
    StripTrimmed(skill);
    StripLeadingSpace(skill);
    NormalizeTwo(skill + [Comma, ' '] + skill, skill, [' '] + skill, skill, skill);
  }

  lemma PairsTwice(skill: string)
    ensures MatchPairs([skill, skill], [skill]) == 2
    ensures SharesToken([skill, skill], [skill])
  {
    var mine, wanted := [skill, skill], [skill];
    assert mine[1..] == wanted && wanted[1..] == [];
    assert Occurrences(wanted, skill) == 1;
    assert MatchPairs(wanted, wanted) == 1;
    assert mine[0] == wanted[0];
  }

  /** A jobseeker listing a skill twice, against a job requiring only that
      skill, is credited with two matching pairs, that is 200 percent. */
  lemma DuplicateSkillsExceedHundred(skill: string)
    requires Trimmed(skill) && Comma !in skill
    ensures MatchJobsFromFrames([RawJobseeker(1, "Ann", Some(skill + [Comma, ' '] + skill))],
                                [RawJob(7, "Analyst", Some(skill))])
            == [ResultRow(1, "Ann", 7, "Analyst", 2, Ratio(200, 1))]
  {
    var s := RawJobseeker(1, "Ann", Some(skill + [Comma, ' '] + skill));
    var j := RawJob(7, "Analyst", Some(skill));
    ParseTwice(skill);
    ParseOnce(skill);
    PairsTwice(skill);
    SinglePair([s], [j]);
  }

  lemma SplitTrailing(skill: string)
    requires Comma !in skill
    ensures Split(skill + [Comma]) == [skill, []]
  {
    var e: string := [];
    assert Comma !in e;
    SplitAfterPiece(skill, e);
    SplitNoComma(e);
    assert skill + [Comma] + e == skill + [Comma];
  }

  lemma ParseTrailingComma(skill: string)
    requires Trimmed(skill) && Comma !in skill
    ensures ParseSkills(Some(skill + [Comma])) == [skill, ""]
  {
    var e: string := [];
    SplitTrailing(skill);
    StripTrimmed(skill);
    StripTrimmed(e);
    NormalizeTwo(skill + [Comma], skill, e, skill, e);
  }

  lemma PairsTrailing(have: string, want: string)
    requires have != want && have != [] && want != []
    ensures MatchPairs([have, ""], [want, ""]) == 1
    ensures SharesToken([have, ""], [want, ""])
  {
    var mine, wanted := [have, ""], [want, ""];
    assert mine[1..] == [""] && wanted[1..] == [""] && [""][1..] == [];
    assert Occurrences(wanted, have) == 0;
    assert Occurrences(wanted, "") == 1;
    assert MatchPairs(mine[1..], wanted) == 1;
    assert mine[1] == wanted[1];
  }

  /** A trailing comma on both sides leaves an empty token on both sides,
      and the two empty tokens match each other even when the named skills
      differ. */
  lemma TrailingCommasMatch(have: string, want: string)
    requires Trimmed(have) && Comma !in have && Trimmed(want) && Comma !in want
    requires have != want && have != [] && want != []
    ensures MatchJobsFromFrames([RawJobseeker(1, "Ann", Some(have + [Comma]))],
                                [RawJob(7, "Analyst", Some(want + [Comma]))])
            == [ResultRow(1, "Ann", 7, "Analyst", 1, Ratio(100, 2))]
  {
    var s := RawJobseeker(1, "Ann", Some(have + [Comma]));
    var j := RawJob(7, "Analyst", Some(want + [Comma]));
    ParseTrailingComma(have);
    ParseTrailingComma(want);
    PairsTrailing(have, want);
    SinglePair([s], [j]);
  }
}
