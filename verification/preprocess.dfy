/**
  Preprocessing of the two input tables: the identifying columns are renamed
  into a `jobseeker_` and a `job_` namespace, both skill columns are parsed
  by the normaliser, and every job gets `num_skills`, the number of its
  parsed required-skill tokens.
 */
module Preprocess {
  import opened SkillText
  import opened Tables

  /** Parses a skill cell; a missing cell gives no tokens at all. */
  function ParseSkills(raw: Option<string>): (tokens: seq<string>)
    ensures raw.None? ==> tokens == []
    ensures raw.Some? ==> |tokens| == CountChar(raw.value, Comma) + 1
    ensures forall i :: 0 <= i < |tokens| ==> Trimmed(tokens[i])
  {
    match raw
    case None => []
    case Some(s) => Normalize(s)
  }

  /** The source's `reformat_inputs`: row by row and in order, the jobseeker's
      `id`/`name` become `jobseeker_id`/`jobseeker_name`, the job's
      `id`/`title` become `job_id`/`job_title`, both skill cells are parsed,
      and `num_skills` is the number of parsed required-skill tokens, that is
      one more than the number of commas in the cell, duplicate and empty
      tokens included. */
  function ReformatInputs(jobseekers: seq<RawJobseeker>, jobs: seq<RawJob>): (r: Reformatted)
    ensures |r.jobseekers| == |jobseekers| && |r.jobs| == |jobs|
    ensures forall i :: 0 <= i < |jobseekers| ==>
      && r.jobseekers[i].jobseekerId == jobseekers[i].id
      && r.jobseekers[i].jobseekerName == jobseekers[i].name
      && r.jobseekers[i].skills == ParseSkills(jobseekers[i].skills)
    ensures forall i :: 0 <= i < |jobs| ==>
      && r.jobs[i].jobId == jobs[i].id
      && r.jobs[i].jobTitle == jobs[i].title
      && r.jobs[i].requiredSkills == ParseSkills(jobs[i].requiredSkills)
      && r.jobs[i].numSkills == |r.jobs[i].requiredSkills|
      && (jobs[i].requiredSkills.Some? ==>
            r.jobs[i].numSkills == CountChar(jobs[i].requiredSkills.value, Comma) + 1)
    ensures UniqueRawJobseekerIds(jobseekers) ==> UniqueJobseekerIds(r.jobseekers)
    ensures UniqueRawJobIds(jobs) ==> UniqueJobIds(r.jobs)
  {
    var seekers := seq(|jobseekers|, i requires 0 <= i < |jobseekers| =>
      Jobseeker(jobseekers[i].id, jobseekers[i].name, ParseSkills(jobseekers[i].skills)));
    var parsedJobs := seq(|jobs|, i requires 0 <= i < |jobs| =>
      var tokens := ParseSkills(jobs[i].requiredSkills);
      Job(jobs[i].id, jobs[i].title, tokens, |tokens|));
    Reformatted(parsedJobs, seekers)
  }
}
