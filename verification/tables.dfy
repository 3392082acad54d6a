/**
  The rows of the job matcher's tables, from the raw input rows through the
  intermediate relational rows to the result rows. Every table is a sequence
  of immutable rows; ids are integers.
 */
module Tables {

  datatype Option<+T> = None | Some(value: T)

  /** An input jobseeker row: columns `id`, `name`, `skills`; a missing
      skills cell is `None`. */
  datatype RawJobseeker = RawJobseeker(id: int, name: string, skills: Option<string>)

  /** An input job row: columns `id`, `title`, `required_skills`. */
  datatype RawJob = RawJob(id: int, title: string, requiredSkills: Option<string>)

  /** A jobseeker after preprocessing: `jobseeker_id`, `jobseeker_name` and the
      parsed skill tokens. */
  datatype Jobseeker = Jobseeker(jobseekerId: int, jobseekerName: string, skills: seq<string>)

  /** A job after preprocessing: `job_id`, `job_title`, the parsed required
      skill tokens and `num_skills`. */
  datatype Job = Job(jobId: int, jobTitle: string, requiredSkills: seq<string>, numSkills: nat)

  /** The pair of preprocessed tables, jobs first as the source returns them. */
  datatype Reformatted = Reformatted(jobs: seq<Job>, jobseekers: seq<Jobseeker>)

  /** One row of an exploded table: an id and one of its skill tokens. */
  datatype TokenRow = TokenRow(id: int, token: string)

  /** The grouping key of the skill join. */
  datatype PairKey = PairKey(jobseekerId: int, jobId: int)

  /** One group of the skill join with its row count, `matching_skill_count`. */
  datatype Match = Match(jobseekerId: int, jobId: int, matchingSkillCount: nat)

  /** A match joined back to its job row. */
  datatype JobMatch = JobMatch(m: Match, job: Job)

  /** A match joined back to its job row and its jobseeker row. */
  datatype FullMatch = FullMatch(m: Match, job: Job, seeker: Jobseeker)

  /** The exact value `num / den` of a percentage; `den == 0` stands for a
      null percentage, the result for a job whose `num_skills` is null. */
  datatype Ratio = Ratio(num: nat, den: nat)

  /** An output row, with the six projected columns. */
  datatype ResultRow = ResultRow(
    jobseekerId: int,
    jobseekerName: string,
    jobId: int,
    jobTitle: string,
    matchingSkillCount: nat,
    matchingSkillPercent: Ratio)

  function KeyOf(m: Match): PairKey {
    PairKey(m.jobseekerId, m.jobId)
  }

  function RowKey(r: ResultRow): PairKey {
    PairKey(r.jobseekerId, r.jobId)
  }

  predicate UniqueRawJobseekerIds(s: seq<RawJobseeker>) {
    forall a, b :: 0 <= a < |s| && 0 <= b < |s| && s[a].id == s[b].id ==> a == b
  }

  predicate UniqueRawJobIds(s: seq<RawJob>) {
    forall a, b :: 0 <= a < |s| && 0 <= b < |s| && s[a].id == s[b].id ==> a == b
  }

  predicate UniqueJobseekerIds(s: seq<Jobseeker>) {
    forall a, b :: 0 <= a < |s| && 0 <= b < |s| && s[a].jobseekerId == s[b].jobseekerId ==> a == b
  }

  predicate UniqueJobIds(s: seq<Job>) {
    forall a, b :: 0 <= a < |s| && 0 <= b < |s| && s[a].jobId == s[b].jobId ==> a == b
  }
}
