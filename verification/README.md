# jobmatcher skill-overlap matching, modelled in Dafny

jobmatcher ranks jobs for jobseekers by skill overlap. Both input tables carry a
comma-separated skill string in each row: jobseekers have `id`, `name` and
`skills`, jobs have `id`, `title` and `required_skills`. The pipeline runs in
two steps.

- `reformat_inputs` renames the identifying columns into a `jobseeker_` and a
  `job_` namespace. It splits every skill string on `","` and strips
  whitespace from every piece. It gives every job `num_skills`, the number of
  its parsed tokens.
- `match_jobs_from_frames` explodes both tables to one row per token and
  inner-joins them on equal tokens. It counts the joined rows per
  `(jobseeker_id, job_id)` as `matching_skill_count`, joins the jobs and the
  jobseekers back, and computes `matching_skill_percent = 100 * count /
  num_skills`. It keeps six columns and sorts by `jobseeker_id` ascending,
  then the percentage descending, then `job_id` ascending.

The model states each step as a pure function over sequences of records.
Every step is paired with a reference definition or an inverse, and lemmas
connect the two.

| file | module | what it holds |
|---|---|---|
| `skill_text.dfy` | `SkillText` | splitting on commas (with `Join` as its inverse), Unicode whitespace stripping, the normaliser |
| `tables.dfy` | `Tables` | the records of the input, intermediate and result tables, and id uniqueness |
| `preprocess.dfy` | `Preprocess` | `reformat_inputs` |
| `overlap.dfy` | `Overlap` | the reference count: the number of equal token pairs |
| `relational.dfy` | `Relational` | explode, equi-join on tokens, group-by-count |
| `ordering.dfy` | `Ordering` | exact percentage comparison, the three-key order, the sort |
| `matcher.dfy` | `Matcher` | join-back, percentage, projection and sort, and the end-to-end theorems |

A percentage is the exact ratio `Ratio(100 * count, num_skills)`. Two ratios
are compared by cross-multiplication, which `Ordering.AtMostExact` shows is the
order of their quotients.

## Model

| member | source | states |
|---|---|---|
| SkillText.Split | src/jobmatcher/matcher.py:72 | splitting on `","` gives one more piece than there are commas, so empty pieces (from `""`, `",,"` or a trailing comma) are kept, and no piece contains a comma |
| SkillText.JoinSplit | src/jobmatcher/matcher.py:72 | splitting loses nothing: joining the pieces with commas gives back the original string |
| SkillText.SplitJoin | src/jobmatcher/matcher.py:72 | splitting inverts joining: comma-free pieces joined with commas split back into exactly those pieces |
| SkillText.Strip | src/jobmatcher/matcher.py:72 | `strip_chars()` gives a token with no whitespace at either end, obtained from the input by cutting off a whitespace-only prefix and a whitespace-only suffix |
| SkillText.StripUnique | src/jobmatcher/matcher.py:72 | a trimmed core surrounded by whitespace strips to exactly that core, so stripping is determined by its contract |
| SkillText.StripIdempotent | src/jobmatcher/matcher.py:72 | stripping twice is stripping once |
| SkillText.StripTrimmed | src/jobmatcher/matcher.py:72 | stripping leaves a token with no outer whitespace unchanged |
| SkillText.Normalize | src/jobmatcher/matcher.py:72 | the normaliser gives commas + 1 tokens, each without leading or trailing whitespace |
| SkillText.NormalizeJoin | src/jobmatcher/matcher.py:72 | skills written with commas between them normalise to the stripped skills, one token per skill, in order |
| SkillText.WhitespaceTolerance | src/jobmatcher/matcher.py:72 | whitespace around a single skill does not change its token: `" SQL "` normalises to `["SQL"]` |
| SkillText.TrailingCommaKeepsEmptyToken | src/jobmatcher/matcher.py:72 | a trailing comma adds an empty token at the end and leaves the other tokens as they were |
| Preprocess.ParseSkills | src/jobmatcher/matcher.py:72-73 | a present cell parses to commas + 1 trimmed tokens; a missing cell parses to no tokens |
| Preprocess.ReformatInputs | src/jobmatcher/matcher.py:55-77 | row by row and in order, `id`/`name` become `jobseeker_id`/`jobseeker_name` and `id`/`title` become `job_id`/`job_title`; both skill cells are parsed; `num_skills` is the length of the parsed list, which for a present cell is one more than its number of commas; unique ids stay unique |
| Overlap.Occurrences | src/jobmatcher/matcher.py:28-31 | the number of job tokens equal to a given token is that token's multiplicity in the job's list |
| Overlap.MatchPairsPositive | src/jobmatcher/matcher.py:28-31 | the pair count is positive exactly when the two lists share a token |
| Overlap.MatchPairsSymmetric | src/jobmatcher/matcher.py:28-29 | the pair count does not depend on which side is the jobseeker, as an equi-join does not |
| Overlap.MatchPairsBound | src/jobmatcher/matcher.py:37 | when the jobseeker lists no token twice, the count is at most the number of job tokens |
| Overlap.DuplicatesInflateCount | src/jobmatcher/matcher.py:27-32 | duplicates are counted once per occurrence: `["SQL", "SQL"]` against `["SQL"]` counts 2 > 1 |
| Relational.ExplodeTokens | src/jobmatcher/matcher.py:28-29 | exploding one entity gives one row per token, in token order, each carrying the entity's id |
| Relational.ExplodeTokensMembers | src/jobmatcher/matcher.py:28-29 | an entity's exploded rows are exactly its id paired with each of its tokens |
| Relational.ExplodeJobseekers | src/jobmatcher/matcher.py:28 | `explode("skills")` on the jobseekers; which rows it holds is stated by `Relational.ExplodeJobseekersMembers`, and how often by `Relational.ExplodeJobseekersCount` |
| Relational.ExplodeJobseekersMembers | src/jobmatcher/matcher.py:28 | the exploded jobseekers hold `(x, t)` if and only if some jobseeker with id `x` has token `t` |
| Relational.ExplodeJobs | src/jobmatcher/matcher.py:29 | `explode("required_skills")` on the jobs; which rows it holds is stated by `Relational.ExplodeJobsMembers`, and how often by `Relational.ExplodeJobsCount` |
| Relational.ExplodeJobsMembers | src/jobmatcher/matcher.py:29 | the exploded jobs hold `(y, t)` if and only if some job with id `y` requires token `t` |
| Relational.JoinOnToken | src/jobmatcher/matcher.py:29 | the inner join on `left_on="skills", right_on="required_skills"`, keeping both ids; its keys are stated by `Relational.JoinOnTokenMembers` |
| Relational.JoinOnTokenMembers | src/jobmatcher/matcher.py:29 | the join holds `(x, y)` if and only if a left row of `x` and a right row of `y` carry the same token |
| Relational.SkillJoin | src/jobmatcher/matcher.py:28-29 | the explode-and-join of the two preprocessed tables; which keys it holds is stated by `Relational.SkillJoinMembers`, and how often by `Relational.SkillJoinCount` |
| Relational.SkillJoinMembers | src/jobmatcher/matcher.py:28-29 | for any ids, the skill join holds `(x, y)` if and only if a jobseeker with id `x` and a job with id `y` have a token in common |
| Relational.ExplodeTokensCount | src/jobmatcher/matcher.py:28 | exploding a jobseeker emits each token as often as it occurs in the parsed list, under that jobseeker's id |
| Relational.ExplodeJobseekersCount | src/jobmatcher/matcher.py:28 | with unique jobseeker ids, exploding the jobseekers emits, for a jobseeker id, its tokens with their multiplicities, and nothing for an absent id |
| Relational.ExplodeJobsCount | src/jobmatcher/matcher.py:29 | exploding the jobs emits, for a job id, its tokens with their multiplicities, and nothing for an absent id |
| Relational.SkillJoinCount | src/jobmatcher/matcher.py:27-30 | with unique ids, the token join holds `(jobseeker_id, job_id)` exactly as many times as there are equal token pairs between the two parsed lists, and never for an absent id |
| Relational.RemoveKey | src/jobmatcher/matcher.py:30-31 | removing a key takes away all its occurrences and leaves every other key's count unchanged |
| Relational.GroupCount | src/jobmatcher/matcher.py:30-31 | group-by-count yields every key of the joined rows exactly once, with its number of occurrences (at least 1) |
| Relational.GroupCountCovers | src/jobmatcher/matcher.py:30-31 | every key of the joined rows has a group |
| Matcher.JoinJob | src/jobmatcher/matcher.py:35 | joining one match to the jobs gives only pairs of that match with a job row of the same `job_id`; `Matcher.JoinJobMembers` adds the converse |
| Matcher.JoinJobMembers | src/jobmatcher/matcher.py:35 | a pair is in one match's join if and only if its job row is one of the jobs with the match's `job_id` |
| Matcher.JoinJobs | src/jobmatcher/matcher.py:35 | `join(jobs, on="job_id")`; its rows are stated by `Matcher.JoinJobsMembers` for any ids and by `Matcher.JoinJobsOneToOne` for unique job ids |
| Matcher.JoinJobsMembers | src/jobmatcher/matcher.py:35 | for any ids, the inner join on `job_id` holds exactly the pairs of a match and a job row with the same `job_id` |
| Matcher.JoinSeeker | src/jobmatcher/matcher.py:36 | joining one job match to the jobseekers gives only extensions of it with a jobseeker row of the same `jobseeker_id`; `Matcher.JoinSeekerMembers` adds the converse |
| Matcher.JoinSeekerMembers | src/jobmatcher/matcher.py:36 | a row is in one job match's join if and only if its jobseeker row is one of the jobseekers with the match's `jobseeker_id` |
| Matcher.JoinJobseekers | src/jobmatcher/matcher.py:36 | `join(jobseekers, on="jobseeker_id")`; its rows are stated by `Matcher.JoinJobseekersMembers` for any ids and by `Matcher.JoinJobseekersOneToOne` for unique jobseeker ids |
| Matcher.JoinJobseekersMembers | src/jobmatcher/matcher.py:36 | for any ids, the inner join on `jobseeker_id` holds exactly the extensions of a job match with a jobseeker row of the same `jobseeker_id` |
| Matcher.Percent | src/jobmatcher/matcher.py:37 | `matching_skill_percent`; its value is stated by `Matcher.PercentValue` |
| Matcher.PercentValue | src/jobmatcher/matcher.py:37 | the percentage is the exact quotient `100 * count / num_skills` when the job has tokens, and null when `num_skills` is null |
| Matcher.Project | src/jobmatcher/matcher.py:37-47 | adds the percentage and keeps the six output columns; `Matcher.ScoredSound` shows every projected row is the reference row of its pair |
| Matcher.ProjectAll | src/jobmatcher/matcher.py:37-47 | projects every joined row, one output row per joined row; specified through `Matcher.ScoredSound` and `Matcher.ScoredComplete` |
| Matcher.Scored | src/jobmatcher/matcher.py:27-47 | the rows before the sort; `Matcher.ScoredSound` and `Matcher.ScoredComplete` state which rows they are |
| Matcher.JoinJobsOneToOne | src/jobmatcher/matcher.py:35 | with unique job ids, joining the groups to the jobs keeps one row per group, with that group's job |
| Matcher.JoinJobseekersOneToOne | src/jobmatcher/matcher.py:36 | with unique jobseeker ids, joining to the jobseekers keeps one row per row, with its jobseeker |
| Matcher.MatchJobsFromFrames | src/jobmatcher/matcher.py:24-52 | the result is sorted by the three keys and holds exactly the scored rows with their multiplicities: the projection and sort add, drop and change nothing |
| Matcher.ScoredSound | src/jobmatcher/matcher.py:27-47 | every scored row is the reference row of a jobseeker and a job that share a token, and no two scored rows share both ids |
| Matcher.ScoredComplete | src/jobmatcher/matcher.py:27-47 | the reference row of every jobseeker and job that share a token is scored |
| Matcher.MatchJobsCorrect | src/jobmatcher/matcher.py:24-52 | with unique ids, the result holds a row for a jobseeker and a job if and only if their parsed lists share a token. That row is the reference row: the ids, the copied name and title, the number of equal token pairs, and 100 times that count over the job's token count. No two rows share both ids |
| Matcher.ExpectedRowFacts | src/jobmatcher/matcher.py:35-46 | the reference row of a jobseeker and a job that share a token carries both ids, the jobseeker's name and the job's title, a count of at least 1, and percentage `100 * count / num_skills` with `num_skills >= 1` |
| Matcher.ExpectedPercentAtMostHundred | src/jobmatcher/matcher.py:37 | the reference percentage is at most 100 when the jobseeker lists no skill token twice |
| Matcher.OutputRowFacts | src/jobmatcher/matcher.py:35-46 | with unique ids, every result row names an input jobseeker and job, copies its name and title, counts at least one pair, and has percentage `100 * count / num_skills` with `num_skills >= 1` |
| Matcher.PercentAtMostHundred | src/jobmatcher/matcher.py:37 | with unique ids, a result row's percentage is at most 100 when its jobseeker lists no skill token twice |
| Matcher.SortOrderUnobservable | src/jobmatcher/matcher.py:48-51 | with unique ids, sorting any arrangement of the scored rows gives the same table, so the engine's row order before the sort does not matter |
| Matcher.AnySortAgrees | src/jobmatcher/matcher.py:48-51 | with unique ids, every sorted arrangement of the scored rows equals the model's result, so any sort algorithm, stable or not, gives the same table |
| Matcher.SinglePair | src/jobmatcher/matcher.py:24-52 | on one jobseeker and one job the result is their reference row if they share a token, and empty otherwise |
| Matcher.DuplicateSkillsExceedHundred | src/jobmatcher/matcher.py:27-37 | a jobseeker listing a skill twice against a job requiring only it gets count 2 and 200 percent |
| Matcher.TrailingCommasMatch | src/jobmatcher/matcher.py:72 | a trailing comma in both cells makes the two empty tokens match: different skills still give count 1 and 50 percent |
| Ordering.AtMostExact | src/jobmatcher/matcher.py:37 | for positive denominators, cross-multiplication orders the percentages as their quotients |
| Ordering.AtMostTransitive | src/jobmatcher/matcher.py:48-51 | the percentage order is transitive, including the null rank |
| Ordering.PrecedesTransitive | src/jobmatcher/matcher.py:48-51 | the three-key row order is transitive |
| Ordering.PrecedesAntisymmetric | src/jobmatcher/matcher.py:48-51 | two rows that may each come first share both ids |
| Ordering.Insert | src/jobmatcher/matcher.py:48-51 | insertion adds exactly the new row and keeps a sorted table sorted |
| Ordering.SortRows | src/jobmatcher/matcher.py:48-51 | the sort returns an ordered permutation of its input |
| Ordering.SortedAdjacent | src/jobmatcher/matcher.py:48-51 | a table is sorted if and only if every row may stand before the next one: `jobseeker_id` non-decreasing, then percentage non-increasing, then `job_id` non-decreasing |
| Ordering.SortedUnique | src/jobmatcher/matcher.py:48-51 | two sorted arrangements of the same rows are equal when both ids determine a row |
| Ordering.KeysDistinctPermutation | src/jobmatcher/matcher.py:48-51 | rearranging rows with distinct keys keeps the keys distinct |

## Left out

- `match_jobs_from_csv` (src/jobmatcher/matcher.py:9-21) only reads two CSV files. That is file I/O, so the model starts from the parsed tables.
- The command line in `src/jobmatcher/__main__.py` parses arguments and writes a CSV file. It is plumbing around the pipeline.
- `tests/test_matcher.py` depends on sample CSV files that are not part of this model.
- Missing skill cells: polars turns an empty CSV cell into null, and null propagates through split, strip and `list.len()`. The model parses a missing cell to no tokens and gives the job `num_skills` 0 instead of null. Either way the row contributes no tokens to the join, so with unique ids no result row can show the difference.
- Floating point: the percentage is the exact ratio `100 * count / num_skills`, not a 64-bit float, so rounding is not modelled.
- Null percentages: the source never divides by zero. A present skills cell always splits into at least one token, and a missing cell gives a null `num_skills`, so the percentage is null. In the model a zero denominator stands for that null percentage. Only duplicate job ids can bring such a row into the result. Nulls are equal to one another and come before every value in the descending percentage column, as a polars sort places nulls first by default.
- Integer width: `pl.len()` gives `matching_skill_count` as an unsigned 32-bit integer, and `100 * matching_skill_count` may be computed in that width. The model's counts and `100 * count` are unbounded, so it does not model the width or a wrap-around, which would need about 43 million equal token pairs for one jobseeker and job.
- Ids are unbounded integers. The source's column type is whatever polars infers from the CSV.
- Missing id, name and title cells: the records' `id`, `name` and `title` fields always hold a value, so null cells in those columns are not modelled. In the source, `group_by` keeps a null id as its own group, but the join-backs on `job_id` and `jobseeker_id` do not match nulls, so every match of a jobseeker or job with a missing id is dropped from the result. A missing name or title is copied through as null.
- Matcher.MatchJobsCorrect, Matcher.OutputRowFacts, Matcher.PercentAtMostHundred, Matcher.SortOrderUnobservable and Matcher.AnySortAgrees assume unique jobseeker ids and unique job ids. With duplicate ids the inner joins multiply rows. The pipeline functions are total and still model that case, but no theorem describes it.
- Ordering.SortRows is an insertion sort. Polars' multi-key sort is not stable and its algorithm is not modelled. With unique ids this cannot show: Matcher.AnySortAgrees proves that every sorted arrangement of the scored rows is the model's result.
- Column lookups that fail (a missing `id`, `skills`, ... column) raise polars exceptions. The model's records always have every field.
- `reformat_inputs`' docstring says the job's `title` is renamed to `job_name`. The code renames it to `job_title`, and the projection selects `job_title`. The model follows the code.
- Whitespace is the Unicode White_Space set, checked by code point. Polars' `strip_chars()` with no argument strips exactly these characters.
