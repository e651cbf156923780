# TalentFlow core, modelled in Dafny

TalentFlow is a single-page hiring application. Jobs, candidates, candidate
timelines and notes, assessments and assessment submissions live in a
browser database (Dexie over IndexedDB). A mock HTTP backend answers the
application's REST calls from that database. It injects random write
failures and latency.

This project models the core of the application:

- **The mock backend's route handlers** (`src/mock/handlers.js`) and the
  slug function they use (`makeSlug`, `src/mock/utils.js`):
  - job listing, creation, patching and reordering;
  - candidate listing, creation and patching;
  - timelines and notes;
  - assessments and submissions;
  - the dashboard summary.
- **The form components:**
  - the two assessment builders;
  - the assessment modal;
  - the candidate stage board;
  - the notes panel;
  - the create-candidate and create-job forms;
  - the job modal.
- **The two list pages,** jobs and candidates.

**The database.** It is the class `Database.Db`, with one field per
table. Each table is a `Store.Table` value: the keys in ascending order, the
records by key, and the next key `++id` hands out. The operations `get`,
`add`, `update`, `put`, `delete` and `toArray` are functions on it.

**Handlers.** They are methods with `modifies db`. The random failure of
`shouldFail` is the parameter `fail`. `Date.now()` is the parameter `now`,
and the ISO date string is `nowIso`.

**React components.** Each becomes a class whose fields are the
component's `useState` variables. Each event handler is a method that
reassigns them. Pure computations are functions: the validation rules, the
payload a modal hands to its parent, the comma-separated parsing of choices
and tags, and the filters of the list pages. The specification functions
are shared by the methods and the lemmas.

The JavaScript built-ins the code relies on live in `Text` and `Lists`:

- `toLowerCase`, `trim`, `length` (in UTF-16 code units), `includes`,
  `split`, `join` and `replace(/X+/g, c)`;
- `filter`, `splice`, `slice`, `findIndex` and a stable `sort`.

`Js` holds truthiness and the `x || fallback` idiom.

In places the code does something other than what its names and
messages suggest. There the model does what the code does:

- **`PUT /assessments/:jobId` accepts an empty list of questions.** It
  refuses only a body with no `questions` field, because `[]` is truthy
  (`src/mock/handlers.js:334`).
- **`PATCH /candidates/:id` compares stages case-sensitively.** It
  compares the body's stage with the stored one character for character
  (`src/mock/handlers.js:240`). It then stores the lower-cased stage but
  logs the stage as sent (`MockCandidates.RepeatedStagePatch`).
- **`PATCH /jobs/:id/reorder` sees only jobs that have an `order`.** Dexie's
  `orderBy("order")` skips jobs without that index key. So a job made by
  the create-job page, which sets no order, is answered 404 by a reorder.
- **The assessment modal uses its own type names.** Its question types are
  `single`, `multi`, `short`, … (`AssessmentModal.jsx:129-134`), where the
  builders use `single-choice`, `multi-choice`, `short-text`, … The modal
  also performs no validation.
- **The jobs page never renders its job modal.** `Jobs.jsx` imports
  `JobModal` (`src/pages/Jobs.jsx:4`) and keeps `modalProps`
  (`src/pages/Jobs.jsx:31`), but no element reads either. So the card's
  "Edit" button (`src/pages/Jobs.jsx:214`) only sets state that nothing
  shows, and `handleSaveJob` (`src/pages/Jobs.jsx:79-99`) has no caller.
  The create button navigates to `/job/create` (`src/pages/Jobs.jsx:122`).
  The model keeps `handleSaveJob` as the page defines it (`SavedJob`,
  `JobsList.SaveJob`, `JobsList.AfterSave`): it is what the page would do
  if the modal were rendered.

## Model

| member | source | states |
|---|---|---|
| Store.Table.Rows | src/db/db.js:5-13 | `toArray()` lists every stored record once, in ascending key order, with its key |
| Store.Table.Get | src/db/db.js:5-13 | `get(id)` finds a record exactly when one is stored under `id`, and returns it |
| Store.Table.Add | src/db/db.js:5-13 | `add` stores the record under the next auto-increment key, appends exactly one row to `toArray()`, and leaves every other key as it was |
| Store.Table.AppendValid | src/db/db.js:5-13 | appending under the next key keeps the keys ascending, in range and matched with the records |
| Store.Table.Update | src/db/db.js:5-13 | `update` replaces the record under an existing key in place and does nothing for a missing key; no other key changes |
| Store.Table.Put | src/db/db.js:5-13 | `put` with a key replaces that record or inserts it in key order; afterwards `get` finds it and every other key is untouched |
| Store.Table.InsertValid | src/db/db.js:5-13 | inserting a new key at its place keeps the table well formed |
| Store.Table.Delete | src/db/db.js:5-13 | `delete` removes exactly the row with that key, if any, and keeps the next key |
| Store.Table.RemoveValid | src/db/db.js:5-13 | removing one key keeps the table well formed |
| Store.EmptyTable | src/db/db.js:5-13 | a new table has no rows and hands out key 1 first |
| Store.RemoveKey | src/db/db.js:5-13 | taking one key out of an ascending key list leaves the other keys, still ascending |
| Store.InsertKeySorted | src/db/db.js:5-13 | inserting a new key at its place keeps the list ascending and adds just that key |
| Database.Db.constructor | src/db/db.js:4-13 | a fresh database has six empty tables |
| Js.Or | src/mock/handlers.js:90 | `s \|\| fallback` is the field when it is a non-empty string and the fallback otherwise |
| Text.Lower | src/mock/utils.js:20 | `toLowerCase` maps each character to its lower case and keeps the length |
| Text.LowerIdempotent | src/mock/handlers.js:44 | lower-casing twice is lower-casing once |
| Text.LowerAppend | src/mock/handlers.js:55-56 | lower-casing distributes over concatenation |
| Text.TrimStartSpec | src/components/jobs/JobModal.jsx:23 | `trimStart` drops a leading run of white space and keeps a suffix that does not start with white space |
| Text.TrimEndSpec | src/components/jobs/JobModal.jsx:23 | `trimEnd` drops a trailing run of white space and keeps a prefix that does not end with white space |
| Text.TrimSpec | src/components/jobs/JobModal.jsx:23 | `trim` returns a contiguous part of the string with no white space at either end |
| Text.TrimEmptyIff | src/components/jobs/JobModal.jsx:23 | `!s.trim()` holds exactly when every character of `s` is white space |
| Text.TrimFixed | src/components/jobs/JobModal.jsx:30 | trimming a string with no white space at its ends changes nothing |
| Text.TrimAll | src/components/jobs/JobModal.jsx:30 | `map(t => t.trim())` trims every piece and keeps their number |
| Text.Utf16Length | src/components/jobs/CreateJob.jsx:64 | `length` counts UTF-16 code units: between the number of characters and twice that, and equal to it exactly when no character lies outside the Basic Multilingual Plane |
| Text.Utf16LengthAppend | src/components/jobs/CreateJob.jsx:64 | the length of a concatenation is the sum of the two lengths |
| Text.LexLeTotal | src/mock/handlers.js:65-66 | the `localeCompare` order puts any two strings one way or the other |
| Text.LexLeTransitive | src/mock/handlers.js:65-66 | the `localeCompare` order is transitive |
| Text.Split | src/components/jobs/JobModal.jsx:30 | `split(",")` gives at least one piece and no piece holds the separator |
| Text.SplitNoSeparator | src/components/jobs/JobModal.jsx:30 | a string without the separator splits into itself |
| Text.SplitAtSeparator | src/components/jobs/JobModal.jsx:30 | splitting at the first separator gives the text before it followed by the pieces after it |
| Text.SplitJoin | src/components/AssessmentBuilder.jsx:69 | joining separator-free pieces and splitting again gives the pieces back |
| Text.JoinSplit | src/components/AssessmentBuilder.jsx:69 | splitting and joining with the same separator gives the string back |
| Text.SkipRun | src/mock/utils.js:21 | dropping a leading run of class characters never lengthens the string, and shortens it when it starts with one |
| Text.SkipRunSpec | src/mock/utils.js:21 | what a skipped run leaves is a suffix whose dropped prefix is all class characters and whose first character is not one |
| Text.ReplaceRuns | src/mock/utils.js:21 | `replace(/X+/g, c)` never lengthens the string and begins with `c` exactly when the string begins with a class character |
| Text.ReplaceRunsRunFree | src/mock/utils.js:21 | after the replacement every class character is `c`, standing alone |
| Text.ReplaceRunsFixed | src/mock/utils.js:21 | a string already in that form is left unchanged |
| Text.ReplaceRunsIdempotent | src/mock/utils.js:21 | replacing runs twice is replacing them once |
| Text.Keep | src/mock/utils.js:21 | the characters outside the class, in order |
| Text.KeepSkipRun | src/mock/utils.js:21 | skipping a run of class characters loses no character outside the class |
| Text.ReplaceRunsKeep | src/mock/utils.js:21 | run replacement keeps every character outside the class, in order |
| Slug.StripDashes | src/mock/utils.js:22 | `replace(/(^-\|-$)/g, "")` never lengthens the string |
| Slug.ReplaceRunsChars | src/mock/utils.js:21 | every character after a run replacement is the replacement or outside the class |
| Slug.Collapsed | src/mock/utils.js:20-21 | after lower-casing and collapsing, only `a-z`, `0-9` and single dashes remain |
| Slug.StripDashesIsSlug | src/mock/utils.js:22 | stripping one dash at each end of such a string leaves a slug: no dash at either end and none doubled |
| Slug.MakeSlugIsSlug | src/mock/utils.js:18-22 | every `makeSlug` result holds only `a-z`, `0-9` and `-`, never two dashes in a row, and no dash at either end |
| Slug.MakeSlugKeeps | src/mock/utils.js:18-22 | `makeSlug` keeps every lower-cased letter and digit of the title, in order |
| Slug.MakeSlugEmptyIff | src/mock/utils.js:18-22 | the slug is empty exactly when the title holds no ASCII letter or digit |
| Slug.MakeSlugOfSlug | src/mock/utils.js:18-22 | a slug is its own slug |
| Slug.MakeSlugIdempotent | src/mock/utils.js:18-22 | `makeSlug(makeSlug(t)) == makeSlug(t)` |
| Slug.ReplaceRunsPlain | src/mock/utils.js:21 | a prefix with no class character passes through run replacement unchanged |
| Slug.ReplaceRunsKept | src/mock/utils.js:21 | a character outside the class is copied as it is |
| Slug.PlainFixed | src/mock/utils.js:21 | a word of slug characters is left alone by the replacement |
| Slug.StripDashesNoop | src/mock/utils.js:22 | a string with no dash at either end is left alone by the dash strip |
| Slug.CollapseTwoWords | src/mock/utils.js:21 | two slug words joined by a space become the words joined by one dash |
| Slug.SeniorEngineer | src/mock/utils.js:18-22 | "Senior Engineer" becomes "senior-engineer" |
| Slug.DashSlug | src/components/jobs/CreateJob.jsx:71 | `toLowerCase().replace(/\s+/g, "-")` never lengthens the title and is empty only for an empty title |
| Slug.DashSlugNoSpace | src/components/jobs/CreateJob.jsx:71 | that slug holds no white space, and a title without white space is only lower-cased |
| Lists.Filter | src/mock/handlers.js:53-62 | `filter` keeps at most the elements it is given |
| Lists.FilterIn | src/mock/handlers.js:53-62 | `filter` keeps exactly the elements that satisfy the test |
| Lists.FilterAppend | src/mock/handlers.js:53-62 | filtering a concatenation filters each part |
| Lists.FilterAll | src/components/jobs/JobModal.jsx:30 | a test every element passes keeps the whole list |
| Lists.FilterNone | src/components/jobs/JobModal.jsx:30 | a test no element passes keeps nothing |
| Lists.FilterFilter | src/pages/Candidates.jsx:41-51 | filtering twice is filtering once by both tests |
| Lists.WithoutKeyIn | src/mock/handlers.js:151 | `filter(j => j.id !== id)` keeps exactly the elements with another key |
| Lists.WithoutKeyAbsent | src/mock/handlers.js:151 | without an element of that key, nothing is filtered out |
| Lists.FilterOutUnique | src/mock/handlers.js:151 | with distinct keys, filtering out a key removes that one element at its place |
| Lists.DistinctKeysPermutation | src/mock/handlers.js:153 | a rearrangement of a list with distinct keys has distinct keys |
| Lists.DistinctKeysFilter | src/mock/handlers.js:151 | a filtered part of a list with distinct keys has distinct keys |
| Lists.Find | src/mock/handlers.js:148 | `find` by key returns the first position holding the key, or none when no element has it |
| Lists.Insert | src/mock/handlers.js:64-68 | inserting into a sorted prefix adds exactly that element |
| Lists.SortBy | src/mock/handlers.js:64-68 | `sort` returns a permutation of its input |
| Lists.InsertSorted | src/mock/handlers.js:64-68 | inserting into a sorted list keeps it sorted under a total preorder |
| Lists.SortBySorted | src/mock/handlers.js:64-68 | `sort` with a consistent comparator returns the same elements, ordered by it |
| Lists.FilterTiedInsert | src/mock/handlers.js:64-68 | an inserted element lands ahead of every element it ties with, and leaves the order among the others |
| Lists.SortByStable | src/mock/handlers.js:64-68 | `sort` is stable: the elements that tie with any given element come out in the order they went in |
| Lists.RemoveAt | src/components/AssessmentBuilder.jsx:62 | `splice(i, 1)` removes element `i` and shifts the rest down by one |
| Lists.InsertAt | src/mock/handlers.js:153 | `splice(i, 0, x)` puts `x` at `i`, or at the end for an index past it, and shifts the rest up by one |
| Lists.RemoveInsertMultiset | src/components/candidate/CandidateStages.jsx:64-65 | taking an element out and putting it back elsewhere keeps the same elements |
| Lists.SliceIndex | src/mock/handlers.js:72 | `slice` clamps an index into the list, and keeps one already inside it |
| Lists.Slice | src/mock/handlers.js:72 | `slice` returns at most the whole list |
| Lists.SliceIn | src/mock/handlers.js:72 | every sliced element is an element of the list |
| Lists.PageWindow | src/mock/handlers.js:70-72 | page `p` of size `k` is the window from `(p-1)*k` to `p*k`, holds at most `k` elements, and is empty past the end |
| Lists.PagesCover | src/mock/handlers.js:70-72 | pages 1 to `m` laid end to end are the first `m*k` elements |
| Lists.PagesAppend | src/mock/handlers.js:70-72 | page `m` continues the listing exactly where page `m-1` stopped |
| Lists.WindowAppend | src/mock/handlers.js:70-72 | a prefix followed by the next slice is the longer prefix |
| Paging.CeilDiv | src/pages/Jobs.jsx:125 | `Math.ceil(total / pageSize)` is the least page count whose pages hold every record |
| Paging.PageCount | src/pages/Candidates.jsx:70 | `Math.ceil(total / pageSize) \|\| 1` is at least 1 and the least such count from 1 up |
| Paging.PagingInRange | src/pages/Candidates.jsx:162-173 | Previous and Next keep the page number at least 1, and within the page count when it was |
| Paging.PagingRoundTrip | src/pages/Candidates.jsx:162-173 | Next then Previous, or Previous then Next, away from the ends, returns to the page |
| Paging.ListingCovered | src/pages/Candidates.jsx:55-70 | paging through every page shows each listed record once, in order |
| MockJobs.JobLeTotal | src/mock/handlers.js:64-68 | each of the three sort orders (title, status, order) is a total preorder on jobs |
| MockJobs.MatchingJobsIff | src/mock/handlers.js:52-62 | a job is listed exactly when its title or joined tags contain the search and, when a status is given, its status matches it ignoring case |
| MockJobs.ListJobs | src/mock/handlers.js:39-75 | `GET /jobs` answers the number of matches, and a page of the matches sorted by the comparator; every item is a stored matching job; the page is sorted; page and size default to 1 and 10 |
| MockJobs.ListedJobs | src/mock/handlers.js:52-72 | every job on a page of the listing is stored and matches the search and status |
| MockJobs.PageSorted | src/mock/handlers.js:64-72 | a page of a sorted listing is sorted |
| MockJobs.Suffixed | src/mock/handlers.js:92 | `k` appended `-1` suffixes add `2k` characters |
| MockJobs.FirstFreeUnique | src/mock/handlers.js:90-93 | only one number of `-1` suffixes gives the first free slug, so the stored slug is determined by the stored slugs and the base |
| MockJobs.SecondSeniorEngineer | src/mock/handlers.js:90-93 | with "senior-engineer" taken and "senior-engineer-1" free, a second "Senior Engineer" job gets "senior-engineer-1" |
| MockJobs.FreeSlug | src/mock/handlers.js:90-93 | the loop returns the base slug with the fewest `-1` suffixes that no stored job holds |
| MockJobs.MaxOrder | src/mock/handlers.js:95 | `orderBy("order").last()` is the largest order of a job that has one, or none when no job has one |
| MockJobs.NextOrder | src/mock/handlers.js:95-96 | a new job's order is above every stored order: one past the largest, or 1 |
| MockJobs.CreateJob | src/mock/handlers.js:77-110 | 500 on an injected failure and 400 for a missing title, with nothing stored; otherwise one job is added under the next key, with the title, the first of `base`, `base-1`, `base-1-1`, … that no job held, the lower-cased status or "active", the tags or [], the next order, and no description or requirements |
| MockJobs.Patched | src/mock/handlers.js:130-132 | each field the body carries replaces the job's: title, slug, status (lower-cased), tags, order, description and requirements; the fields not sent stay |
| MockJobs.PatchedTwice | src/mock/handlers.js:130-132 | sending the same patch twice stores what sending it once does |
| MockJobs.PatchJob | src/mock/handlers.js:112-135 | 500 on failure, 404 for an unknown key, and 400 for a supplied slug that another job holds, each storing nothing; otherwise only that job is updated, with the patched record |
| MockJobs.TargetIndex | src/mock/handlers.js:152 | the target index is clamped into the list of the other jobs |
| MockJobs.OrderedJobsRows | src/mock/handlers.js:147 | `orderBy("order").toArray()` lists exactly the stored jobs that have an order, once each |
| MockJobs.ReorderedShape | src/mock/handlers.js:151-153 | the new sequence holds the same jobs, with distinct keys and the moving job at the clamped index |
| MockJobs.RenumberStep | src/mock/handlers.js:155 | numbering one more job extends the renumbered prefix by one |
| MockJobs.RenumberedNothing | src/mock/handlers.js:155 | before the loop nothing is renumbered |
| MockJobs.Renumber | src/mock/handlers.js:155 | each job of the list gets its position plus one as order; every other job stays as it was |
| MockJobs.ReorderJob | src/mock/handlers.js:137-158 | 500 on failure and 404 when the job is not in the order index, storing nothing; otherwise the jobs of the index are renumbered 1..N with the moving job at the clamped position, and the body echoes `fromOrder` and `toOrder` |
| MockJobs.ReorderKeepsUnordered | src/mock/handlers.js:147-155 | a job without an order is never renumbered |
| MockJobs.ReorderNumbersJobs | src/mock/handlers.js:147-155 | the new sequence has as many positions as the order index, distinct jobs, and a position for every job of the index |
| MockJobs.ReorderSlots | src/mock/handlers.js:147-155 | after a reorder position `i` of the new sequence is a job of the index renumbered to `i + 1`, every job of the index has a position, and the jobs outside the index stay |
| MockJobs.ReorderedOrders | src/mock/handlers.js:137-158 | after a reorder every job of the order index holds an order from 1 to N, the moving job holds its clamped target plus one, no other field changes, and jobs without an order stay as they were |
| MockJobs.ReorderedOrdersOneEach | src/mock/handlers.js:147-155 | after a reorder no two jobs of the order index hold the same order, and each order from 1 to N is held |
| MockJobs.KeyPosition | src/mock/handlers.js:153 | a job of the new sequence sits at some position of it |
| MockCandidates.MatchingCandidatesIff | src/mock/handlers.js:173-183 | a candidate is listed exactly when its name or email contains the search and, unless the stage is empty or "all", its stage matches ignoring case |
| MockCandidates.ListCandidates | src/mock/handlers.js:161-190 | `GET /candidates` answers the number of matches and a page of them in store order; page and size default to 1 and 25 |
| MockCandidates.JobIdOrNull | src/mock/handlers.js:208 | `body.jobId \|\| null` keeps a non-zero job id and stores `null` otherwise |
| MockCandidates.CreateCandidate | src/mock/handlers.js:192-224 | 500 on failure and 400 without a name or an email, storing nothing; otherwise the candidate is added with the lower-cased stage or "applied", and one "Candidate created" timeline entry is added |
| MockCandidates.PatchedCandidate | src/mock/handlers.js:239-255 | the stage is lower-cased when it changes, the job id replaced when sent; name, email, phone and resume stay |
| MockCandidates.PatchCandidate | src/mock/handlers.js:226-259 | 500 on failure and 404 for an unknown key, storing nothing; otherwise only that candidate changes, and a timeline entry is added exactly when the stage changes |
| MockCandidates.RepeatedStagePatch | src/mock/handlers.js:240-246 | re-sending a stage patch logs a second change exactly when the first changed the stage and the sent stage had a capital letter |
| MockCandidates.PatchTimelineCount | src/mock/handlers.js:240-248 | a patch adds one timeline entry, for the patched candidate, on a stage change and none otherwise |
| MockCandidates.TimelineSpec | src/mock/handlers.js:261-267 | the timeline holds exactly the candidate's entries, each once, oldest first |
| MockCandidates.NotesSpec | src/mock/handlers.js:269-275 | the notes are exactly the candidate's notes, newest first |
| MockCandidates.AddNote | src/mock/handlers.js:277-292 | 500 on failure and 400 for an empty text, storing nothing; otherwise one note is added with the mentions or [] and the time |
| MockCandidates.AddedNoteListed | src/mock/handlers.js:269-292 | an added note is among its candidate's notes |
| MockCandidates.AddedNoteFirst | src/mock/handlers.js:269-292 | a note stamped later than every stored note of its candidate heads that candidate's notes |
| MockCandidates.PatchedNote | src/mock/handlers.js:298 | each field the body carries replaces the note's: candidate, text, mentions and timestamp; the fields not sent stay |
| MockCandidates.PatchedNoteListed | src/mock/handlers.js:269-301 | a patched note is listed under the candidate it now belongs to, and no longer under the one it left |
| MockCandidates.PatchNote | src/mock/handlers.js:294-301 | the note under that key takes every field the body carries, and the response is the updated note; an unknown key changes nothing and answers nothing |
| MockAssessments.AssessmentsOfJob | src/mock/handlers.js:312-318 | 404 exactly when the job has no assessment; otherwise exactly the job's assessments |
| MockAssessments.AssessmentById | src/mock/handlers.js:320-326 | the stored assessment with that key, or 404 |
| MockAssessments.SavedPayload | src/mock/handlers.js:336 | the body's fields with the route's job id and the save time |
| MockAssessments.SaveAssessment | src/mock/handlers.js:328-340 | 500 on failure and 400 without `questions`, storing nothing; otherwise one new record is always added, even when the job has one |
| MockAssessments.SaveThenRead | src/mock/handlers.js:312-340 | a saved assessment can be read back by its key and among its job's assessments |
| MockAssessments.SubmitAssessment | src/mock/handlers.js:342-355 | 500 on failure and 400 for a missing or zero candidate id or missing answers, storing nothing; otherwise one submission is added |
| MockAssessments.DashboardSummary | src/mock/handlers.js:19-36 | the five counts: all jobs, active jobs ignoring case, all candidates, hired candidates ignoring case, all assessments; each part is at most its whole |
| MockAssessments.CreatedJobCountsActive | src/mock/handlers.js:19-36 | a job created without a status adds one to the active count |
| AssessmentForms.QuestionError | src/components/assessment/AssessmentBuilder.jsx:89-92 | a question passes exactly when its label is not blank and a choice question has an option |
| AssessmentForms.FirstQuestionError | src/components/assessment/AssessmentBuilder.jsx:88-95 | the first faulty question's fault is a label or option fault |
| AssessmentForms.FirstSectionError | src/components/assessment/AssessmentBuilder.jsx:87-95 | the first faulty question over all sections gives a label or option fault |
| AssessmentForms.FirstQuestionErrorNoneIff | src/components/assessment/AssessmentBuilder.jsx:88-95 | no question fault is reported exactly when every question passes |
| AssessmentForms.FirstSectionErrorNoneIff | src/components/assessment/AssessmentBuilder.jsx:87-95 | no fault is reported exactly when every question of every section passes |
| AssessmentForms.TotalQuestionsZeroIff | src/components/assessment/AssessmentBuilder.jsx:85-86 | the total is zero exactly when every section is empty |
| AssessmentForms.ValidationNoneIff | src/components/assessment/AssessmentBuilder.jsx:83-96 | validation passes exactly when the title is not blank, some section has a question, every label is not blank and every choice question has an option |
| AssessmentForms.ValidationOrder | src/components/assessment/AssessmentBuilder.jsx:83-96 | a blank title is reported first, then no questions, then question faults |
| AssessmentForms.Validate | src/components/AssessmentBuilder.jsx:77-98 | the loops of `validateAssessment` return the ordered validation result |
| AssessmentForms.WithSectionTitle | src/components/AssessmentBuilder.jsx:43-47 | only that section's title changes |
| AssessmentForms.WithQuestions | src/components/AssessmentBuilder.jsx:50-58 | only that section's questions change |
| AssessmentForms.TotalQuestionsUpdate | src/components/AssessmentBuilder.jsx:80-83 | changing one section's questions changes the total by the difference |
| AssessmentForms.AppendQuestionCounts | src/components/AssessmentBuilder.jsx:50-58 | adding a question adds one to the total |
| AssessmentForms.RemoveQuestionCounts | src/components/AssessmentBuilder.jsx:60-64 | deleting a question takes one off the total |
| AssessmentForms.FirstSectionErrorAppend | src/components/AssessmentBuilder.jsx:38 | an empty section adds no question fault |
| AssessmentForms.AddSectionKeepsValidation | src/components/AssessmentBuilder.jsx:38 | adding an empty section never changes what validation reports |
| AssessmentForms.ParseChoices | src/components/AssessmentBuilder.jsx:69 | `value.split(",").map(v => v.trim())` gives at least one choice |
| AssessmentForms.ParseJoinedChoices | src/components/AssessmentBuilder.jsx:69 | choices without commas or outer spaces survive the join-and-parse round trip |
| AssessmentForms.AddOptionRoundTrip | src/components/AssessmentBuilder.jsx:225-233 | "+ Add Option" gives the old choices plus one empty choice |
| AssessmentForms.EditOptionRoundTrip | src/components/AssessmentBuilder.jsx:211-219 | editing an option to a comma-free value changes only that option, to the value trimmed |
| AssessmentForms.CommaSplitsOption | src/components/AssessmentBuilder.jsx:211-219 | a comma typed into an option splits it into two options |
| AssessmentForms.TextEdit | src/components/AssessmentBuilder.jsx:66-74 | an edit is produced exactly for the keys "choices", "label" and "type"; any other key adds only a field this model does not keep |
| AssessmentForms.WithEdit | src/components/AssessmentBuilder.jsx:66-74 | an edit keeps the number of sections and of questions |
| AssessmentForms.WithEditKeepsOthers | src/components/AssessmentBuilder.jsx:66-74 | an edit changes only its question: the other questions and sections, the section title and the total stay |
| AssessmentForms.WithEditTwice | src/components/assessment/AssessmentBuilder.jsx:182-189 | two edits of one question compose |
| AssessmentForms.AddQuestionBlocksSave | src/components/AssessmentBuilder.jsx:50-58 | a new unlabelled question blocks saving until it has a label |
| AssessmentForms.DeleteKeepsQuestionsOk | src/components/AssessmentBuilder.jsx:40-64 | deleting a section or a question never makes a question faulty |
| AssessmentForms.SavedSpec | src/components/assessment/AssessmentBuilder.jsx:99-125 | a refused save changes nothing and reports the first fault; an accepted one stores only a valid form, touches only the record it names, and loading that record shows the saved title and sections again |
| AssessmentBuilder.Builder.constructor | src/components/assessment/AssessmentBuilder.jsx:30-32 | the form starts with an empty title and one empty section |
| AssessmentBuilder.Builder.Load | src/components/assessment/AssessmentBuilder.jsx:35-48 | in edit mode a stored assessment fills the form, its sections or one empty section; otherwise the form stays |
| AssessmentBuilder.Builder.AddSection | src/components/assessment/AssessmentBuilder.jsx:51 | one empty section is appended, and validation reports the same |
| AssessmentBuilder.Builder.UpdateSectionTitle | src/components/assessment/AssessmentBuilder.jsx:52-56 | only that section's title changes |
| AssessmentBuilder.Builder.AddQuestion | src/components/assessment/AssessmentBuilder.jsx:57-65 | an unlabelled short-text question is appended to the section, the total grows by one, and saving is blocked |
| AssessmentBuilder.Builder.UpdateQuestion | src/components/assessment/AssessmentBuilder.jsx:66-70 | the value is stored under its key as given, and the total stays |
| AssessmentBuilder.Builder.ChangeType | src/components/assessment/AssessmentBuilder.jsx:182-189 | the type select sets the type and seeds "Option 1" for a choice question without choices |
| AssessmentBuilder.Retyped | src/components/assessment/AssessmentBuilder.jsx:182-189 | a retyped question keeps label and choices, gains "Option 1" only when it becomes a choice question with none, and is never left a choice question without options |
| AssessmentBuilder.Builder.AddOption | src/components/assessment/AssessmentBuilder.jsx:71-75 | an empty choice is appended |
| AssessmentBuilder.Builder.EditOption | src/components/assessment/AssessmentBuilder.jsx:214-218 | only that choice changes, to the typed value |
| AssessmentBuilder.Builder.RemoveOption | src/components/assessment/AssessmentBuilder.jsx:76-80 | that choice is removed, and an index past the end changes nothing |
| AssessmentBuilder.Builder.Save | src/components/assessment/AssessmentBuilder.jsx:99-125 | the database and the outcome are the save specified by `Saved`, whose properties `SavedSpec` states |
| CommaAssessmentBuilder.Builder.constructor | src/components/AssessmentBuilder.jsx:17-18 | the form starts with an empty title and one empty section |
| CommaAssessmentBuilder.Builder.Load | src/components/AssessmentBuilder.jsx:22-35 | in edit mode a stored assessment fills the form; otherwise the form stays |
| CommaAssessmentBuilder.Builder.AddSection | src/components/AssessmentBuilder.jsx:38 | one empty section is appended, and validation reports the same |
| CommaAssessmentBuilder.Builder.DeleteSection | src/components/AssessmentBuilder.jsx:40-41 | that section is removed, an index past the end changes nothing, and no question becomes faulty |
| CommaAssessmentBuilder.Builder.UpdateSectionTitle | src/components/AssessmentBuilder.jsx:43-47 | only that section's title changes |
| CommaAssessmentBuilder.Builder.AddQuestion | src/components/AssessmentBuilder.jsx:50-58 | an unlabelled short-text question is appended, the total grows by one, and saving is blocked |
| CommaAssessmentBuilder.Builder.DeleteQuestion | src/components/AssessmentBuilder.jsx:60-64 | that question is removed, the total falls by one, and no question becomes faulty |
| CommaAssessmentBuilder.Builder.UpdateQuestion | src/components/AssessmentBuilder.jsx:66-74 | the edit `TextEdit` reads from the key and the string is applied to that question |
| CommaAssessmentBuilder.Builder.AddOption | src/components/AssessmentBuilder.jsx:225-233 | the joined choices plus "" are parsed back, so plain choices gain one empty choice |
| CommaAssessmentBuilder.Builder.EditOption | src/components/AssessmentBuilder.jsx:211-219 | the choices with the option replaced are joined and parsed back, so for plain choices only that option changes, to the value trimmed |
| CommaAssessmentBuilder.Builder.Save | src/components/AssessmentBuilder.jsx:101-127 | the database and the outcome are the save specified by `Saved` |
| AssessmentModal.Payload | src/components/assessment/AssessmentModal.jsx:50-60 | the payload takes the form's title and sections, keeps the assessment's key and other fields (no key when the modal was opened on nothing), and keeps its job and creation time when they are set, falling back to the first job (or 0) and the current time |
| AssessmentModal.ReopenedUnchanged | src/components/assessment/AssessmentModal.jsx:14-22 | opening on an assessment that has sections, a truthy job and a creation time, and saving without an edit, hands it back unchanged, key included |
| AssessmentModal.PayloadIdempotent | src/components/assessment/AssessmentModal.jsx:50-60 | saving the payload of a save again gives the same payload |
| AssessmentModal.Modal.constructor | src/components/assessment/AssessmentModal.jsx:11-12 | the form starts empty, with no sections |
| AssessmentModal.Modal.Load | src/components/assessment/AssessmentModal.jsx:14-22 | the form shows the assessment's title and sections (or none), or is emptied |
| AssessmentModal.Modal.AddSection | src/components/assessment/AssessmentModal.jsx:24 | one empty section is appended |
| AssessmentModal.Modal.DeleteSection | src/components/assessment/AssessmentModal.jsx:103 | that section is removed; an index past the end changes nothing |
| AssessmentModal.Modal.UpdateSectionTitle | src/components/assessment/AssessmentModal.jsx:25-29 | only that section's title changes |
| AssessmentModal.Modal.AddQuestion | src/components/assessment/AssessmentModal.jsx:30-34 | a required, unlabelled "short" question is appended and the total grows by one |
| AssessmentModal.Modal.UpdateQuestion | src/components/assessment/AssessmentModal.jsx:35-43 | the edit read from the key and the string is applied to that question |
| AssessmentModal.Modal.DeleteQuestion | src/components/assessment/AssessmentModal.jsx:138-140 | that question is removed and the total falls by one |
| AssessmentModal.Modal.AddOption | src/components/assessment/AssessmentModal.jsx:166-170 | plain choices gain one empty choice after the join-and-parse round trip |
| AssessmentModal.Modal.EditOption | src/components/assessment/AssessmentModal.jsx:158-162 | for plain choices only that option changes, to the value trimmed |
| AssessmentModal.Modal.SaveClick | src/components/assessment/AssessmentModal.jsx:50-60 | the payload handed to the parent is `Payload` of the form |
| CandidateStages.Layout | src/components/candidate/CandidateStages.jsx:20-36 | one column per stage, holding the candidate's card only in the column of its stage |
| CandidateStages.BuildBoard | src/components/candidate/CandidateStages.jsx:20-36 | the board has exactly the six stage columns and one card at most per column, in the candidate's stage |
| CandidateStages.BoardHoldsOneCard | src/components/candidate/CandidateStages.jsx:20-36 | a built board holds the candidate's card exactly once when its stage is a column, and no card otherwise |
| CandidateStages.ReplaceColumn | src/components/candidate/CandidateStages.jsx:63-66 | replacing one column changes the cards on the board by that column's difference |
| CandidateStages.Moved | src/components/candidate/CandidateStages.jsx:63-66 | a move keeps the board's columns |
| CandidateStages.RemoveAtMultiset | src/components/candidate/CandidateStages.jsx:64 | `splice(i, 1)` takes exactly that card out |
| CandidateStages.InsertAtMultiset | src/components/candidate/CandidateStages.jsx:65 | `splice(j, 0, x)` puts exactly that card in |
| CandidateStages.TakeOut | src/components/candidate/CandidateStages.jsx:64 | taking a card out of a column takes it off the board |
| CandidateStages.PutIn | src/components/candidate/CandidateStages.jsx:65 | putting a card into a column puts it on the board |
| CandidateStages.MovedKeepsCardsOn | src/components/candidate/CandidateStages.jsx:63-66 | a drag keeps the same cards on any distinct list of columns holding both ends |
| CandidateStages.MovedKeepsCards | src/components/candidate/CandidateStages.jsx:63-66 | a drag between stage columns keeps the same cards on the board |
| CandidateStages.MoveInLayout | src/components/candidate/CandidateStages.jsx:42-66 | dragging the card of a laid-out board gives the layout of the candidate at the new stage |
| CandidateStages.DragAgreesWithRebuild | src/components/candidate/CandidateStages.jsx:38-66 | the board after a drag is the board the effect rebuilds from the moved candidate |
| CandidateStages.StageBoard.constructor | src/components/candidate/CandidateStages.jsx:17-18 | the board starts empty beside the page's candidate and timeline |
| CandidateStages.StageBoard.Rebuild | src/components/candidate/CandidateStages.jsx:38-40 | the effect sets the board built from the candidate |
| CandidateStages.StageBoard.HandleDragEnd | src/components/candidate/CandidateStages.jsx:42-67 | a drop outside changes nothing; a drop on another column moves the candidate to it and logs one change; the card is moved and no card is lost or duplicated |
| CandidateNote.AddNote | src/components/candidate/CandidateNote.jsx:13-23 | a blank note changes nothing; otherwise one note keyed by the click time is appended and the input cleared |
| CandidateNote.DeleteNote | src/components/candidate/CandidateNote.jsx:25-27 | deleting never adds a note |
| CandidateNote.DeleteNoteSpec | src/components/candidate/CandidateNote.jsx:25-27 | deletion keeps exactly the notes with another key, and with distinct keys removes the one note at its place |
| CandidateNote.AddThenDelete | src/components/candidate/CandidateNote.jsx:13-27 | deleting the note just added restores the notes |
| CandidateNote.Retext | src/components/candidate/CandidateNote.jsx:31-33 | only the text of notes with that key changes |
| CandidateNote.UpdateNote | src/components/candidate/CandidateNote.jsx:29-35 | a blank text changes nothing and keeps the dialog open; otherwise the notes are retexted and the dialog closes |
| CandidateNote.RetextThenDelete | src/components/candidate/CandidateNote.jsx:25-35 | an edit touches only the notes it names |
| CandidateNote.RetextIdempotent | src/components/candidate/CandidateNote.jsx:29-35 | saving the same edit twice changes nothing more |
| CreateCandidate.FormFaultSpec | src/components/candidate/CreateCandidate.jsx:35-36 | the form passes exactly when name and email are not blank; a blank name is reported first |
| CreateCandidate.CreateSpec | src/components/candidate/CreateCandidate.jsx:34-57 | a refused save stores nothing; otherwise exactly one candidate is added under the next key with the form's fields and the resume's file name |
| CreateCandidate.CandidateForm.constructor | src/components/candidate/CreateCandidate.jsx:27-31 | the form starts empty at stage "applied" without a resume |
| CreateCandidate.CandidateForm.SetStage | src/components/candidate/CreateCandidate.jsx:137-147 | the stage select sets the stage |
| CreateCandidate.CandidateForm.SetResume | src/components/candidate/CreateCandidate.jsx:167 | the file input sets the resume |
| CreateCandidate.CandidateForm.HandleSave | src/components/candidate/CreateCandidate.jsx:34-57 | the database and the outcome are the creation `CreateSpec` describes |
| CreateCandidate.CreateTwice | src/components/candidate/CreateCandidate.jsx:48 | saving the same form twice stores two candidates: nothing prevents duplicates |
| CreateJob.FormFaultNoneIff | src/components/jobs/CreateJob.jsx:63-67 | the checks pass exactly when the title is not blank, the trimmed description is at least 10 UTF-16 code units long, and some requirement is not blank |
| CreateJob.AstralDescription | src/components/jobs/CreateJob.jsx:64 | five U+1F680 characters pass the length check as ten code units, while nine ASCII letters are refused as too short |
| CreateJob.NewJobRequirements | src/components/jobs/CreateJob.jsx:79-85 | a job that passed the checks keeps at least one requirement, none empty |
| CreateJob.AddedSlugUnique | src/components/jobs/CreateJob.jsx:71-79 | a job added after the slug look-up found nothing is the only job with its slug |
| CreateJob.JobForm.constructor | src/components/jobs/CreateJob.jsx:29-32 | the form starts empty, "Active", with one empty requirement row |
| CreateJob.JobForm.AddRequirement | src/components/jobs/CreateJob.jsx:35-36 | one empty row is appended |
| CreateJob.JobForm.RemoveRequirement | src/components/jobs/CreateJob.jsx:37-41 | the row goes only when more than one row is left; the form always keeps a row |
| CreateJob.JobForm.UpdateRequirement | src/components/jobs/CreateJob.jsx:42-46 | only that row changes |
| CreateJob.JobForm.HandleSave | src/components/jobs/CreateJob.jsx:62-95 | the three checks in order, then a refusal when a job holds the slug, each storing nothing; otherwise the job is added under the next key |
| JobModal.Tags | src/components/jobs/JobModal.jsx:30 | every tag read from the tag line is non-empty, trimmed and comma-free, and a blank line gives no tags |
| JobModal.ReadTags | src/components/jobs/JobModal.jsx:30 | the split, trim and filter pipeline yields only such tags |
| JobModal.PlainPieces | src/components/jobs/JobModal.jsx:30 | comma-free pieces, trimmed and filtered, are plain tags |
| JobModal.BlankPieces | src/components/jobs/JobModal.jsx:30 | a blank line gives no tags |
| JobModal.TrimmedPiece | src/components/jobs/JobModal.jsx:30 | a trimmed piece has no outer white space and no comma |
| JobModal.AllSpaceSplit | src/components/jobs/JobModal.jsx:30 | every piece of a blank line is blank |
| JobModal.Save | src/components/jobs/JobModal.jsx:22-34 | a blank title is refused; otherwise the job takes the typed title, the slug of the trimmed title, the status and the parsed tags, and keeps its other fields |
| JobModal.SavedSlugHasNoSpace | src/components/jobs/JobModal.jsx:28 | a saved slug holds no white space |
| JobModal.Spaced | src/components/jobs/JobModal.jsx:12 | `join(", ")` as a join with "," of space-prefixed tags |
| JobModal.JoinPrefixHead | src/components/jobs/JobModal.jsx:12 | a prefix on the first piece is a prefix of the join |
| JobModal.JoinSpaced | src/components/jobs/JobModal.jsx:12 | joining with ", " is joining the space-prefixed tags with "," |
| JobModal.TrimSpaceFront | src/components/jobs/JobModal.jsx:30 | trimming a space-prefixed plain tag gives the tag |
| JobModal.TagsRoundTrip | src/components/jobs/JobModal.jsx:12-30 | tags shown with ", " and read back on save are the same tags |
| JobModal.SplitSpaced | src/components/jobs/JobModal.jsx:12-30 | splitting the shown line at "," gives the space-prefixed tags |
| JobModal.TrimSpaced | src/components/jobs/JobModal.jsx:30 | trimming the space-prefixed tags gives the tags |
| JobModal.ReopenedJob | src/components/jobs/JobModal.jsx:8-34 | opening on a stored job and saving without an edit hands the job back with only its slug recomputed |
| JobModal.SaveIdempotent | src/components/jobs/JobModal.jsx:8-34 | reopening a saved payload and saving again gives the same payload |
| JobsPage.VisibleIff | src/pages/Jobs.jsx:46-57 | a job is listed exactly when stored, matching a non-empty search on title or status ignoring case, and of the chosen status unless "All" |
| JobsPage.PageStats | src/pages/Jobs.jsx:128-131 | the stats show the total, and the three status counts never exceed the page |
| JobsPage.StatusCounts | src/pages/Jobs.jsx:129-131 | no job is counted under two statuses |
| JobsPage.NextAsWrittenLeavesFirstPage | src/pages/Jobs.jsx:125 | the page count is 0 exactly when no job is listed; then Next stays enabled on every page from 1 up and moves to page 0; otherwise Next as written agrees with Next over the corrected count |
| JobsPage.NextStaysOnAPage | src/pages/Jobs.jsx:247-248 | over a page count of at least one, Next stays on a page from 1 up, within the count, and is disabled on an empty listing |
| JobsPage.SlugFor | src/pages/Jobs.jsx:81 | the slug is empty only when both the payload's slug and its title are; a slug derived from the title holds no white space |
| JobsPage.ModalSlugKept | src/pages/Jobs.jsx:81 | a modal payload keeps the modal's slug of the trimmed title |
| JobsPage.FirstWithSlug | src/pages/Jobs.jsx:82 | the first job in key order with the slug, or none exactly when no job has it |
| JobsPage.SavedJobSpec | src/pages/Jobs.jsx:79-99 | a save is refused exactly when another job holds the slug, changing nothing; otherwise the job is stored with its slug under its key or the next key, nothing else changes, and unique slugs stay unique |
| JobsPage.OthersWithoutSlug | src/pages/Jobs.jsx:82-85 | when a save goes through on unique slugs, no job under another key holds the slug |
| JobsPage.UniqueAfterStore | src/pages/Jobs.jsx:87-92 | storing a job whose slug no other key holds keeps slugs unique |
| JobsPage.StoreJob | src/pages/Jobs.jsx:80-92 | the jobs table and the outcome are the save specified by `SavedJob` |
| JobsPage.Toggled | src/pages/Jobs.jsx:105 | archiving flips "Archived" to "Active" and anything else to "Archived" |
| JobsPage.ToggledTwice | src/pages/Jobs.jsx:101-112 | archiving twice restores an active or archived job |
| JobsPage.JobsList.constructor | src/pages/Jobs.jsx:25-31 | page 1, no search, status "All", nothing shown, the modal closed |
| JobsPage.JobsList.Fetch | src/pages/Jobs.jsx:36-69 | the total is the number of listed jobs and the shown jobs are the current page of them, at most ten, all stored, and none on page 0 |
| JobsPage.JobsList.SetSearch | src/pages/Jobs.jsx:71-73 | the search changes, the page stays, and the listing is fetched again |
| JobsPage.JobsList.SetStatusFilter | src/pages/Jobs.jsx:71-73 | the status changes, the page stays, and the listing is fetched again |
| JobsPage.JobsList.PrevPage | src/pages/Jobs.jsx:236-237 | Previous moves back one page, never below 1, brings page 0 back to page 1, and stays within the page count |
| JobsPage.JobsList.NextPage | src/pages/Jobs.jsx:247-248 | Next over the page count as written at line 125: within the pages when there is one; on an empty listing it moves from any page to page 0, which shows nothing |
| JobsPage.JobsList.OpenModal | src/pages/Jobs.jsx:75-77 | the card's "Edit" button records the job and the open flag in `modalProps`, which no element reads |
| JobsPage.JobsList.SaveJob | src/pages/Jobs.jsx:79-99 | `handleSaveJob`, which has no caller in the page: a refused save leaves the page as it was; a stored one refetches and closes the modal |
| JobsPage.JobsList.AfterSave | src/pages/Jobs.jsx:94-95 | the tail of the uncalled `handleSaveJob`: the listing is fetched again and the modal state is cleared |
| JobsPage.JobsList.Archive | src/pages/Jobs.jsx:101-112 | the job is put back with its status toggled and the listing is fetched again |
| JobsPage.JobsList.Delete | src/pages/Jobs.jsx:114-119 | after confirmation the job is gone and the listing is fetched again; without it nothing changes |
| CandidatesPage.VisibleIff | src/pages/Candidates.jsx:41-51 | a candidate is listed exactly when stored, matching a non-empty search on name or email ignoring case, and at the chosen stage unless "All" |
| CandidatesPage.StageNarrows | src/pages/Candidates.jsx:49-51 | choosing a stage lists a part of what "All" lists, in the same order |
| CandidatesPage.CandidatesList.constructor | src/pages/Candidates.jsx:19-25 | page 1, no search, stage "All", nothing shown |
| CandidatesPage.CandidatesList.Fetch | src/pages/Candidates.jsx:29-64 | the total is the number of listed candidates and the shown ones are the current page, at most twelve, all stored |
| CandidatesPage.CandidatesList.SetSearch | src/pages/Candidates.jsx:93-96 | typing resets to page 1, which shows the first twelve matches |
| CandidatesPage.CandidatesList.SetStageFilter | src/pages/Candidates.jsx:105-108 | picking a stage resets to page 1, which shows the first twelve matches |
| CandidatesPage.CandidatesList.PrevPage | src/pages/Candidates.jsx:162-163 | Previous moves back one page, never below 1 |
| CandidatesPage.CandidatesList.NextPage | src/pages/Candidates.jsx:172-173 | Next stays within the pages, at least one |

## Left out

- **Simulated latency and random failures.** `simulateNetwork` and
  `shouldFail` (random numbers and timers) are not modelled. The outcome of
  `shouldFail` is the parameter `fail`; the latency has no effect on state.
- **Clocks.** `Date.now()` and `new Date().toISOString()` are the
  parameters `now` and `nowIso`.
- **`ensureSeeded` and the seed script.** They fill an empty database;
  `src/mock/seed.js` is not part of this model. Each handler is modelled
  on the database as it finds it.
- **The HTTP layer of msw.** Routing, JSON parsing and `HttpResponse` are
  replaced by method parameters and the `Http.Response` datatype. A route
  parameter that `parseInt` turns into `NaN` is not modelled: keys are
  integers.
- **The second `GET /candidates/:id/timeline` route**
  (`src/mock/handlers.js:303-309`). msw answers with the first matching
  handler, so this route is never reached.
- **Case conversion covers ASCII letters only.** `toLowerCase` and Dexie's
  `equalsIgnoreCase` are modelled that way; full Unicode case mapping is
  left out.
- **`localeCompare` is plain code-point order.** Collation rules are left
  out.
- **`Array.prototype.sort` is a stable insertion sort written as a
  function.** The source calls the built-in, which has no loop of its own.
- **MockJobs.Renumber:** the source issues the N updates together through
  `Promise.all`. The model runs them one after another on a local copy of
  the table and writes the table once after the loop. The updates touch
  distinct keys, so the result is the same; interleaving with other
  requests is not modelled.
- **`window.api` branches.** The Electron bridge in `Jobs.jsx` and
  `Candidates.jsx` is not part of this model; both pages read the database
  directly.
- **Toasts, alerts, loading flags, navigation, and the `catch` branches
  for database exceptions.** These have no effect on the modelled state.
  The database operations are modelled as total.
- **React scheduling.** Effects run when their inputs change, and
  `setState` is asynchronous. The model calls `Fetch`, `Load` or `Rebuild`
  explicitly, after the state change that triggers them.
- **Absent job fields are stored as empty values.** A job made by the mock
  backend has no `description` or `requirements`, and one made by the
  create-job page has no `tags`. The `Database.Job` record holds `""` or
  `[]` for them. Every reader falls back with `|| []` or `|| ""`, so no
  reader can tell the difference; a record's missing keys are not modelled.
- **Aliasing between state copies.** `[...sections]` copies only the
  outer array, so the handlers also mutate the old section objects. React
  never reads the old array again, so the model replaces whole values.
- **The candidate search's optional chaining.** `Candidates.jsx` uses
  `c.name?.toLowerCase()`, which guards a missing name or email. The model
  stores both as strings, so the missing case is not modelled.
- **Fields a payload carries but the model does not keep.**
  - In the job modal: extra fields of the job spread into the payload
    (`...job`).
  - In the assessment modal: the `delete` flag its question "X" button
    sets before splicing.
  - Answers keyed by question id in submissions are kept as an opaque map.
- **CandidateStats, CandidateCard, CandidateTimeline, CandidateNotes,
  JobCard, AssessmentView and AssessmentViewer.** These only display data.
  They are not part of this model.
- **Note keys from `Date.now()` can collide** in `CandidateNote.jsx` when
  two notes are added in the same millisecond. `CandidateNote.AddThenDelete`
  assumes the new key is fresh, and `DeleteNoteSpec` states what a delete
  does when keys repeat.
- **MockJobs.PatchJob:** Dexie's `update(id, body)` writes every key the
  body carries. The patch body here carries exactly the fields of a job. A
  key outside the record, such as `id` or a field the application never
  reads, is not modelled: Dexie would store it, or refuse a change to the
  primary key.
- **MockCandidates.PatchNote:** the same holds for the fields of a note.
- **Store.Table.Put:** `put` is modelled for keys from 1 up. Dexie would
  also accept a zero or negative key, and the application never makes one.
- **JobsPage.SavedJob:** the payload key, when present, is assumed to be
  from 1 up (`KeyOk`). It always comes from a listed job.

## Findings

| source | as written | input that shows it | evidently intended | confidence | as-written member | corrected member |
|---|---|---|---|---|---|---|
| src/pages/Jobs.jsx:125, 247-248 | `totalPages = Math.ceil(total / pageSize)` is 0 when no job is listed. So the Next button (`disabled={page === totalPages}`) stays enabled on page 1, and clicking it sets the page to `Math.min(2, 0) = 0`, which shows `slice(-10, 0)`, an empty page (`JobsPage.JobsList.NextPage` reaches that state) | a search that matches no job, then a click on Next | at least one page, `Math.ceil(total / pageSize) \|\| 1` as on the candidates page (`src/pages/Candidates.jsx:70`), so Next is disabled on an empty listing | not executed | JobsPage.NextAsWrittenLeavesFirstPage | JobsPage.NextStaysOnAPage |
