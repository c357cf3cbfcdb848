# Learning-record core of eduverse, in Dafny

This project models the learning-record part of the eduverse server: the enrollment
ledger, the per-content progress tracker, course progress, the quiz engine, the user and
admin statistics, and the decision logic of the request handlers that guard and feed
them. The database is replaced by an in-memory `Store` whose fields are the tables, each
a sequence of rows. Writes are methods on the store. Reads and aggregates are functions
over the row sequences. The clock ("now") and freshly generated row ids are parameters.

Modules, one per file:

- `Schema` (`schema.dfy`): the row records, nullability (`Option`), the enum value sets
  (role, content type, quiz status) and the column defaults of the SQLite schema.
  Examples are role `student`, course-content order 0, enrollment progress 0, progress
  `'0'`/0/false, quiz status `draft`, passing score 70, question points 1 and content
  `downloadable` 1.
- `Tables` (`tables.dfy`): what the query builder's `WHERE` and `ORDER BY` do to rows.
  `Filter` keeps table order. `SortBy` is a sort proved sorted and a permutation.
  `desc` orders use a negated key.
- `Storage` (`storage.dfy`): the storage operations. This covers the check-then-insert
  progress upsert, the enrollment progress update, the joins of `getUserEnrollments` and
  `getCourseContent`, `getQuiz`, `getUserQuizzes`, the attempt lifecycle and the `Store`
  class.
- `CourseProgress` (`course_progress.dfy`): the `reduce` fold of `getUserCourseProgress`,
  and what it means (mean over joined items, absent rows as 0, range [0, 100]).
- `Stats` (`stats.dfy`): `getUserStats` and `getAdminStats` as counts, a sum and an
  average, each 0 when empty. It also has lemmas that relate them to the writes.
- `Routes` (`routes.dfy`): the admin gate, comma-separated tag parsing (JavaScript
  `split` and `trim`), the upload MIME allow-list, the search check, the download gate,
  the `order || 0` and `points || 1` defaults, and the quiz-creation loop. Each handler
  that writes is a module-level method that takes the store as a parameter and calls
  its methods. A refused request leaves the store unchanged.

The model follows the code as written, including where the intended design differs:

- `enrollUser` has no duplicate guard. Enrolling twice makes two rows and adds two to
  `totalEnrollments` (`Stats.EnrollAddsOne`).
- `updateProgress` stamps `completedAt` on every write whose `completed` is truthy. It is
  not set once: a second completion moves it (`Storage.CompletedAtOverwritten`).
- `timeSpent` in a progress patch replaces the stored value. It is not added to it
  (`Stats.StudyTimeAfterUpsert`).
- `getUserCourseProgress` divides the summed progress by the number of joined content
  items. A content item without a progress row therefore counts as 0. It is not left
  out of the mean: rows of 100 and 50 and one missing item give 50, not 75
  (`CourseProgress.AbsentItemCountsAsZero`).
- The same content item linked twice to a course counts twice in the divisor. The
  user's progress row for that item is summed only once. One item linked twice with
  progress 100 gives 50 (`CourseProgress.CourseProgressIsMeanOverItems`,
  `CourseProgress.DuplicateLinkDilutes`, `Storage.CourseItemsCount`).
- `submitQuizAttempt` stores the score and percentage the client sends. There is no
  server-side scoring and no guard against submitting twice.
- `startQuizAttempt` checks neither that the quiz exists nor its status.
- The SQLite tables declare no default for `id`. Every insert takes a fresh id as a
  parameter.

## Model

| member | source | states |
|---|---|---|
| Schema.NewEnrollment | shared/schema-sqlite.ts:84-91 | a new enrollment has the given keys, `enrolledAt` now, `progress` 0 and a null `completedAt` |
| Schema.NewQuizAttempt | shared/schema-sqlite.ts:147-157 | a new attempt has `startedAt` now and null `answers`, `score`, `percentage` and `completedAt` |
| Schema.NewQuiz | shared/schema-sqlite.ts:120-132 | omitted `passingScore` becomes 70 and omitted `status` becomes draft; the given columns are kept |
| Schema.WithContentDefaults | shared/schema-sqlite.ts:49 | an omitted `downloadable` becomes 1; a given flag and every other column are kept |
| Tables.Filter | server/storage.ts:355 | `WHERE`: the result holds exactly the rows satisfying the condition, and no more rows than the table |
| Tables.FilterCounts | server/storage.ts:355 | `WHERE` keeps every copy of a satisfying row and no copy of another: each row occurs as often as in the table if it satisfies the condition, else never |
| Tables.SortBy | server/storage.ts:361 | `ORDER BY`: the result is sorted by the key and is a permutation of the input |
| Tables.SortBySorted | server/storage.ts:430 | rows already in key order come back unchanged |
| Tables.FilterAppend | server/storage.ts:429 | filtering the concatenation of two tables is the concatenation of the filtered tables |
| Storage.FindProgress | server/storage.ts:324-329 | the row the upsert reads is the first row for (user, content); `None` exactly when there is none |
| Storage.ApplyPatch | server/storage.ts:330-338 | on update, columns absent from the patch keep their values; `lastAccessed` becomes now; `completedAt` becomes now iff `completed` is truthy, else is kept |
| Storage.InsertedProgress | server/storage.ts:341-350 | on insert, absent columns take the defaults 0 / 0 / false; `completedAt` is now iff `completed` is truthy, else null |
| Storage.Upserted | server/storage.ts:323-351 | after a write the pair has a row; an existing pair keeps the table length; a new pair appends one row after the old table |
| Storage.UpsertShape | server/storage.ts:323-351 | existing pair: only that row changes, to the patched row, and the length is unchanged; new pair: exactly one row is appended |
| Storage.UpsertKeepsPairsUnique | server/storage.ts:324-351 | a progress write never creates a second row for a (user, content) pair |
| Storage.UpsertKeepsIdsUnique | server/storage.ts:337 | with a fresh id, the update-by-id touches one row and primary keys stay distinct |
| Storage.ReplayPairsUnique | server/storage.ts:324-351 | any series of progress writes from an empty table leaves at most one row per pair |
| Storage.CompletedAtOverwritten | server/storage.ts:335 | two `completed: true` writes leave `completedAt` at the second write's time |
| Storage.WithCourseProgress | server/storage.ts:312-320 | every row of (user, course) gets the value; its `completedAt` becomes now iff value >= 100, else is kept; other rows and columns are unchanged |
| Storage.JoinCourses | server/storage.ts:299-302 | inner join: each pair has matching ids, and every matching pair appears |
| Storage.UserEnrollments | server/storage.ts:298-310 | exactly the user's enrollments that have a course, each with that course, ordered by `enrolledAt` descending |
| Storage.UserProgress | server/storage.ts:354-362 | exactly the user's rows (for one content item when a non-empty id is given), ordered by `lastAccessed` descending |
| Storage.LinkEntries | server/storage.ts:266-269 | the joined rows of one membership row: it paired with each content item of its id, and every such item appears |
| Storage.JoinContent | server/storage.ts:266-269 | inner join of membership rows with content: matching ids, and every matching pair appears |
| Storage.LinkEntriesCount | server/storage.ts:266-269 | one membership row's joined rows hold each matching content item as often as the table does, and nothing else |
| Storage.JoinContentCount | server/storage.ts:266-269 | a joined row occurs (copies of its membership row) times (copies of its content item) times when their ids match, else never |
| Storage.JoinContentCounts | server/storage.ts:266-269 | the same multiplicity law for every joined row at once |
| Storage.LinkEntriesNone | server/storage.ts:266-269 | a membership row whose content id is not stored joins with nothing (inner join) |
| Storage.LinkEntriesOne | server/storage.ts:266-269 | with the content primary key, a membership row whose content is stored joins exactly once |
| Storage.JoinContentLength | server/storage.ts:266-269 | with the content primary key and every membership row naming stored content, the join has one row per membership row |
| Storage.CourseEntries | server/storage.ts:265-271 | exactly the course's membership rows that have content, each with that content, by ascending `order` |
| Storage.CourseEntriesCounts | server/storage.ts:265-271 | each (membership row, content) pair of the course occurs as many times as the copies of the row times the copies of the content, and no other pair occurs |
| Storage.CourseItems | server/storage.ts:265-274 | the content items of the course's joined rows, one per row, in the same order |
| Storage.CourseItemsCount | server/storage.ts:265-274 | with the content primary key (shared/schema-sqlite.ts:38) and every membership row of the course naming stored content, there is one returned item per membership row, so an item linked twice is returned twice |
| Storage.CourseItemsAreLinkedContent | server/storage.ts:265-274 | every returned item is stored content linked to the course, and every linked stored item is returned |
| Storage.GetQuiz | server/storage.ts:422-433 | `None` iff no quiz has the id; otherwise a quiz with the id and exactly its questions, by ascending `order` |
| Storage.UserQuizzes | server/storage.ts:453-465 | exactly the quizzes whose course is among the user's joined enrollments, newest first |
| Storage.UserQuizAttempts | server/storage.ts:489-497 | exactly the user's attempts (for one quiz when a non-empty id is given), latest start first |
| Storage.Submitted | server/storage.ts:475-487 | only rows with the attempt id change: score, percentage and `completedAt` are set, even when already completed; an undefined `answers` is kept |
| Storage.FindUser | server/storage.ts:149-152 | a user with the id from the table, or `None` exactly when there is none |
| Storage.FindContent | server/storage.ts:192-195 | a content row with the id, or `None` exactly when there is none |
| Storage.Store.CreateContent | server/storage.ts:187-190 | appends the content row with the column defaults applied |
| Storage.Store.UpdateContentTags | server/storage.ts:220-227 | rows with the id get the tags; `None` tags leave every row as it was |
| Storage.Store.CreateCourse | server/storage.ts:243-246 | appends the course row |
| Storage.Store.AddContentToCourse | server/storage.ts:257-263 | appends a membership row with the given order; no duplicate check |
| Storage.Store.EnrollUser | server/storage.ts:290-296 | always appends one enrollment with progress 0 and null `completedAt`, even for an existing pair |
| Storage.Store.UpdateEnrollmentProgress | server/storage.ts:312-320 | the enrollments become `WithCourseProgress` of the old table; the store invariant is kept |
| Storage.Store.UpdateProgress | server/storage.ts:323-351 | the progress table becomes the upsert of the old one; returns the patched or inserted row; keeps one row per pair |
| Storage.Store.CreateQuiz | server/storage.ts:412-415 | appends the quiz with the defaults applied and returns it |
| Storage.Store.AddQuizQuestion | server/storage.ts:417-420 | appends the question row |
| Storage.Store.StartQuizAttempt | server/storage.ts:467-473 | always appends an in-progress attempt with null results, without checking the quiz |
| Storage.Store.SubmitQuizAttempt | server/storage.ts:475-487 | the attempts become `Submitted` of the old table; returns the updated row, or `None` iff no attempt has the id |
| CourseProgress.ItemIds | server/storage.ts:374 | the id list passed to `inArray` holds exactly the ids of the joined items |
| CourseProgress.ProgressSum | server/storage.ts:368-378 | the fold over the selected rows: 0 for an empty id list, and not negative when no stored progress is |
| CourseProgress.UserCourseProgress | server/storage.ts:364-380 | 0 when the course has no joined content |
| CourseProgress.CourseMean | server/storage.ts:378-379 | the division of the fold by the number of joined items, 0 for none |
| CourseProgress.ProgressSumNoRow | server/storage.ts:368-378 | rows of other users or other content add nothing to the fold |
| CourseProgress.ProgressSumDrop | server/storage.ts:368-378 | an id with no row for the user can be dropped from the `inArray` list without changing the sum |
| CourseProgress.ProgressSumSplit | server/storage.ts:368-378 | the sum over a disjoint union of id lists is the sum of the two sums |
| CourseProgress.ProgressSumSingle | server/storage.ts:368-378 | with one row per pair, the sum over one id is that pair's stored progress, or 0 |
| CourseProgress.ProgressSumOverDistinct | server/storage.ts:368-378 | with one row per pair and no item joined twice, the fold is the sum of each joined item's stored progress, absent rows counting 0 |
| CourseProgress.Dedup | server/storage.ts:374 | the joined items with each content id once: no id repeats, the id set is unchanged, and it is no longer than the items |
| CourseProgress.DedupDistinct | server/storage.ts:374 | items with distinct ids are kept as they are |
| CourseProgress.ProgressSumOverItems | server/storage.ts:368-378 | with one row per pair, the fold is the sum of the stored progress of each distinct joined item, absent rows counting 0 and a twice-linked item once |
| CourseProgress.CourseProgressIsMeanOverItems | server/storage.ts:364-380 | course progress is that sum divided by the number of joined items, duplicates included (0 for none) |
| CourseProgress.CourseProgressIsMeanOverDistinctItems | server/storage.ts:364-380 | when no item is linked twice, course progress is the plain mean of the items' stored progress, absent rows as 0 |
| CourseProgress.ProgressSumBound | server/storage.ts:378 | with one row per pair and each progress in [0, 100], the sum is between 0 and 100 per id |
| CourseProgress.ItemIdsSize | server/storage.ts:374-379 | there are no more distinct ids than joined items |
| CourseProgress.CourseProgressInRange | server/storage.ts:364-380 | with one row per pair and each progress in [0, 100], course progress is in [0, 100] |
| CourseProgress.AbsentItemCountsAsZero | server/storage.ts:366-379 | over three joined items with progress rows 100, 50 and none, the division gives 50, not the 75 of a mean over existing rows |
| CourseProgress.DuplicateLinkDilutes | server/storage.ts:366-379 | one item joined twice with a stored progress of 100 gives 50, not 100 |
| Stats.EnrollmentCount | server/storage.ts:622-625 | the number of enrollment rows whose `userId` is the user's (the `where` selection), at most the table size |
| Stats.CompletedCount | server/storage.ts:627-630 | the number of the user's enrollment rows whose `completedAt` is not null; never more than the user's enrollments |
| Stats.AverageQuizScore | server/storage.ts:637-640 | 0 when the user has no completed, scored attempt; otherwise average times count equals the percentage sum |
| Stats.ScoredSelection | server/storage.ts:637-640 | the attempts averaged over are exactly the user's completed attempts with a percentage, and the averaged sum adds up their percentages |
| Stats.AverageQuizScoreIsMean | server/storage.ts:637-640 | the average quiz score is the mean percentage of the selected attempts, and 0 when none is selected |
| Stats.PercentageSumAppend | server/storage.ts:637-640 | an appended attempt adds its percentage to the sum and one to the count iff it is the user's, completed and scored |
| Stats.PercentageSumBetween | server/storage.ts:637-640 | when every averaged percentage is in [lo, hi], the sum is between lo and hi per averaged attempt |
| Stats.AverageQuizScoreBetween | server/storage.ts:637-640 | the average lies between the lowest and the highest averaged percentage |
| Stats.StudyTime | server/storage.ts:632-635 | not negative when no stored time is; 0 when the user has no progress row |
| Stats.ScoredCount | server/storage.ts:637-640 | the number of attempts averaged over: at most the table size, and 0 exactly when no attempt of the user is completed with a percentage |
| Stats.PercentageSum | server/storage.ts:637-640 | the averaged sum is 0 when no attempt is averaged over (its value is pinned by `Stats.ScoredSelection`) |
| Stats.NotesCount | server/storage.ts:642-645 | the user's note count is the number of rows the `where userId` selects |
| Stats.UserStatsOf | server/storage.ts:615-654 | total enrollments, completed courses and notes are the sizes of their `where` selections, with completed <= total <= rows; the study time is `StudyTime` of the user, the `timeSpent` sum pinned by `Stats.StudyTimeAppend` and `Stats.StudyTimeAtIndex`; the average is the mean percentage of the selected attempts, 0 when none |
| Stats.StudentCount | server/storage.ts:662-665 | the number of users whose role is student, at most the number of users |
| Stats.AdminStatsOf | server/storage.ts:656-685 | total students is the number of users with role student; content, course and quiz totals are the table sizes; an empty dataset gives all zeros |
| Stats.StudentsAndAdminsPartitionUsers | server/storage.ts:662-665 | students plus admins is the number of users |
| Stats.PercentageSumBound | server/storage.ts:637-640 | with percentages in [0, 100], their sum is between 0 and 100 per scored attempt |
| Stats.AverageQuizScoreInRange | server/storage.ts:637-640 | with percentages in [0, 100], the average quiz score is in [0, 100] |
| Stats.ScoredAreCompleted | server/storage.ts:637-640 | when completed attempts carry results, the average runs over every completed attempt |
| Stats.EnrollmentCountAppend | server/storage.ts:622-625 | appending an enrollment adds one to its owner's count and nothing to others |
| Stats.EnrollAddsOne | server/storage.ts:290-296 | each enroll call adds one to `totalEnrollments` and nothing to `completedCourses`, even for an existing pair |
| Stats.CompletedCountAppendOpen | server/storage.ts:627-630 | appending an open enrollment leaves the completed count unchanged |
| Stats.CountsUnderRewrite | server/storage.ts:627-630 | rewriting rows without changing owners or clearing `completedAt` keeps the count and cannot lower the completed count |
| Stats.EnrollmentProgressKeepsCompletions | server/storage.ts:312-320 | a course progress update never lowers `completedCourses` or changes `totalEnrollments` of any user |
| Stats.StudyTimeAtIndex | server/storage.ts:632-635 | rewriting one progress row moves the study time by the change in that row's contribution |
| Stats.StudyTimeAppend | server/storage.ts:632-635 | appending a row adds its time to its owner's study time |
| Stats.StudyTimeAfterUpsert | server/storage.ts:330-349 | a write with `timeSpent` t replaces the row's time: the total moves by t minus the old time, or by t for a new row |
| Stats.SubmitKeepsScoredCount | server/storage.ts:475-487 | resubmitting completed attempts re-scores them in place and does not change the scored count |
| Routes.Split | server/routes.ts:102 | one more piece than commas, and no piece contains a comma |
| Routes.SplitJoin | server/routes.ts:102 | joining the pieces with the separator gives the original string back |
| Routes.SplitNoSep | server/routes.ts:102 | a string without the separator is one piece |
| Routes.SplitPrefix | server/routes.ts:102 | a separator-free prefix before a separator is split off as one piece |
| Routes.JoinSplit | server/routes.ts:102 | splitting a join of separator-free pieces gives the pieces back |
| Routes.TrimStart | server/routes.ts:102 | leaves a suffix that does not start with whitespace; only whitespace is dropped |
| Routes.TrimEnd | server/routes.ts:102 | leaves a prefix that does not end with whitespace; only whitespace is dropped |
| Routes.Trim | server/routes.ts:102 | neither end of the result is whitespace; only leading and trailing whitespace is dropped |
| Routes.SplitAroundComma | server/routes.ts:102 | `x , y` splits into `x ` and ` y`, the spaces staying in the pieces |
| Routes.TrimSpaceAfter | server/routes.ts:102 | a space after a trimmed, non-empty word is dropped |
| Routes.TrimSpaceBefore | server/routes.ts:102 | a space before a trimmed, non-empty word is dropped |
| Routes.TrimTrimmed | server/routes.ts:102 | a string with no whitespace at either end is unchanged |
| Routes.ParseTags | server/routes.ts:99-103 | present tags give one tag per comma plus one, the i-th being the trimmed i-th comma-separated piece, so comma-free and trimmed; absent or empty tags give `[]` on create and leave the column alone on update (line 136) |
| Routes.ParseJoinedTags | server/routes.ts:102 | trimmed, comma-free tags joined with commas parse back to themselves |
| Routes.FileFilter | server/routes.ts:16-32 | accepts iff the MIME type is exactly one of the seven listed; otherwise rejects with "Invalid file type" |
| Routes.SearchCheck | server/routes.ts:167-170 | refused iff `q` is absent or empty; otherwise the non-empty query is used |
| Routes.SearchStatus | server/routes.ts:167-170 | 400 iff `q` is absent or empty, 200 otherwise |
| Routes.Download | server/routes.ts:593-603 | 404 iff the row or its file path is missing, whatever the flag; 403 iff the file exists but `downloadable` is falsy; otherwise the path is served under the file name or "download" |
| Routes.OrderOrZero | server/routes.ts:240-241 | the `order`-or-0 default equals the order when given, and 0 when missing |
| Routes.PointsOrOne | server/routes.ts:412 | never 0; 1 exactly when points are missing, 0 or 1; other given values are kept |
| Routes.IsAdmin | server/routes.ts:93-97 | a missing user and a user with the default role (student) are refused; an existing user with role admin is admitted |
| Routes.QuestionRows | server/routes.ts:405-415 | the i-th question gets `order` i + 1 (orders dense and strictly increasing), keeps its text, options and answer, belongs to the quiz and has `points` or 1 points, never 0 |
| Routes.QuestionRowsSnoc | server/routes.ts:406-415 | one loop step appends exactly the next question row |
| Routes.CreatedQuizReadsBack | server/routes.ts:398-416 | a quiz created with fresh ids reads back through `getQuiz` with exactly its request's questions, in request order |
| Routes.CreateContentHandler | server/routes.ts:90-123 | 403 iff the caller is not an existing admin, with content unchanged; otherwise 201 and the row is appended with uploader, parsed tags and the column defaults, so an upload without the flag is downloadable |
| Routes.UploadWithoutFlagIsServed | server/routes.ts:593-603 | a stored file inserted without a `downloadable` field passes the download gate |
| Routes.UpdateContentHandler | server/routes.ts:125-145 | 403 iff not an admin, with content unchanged; otherwise 200 and the tags of rows with the id are set when present |
| Routes.CreateCourseHandler | server/routes.ts:209-229 | 403 iff not an admin, with courses unchanged; otherwise 201 and the course is appended with its creator |
| Routes.AddContentToCourseHandler | server/routes.ts:231-247 | 403 iff not an admin, with membership unchanged; otherwise 201 and a row with the `order`-or-0 default is appended |
| Routes.CreateQuizHandler | server/routes.ts:389-423 | 403 iff not an admin, with quizzes and questions unchanged; otherwise 201, the quiz is appended and its questions are appended in request order |
| Routes.AdminStatsHandler | server/routes.ts:573-588 | 403 iff not an admin; otherwise 200 with the admin statistics of the current tables |
| Routes.DownloadHandler | server/routes.ts:591-608 | the download gate applied to the row with the id; 404 iff no such row or no file path |

## Left out

- Content search (`getAllContent` filters, `searchContent`) is left out. It is matching
  done inside the database with Postgres `ILIKE` semantics.
- File handling is left out: the multer disk storage and its 500 MB size limit, moving
  the uploaded file, and sending the file. The upload's path and name are fields of the
  content row the handler receives.
- Request parsing is left out: zod insert schemas, Express plumbing, `try/catch` to
  500, and logging. Handlers take already-typed arguments. A `tags` value that is not a
  string, or an `order` that is not a number, is not modelled.
- `parseFloat` and `toString` round-trips are left out. Progress, score and percentage
  are exact `real` values. The SQLite column types (text progress, integer score) are
  not modelled.
- Notes, reviews and study sessions are left out, apart from the notes count in the
  user statistics. Their CRUD is pass-through. The notes routes parse tags exactly as
  `Routes.ParseTags` does.
- Plain pass-through operations are left out: `upsertUser`, `getCourse`,
  `getAllCourses`, `updateCourse`, `deleteCourse`, `deleteContent`,
  `getFeaturedContent`, `getAllQuizzes`, `updateQuiz` and `deleteQuiz`. The same goes
  for the content delete route and for every route that only passes through.
- Routes.UpdateContentHandler: models only the `tags` column of a content update. The
  other request fields and `updatedAt` are not modelled.
- Tables.SortBy: equal keys keep table order (a stable insertion sort). SQL `ORDER BY`
  leaves the order of ties unspecified, so `Tables.SortBySorted` on rows with equal keys
  states more than the database promises; the quiz read-back uses it only on strictly
  increasing `order` values.
- Storage.JoinCourses: states which joined rows occur, not how many times each occurs.
  The multiplicity law is proved for the content join only.
- Storage.UserEnrollments: states which rows are returned and their order, not how
  many times each occurs.
- Storage.UserProgress: states which rows are returned and their order, not how many
  times each occurs.
- Storage.UserQuizzes: states which rows are returned and their order, not how many
  times each occurs.
- Storage.UserQuizAttempts: states which rows are returned and their order, not how
  many times each occurs.
- Storage.GetQuiz: states which questions are returned and their order, not how many
  times each occurs.
- Storage.CourseItemsCount: assumes every membership row of the course names stored
  content. The SQLite `course_content` table declares no foreign key, so a dangling row
  is possible; the inner join then drops it and it is not in the divisor.
- Schema.WithContentDefaults: applies the `downloadable` default only; the other
  defaulted content columns (difficulty, featured, rating) are not in the row record.
  An explicit `null` flag is not told apart from an omitted one; the multipart upload
  form cannot send a null.
- Timestamps are abstract integers supplied by the caller. `createdAt` and `updatedAt`
  are not modelled except where a query orders by them.
- Row ids are not generated. Every insert takes a fresh id as a parameter.
- Concurrency is left out. The check-then-insert upsert is modelled as one sequential
  step.
- Storage.Store.SubmitQuizAttempt: takes a number for score and percentage. An
  undefined value, which makes `toString` throw, is not modelled, and neither is an
  explicit `null` for `answers`.
- Storage.Store.StartQuizAttempt: requires an id not used by any attempt, because the
  store keeps attempt ids distinct.
- Storage.Store.UpdateProgress: requires an id not used by any progress row, for the
  same reason.
- The `maxScore` column and `progress.completedAt` come from the Postgres twin of the
  schema. The SQLite table has neither. `completedAt` on progress is modelled because
  the storage code writes it; `maxScore` is not.
