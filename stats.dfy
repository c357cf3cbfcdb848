/** `getUserStats` and `getAdminStats`: counts, a sum and an average computed fresh
    from the tables, each `COALESCE`d to 0 when there is nothing to aggregate. */
module Stats {
  import opened Schema
  import opened Tables
  import opened Storage

  datatype UserStats = UserStats(
    totalEnrollments: nat,
    completedCourses: nat,
    totalStudyTime: int,
    averageQuizScore: real,
    notesCount: nat)

  datatype AdminStats = AdminStats(
    totalStudents: nat,
    totalContent: nat,
    totalCourses: nat,
    totalQuizzes: nat)

  // ----------------------------------------------------------------------------
  // Per-user aggregates
  // ----------------------------------------------------------------------------

  /** The enrollments a user owns (the `where` of `totalEnrollments`). */
  function EnrollmentOf(userId: Id): Enrollment -> bool
  {
    (e: Enrollment) => e.userId == userId
  }

  /** The user's enrollments with a non-null `completedAt` (the `where` of `completedCourses`). */
  function CompletedEnrollmentOf(userId: Id): Enrollment -> bool
  {
    (e: Enrollment) => e.userId == userId && e.completedAt.Some?
  }

  /** `count(*)` of the user's enrollments: the number of rows the `where` selects. */
  function EnrollmentCount(rows: seq<Enrollment>, userId: Id): (n: nat)
    ensures n <= |rows|
    ensures n == |Filter(rows, EnrollmentOf(userId))|
  {
    if rows == [] then 0
    else (if rows[0].userId == userId then 1 else 0) + EnrollmentCount(rows[1..], userId)
  }

  /** `count(*)` of the user's enrollments whose `completedAt` is not null. */
  function CompletedCount(rows: seq<Enrollment>, userId: Id): (n: nat)
    ensures n <= EnrollmentCount(rows, userId)
    ensures n == |Filter(rows, CompletedEnrollmentOf(userId))|
  {
    if rows == [] then 0
    else (if rows[0].userId == userId && rows[0].completedAt.Some? then 1 else 0) + CompletedCount(rows[1..], userId)
  }

  /** `COALESCE(sum(timeSpent), 0)` over the user's progress rows. */
  function StudyTime(rows: seq<Progress>, userId: Id): (t: int)
    ensures (forall i :: 0 <= i < |rows| ==> rows[i].timeSpent >= 0) ==> t >= 0
    ensures (forall i :: 0 <= i < |rows| ==> rows[i].userId != userId) ==> t == 0
  {
    if rows == [] then 0
    else (if rows[0].userId == userId then rows[0].timeSpent else 0) + StudyTime(rows[1..], userId)
  }

  /** An attempt that `avg(percentage)` sees: the user's, completed, percentage not null. */
  predicate Scored(a: QuizAttempt, userId: Id)
  {
    a.userId == userId && a.completedAt.Some? && a.percentage.Some?
  }

  /** The attempts `avg(percentage)` selects for a user. */
  function ScoredBy(userId: Id): QuizAttempt -> bool
  {
    (a: QuizAttempt) => Scored(a, userId)
  }

  /** The percentages of some attempts added up, a null percentage counting 0. */
  function PercentageTotal(rows: seq<QuizAttempt>): real
  {
    if rows == [] then 0.0
    else (if rows[0].percentage.Some? then rows[0].percentage.value else 0.0) + PercentageTotal(rows[1..])
  }

  /** How many attempts `avg(percentage)` averages over. */
  function ScoredCount(rows: seq<QuizAttempt>, userId: Id): (n: nat)
    ensures n <= |rows|
    ensures n == 0 <==> forall i :: 0 <= i < |rows| ==> !Scored(rows[i], userId)
  {
    if rows == [] then 0
    else (if Scored(rows[0], userId) then 1 else 0) + ScoredCount(rows[1..], userId)
  }

  /** The sum `avg(percentage)` divides: only the attempts it averages over contribute. */
  function PercentageSum(rows: seq<QuizAttempt>, userId: Id): (r: real)
    ensures ScoredCount(rows, userId) == 0 ==> r == 0.0
  {
    if rows == [] then 0.0
    else (if Scored(rows[0], userId) then rows[0].percentage.value else 0.0) + PercentageSum(rows[1..], userId)
  }

  /** `COALESCE(avg(percentage), 0)` over the user's completed attempts: 0, not NaN,
      when there are none. */
  function AverageQuizScore(rows: seq<QuizAttempt>, userId: Id): (r: real)
    ensures ScoredCount(rows, userId) == 0 ==> r == 0.0
    ensures ScoredCount(rows, userId) > 0 ==> r * (ScoredCount(rows, userId) as real) == PercentageSum(rows, userId)
  {
    var n := ScoredCount(rows, userId);
    var s := PercentageSum(rows, userId);
    if n == 0 then 0.0 else Mean(s, n)
  }

  /** A sum divided by a positive count. */
  function Mean(s: real, n: nat): (m: real)
    requires n > 0
    ensures m * (n as real) == s
  {
    s / (n as real)
  }

  /** The attempts averaged over are exactly the ones the `where` selects, and the
      averaged sum is the sum of their percentages. */
  lemma {:induction false} ScoredSelection(rows: seq<QuizAttempt>, userId: Id)
    ensures ScoredCount(rows, userId) == |Filter(rows, ScoredBy(userId))|
    ensures PercentageSum(rows, userId) == PercentageTotal(Filter(rows, ScoredBy(userId)))
  {
    if rows != [] {
      ScoredSelection(rows[1..], userId);
      var rest := Filter(rows[1..], ScoredBy(userId));
      if Scored(rows[0], userId) {
        assert Filter(rows, ScoredBy(userId)) == [rows[0]] + rest;
        assert ([rows[0]] + rest)[1..] == rest;
      } else {
        assert Filter(rows, ScoredBy(userId)) == rest;
      }
    }
  }

  /** `avg(percentage)`: the mean percentage of the selected attempts, and 0 when the
      selection is empty. */
  lemma AverageQuizScoreIsMean(rows: seq<QuizAttempt>, userId: Id)
    ensures var scored := Filter(rows, ScoredBy(userId));
      && (|scored| == 0 ==> AverageQuizScore(rows, userId) == 0.0)
      && (|scored| > 0 ==> AverageQuizScore(rows, userId) == Mean(PercentageTotal(scored), |scored|))
  {
    ScoredSelection(rows, userId);
  }

  /** The notes a user owns (the `where` of the count). */
  function NoteOf(userId: Id): Note -> bool
  {
    (n: Note) => n.userId == userId
  }

  /** `count(*)` of the user's notes: the number of rows the `where` selects. */
  function NotesCount(rows: seq<Note>, userId: Id): (n: nat)
    ensures n <= |rows|
    ensures n == |Filter(rows, NoteOf(userId))|
  {
    if rows == [] then 0
    else (if rows[0].userId == userId then 1 else 0) + NotesCount(rows[1..], userId)
  }

  /** `getUserStats`. */
  function UserStatsOf(enrollments: seq<Enrollment>, progress: seq<Progress>, attempts: seq<QuizAttempt>,
                       notes: seq<Note>, userId: Id): (s: UserStats)
    ensures s.completedCourses <= s.totalEnrollments <= |enrollments|
    ensures s.totalEnrollments == |Filter(enrollments, EnrollmentOf(userId))|
    ensures s.completedCourses == |Filter(enrollments, CompletedEnrollmentOf(userId))|
    ensures s.notesCount == |Filter(notes, NoteOf(userId))|
    ensures s.totalStudyTime == StudyTime(progress, userId)
    ensures var scored := Filter(attempts, ScoredBy(userId));
      |scored| > 0 ==> s.averageQuizScore == Mean(PercentageTotal(scored), |scored|)
    ensures s.notesCount <= |notes|
    ensures ScoredCount(attempts, userId) == 0 ==> s.averageQuizScore == 0.0
  {
    AverageQuizScoreIsMean(attempts, userId);
    UserStats(
      EnrollmentCount(enrollments, userId),
      CompletedCount(enrollments, userId),
      StudyTime(progress, userId),
      AverageQuizScore(attempts, userId),
      NotesCount(notes, userId))
  }

  // ----------------------------------------------------------------------------
  // Platform aggregates
  // ----------------------------------------------------------------------------

  /** The users with a given role (the `where` of `totalStudents`). */
  function HasRole(role: Role): User -> bool
  {
    (u: User) => u.role == role
  }

  /** `count(*)` of the users whose role is `'student'`. */
  function StudentCount(users: seq<User>): (n: nat)
    ensures n <= |users|
    ensures n == |Filter(users, HasRole(Student))|
  {
    if users == [] then 0
    else (if users[0].role == Student then 1 else 0) + StudentCount(users[1..])
  }

  function AdminCount(users: seq<User>): (n: nat)
    ensures n == |Filter(users, HasRole(Admin))|
  {
    if users == [] then 0
    else (if users[0].role == Admin then 1 else 0) + AdminCount(users[1..])
  }

  /** `getAdminStats`: students by role, and every content, course and quiz row. */
  function AdminStatsOf(users: seq<User>, content: seq<Content>, courses: seq<Course>, quizzes: seq<Quiz>): (s: AdminStats)
    ensures s.totalStudents <= |users|
    ensures s.totalStudents == |Filter(users, HasRole(Student))|
    ensures s.totalContent == |content| && s.totalCourses == |courses| && s.totalQuizzes == |quizzes|
    ensures users == [] && content == [] && courses == [] && quizzes == [] ==> s == AdminStats(0, 0, 0, 0)
  {
    AdminStats(StudentCount(users), |content|, |courses|, |quizzes|)
  }

  /** Every user is counted either as a student or as an admin, never both. */
  lemma {:induction false} StudentsAndAdminsPartitionUsers(users: seq<User>)
    ensures StudentCount(users) + AdminCount(users) == |users|
  {
    if users != [] {
      StudentsAndAdminsPartitionUsers(users[1..]);
    }
  }

  // ----------------------------------------------------------------------------
  // What the aggregates mean
  // ----------------------------------------------------------------------------

  /** Every completed percentage of the user is in [0, 100]. */
  predicate PercentagesInRange(rows: seq<QuizAttempt>, userId: Id)
  {
    forall i :: 0 <= i < |rows| && Scored(rows[i], userId) ==> 0.0 <= rows[i].percentage.value <= 100.0
  }

  lemma {:induction false} PercentageSumBound(rows: seq<QuizAttempt>, userId: Id)
    requires PercentagesInRange(rows, userId)
    ensures 0.0 <= PercentageSum(rows, userId) <= 100.0 * (ScoredCount(rows, userId) as real)
  {
    if rows != [] {
      assert PercentagesInRange(rows[1..], userId) by {
        forall i | 0 <= i < |rows[1..]| && Scored(rows[1..][i], userId)
          ensures 0.0 <= rows[1..][i].percentage.value <= 100.0
        {
          assert rows[1..][i] == rows[i + 1];
        }
      }
      PercentageSumBound(rows[1..], userId);
    }
  }

  /** The average quiz score is a percentage whenever the submitted percentages are. */
  lemma AverageQuizScoreInRange(rows: seq<QuizAttempt>, userId: Id)
    requires PercentagesInRange(rows, userId)
    ensures 0.0 <= AverageQuizScore(rows, userId) <= 100.0
  {
    PercentageSumBound(rows, userId);
    var n := ScoredCount(rows, userId);
    if n > 0 {
      AverageBound(PercentageSum(rows, userId), n as real);
    }
  }

  lemma {:induction false} PercentageSumAppend(rows: seq<QuizAttempt>, a: QuizAttempt, userId: Id)
    ensures PercentageSum(rows + [a], userId) == PercentageSum(rows, userId) + (if Scored(a, userId) then a.percentage.value else 0.0)
    ensures ScoredCount(rows + [a], userId) == ScoredCount(rows, userId) + (if Scored(a, userId) then 1 else 0)
  {
    if rows != [] {
      assert (rows + [a])[1..] == rows[1..] + [a];
      PercentageSumAppend(rows[1..], a, userId);
    }
  }

  /** Between the lowest and the highest averaged percentage, the sum is at least
      `lo` and at most `hi` per averaged attempt. */
  lemma {:induction false} PercentageSumBetween(rows: seq<QuizAttempt>, userId: Id, lo: real, hi: real)
    requires forall i :: 0 <= i < |rows| && Scored(rows[i], userId) ==> lo <= rows[i].percentage.value <= hi
    ensures Repeated(lo, ScoredCount(rows, userId)) <= PercentageSum(rows, userId) <= Repeated(hi, ScoredCount(rows, userId))
  {
    if rows != [] {
      forall i | 0 <= i < |rows[1..]| && Scored(rows[1..][i], userId)
        ensures lo <= rows[1..][i].percentage.value <= hi
      {
        assert rows[1..][i] == rows[i + 1];
      }
      PercentageSumBetween(rows[1..], userId, lo, hi);
    }
  }

  /** The average quiz score lies between the lowest and the highest percentage it
      averages; in particular it is `p` when every averaged attempt scored `p`. */
  lemma AverageQuizScoreBetween(rows: seq<QuizAttempt>, userId: Id, lo: real, hi: real)
    requires ScoredCount(rows, userId) > 0
    requires forall i :: 0 <= i < |rows| && Scored(rows[i], userId) ==> lo <= rows[i].percentage.value <= hi
    ensures lo <= AverageQuizScore(rows, userId) <= hi
  {
    PercentageSumBetween(rows, userId, lo, hi);
    MeanBetween(PercentageSum(rows, userId), ScoredCount(rows, userId), lo, hi);
  }

  /** `c` added up `n` times. */
  function Repeated(c: real, n: nat): real
  {
    if n == 0 then 0.0 else c + Repeated(c, n - 1)
  }

  lemma {:induction false} RepeatedIsProduct(c: real, n: nat)
    ensures Repeated(c, n) == c * (n as real)
  {
    if n > 0 {
      RepeatedIsProduct(c, n - 1);
      assert c * (n as real) == c + c * ((n - 1) as real);
    }
  }

  lemma MeanBetween(s: real, n: nat, lo: real, hi: real)
    requires n > 0 && Repeated(lo, n) <= s <= Repeated(hi, n)
    ensures lo <= Mean(s, n) <= hi
  {
    MeanAtLeast(s, n, lo);
    MeanAtMost(s, n, hi);
  }

  lemma MeanAtLeast(s: real, n: nat, lo: real)
    requires n > 0 && Repeated(lo, n) <= s
    ensures lo <= Mean(s, n)
  {
    RepeatedIsProduct(lo, n);
    MulCancel(lo, Mean(s, n), n as real);
  }

  lemma MeanAtMost(s: real, n: nat, hi: real)
    requires n > 0 && s <= Repeated(hi, n)
    ensures Mean(s, n) <= hi
  {
    RepeatedIsProduct(hi, n);
    MulCancel(Mean(s, n), hi, n as real);
  }

  lemma MulCancel(a: real, b: real, d: real)
    requires d > 0.0 && a * d <= b * d
    ensures a <= b
  {
    assert (b - a) * d == b * d - a * d;
  }

  lemma AverageBound(s: real, d: real)
    requires d > 0.0 && 0.0 <= s <= 100.0 * d
    ensures 0.0 <= s / d <= 100.0
  {
    assert s / d * d == s;
    assert 100.0 * d / d == 100.0;
  }

  function CompletedAttemptCount(rows: seq<QuizAttempt>, userId: Id): nat
  {
    if rows == [] then 0
    else (if rows[0].userId == userId && rows[0].completedAt.Some? then 1 else 0) + CompletedAttemptCount(rows[1..], userId)
  }

  /** In a table where completed attempts carry their results, the average runs over
      every completed attempt of the user. */
  lemma {:induction false} ScoredAreCompleted(rows: seq<QuizAttempt>, userId: Id)
    requires CompletedAttemptsScored(rows)
    ensures ScoredCount(rows, userId) == CompletedAttemptCount(rows, userId)
  {
    if rows != [] {
      assert CompletedAttemptsScored(rows[1..]) by {
        forall i | 0 <= i < |rows[1..]| && rows[1..][i].completedAt.Some?
          ensures rows[1..][i].score.Some? && rows[1..][i].percentage.Some?
        {
          assert rows[1..][i] == rows[i + 1];
        }
      }
      ScoredAreCompleted(rows[1..], userId);
    }
  }

  lemma {:induction false} EnrollmentCountAppend(rows: seq<Enrollment>, e: Enrollment, userId: Id)
    ensures EnrollmentCount(rows + [e], userId) == EnrollmentCount(rows, userId) + (if e.userId == userId then 1 else 0)
  {
    if rows != [] {
      assert (rows + [e])[1..] == rows[1..] + [e];
      EnrollmentCountAppend(rows[1..], e, userId);
    }
  }

  /** Enrolling is not idempotent: each `enrollUser` call adds one to the user's
      `totalEnrollments`, whether or not the user was already enrolled in the course. */
  lemma EnrollAddsOne(rows: seq<Enrollment>, userId: Id, courseId: Id, id: Id, now: Time)
    ensures EnrollmentCount(rows + [NewEnrollment(id, userId, courseId, now)], userId) == EnrollmentCount(rows, userId) + 1
    ensures CompletedCount(rows + [NewEnrollment(id, userId, courseId, now)], userId) == CompletedCount(rows, userId)
  {
    EnrollmentCountAppend(rows, NewEnrollment(id, userId, courseId, now), userId);
    CompletedCountAppendOpen(rows, NewEnrollment(id, userId, courseId, now), userId);
  }

  lemma {:induction false} CompletedCountAppendOpen(rows: seq<Enrollment>, e: Enrollment, userId: Id)
    requires e.completedAt == None
    ensures CompletedCount(rows + [e], userId) == CompletedCount(rows, userId)
  {
    if rows != [] {
      assert (rows + [e])[1..] == rows[1..] + [e];
      CompletedCountAppendOpen(rows[1..], e, userId);
    }
  }

  /** Rewriting enrollment rows without changing their owners and without clearing any
      `completedAt` keeps the count and cannot lower the completed count. */
  lemma {:induction false} CountsUnderRewrite(before: seq<Enrollment>, after: seq<Enrollment>, userId: Id)
    requires |before| == |after|
    requires forall i :: 0 <= i < |before| ==> after[i].userId == before[i].userId
    requires forall i :: 0 <= i < |before| && before[i].completedAt.Some? ==> after[i].completedAt.Some?
    ensures EnrollmentCount(after, userId) == EnrollmentCount(before, userId)
    ensures CompletedCount(after, userId) >= CompletedCount(before, userId)
  {
    if before != [] {
      assert forall i :: 0 <= i < |before| - 1 ==> after[1..][i] == after[i + 1] && before[1..][i] == before[i + 1];
      CountsUnderRewrite(before[1..], after[1..], userId);
    }
  }

  /** `updateEnrollmentProgress` never lowers `completedCourses` and never changes
      `totalEnrollments`, for any user. */
  lemma EnrollmentProgressKeepsCompletions(rows: seq<Enrollment>, userId: Id, courseId: Id, value: real, now: Time, who: Id)
    ensures var after := WithCourseProgress(rows, userId, courseId, value, now);
      && EnrollmentCount(after, who) == EnrollmentCount(rows, who)
      && CompletedCount(after, who) >= CompletedCount(rows, who)
  {
    CountsUnderRewrite(rows, WithCourseProgress(rows, userId, courseId, value, now), who);
  }

  /** Rewriting one row of the progress table changes the user's study time by the
      difference of that row's contributions. */
  lemma {:induction false} StudyTimeAtIndex(rows: seq<Progress>, k: nat, row: Progress, userId: Id)
    requires k < |rows| && row.userId == rows[k].userId
    ensures StudyTime(rows[k := row], userId)
      == StudyTime(rows, userId) - (if rows[k].userId == userId then rows[k].timeSpent else 0)
                                 + (if row.userId == userId then row.timeSpent else 0)
  {
    if k > 0 {
      assert rows[k := row][1..] == rows[1..][k - 1 := row];
      StudyTimeAtIndex(rows[1..], k - 1, row, userId);
    } else {
      assert rows[k := row][1..] == rows[1..];
    }
  }

  lemma {:induction false} StudyTimeAppend(rows: seq<Progress>, row: Progress, userId: Id)
    ensures StudyTime(rows + [row], userId) == StudyTime(rows, userId) + (if row.userId == userId then row.timeSpent else 0)
  {
    if rows != [] {
      assert (rows + [row])[1..] == rows[1..] + [row];
      StudyTimeAppend(rows[1..], row, userId);
    }
  }

  /** A progress write with a `timeSpent` value replaces that row's time rather than
      adding to it: the user's total moves by the difference (or by the whole value
      for a new row). */
  lemma StudyTimeAfterUpsert(rows: seq<Progress>, userId: Id, contentId: Id, patch: ProgressPatch,
                             freshId: Id, now: Time, t: int)
    requires ProgressIdsUnique(rows) && patch.timeSpent == Some(t)
    ensures var after := Upserted(rows, userId, contentId, patch, freshId, now);
      match FindProgress(rows, userId, contentId)
      case Some(k) => StudyTime(after, userId) == StudyTime(rows, userId) - rows[k].timeSpent + t
      case None => StudyTime(after, userId) == StudyTime(rows, userId) + t
  {
    var after := Upserted(rows, userId, contentId, patch, freshId, now);
    UpsertShape(rows, userId, contentId, patch, freshId, now);
    match FindProgress(rows, userId, contentId)
    case Some(k) =>
      var row := ApplyPatch(rows[k], patch, now);
      assert after == rows[k := row];
      StudyTimeAtIndex(rows, k, row, userId);
    case None =>
      assert after == rows + [InsertedProgress(freshId, userId, contentId, patch, now)];
      StudyTimeAppend(rows, InsertedProgress(freshId, userId, contentId, patch, now), userId);
  }

  /** Submitting never removes an attempt from the average, and an attempt that was
      already completed is re-scored in place rather than counted again. */
  lemma {:induction false} SubmitKeepsScoredCount(rows: seq<QuizAttempt>, attemptId: Id, answers: Option<Json>,
                                                   score: real, percentage: real, now: Time, userId: Id)
    requires forall i :: 0 <= i < |rows| && rows[i].id == attemptId ==> Scored(rows[i], rows[i].userId)
    ensures ScoredCount(Submitted(rows, attemptId, answers, score, percentage, now), userId) == ScoredCount(rows, userId)
  {
    if rows != [] {
      var after := Submitted(rows, attemptId, answers, score, percentage, now);
      assert after[1..] == Submitted(rows[1..], attemptId, answers, score, percentage, now);
      SubmitKeepsScoredCount(rows[1..], attemptId, answers, score, percentage, now, userId);
    }
  }
}
