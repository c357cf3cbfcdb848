/** Record shapes, nullability and column defaults of the learning-record tables
    (the SQLite schema), reduced to the columns that the storage layer reads,
    writes, counts or joins on. */
module Schema {

  datatype Option<T> = None | Some(value: T)

  /** Primary and foreign keys are text identifiers. */
  type Id = string

  /** Timestamps are integer Unix seconds; "now" is always supplied by the caller. */
  type Time = int

  /** A JSON document stored as text (quiz answers). */
  type Json = string

  /** JavaScript truthiness of an optional string: `undefined`, `null` and `""` are falsy. */
  predicate Present(s: Option<string>)
  {
    s.Some? && s.value != ""
  }

  // Enumerated value sets.
  datatype Role = Student | Admin
  /** The `type` column: `'book'`, `'video'` or `'course'`. */
  datatype ContentType = Book | Video | CourseType
  datatype QuizStatus = Draft | Published

  // Column defaults.
  const DefaultRole: Role := Student
  const DefaultCourseOrder: int := 0
  const DefaultEnrollmentProgress: real := 0.0
  const DefaultProgress: real := 0.0
  const DefaultTimeSpent: int := 0
  const DefaultCompleted: bool := false
  const DefaultPassingScore: int := 70
  const DefaultQuizStatus: QuizStatus := Draft
  const DefaultPoints: int := 1
  const DefaultDownloadable: int := 1

  datatype User = User(id: Id, role: Role)

  /** A catalog item; `downloadable` is an integer flag, nullable. */
  datatype Content = Content(
    id: Id,
    contentType: ContentType,
    tags: Option<seq<string>>,
    filePath: Option<string>,
    fileName: Option<string>,
    downloadable: Option<int>,
    uploadedBy: Id,
    createdAt: Time)

  /** The catalog row an insert stores: an omitted `downloadable` takes the column
      default 1 (downloadable); a given flag is kept as it is. */
  function WithContentDefaults(item: Content): (c: Content)
    ensures c.downloadable == (if item.downloadable.None? then Some(1) else item.downloadable)
    ensures c.(downloadable := item.downloadable) == item
  {
    if item.downloadable.None? then item.(downloadable := Some(DefaultDownloadable)) else item
  }

  datatype Course = Course(id: Id, createdBy: Id, createdAt: Time)

  /** Membership of a content item in a course, with its position. */
  datatype CourseContent = CourseContent(id: Id, courseId: Id, contentId: Id, order: int)

  datatype Enrollment = Enrollment(
    id: Id,
    userId: Id,
    courseId: Id,
    enrolledAt: Time,
    completedAt: Option<Time>,
    progress: real)

  /** Per (user, content) progress; `progress` is a percentage. */
  datatype Progress = Progress(
    id: Id,
    userId: Id,
    contentId: Id,
    progress: real,
    timeSpent: int,
    completed: bool,
    lastAccessed: Time,
    completedAt: Option<Time>)

  datatype Quiz = Quiz(
    id: Id,
    contentId: Option<Id>,
    courseId: Option<Id>,
    timeLimit: Option<int>,
    passingScore: int,
    status: QuizStatus,
    createdBy: Id,
    createdAt: Time)

  datatype QuizQuestion = QuizQuestion(
    id: Id,
    quizId: Id,
    question: string,
    options: seq<string>,
    correctAnswer: string,
    points: int,
    order: int)

  /** One attempt; every result column is null until submission. */
  datatype QuizAttempt = QuizAttempt(
    id: Id,
    userId: Id,
    quizId: Id,
    answers: Option<Json>,
    score: Option<real>,
    percentage: Option<real>,
    startedAt: Time,
    completedAt: Option<Time>)

  datatype Note = Note(id: Id, userId: Id)

  /** A fresh enrollment row: only the keys are given, every other column takes its default. */
  function NewEnrollment(id: Id, userId: Id, courseId: Id, now: Time): (e: Enrollment)
    ensures e.id == id && e.userId == userId && e.courseId == courseId
    ensures e.enrolledAt == now && e.completedAt == None && e.progress == 0.0
  {
    Enrollment(id, userId, courseId, now, None, DefaultEnrollmentProgress)
  }

  /** A fresh attempt row: started now, nothing answered, not completed. */
  function NewQuizAttempt(id: Id, userId: Id, quizId: Id, now: Time): (a: QuizAttempt)
    ensures a.id == id && a.userId == userId && a.quizId == quizId && a.startedAt == now
    ensures a.answers == None && a.score == None && a.percentage == None && a.completedAt == None
  {
    QuizAttempt(id, userId, quizId, None, None, None, now, None)
  }

  /** The optional columns a caller may give when creating a quiz. */
  datatype QuizInput = QuizInput(
    contentId: Option<Id>,
    courseId: Option<Id>,
    timeLimit: Option<int>,
    passingScore: Option<int>,
    status: Option<QuizStatus>)

  /** A quiz row: omitted columns take the defaults `passingScore = 70`, `status = draft`. */
  function NewQuiz(id: Id, input: QuizInput, createdBy: Id, now: Time): (q: Quiz)
    ensures q.id == id && q.createdBy == createdBy && q.createdAt == now
    ensures q.passingScore == (if input.passingScore.Some? then input.passingScore.value else 70)
    ensures q.status == (if input.status.Some? then input.status.value else Draft)
    ensures q.contentId == input.contentId && q.courseId == input.courseId && q.timeLimit == input.timeLimit
  {
    Quiz(id, input.contentId, input.courseId, input.timeLimit,
         if input.passingScore.Some? then input.passingScore.value else DefaultPassingScore,
         if input.status.Some? then input.status.value else DefaultQuizStatus,
         createdBy, now)
  }
}
