/** Decision logic of the request handlers: the admin gate, tag parsing, the upload
    MIME allow-list, the search and download checks, and the construction of quiz
    questions. Handlers that write are methods over the `Store`; the checks they make
    before writing are functions. */
module Routes {
  import opened Schema
  import opened Tables
  import opened Storage
  import opened Stats

  // HTTP status codes the handlers answer with.
  const Ok: int := 200
  const Created: int := 201
  const BadRequest: int := 400
  const Forbidden: int := 403
  const NotFound: int := 404

  // ----------------------------------------------------------------------------
  // Admin gate
  // ----------------------------------------------------------------------------

  /** The gate passes only an existing user whose role is admin; a missing user and a
      student are both refused with 403. */
  predicate IsAdmin(user: Option<User>)
    ensures user.None? ==> !IsAdmin(user)
    ensures user.Some? && user.value.role == DefaultRole ==> !IsAdmin(user)
    ensures user.Some? && user.value.role == Admin ==> IsAdmin(user)
  {
    user.Some? && user.value.role == Admin
  }

  // ----------------------------------------------------------------------------
  // Tag parsing: `tags.split(',').map(tag => tag.trim())`
  // ----------------------------------------------------------------------------

  /** Occurrences of `c` in `s`. */
  function CountOf(s: string, c: char): nat
  {
    if s == [] then 0 else (if s[0] == c then 1 else 0) + CountOf(s[1..], c)
  }

  /** `String.prototype.split` with a one-character separator: the pieces between
      separators, empty pieces included, so there is always one more piece than
      separators. */
  function Split(s: string, sep: char): (pieces: seq<string>)
    ensures |pieces| == CountOf(s, sep) + 1
    ensures forall i :: 0 <= i < |pieces| ==> sep !in pieces[i]
  {
    if s == [] then [""]
    else
      var rest := Split(s[1..], sep);
      if s[0] == sep then [""] + rest
      else [[s[0]] + rest[0]] + rest[1..]
  }

  /** `Array.prototype.join` with a one-character separator. */
  function Join(pieces: seq<string>, sep: char): string
    requires |pieces| > 0
  {
    if |pieces| == 1 then pieces[0] else pieces[0] + [sep] + Join(pieces[1..], sep)
  }

  /** Joining the pieces restores the original string. */
  lemma {:induction false} SplitJoin(s: string, sep: char)
    ensures Join(Split(s, sep), sep) == s
  {
    if s != [] {
      var rest := Split(s[1..], sep);
      SplitJoin(s[1..], sep);
      if s[0] == sep {
        assert Split(s, sep) == [""] + rest;
        assert Join(Split(s, sep), sep) == [sep] + Join(rest, sep);
        assert s == [s[0]] + s[1..];
      } else {
        var pieces := [[s[0]] + rest[0]] + rest[1..];
        assert Split(s, sep) == pieces;
        if |rest| == 1 {
          assert Join(pieces, sep) == [s[0]] + rest[0];
        } else {
          assert pieces[1..] == rest[1..];
          assert Join(pieces, sep) == [s[0]] + rest[0] + [sep] + Join(rest[1..], sep);
          assert Join(rest, sep) == rest[0] + [sep] + Join(rest[1..], sep);
        }
        assert s == [s[0]] + s[1..];
      }
    }
  }

  /** A string without the separator is a single piece. */
  lemma {:induction false} SplitNoSep(p: string, sep: char)
    requires sep !in p
    ensures Split(p, sep) == [p]
  {
    if p != [] {
      assert sep !in p[1..];
      SplitNoSep(p[1..], sep);
      assert p == [p[0]] + p[1..];
    }
  }

  /** A separator-free prefix followed by the separator is split off as one piece. */
  lemma {:induction false} SplitPrefix(p: string, sep: char, rest: string)
    requires sep !in p
    ensures Split(p + [sep] + rest, sep) == [p] + Split(rest, sep)
  {
    var s := p + [sep] + rest;
    if p == [] {
      assert s[0] == sep && s[1..] == rest;
    } else {
      assert s[0] == p[0] && s[1..] == p[1..] + [sep] + rest;
      assert sep !in p[1..];
      SplitPrefix(p[1..], sep, rest);
      assert p == [p[0]] + p[1..];
    }
  }

  /** Splitting a join of separator-free pieces gives the pieces back. */
  lemma {:induction false} JoinSplit(pieces: seq<string>, sep: char)
    requires |pieces| > 0
    requires forall i :: 0 <= i < |pieces| ==> sep !in pieces[i]
    ensures Split(Join(pieces, sep), sep) == pieces
  {
    if |pieces| == 1 {
      SplitNoSep(pieces[0], sep);
    } else {
      JoinSplit(pieces[1..], sep);
      SplitPrefix(pieces[0], sep, Join(pieces[1..], sep));
      assert pieces == [pieces[0]] + pieces[1..];
    }
  }

  /** The characters `String.prototype.trim` removes: the ECMAScript WhiteSpace
      (tab, vertical tab, form feed, space, no-break space, byte order mark and the
      other space separators) and LineTerminator characters. */
  predicate IsJsSpace(c: char)
  {
    || c == '\t' || c == '\n' || c == '\U{000B}' || c == '\U{000C}' || c == '\r' || c == ' '
    || c == '\U{00A0}' || c == '\U{1680}' || ('\U{2000}' <= c <= '\U{200A}')
    || c == '\U{2028}' || c == '\U{2029}' || c == '\U{202F}' || c == '\U{205F}'
    || c == '\U{3000}' || c == '\U{FEFF}'
  }

  /** Neither end of `s` is whitespace. */
  predicate Trimmed(s: string)
  {
    s == [] || (!IsJsSpace(s[0]) && !IsJsSpace(s[|s| - 1]))
  }

  /** Drops the leading whitespace: what remains is a suffix of `s`, everything dropped
      was whitespace and what remains does not start with whitespace. */
  function TrimStart(s: string): (r: string)
    ensures |r| <= |s| && r == s[|s| - |r|..]
    ensures forall i :: 0 <= i < |s| - |r| ==> IsJsSpace(s[i])
    ensures r == [] || !IsJsSpace(r[0])
  {
    if s != [] && IsJsSpace(s[0]) then TrimStart(s[1..]) else s
  }

  /** Drops the trailing whitespace: what remains is a prefix of `s`, everything dropped
      was whitespace and what remains does not end with whitespace. */
  function TrimEnd(s: string): (r: string)
    ensures |r| <= |s| && r == s[..|r|]
    ensures forall i :: |r| <= i < |s| ==> IsJsSpace(s[i])
    ensures r == [] || !IsJsSpace(r[|r| - 1])
  {
    if s != [] && IsJsSpace(s[|s| - 1]) then TrimEnd(s[..|s| - 1]) else s
  }

  /** `String.prototype.trim`: whitespace is dropped from the start (giving `t`, a
      suffix of `s`) and then from the end (giving `r`, a prefix of `t`); only
      whitespace is dropped, and neither end of the result is whitespace. */
  function Trim(s: string): (r: string)
    ensures Trimmed(r)
    ensures var t := TrimStart(s);
      && |r| <= |t| <= |s| && t == s[|s| - |t|..] && r == t[..|r|]
      && (forall i :: 0 <= i < |s| - |t| ==> IsJsSpace(s[i]))
      && (forall i :: |r| <= i < |t| ==> IsJsSpace(t[i]))
  {
    var t := TrimStart(s);
    var r := TrimEnd(t);
    assert r == [] || !IsJsSpace(r[0]) by {
      if r != [] {
        assert r[0] == t[0];
      }
    }
    r
  }

  /** A string with no whitespace at either end is left as it is. */
  lemma TrimTrimmed(s: string)
    requires Trimmed(s)
    ensures Trim(s) == s
  {
  }

  /** Every piece trimmed. */
  function TrimAll(pieces: seq<string>): (r: seq<string>)
    ensures |r| == |pieces| && forall i :: 0 <= i < |r| ==> r[i] == Trim(pieces[i])
  {
    seq(|pieces|, i requires 0 <= i < |pieces| => Trim(pieces[i]))
  }

  /** The tags of a request: a present string is split on commas and every piece is
      trimmed; an absent or empty string gives `[]` when creating and leaves the column
      untouched (`None`) when updating. */
  function ParseTags(tags: Option<string>, onCreate: bool): (r: Option<seq<string>>)
    ensures Present(tags) ==> r.Some? && |r.value| == CountOf(tags.value, ',') + 1
    ensures Present(tags) ==> forall i :: 0 <= i < |r.value| ==> ',' !in r.value[i] && Trimmed(r.value[i])
    ensures Present(tags) ==> forall i :: 0 <= i < |r.value| ==> r.value[i] == Trim(Split(tags.value, ',')[i])
    ensures !Present(tags) ==> r == if onCreate then Some([]) else None
  {
    if Present(tags) then
      var pieces := Split(tags.value, ',');
      var parsed := TrimAll(pieces);
      Some(parsed)
    else if onCreate then Some([])
    else None
  }

  /** Tags written by joining trimmed, comma-free tags with commas are parsed back
      unchanged. */
  lemma ParseJoinedTags(ts: seq<string>, onCreate: bool)
    requires |ts| > 0 && Join(ts, ',') != ""
    requires forall i :: 0 <= i < |ts| ==> ',' !in ts[i] && Trimmed(ts[i])
    ensures ParseTags(Some(Join(ts, ',')), onCreate) == Some(ts)
  {
    var s := Join(ts, ',');
    JoinSplit(ts, ',');
    assert Split(s, ',') == ts;
    var parsed := TrimAll(ts);
    forall i | 0 <= i < |ts| ensures parsed[i] == ts[i] {
      TrimTrimmed(ts[i]);
    }
    assert parsed == ts;
    assert ParseTags(Some(s), onCreate) == Some(TrimAll(Split(s, ',')));
  }

  /** Splitting `x , y` keeps the spaces next to the comma in the two pieces; the
      trimming then drops them. */
  lemma SplitAroundComma(x: string, y: string)
    requires ',' !in x && ',' !in y
    ensures Split(x + " , " + y, ',') == [x + " ", " " + y]
  {
    assert x + " , " + y == (x + " ") + [','] + (" " + y);
    assert ',' !in x + " " && ',' !in " " + y;
    SplitNoSep(" " + y, ',');
    SplitPrefix(x + " ", ',', " " + y);
  }

  /** A space after a trimmed word is dropped. */
  lemma TrimSpaceAfter(x: string)
    requires x != [] && Trimmed(x)
    ensures Trim(x + " ") == x
  {
    var s := x + " ";
    assert s[0] == x[0];
    assert TrimStart(s) == s;
    assert s[..|s| - 1] == x;
    assert TrimEnd(s) == TrimEnd(x);
  }

  /** A space before a trimmed word is dropped. */
  lemma TrimSpaceBefore(y: string)
    requires y != [] && Trimmed(y)
    ensures Trim(" " + y) == y
  {
    var s := " " + y;
    assert s[1..] == y;
    assert TrimStart(s) == TrimStart(y);
    assert TrimStart(y) == y;
  }

  // ----------------------------------------------------------------------------
  // Upload filter, search check, download gate, defaults
  // ----------------------------------------------------------------------------

  /** The MIME types an upload may have. */
  const AllowedTypes: seq<string> := [
    "application/pdf",
    "application/epub+zip",
    "application/vnd.openxmlformats-officedocument.wordprocessingml.document",
    "video/mp4",
    "image/jpeg",
    "image/png",
    "image/gif"
  ]

  datatype UploadDecision = Accept | Reject(message: string)

  /** The upload filter: exact, case-sensitive membership in the allow-list. */
  function FileFilter(mimetype: string): (d: UploadDecision)
    ensures d.Accept? <==> exists i :: 0 <= i < |AllowedTypes| && AllowedTypes[i] == mimetype
    ensures d.Reject? ==> d.message == "Invalid file type"
  {
    if mimetype in AllowedTypes then Accept else Reject("Invalid file type")
  }

  datatype SearchDecision = MissingQuery | Search(query: string)

  /** The search route refuses an absent or empty `q` with 400 before querying. */
  function SearchCheck(q: Option<string>): (d: SearchDecision)
    ensures d.MissingQuery? <==> !Present(q)
    ensures d.Search? ==> d.query == q.value && d.query != ""
  {
    if Present(q) then Search(q.value) else MissingQuery
  }

  /** The status of the search route's check: 400 exactly when `q` is absent or empty. */
  function SearchStatus(q: Option<string>): (status: int)
    ensures status == BadRequest <==> !Present(q)
    ensures status != BadRequest ==> status == Ok
  {
    if SearchCheck(q).MissingQuery? then BadRequest else Ok
  }

  datatype DownloadDecision = FileNotFound | NotAllowed | Serve(path: string, name: string)

  /** JavaScript truthiness of the nullable integer flag. */
  predicate Truthy(flag: Option<int>)
  {
    flag.Some? && flag.value != 0
  }

  /** The download gate: a missing row or a missing file path is 404 whatever the
      flag says; a falsy `downloadable` is 403; otherwise the file is served under its
      stored name, or "download" when it has none. */
  function Download(c: Option<Content>): (d: DownloadDecision)
    ensures d == FileNotFound <==> c.None? || !Present(c.value.filePath)
    ensures d == NotAllowed <==> c.Some? && Present(c.value.filePath) && !Truthy(c.value.downloadable)
    ensures d.Serve? ==> (
      && c.Some? && Truthy(c.value.downloadable)
      && d.path == c.value.filePath.value && d.path != ""
      && d.name == (if Present(c.value.fileName) then c.value.fileName.value else "download")
      && d.name != "")
  {
    if c.None? || !Present(c.value.filePath) then FileNotFound
    else if !Truthy(c.value.downloadable) then NotAllowed
    else Serve(c.value.filePath.value, if Present(c.value.fileName) then c.value.fileName.value else "download")
  }

  /** A stored file uploaded without a `downloadable` field is served: the column
      default makes it downloadable. */
  lemma UploadWithoutFlagIsServed(item: Content)
    requires item.downloadable.None? && Present(item.filePath)
    ensures Download(Some(WithContentDefaults(item))).Serve?
  {
  }

  function DownloadStatus(d: DownloadDecision): int
  {
    match d
    case FileNotFound => NotFound
    case NotAllowed => Forbidden
    case Serve(_, _) => Ok
  }

  /** `order || 0`: for a number this is the same as defaulting a missing order to 0. */
  function OrderOrZero(order: Option<int>): (r: int)
    ensures r == if order.Some? then order.value else DefaultCourseOrder
  {
    if order.Some? && order.value != 0 then order.value else 0
  }

  /** `points || 1`: a missing and a zero points value both become 1, so no question is
      worth 0 points. */
  function PointsOrOne(points: Option<int>): (r: int)
    ensures r != 0
    ensures r == DefaultPoints <==> points.None? || points.value == 0 || points.value == 1
    ensures points.Some? && points.value != 0 ==> r == points.value
  {
    if points.Some? && points.value != 0 then points.value else DefaultPoints
  }

  // ----------------------------------------------------------------------------
  // Quiz questions
  // ----------------------------------------------------------------------------

  /** One element of the `questions` array of a quiz-creation request. */
  datatype QuestionInput = QuestionInput(question: string, options: seq<string>, correctAnswer: string, points: Option<int>)

  function QuestionRow(quizId: Id, input: QuestionInput, id: Id, order: int): QuizQuestion
  {
    QuizQuestion(id, quizId, input.question, input.options, input.correctAnswer, PointsOrOne(input.points), order)
  }

  /** The rows the creation loop inserts: the i-th request question (from 0) belongs to
      the quiz, keeps its text, options and answer, and gets `order` i + 1, so orders are
      1, 2, ... without gaps or repeats; every question is worth a non-zero number of
      points. */
  function QuestionRows(quizId: Id, inputs: seq<QuestionInput>, ids: seq<Id>): (r: seq<QuizQuestion>)
    requires |ids| == |inputs|
    ensures |r| == |inputs|
    ensures forall i :: 0 <= i < |r| ==>
      && r[i].id == ids[i] && r[i].quizId == quizId && r[i].order == i + 1
      && r[i].question == inputs[i].question && r[i].options == inputs[i].options
      && r[i].correctAnswer == inputs[i].correctAnswer
      && r[i].points == PointsOrOne(inputs[i].points) && r[i].points != 0
    ensures forall i, j :: 0 <= i < j < |r| ==> r[i].order < r[j].order
  {
    seq(|inputs|, i requires 0 <= i < |inputs| => QuestionRow(quizId, inputs[i], ids[i], i + 1))
  }

  lemma QuestionRowsSnoc(quizId: Id, inputs: seq<QuestionInput>, ids: seq<Id>, i: nat)
    requires |ids| == |inputs| && i < |inputs|
    ensures QuestionRows(quizId, inputs[..i + 1], ids[..i + 1])
         == QuestionRows(quizId, inputs[..i], ids[..i]) + [QuestionRow(quizId, inputs[i], ids[i], i + 1)]
  {
    var a := QuestionRows(quizId, inputs[..i + 1], ids[..i + 1]);
    var b := QuestionRows(quizId, inputs[..i], ids[..i]) + [QuestionRow(quizId, inputs[i], ids[i], i + 1)];
    assert |a| == |b|;
    forall k | 0 <= k < |a| ensures a[k] == b[k] {
      assert inputs[..i + 1][k] == inputs[k] && ids[..i + 1][k] == ids[k];
    }
  }

  /** A quiz created with fresh ids reads back through `getQuiz` with exactly the
      questions of the request, in request order. */
  lemma {:induction false} CreatedQuizReadsBack(quizzes: seq<Quiz>, questions: seq<QuizQuestion>, q: Quiz,
                                               inputs: seq<QuestionInput>, ids: seq<Id>)
    requires forall i :: 0 <= i < |quizzes| ==> quizzes[i].id != q.id
    requires forall i :: 0 <= i < |questions| ==> questions[i].quizId != q.id
    requires |ids| == |inputs|
    ensures GetQuiz(quizzes + [q], questions + QuestionRows(q.id, inputs, ids), q.id)
         == Some(QuizWithQuestions(q, QuestionRows(q.id, inputs, ids)))
  {
    var rows := QuestionRows(q.id, inputs, ids);
    var isQuiz := QuizIdIs(q.id);
    var ofQuiz := QuestionOfQuiz(q.id);
    FilterAppend(quizzes, [q], isQuiz);
    FilterNone(quizzes, isQuiz);
    FilterAll([q], isQuiz);
    assert Filter(quizzes + [q], isQuiz) == [q];
    FilterAppend(questions, rows, ofQuiz);
    FilterNone(questions, ofQuiz);
    FilterAll(rows, ofQuiz);
    assert Filter(questions + rows, ofQuiz) == rows;
    SortBySorted(rows, QuestionOrder);
  }

  // ----------------------------------------------------------------------------
  // Handlers
  // ----------------------------------------------------------------------------

  /** `POST /api/content`: admins only; the row is stored with the uploader and the
      parsed tags (`[]` when none are given). The multipart form never carries the
      `downloadable` flag as null, so `None` here is an omitted field, which the insert
      turns into the column default. */
  method CreateContentHandler(s: Store, userId: Id, item: Content, tags: Option<string>) returns (status: int)
    requires s.Valid()
    modifies s`content
    ensures s.Valid()
    ensures status == Forbidden <==> !IsAdmin(FindUser(s.users, userId))
    ensures status == Forbidden ==> s.content == old(s.content)
    ensures status != Forbidden ==> (
      && status == Created
      && s.content == old(s.content) + [WithContentDefaults(item.(uploadedBy := userId, tags := ParseTags(tags, true)))])
    ensures status == Created && item.downloadable.None? ==> Truthy(s.content[|s.content| - 1].downloadable)
  {
    if !IsAdmin(FindUser(s.users, userId)) {
      return Forbidden;
    }
    s.CreateContent(item.(uploadedBy := userId, tags := ParseTags(tags, true)));
    status := Created;
  }

  /** `PUT /api/content/:id`, restricted to tags: admins only; absent tags leave the
      column as it was. */
  method UpdateContentHandler(s: Store, userId: Id, id: Id, tags: Option<string>) returns (status: int)
    requires s.Valid()
    modifies s`content
    ensures s.Valid()
    ensures status == Forbidden <==> !IsAdmin(FindUser(s.users, userId))
    ensures status == Forbidden || !Present(tags) ==> s.content == old(s.content)
    ensures status != Forbidden ==> (
      && status == Ok && |s.content| == |old(s.content)|
      && forall i :: 0 <= i < |s.content| ==>
        s.content[i] == if old(s.content)[i].id == id && Present(tags)
                        then old(s.content)[i].(tags := ParseTags(tags, false))
                        else old(s.content)[i])
  {
    if !IsAdmin(FindUser(s.users, userId)) {
      return Forbidden;
    }
    s.UpdateContentTags(id, ParseTags(tags, false));
    status := Ok;
  }

  /** `POST /api/courses`: admins only; the course is stored with its creator. */
  method CreateCourseHandler(s: Store, userId: Id, course: Course) returns (status: int)
    requires s.Valid()
    modifies s`courses
    ensures s.Valid()
    ensures status == Forbidden <==> !IsAdmin(FindUser(s.users, userId))
    ensures status == Forbidden ==> s.courses == old(s.courses)
    ensures status != Forbidden ==> status == Created && s.courses == old(s.courses) + [course.(createdBy := userId)]
  {
    if !IsAdmin(FindUser(s.users, userId)) {
      return Forbidden;
    }
    s.CreateCourse(course.(createdBy := userId));
    status := Created;
  }

  /** `POST /api/courses/:courseId/content/:contentId`: admins only; a missing or zero
      order is stored as 0. */
  method AddContentToCourseHandler(s: Store, userId: Id, freshId: Id, courseId: Id, contentId: Id, order: Option<int>)
    returns (status: int)
    requires s.Valid()
    modifies s`courseContent
    ensures s.Valid()
    ensures status == Forbidden <==> !IsAdmin(FindUser(s.users, userId))
    ensures status == Forbidden ==> s.courseContent == old(s.courseContent)
    ensures status != Forbidden ==> (
      && status == Created
      && s.courseContent == old(s.courseContent) + [CourseContent(freshId, courseId, contentId, OrderOrZero(order))])
  {
    if !IsAdmin(FindUser(s.users, userId)) {
      return Forbidden;
    }
    s.AddContentToCourse(freshId, courseId, contentId, OrderOrZero(order));
    status := Created;
  }

  /** `POST /api/quizzes`: admins only; creates the quiz, then inserts the request's
      questions one at a time with `order` i + 1 and `points || 1`. */
  method CreateQuizHandler(s: Store, userId: Id, quizId: Id, input: QuizInput,
                           questions: Option<seq<QuestionInput>>, questionIds: seq<Id>, now: Time)
    returns (status: int, quiz: Option<Quiz>)
    requires s.Valid()
    requires questions.Some? ==> |questionIds| == |questions.value|
    modifies s`quizzes, s`quizQuestions
    ensures s.Valid()
    ensures status == Forbidden <==> !IsAdmin(FindUser(s.users, userId))
    ensures status == Forbidden ==> quiz == None && s.quizzes == old(s.quizzes) && s.quizQuestions == old(s.quizQuestions)
    ensures status != Forbidden ==> (
      && status == Created
      && quiz == Some(NewQuiz(quizId, input, userId, now))
      && s.quizzes == old(s.quizzes) + [quiz.value]
      && s.quizQuestions == old(s.quizQuestions)
           + (if questions.Some? then QuestionRows(quizId, questions.value, questionIds) else []))
  {
    if !IsAdmin(FindUser(s.users, userId)) {
      return Forbidden, None;
    }
    var q := s.CreateQuiz(quizId, input, userId, now);
    if questions.Some? {
      var inputs := questions.value;
      for i := 0 to |inputs|
        invariant s.Valid()
        invariant s.quizzes == old(s.quizzes) + [q]
        invariant s.quizQuestions == old(s.quizQuestions) + QuestionRows(q.id, inputs[..i], questionIds[..i])
      {
        QuestionRowsSnoc(q.id, inputs, questionIds, i);
        s.AddQuizQuestion(QuestionRow(q.id, inputs[i], questionIds[i], i + 1));
      }
      assert inputs[..|inputs|] == inputs && questionIds[..|inputs|] == questionIds;
    }
    status, quiz := Created, Some(q);
  }

  /** `GET /api/stats/admin`: admins only; changes nothing. */
  method AdminStatsHandler(s: Store, userId: Id) returns (status: int, stats: Option<AdminStats>)
    ensures status == Forbidden <==> !IsAdmin(FindUser(s.users, userId))
    ensures status == Forbidden ==> stats == None
    ensures status != Forbidden ==> status == Ok && stats == Some(AdminStatsOf(s.users, s.content, s.courses, s.quizzes))
  {
    if !IsAdmin(FindUser(s.users, userId)) {
      return Forbidden, None;
    }
    return Ok, Some(AdminStatsOf(s.users, s.content, s.courses, s.quizzes));
  }

  /** `GET /api/download/:contentId`: the gate applied to the row with the id. */
  method DownloadHandler(s: Store, contentId: Id) returns (status: int, d: DownloadDecision)
    ensures d == Download(FindContent(s.content, contentId)) && status == DownloadStatus(d)
    ensures status == NotFound <==> (
      || (forall c :: c in s.content ==> c.id != contentId)
      || !Present(FindContent(s.content, contentId).value.filePath))
    ensures status == Ok ==> exists c :: c in s.content && c.id == contentId && Truthy(c.downloadable)
  {
    d := Download(FindContent(s.content, contentId));
    status := DownloadStatus(d);
  }
}
