/** The learning-record part of the storage layer: enrollments, per-content progress,
    course membership and the quiz engine, over an in-memory copy of the tables. */
module Storage {
  import opened Schema
  import opened Tables

  // ----------------------------------------------------------------------------
  // Progress tracker: the pure meaning of a progress write
  // ----------------------------------------------------------------------------

  /** The columns a caller may pass to a progress write; `None` is an undefined key,
      which the update skips and the insert replaces by the column default. */
  datatype ProgressPatch = ProgressPatch(progress: Option<real>, timeSpent: Option<int>, completed: Option<bool>)

  /** The patch's `completed` is truthy. */
  predicate MarksCompleted(patch: ProgressPatch)
  {
    patch.completed == Some(true)
  }

  predicate IsRowFor(row: Progress, userId: Id, contentId: Id)
  {
    row.userId == userId && row.contentId == contentId
  }

  /** The first progress row for (userId, contentId), the one the upsert reads. */
  function FindProgress(rows: seq<Progress>, userId: Id, contentId: Id): (k: Option<nat>)
    ensures k.Some? ==> k.value < |rows| && IsRowFor(rows[k.value], userId, contentId)
    ensures k.Some? ==> forall i :: 0 <= i < k.value ==> !IsRowFor(rows[i], userId, contentId)
    ensures k.None? <==> forall i :: 0 <= i < |rows| ==> !IsRowFor(rows[i], userId, contentId)
  {
    if rows == [] then None
    else if IsRowFor(rows[0], userId, contentId) then Some(0)
    else
      match FindProgress(rows[1..], userId, contentId)
      case Some(j) => Some(j + 1)
      case None => None
  }

  /** The existing row after `set({...patch, lastAccessed: now, completedAt?})`. */
  function ApplyPatch(row: Progress, patch: ProgressPatch, now: Time): (r: Progress)
    ensures r.id == row.id && IsRowFor(r, row.userId, row.contentId)
    ensures patch.progress.None? ==> r.progress == row.progress
    ensures patch.progress.Some? ==> r.progress == patch.progress.value
    ensures patch.timeSpent.None? ==> r.timeSpent == row.timeSpent
    ensures patch.timeSpent.Some? ==> r.timeSpent == patch.timeSpent.value
    ensures patch.completed.None? ==> r.completed == row.completed
    ensures patch.completed.Some? ==> r.completed == patch.completed.value
    ensures r.lastAccessed == now
    ensures MarksCompleted(patch) ==> r.completedAt == Some(now)
    ensures !MarksCompleted(patch) ==> r.completedAt == row.completedAt
  {
    Progress(
      row.id, row.userId, row.contentId,
      if patch.progress.Some? then patch.progress.value else row.progress,
      if patch.timeSpent.Some? then patch.timeSpent.value else row.timeSpent,
      if patch.completed.Some? then patch.completed.value else row.completed,
      now,
      if MarksCompleted(patch) then Some(now) else row.completedAt)
  }

  /** The inserted row: undefined columns take their defaults (`progress '0'`,
      `timeSpent 0`, `completed 0`), `lastAccessed` defaults to the insert time. */
  function InsertedProgress(id: Id, userId: Id, contentId: Id, patch: ProgressPatch, now: Time): (r: Progress)
    ensures r.id == id && IsRowFor(r, userId, contentId)
    ensures r.progress == (if patch.progress.Some? then patch.progress.value else 0.0)
    ensures r.timeSpent == (if patch.timeSpent.Some? then patch.timeSpent.value else 0)
    ensures r.completed == (patch.completed == Some(true))
    ensures r.lastAccessed == now
    ensures r.completedAt == (if MarksCompleted(patch) then Some(now) else None)
  {
    Progress(
      id, userId, contentId,
      if patch.progress.Some? then patch.progress.value else DefaultProgress,
      if patch.timeSpent.Some? then patch.timeSpent.value else DefaultTimeSpent,
      if patch.completed.Some? then patch.completed.value else DefaultCompleted,
      now,
      if MarksCompleted(patch) then Some(now) else None)
  }

  /** `UPDATE progress SET ... WHERE id = target`. */
  function PatchWhereId(rows: seq<Progress>, target: Id, patch: ProgressPatch, now: Time): seq<Progress>
  {
    seq(|rows|, i requires 0 <= i < |rows| =>
      if rows[i].id == target then ApplyPatch(rows[i], patch, now) else rows[i])
  }

  /** The progress table after `updateProgress`: select the pair's row; if there is
      one, update it by its id, otherwise insert a new row. */
  function Upserted(rows: seq<Progress>, userId: Id, contentId: Id, patch: ProgressPatch,
                    freshId: Id, now: Time): (r: seq<Progress>)
    ensures FindProgress(r, userId, contentId).Some?
    ensures FindProgress(rows, userId, contentId).Some? ==> |r| == |rows|
    ensures FindProgress(rows, userId, contentId).None? ==> |r| == |rows| + 1 && r[..|rows|] == rows
  {
    match FindProgress(rows, userId, contentId)
    case Some(k) =>
      var r := PatchWhereId(rows, rows[k].id, patch, now);
      assert IsRowFor(r[k], userId, contentId);
      r
    case None =>
      var r := rows + [InsertedProgress(freshId, userId, contentId, patch, now)];
      assert IsRowFor(r[|rows|], userId, contentId);
      r
  }

  /** Primary keys of the progress table are distinct. */
  predicate ProgressIdsUnique(rows: seq<Progress>)
  {
    forall i, j :: 0 <= i < j < |rows| ==> rows[i].id != rows[j].id
  }

  predicate FreshProgressId(rows: seq<Progress>, id: Id)
  {
    forall i :: 0 <= i < |rows| ==> rows[i].id != id
  }

  /** At most one progress row per (user, content) pair. */
  predicate PairsUnique(rows: seq<Progress>)
  {
    forall i, j :: 0 <= i < j < |rows| ==> !IsRowFor(rows[j], rows[i].userId, rows[i].contentId)
  }

  /** Upsert versus insert: an existing pair's row is the only row that changes and
      the table keeps its length; a new pair gets exactly one appended row. */
  lemma UpsertShape(rows: seq<Progress>, userId: Id, contentId: Id, patch: ProgressPatch, freshId: Id, now: Time)
    requires ProgressIdsUnique(rows)
    ensures var r := Upserted(rows, userId, contentId, patch, freshId, now);
      match FindProgress(rows, userId, contentId)
      case Some(k) =>
        && |r| == |rows|
        && r[k] == ApplyPatch(rows[k], patch, now)
        && (forall i :: 0 <= i < |rows| && i != k ==> r[i] == rows[i])
      case None =>
        && |r| == |rows| + 1
        && r[..|rows|] == rows
        && r[|rows|] == InsertedProgress(freshId, userId, contentId, patch, now)
  {
    var r := Upserted(rows, userId, contentId, patch, freshId, now);
    match FindProgress(rows, userId, contentId)
    case Some(k) =>
      forall i | 0 <= i < |rows| && i != k ensures r[i] == rows[i] {
        if i < k { assert rows[i].id != rows[k].id; } else { assert rows[k].id != rows[i].id; }
      }
    case None =>
  }

  /** Writing progress never creates a second row for a pair. */
  lemma UpsertKeepsPairsUnique(rows: seq<Progress>, userId: Id, contentId: Id, patch: ProgressPatch, freshId: Id, now: Time)
    requires PairsUnique(rows)
    ensures PairsUnique(Upserted(rows, userId, contentId, patch, freshId, now))
  {
    var r := Upserted(rows, userId, contentId, patch, freshId, now);
    match FindProgress(rows, userId, contentId)
    case Some(k) =>
      assert forall i :: 0 <= i < |r| ==> IsRowFor(r[i], rows[i].userId, rows[i].contentId);
    case None =>
      assert forall i :: 0 <= i < |rows| ==> r[i] == rows[i];
      assert IsRowFor(r[|rows|], userId, contentId);
  }

  /** A fresh id keeps the progress table's primary keys distinct. */
  lemma UpsertKeepsIdsUnique(rows: seq<Progress>, userId: Id, contentId: Id, patch: ProgressPatch, freshId: Id, now: Time)
    requires ProgressIdsUnique(rows) && FreshProgressId(rows, freshId)
    ensures ProgressIdsUnique(Upserted(rows, userId, contentId, patch, freshId, now))
  {
    var r := Upserted(rows, userId, contentId, patch, freshId, now);
    match FindProgress(rows, userId, contentId)
    case Some(k) =>
      assert forall i :: 0 <= i < |r| ==> r[i].id == rows[i].id;
    case None =>
      assert forall i :: 0 <= i < |rows| ==> r[i] == rows[i];
  }

  /** One call of `updateProgress`, with its fresh id and clock reading. */
  datatype ProgressWrite = ProgressWrite(userId: Id, contentId: Id, patch: ProgressPatch, freshId: Id, now: Time)

  /** The progress table produced from an empty one by a series of `updateProgress` calls. */
  function Replay(writes: seq<ProgressWrite>): seq<Progress>
  {
    if writes == [] then []
    else
      var w := writes[|writes| - 1];
      Upserted(Replay(writes[..|writes| - 1]), w.userId, w.contentId, w.patch, w.freshId, w.now)
  }

  /** When `updateProgress` is the only writer, every (user, content) pair has at most one row. */
  lemma {:induction false} ReplayPairsUnique(writes: seq<ProgressWrite>)
    ensures PairsUnique(Replay(writes))
  {
    if writes != [] {
      var w := writes[|writes| - 1];
      ReplayPairsUnique(writes[..|writes| - 1]);
      UpsertKeepsPairsUnique(Replay(writes[..|writes| - 1]), w.userId, w.contentId, w.patch, w.freshId, w.now);
    }
  }

  /** `completedAt` is not set once: a second `completed: true` write moves it to the later time. */
  lemma CompletedAtOverwritten(rows: seq<Progress>, userId: Id, contentId: Id, patch: ProgressPatch,
                               id1: Id, t1: Time, id2: Id, t2: Time)
    requires ProgressIdsUnique(rows) && FreshProgressId(rows, id1)
    requires MarksCompleted(patch)
    ensures var once := Upserted(rows, userId, contentId, patch, id1, t1);
      var twice := Upserted(once, userId, contentId, patch, id2, t2);
      && FindProgress(twice, userId, contentId).Some?
      && twice[FindProgress(twice, userId, contentId).value].completedAt == Some(t2)
  {
    var once := Upserted(rows, userId, contentId, patch, id1, t1);
    UpsertShape(rows, userId, contentId, patch, id1, t1);
    UpsertKeepsIdsUnique(rows, userId, contentId, patch, id1, t1);
    assert FindProgress(once, userId, contentId).Some? by {
      match FindProgress(rows, userId, contentId)
      case Some(k) => assert IsRowFor(once[k], userId, contentId);
      case None => assert IsRowFor(once[|rows|], userId, contentId);
    }
    UpsertShape(once, userId, contentId, patch, id2, t2);
  }

  // ----------------------------------------------------------------------------
  // Enrollment ledger
  // ----------------------------------------------------------------------------

  predicate IsEnrollmentFor(e: Enrollment, userId: Id, courseId: Id)
  {
    e.userId == userId && e.courseId == courseId
  }

  /** `UPDATE enrollments SET progress = value [, completedAt = now if value >= 100]
      WHERE userId = .. AND courseId = ..`. */
  function WithCourseProgress(rows: seq<Enrollment>, userId: Id, courseId: Id, value: real, now: Time): (r: seq<Enrollment>)
    ensures |r| == |rows|
    ensures forall i :: 0 <= i < |rows| && !IsEnrollmentFor(rows[i], userId, courseId) ==> r[i] == rows[i]
    ensures forall i :: 0 <= i < |rows| && IsEnrollmentFor(rows[i], userId, courseId) ==>
      && r[i].progress == value
      && r[i].completedAt == (if value >= 100.0 then Some(now) else rows[i].completedAt)
      && r[i] == rows[i].(progress := r[i].progress, completedAt := r[i].completedAt)
  {
    seq(|rows|, i requires 0 <= i < |rows| =>
      if IsEnrollmentFor(rows[i], userId, courseId)
      then rows[i].(progress := value, completedAt := if value >= 100.0 then Some(now) else rows[i].completedAt)
      else rows[i])
  }

  /** An enrollment row joined with its course. */
  datatype EnrolledCourse = EnrolledCourse(enrollment: Enrollment, course: Course)

  /** `enrollments INNER JOIN courses ON enrollments.courseId = courses.id`. */
  function JoinCourses(es: seq<Enrollment>, courses: seq<Course>): (r: seq<EnrolledCourse>)
    ensures forall k :: 0 <= k < |r| ==>
      r[k].enrollment in es && r[k].course in courses && r[k].course.id == r[k].enrollment.courseId
    ensures forall e, c :: e in es && c in courses && c.id == e.courseId ==> EnrolledCourse(e, c) in r
  {
    if es == [] then []
    else
      var matching := Filter(courses, (c: Course) => c.id == es[0].courseId);
      var here := seq(|matching|, k requires 0 <= k < |matching| => EnrolledCourse(es[0], matching[k]));
      var rest := JoinCourses(es[1..], courses);
      assert forall c :: c in courses && c.id == es[0].courseId ==> EnrolledCourse(es[0], c) in here by {
        forall c | c in courses && c.id == es[0].courseId ensures EnrolledCourse(es[0], c) in here {
          var j :| 0 <= j < |courses| && courses[j] == c;
          var k :| 0 <= k < |matching| && matching[k] == c;
          assert here[k] == EnrolledCourse(es[0], c);
        }
      }
      assert forall e :: e in es ==> e == es[0] || e in es[1..];
      here + rest
  }

  /** `getUserEnrollments`: the user's enrollments that have a course, each with its
      course, latest enrollment first. */
  function UserEnrollments(enrollments: seq<Enrollment>, courses: seq<Course>, userId: Id): (r: seq<EnrolledCourse>)
    ensures forall k :: 0 <= k < |r| ==>
      && r[k].enrollment in enrollments && r[k].enrollment.userId == userId
      && r[k].course in courses && r[k].course.id == r[k].enrollment.courseId
    ensures forall e, c :: e in enrollments && e.userId == userId && c in courses && c.id == e.courseId ==>
      EnrolledCourse(e, c) in r
    ensures forall a, b :: 0 <= a < b < |r| ==> r[a].enrollment.enrolledAt >= r[b].enrollment.enrolledAt
  {
    var isMine := (e: Enrollment) => e.userId == userId;
    var latestFirst := (ec: EnrolledCourse) => -ec.enrollment.enrolledAt;
    var joined := JoinCourses(Filter(enrollments, isMine), courses);
    var r := SortBy(joined, latestFirst);
    assert forall k :: 0 <= k < |r| ==> r[k].enrollment in enrollments && r[k].enrollment.userId == userId by {
      forall k | 0 <= k < |r| ensures r[k].enrollment in enrollments && r[k].enrollment.userId == userId {
        SortByHas(joined, latestFirst, r[k]);
        FilterIn(enrollments, isMine, r[k].enrollment);
      }
    }
    assert forall e, c :: e in enrollments && e.userId == userId && c in courses && c.id == e.courseId ==>
      EnrolledCourse(e, c) in r by {
      forall e, c | e in enrollments && e.userId == userId && c in courses && c.id == e.courseId
        ensures EnrolledCourse(e, c) in r
      {
        FilterHas(enrollments, isMine, e);
        SortByHas(joined, latestFirst, EnrolledCourse(e, c));
      }
    }
    r
  }


  // ----------------------------------------------------------------------------
  // Progress reads and course membership
  // ----------------------------------------------------------------------------

  /** `getUserProgress`: the user's rows, restricted to one content item when a
      non-empty `contentId` is given, most recently accessed first. */
  function UserProgress(rows: seq<Progress>, userId: Id, contentId: Option<Id>): (r: seq<Progress>)
    ensures forall p :: p in r <==>
      p in rows && p.userId == userId && (Present(contentId) ==> p.contentId == contentId.value)
    ensures forall a, b :: 0 <= a < b < |r| ==> r[a].lastAccessed >= r[b].lastAccessed
  {
    var picks := (p: Progress) => p.userId == userId && (Present(contentId) ==> p.contentId == contentId.value);
    var latestFirst := (p: Progress) => -p.lastAccessed;
    var picked := Filter(rows, picks);
    var r := SortBy(picked, latestFirst);
    assert forall p :: p in r <==> p in rows && picks(p) by {
      forall p ensures p in r <==> p in rows && picks(p) {
        SortByHas(picked, latestFirst, p);
        if p in picked {
          FilterIn(rows, picks, p);
        }
        if p in rows && picks(p) {
          FilterHas(rows, picks, p);
        }
      }
    }
    r
  }


  /** A membership row of a course joined with its content item. */
  datatype CourseEntry = CourseEntry(link: CourseContent, item: Content)

  /** The joined rows one membership row contributes: one per content item whose id it
      names, in table order. */
  function LinkEntries(l: CourseContent, items: seq<Content>): (r: seq<CourseEntry>)
    ensures forall k :: 0 <= k < |r| ==> r[k].link == l && r[k].item in items && r[k].item.id == l.contentId
    ensures forall c :: c in items && c.id == l.contentId ==> CourseEntry(l, c) in r
  {
    if items == [] then []
    else
      assert forall c :: c in items ==> c == items[0] || c in items[1..];
      (if items[0].id == l.contentId then [CourseEntry(l, items[0])] else []) + LinkEntries(l, items[1..])
  }

  /** `courseContent INNER JOIN content ON courseContent.contentId = content.id`. */
  function JoinContent(links: seq<CourseContent>, items: seq<Content>): (r: seq<CourseEntry>)
    ensures forall k :: 0 <= k < |r| ==>
      r[k].link in links && r[k].item in items && r[k].item.id == r[k].link.contentId
    ensures forall l, c :: l in links && c in items && c.id == l.contentId ==> CourseEntry(l, c) in r
  {
    if links == [] then []
    else
      assert forall l :: l in links ==> l == links[0] || l in links[1..];
      LinkEntries(links[0], items) + JoinContent(links[1..], items)
  }

  /** A membership row appears in the join once for every copy of its content item. */
  lemma {:induction false} LinkEntriesCount(l: CourseContent, items: seq<Content>, e: CourseEntry)
    ensures multiset(LinkEntries(l, items))[e] == if e.link == l && e.item.id == l.contentId then multiset(items)[e.item] else 0
  {
    if items != [] {
      LinkEntriesCount(l, items[1..], e);
      assert items == [items[0]] + items[1..];
    }
  }

  /** The number of times one joined row occurs: the copies of its membership row times
      the copies of its content item, when the two match, and none otherwise. */
  lemma {:induction false} JoinContentCount(links: seq<CourseContent>, items: seq<Content>, e: CourseEntry)
    ensures multiset(JoinContent(links, items))[e]
         == if e.item.id == e.link.contentId then multiset(links)[e.link] * multiset(items)[e.item] else 0
  {
    if links == [] {
      assert multiset(links)[e.link] == 0;
    } else {
      JoinContentCount(links[1..], items, e);
      LinkEntriesCount(links[0], items, e);
      assert JoinContent(links, items) == LinkEntries(links[0], items) + JoinContent(links[1..], items);
      assert links == [links[0]] + links[1..];
      CountStep(multiset(JoinContent(links, items))[e], multiset(LinkEntries(links[0], items))[e],
                multiset(JoinContent(links[1..], items))[e], multiset(links)[e.link], multiset(links[1..])[e.link],
                multiset(items)[e.item], e.item.id == e.link.contentId, e.link == links[0]);
    }
  }

  /** The arithmetic of one step of the join: the first membership row's entries plus
      the rest's. */
  lemma CountStep(total: int, first: int, rest: int, m: nat, b: nat, c: nat, matching: bool, isHead: bool)
    requires total == first + rest
    requires first == if matching && isHead then c else 0
    requires rest == if matching then b * c else 0
    requires m == if isHead then b + 1 else b
    ensures total == if matching then m * c else 0
  {
    if matching && isHead {
      MulSucc(b, c);
    }
  }

  /** The inner join holds each matching (membership row, content item) pair as many
      times as the two multiplicities multiplied, and nothing else. */
  lemma JoinContentCounts(links: seq<CourseContent>, items: seq<Content>)
    ensures forall e :: (multiset(JoinContent(links, items))[e]
      == if e.item.id == e.link.contentId then multiset(links)[e.link] * multiset(items)[e.item] else 0)
  {
    forall e: CourseEntry ensures (multiset(JoinContent(links, items))[e]
      == if e.item.id == e.link.contentId then multiset(links)[e.link] * multiset(items)[e.item] else 0)
    {
      JoinContentCount(links, items, e);
    }
  }

  lemma MulSucc(b: nat, c: nat)
    ensures (b + 1) * c == b * c + c
  {
  }

  /** No two content rows share an id (the primary key). */
  predicate DistinctIds(items: seq<Content>)
  {
    forall i, j :: 0 <= i < j < |items| ==> items[i].id != items[j].id
  }

  /** Some stored content row has the id. */
  predicate HasContent(items: seq<Content>, id: Id)
  {
    exists i :: 0 <= i < |items| && items[i].id == id
  }

  lemma {:induction false} LinkEntriesNone(l: CourseContent, items: seq<Content>)
    requires forall i :: 0 <= i < |items| ==> items[i].id != l.contentId
    ensures LinkEntries(l, items) == []
  {
    if items != [] {
      LinkEntriesNone(l, items[1..]);
    }
  }

  /** A membership row whose content exists, under a primary key, joins exactly once. */
  lemma {:induction false} LinkEntriesOne(l: CourseContent, items: seq<Content>)
    requires DistinctIds(items) && HasContent(items, l.contentId)
    ensures |LinkEntries(l, items)| == 1
  {
    var rest := items[1..];
    if items[0].id == l.contentId {
      forall i | 0 <= i < |rest| ensures rest[i].id != l.contentId {
        assert rest[i] == items[i + 1];
      }
      LinkEntriesNone(l, rest);
    } else {
      var i :| 0 <= i < |items| && items[i].id == l.contentId;
      assert rest[i - 1] == items[i];
      assert DistinctIds(rest) by {
        forall a, b | 0 <= a < b < |rest| ensures rest[a].id != rest[b].id {
          assert rest[a] == items[a + 1] && rest[b] == items[b + 1];
        }
      }
      LinkEntriesOne(l, rest);
    }
  }

  /** When every membership row names a stored content item and content ids are
      unique, the join has exactly one row per membership row. */
  lemma {:induction false} JoinContentLength(links: seq<CourseContent>, items: seq<Content>)
    requires DistinctIds(items)
    requires forall k :: 0 <= k < |links| ==> HasContent(items, links[k].contentId)
    ensures |JoinContent(links, items)| == |links|
  {
    if links != [] {
      LinkEntriesOne(links[0], items);
      assert forall k :: 0 <= k < |links[1..]| ==> links[1..][k] == links[k + 1];
      JoinContentLength(links[1..], items);
    }
  }

  /** The membership rows of one course. */
  function InCourse(courseId: Id): CourseContent -> bool
  {
    (l: CourseContent) => l.courseId == courseId
  }

  function EntryOrder(e: CourseEntry): int
  {
    e.link.order
  }

  /** The joined rows of one course in ascending `order`. */
  function CourseEntries(courseContent: seq<CourseContent>, content: seq<Content>, courseId: Id): (r: seq<CourseEntry>)
    ensures forall k :: 0 <= k < |r| ==>
      && r[k].link in courseContent && r[k].link.courseId == courseId
      && r[k].item in content && r[k].item.id == r[k].link.contentId
    ensures forall l, c :: l in courseContent && l.courseId == courseId && c in content && c.id == l.contentId ==>
      CourseEntry(l, c) in r
    ensures forall a, b :: 0 <= a < b < |r| ==> r[a].link.order <= r[b].link.order
  {
    var inCourse := InCourse(courseId);
    var joined := JoinContent(Filter(courseContent, inCourse), content);
    var r := SortBy(joined, EntryOrder);
    assert forall k :: 0 <= k < |r| ==> r[k].link in courseContent && r[k].link.courseId == courseId by {
      forall k | 0 <= k < |r| ensures r[k].link in courseContent && r[k].link.courseId == courseId {
        SortByHas(joined, EntryOrder, r[k]);
        FilterIn(courseContent, inCourse, r[k].link);
      }
    }
    assert forall l, c :: l in courseContent && l.courseId == courseId && c in content && c.id == l.contentId ==>
      CourseEntry(l, c) in r by {
      forall l, c | l in courseContent && l.courseId == courseId && c in content && c.id == l.contentId
        ensures CourseEntry(l, c) in r
      {
        FilterHas(courseContent, inCourse, l);
        SortByHas(joined, EntryOrder, CourseEntry(l, c));
      }
    }
    r
  }

  /** A course's joined rows hold each (membership row, content item) pair of the course
      once for every copy of the membership row times every copy of the item. */
  lemma CourseEntriesCounts(courseContent: seq<CourseContent>, content: seq<Content>, courseId: Id)
    ensures forall e :: (multiset(CourseEntries(courseContent, content, courseId))[e]
      == if e.link.courseId == courseId && e.item.id == e.link.contentId
         then multiset(courseContent)[e.link] * multiset(content)[e.item] else 0)
  {
    var links := Filter(courseContent, InCourse(courseId));
    FilterCounts(courseContent, InCourse(courseId));
    JoinContentCounts(links, content);
    assert multiset(CourseEntries(courseContent, content, courseId)) == multiset(JoinContent(links, content));
  }

  /** `getCourseContent`: the content items of a course, in the course's order. */
  function CourseItems(courseContent: seq<CourseContent>, content: seq<Content>, courseId: Id): (r: seq<Content>)
    ensures var entries := CourseEntries(courseContent, content, courseId);
      |r| == |entries| && forall k :: 0 <= k < |r| ==> r[k] == entries[k].item
  {
    var entries := CourseEntries(courseContent, content, courseId);
    seq(|entries|, k requires 0 <= k < |entries| => entries[k].item)
  }

  /** Under the content primary key and the foreign key from membership rows to content,
      `getCourseContent` returns one item per membership row of the course: a content
      item linked twice is returned twice. */
  lemma CourseItemsCount(courseContent: seq<CourseContent>, content: seq<Content>, courseId: Id)
    requires DistinctIds(content)
    requires forall l :: l in courseContent && l.courseId == courseId ==> HasContent(content, l.contentId)
    ensures |CourseItems(courseContent, content, courseId)| == |Filter(courseContent, InCourse(courseId))|
  {
    var links := Filter(courseContent, InCourse(courseId));
    forall k | 0 <= k < |links| ensures HasContent(content, links[k].contentId) {
      assert links[k] in courseContent && InCourse(courseId)(links[k]);
    }
    JoinContentLength(links, content);
  }

  /** `getCourseContent` returns exactly the stored content items that a membership row
      puts in the course. */
  lemma CourseItemsAreLinkedContent(courseContent: seq<CourseContent>, content: seq<Content>, courseId: Id)
    ensures var r := CourseItems(courseContent, content, courseId);
      forall k :: 0 <= k < |r| ==> r[k] in content && Linked(courseContent, courseId, r[k].id)
    ensures forall l, c :: l in courseContent && l.courseId == courseId && c in content && c.id == l.contentId ==>
      c in CourseItems(courseContent, content, courseId)
  {
    var entries := CourseEntries(courseContent, content, courseId);
    var r := CourseItems(courseContent, content, courseId);
    forall k | 0 <= k < |r| ensures r[k] in content && Linked(courseContent, courseId, r[k].id) {
      var l := entries[k].link;
      assert l in courseContent && l.courseId == courseId && l.contentId == r[k].id;
    }
    forall l, c | l in courseContent && l.courseId == courseId && c in content && c.id == l.contentId
      ensures c in r
    {
      var k :| 0 <= k < |entries| && entries[k] == CourseEntry(l, c);
      assert r[k] == c;
    }
  }

  /** Some membership row puts the content item in the course. */
  predicate Linked(courseContent: seq<CourseContent>, courseId: Id, contentId: Id)
  {
    exists l :: l in courseContent && l.courseId == courseId && l.contentId == contentId
  }

  // ----------------------------------------------------------------------------
  // Quiz engine
  // ----------------------------------------------------------------------------

  /** A quiz with its questions. */
  datatype QuizWithQuestions = QuizWithQuestions(quiz: Quiz, questions: seq<QuizQuestion>)

  /** The `where` clauses and the sort key of `getQuiz`. */
  function QuizIdIs(id: Id): Quiz -> bool
  {
    (q: Quiz) => q.id == id
  }

  function QuestionOfQuiz(id: Id): QuizQuestion -> bool
  {
    (q: QuizQuestion) => q.quizId == id
  }

  function QuestionOrder(q: QuizQuestion): int
  {
    q.order
  }

  /** `getQuiz`: the first quiz with the id and its questions by ascending `order`;
      `None` when no quiz has the id. */
  function GetQuiz(quizzes: seq<Quiz>, questions: seq<QuizQuestion>, id: Id): (r: Option<QuizWithQuestions>)
    ensures r.None? <==> forall q :: q in quizzes ==> q.id != id
    ensures r.Some? ==> r.value.quiz in quizzes && r.value.quiz.id == id
    ensures r.Some? ==> forall q :: q in r.value.questions <==> q in questions && q.quizId == id
    ensures r.Some? ==> forall a, b :: 0 <= a < b < |r.value.questions| ==>
      r.value.questions[a].order <= r.value.questions[b].order
  {
    var found := Filter(quizzes, QuizIdIs(id));
    if |found| == 0 then
      assert forall q :: q in quizzes ==> q.id != id by {
        forall q | q in quizzes ensures q.id != id {
          if q.id == id {
            FilterHas(quizzes, QuizIdIs(id), q);
          }
        }
      }
      None
    else
      var own := Filter(questions, QuestionOfQuiz(id));
      var ordered := SortBy(own, QuestionOrder);
      assert found[0] in quizzes;
      assert forall q :: q in ordered <==> q in questions && q.quizId == id by {
        forall q ensures q in ordered <==> q in questions && q.quizId == id {
          SortByHas(own, QuestionOrder, q);
          if q in own {
            FilterIn(questions, QuestionOfQuiz(id), q);
          }
          if q in questions && q.quizId == id {
            FilterHas(questions, QuestionOfQuiz(id), q);
          }
        }
      }
      Some(QuizWithQuestions(found[0], ordered))
  }


  /** The course ids of `getUserEnrollments`. */
  function EnrolledCourseIds(enrollments: seq<Enrollment>, courses: seq<Course>, userId: Id): set<Id>
  {
    var joined := UserEnrollments(enrollments, courses, userId);
    set k | 0 <= k < |joined| :: joined[k].enrollment.courseId
  }

  /** `getUserQuizzes`: the quizzes attached to a course the user is enrolled in (the
      course must exist), newest first; no enrollments gives no quizzes. */
  function UserQuizzes(enrollments: seq<Enrollment>, courses: seq<Course>, quizzes: seq<Quiz>, userId: Id): (r: seq<Quiz>)
    ensures var ids := EnrolledCourseIds(enrollments, courses, userId);
      forall q :: q in r <==> q in quizzes && q.courseId.Some? && q.courseId.value in ids
    ensures forall a, b :: 0 <= a < b < |r| ==> r[a].createdAt >= r[b].createdAt
  {
    var ids := EnrolledCourseIds(enrollments, courses, userId);
    if |UserEnrollments(enrollments, courses, userId)| == 0 then
      assert ids == {};
      []
    else
      var inCourses := (q: Quiz) => q.courseId.Some? && q.courseId.value in ids;
      var newestFirst := (q: Quiz) => -q.createdAt;
      var picked := Filter(quizzes, inCourses);
      var r := SortBy(picked, newestFirst);
      assert forall q :: q in r <==> q in quizzes && inCourses(q) by {
        forall q ensures q in r <==> q in quizzes && inCourses(q) {
          SortByHas(picked, newestFirst, q);
          if q in picked {
            FilterIn(quizzes, inCourses, q);
          }
          if q in quizzes && inCourses(q) {
            FilterHas(quizzes, inCourses, q);
          }
        }
      }
      r
  }


  /** `getUserQuizAttempts`: the user's attempts, restricted to one quiz when a
      non-empty `quizId` is given, most recently started first. */
  function UserQuizAttempts(rows: seq<QuizAttempt>, userId: Id, quizId: Option<Id>): (r: seq<QuizAttempt>)
    ensures forall a :: a in r <==>
      a in rows && a.userId == userId && (Present(quizId) ==> a.quizId == quizId.value)
    ensures forall a, b :: 0 <= a < b < |r| ==> r[a].startedAt >= r[b].startedAt
  {
    var picks := (a: QuizAttempt) => a.userId == userId && (Present(quizId) ==> a.quizId == quizId.value);
    var latestFirst := (a: QuizAttempt) => -a.startedAt;
    var picked := Filter(rows, picks);
    var r := SortBy(picked, latestFirst);
    assert forall a :: a in r <==> a in rows && picks(a) by {
      forall a ensures a in r <==> a in rows && picks(a) {
        SortByHas(picked, latestFirst, a);
        if a in picked {
          FilterIn(rows, picks, a);
        }
        if a in rows && picks(a) {
          FilterHas(rows, picks, a);
        }
      }
    }
    r
  }


  /** `UPDATE quizAttempts SET answers, score, percentage, completedAt = now WHERE id = attemptId`;
      undefined `answers` is skipped by the update. */
  function Submitted(rows: seq<QuizAttempt>, attemptId: Id, answers: Option<Json>, score: real, percentage: real, now: Time): (r: seq<QuizAttempt>)
    ensures |r| == |rows|
    ensures forall i :: 0 <= i < |rows| && rows[i].id != attemptId ==> r[i] == rows[i]
    ensures forall i :: 0 <= i < |rows| && rows[i].id == attemptId ==>
      && r[i].score == Some(score) && r[i].percentage == Some(percentage) && r[i].completedAt == Some(now)
      && r[i].answers == (if answers.Some? then answers else rows[i].answers)
      && r[i] == rows[i].(answers := r[i].answers, score := r[i].score, percentage := r[i].percentage, completedAt := r[i].completedAt)
  {
    seq(|rows|, i requires 0 <= i < |rows| =>
      if rows[i].id == attemptId
      then rows[i].(answers := if answers.Some? then answers else rows[i].answers,
                    score := Some(score), percentage := Some(percentage), completedAt := Some(now))
      else rows[i])
  }

  /** Primary keys of the attempts table are distinct. */
  predicate AttemptIdsUnique(rows: seq<QuizAttempt>)
  {
    forall i, j :: 0 <= i < j < |rows| ==> rows[i].id != rows[j].id
  }

  /** A completed attempt carries the score and percentage it was submitted with. */
  predicate CompletedAttemptsScored(rows: seq<QuizAttempt>)
  {
    forall i :: 0 <= i < |rows| && rows[i].completedAt.Some? ==> rows[i].score.Some? && rows[i].percentage.Some?
  }

  /** The first user with the id (`getUser`). */
  function FindUser(users: seq<User>, id: Id): (r: Option<User>)
    ensures r.Some? ==> r.value in users && r.value.id == id
    ensures r.None? <==> forall u :: u in users ==> u.id != id
  {
    if users == [] then None
    else if users[0].id == id then Some(users[0])
    else FindUser(users[1..], id)
  }

  /** The first content item with the id (`getContent`). */
  function FindContent(content: seq<Content>, id: Id): (r: Option<Content>)
    ensures r.Some? ==> r.value in content && r.value.id == id
    ensures r.None? <==> forall c :: c in content ==> c.id != id
  {
    if content == [] then None
    else if content[0].id == id then Some(content[0])
    else FindContent(content[1..], id)
  }

  // ----------------------------------------------------------------------------
  // The store
  // ----------------------------------------------------------------------------

  /** The tables of the learning record; every write goes through a method below. */
  class Store {
    var users: seq<User>
    var content: seq<Content>
    var courses: seq<Course>
    var courseContent: seq<CourseContent>
    var enrollments: seq<Enrollment>
    var progress: seq<Progress>
    var notes: seq<Note>
    var quizzes: seq<Quiz>
    var quizQuestions: seq<QuizQuestion>
    var quizAttempts: seq<QuizAttempt>

    /** Keys of the tables updated by primary key are distinct, progress holds one row
        per (user, content) pair, and completed attempts carry their results. */
    ghost predicate Valid()
      reads this
    {
      && ProgressIdsUnique(progress)
      && PairsUnique(progress)
      && AttemptIdsUnique(quizAttempts)
      && CompletedAttemptsScored(quizAttempts)
    }

    constructor ()
      ensures Valid()
      ensures users == [] && content == [] && courses == [] && courseContent == []
      ensures enrollments == [] && progress == [] && notes == []
      ensures quizzes == [] && quizQuestions == [] && quizAttempts == []
    {
      users, content, courses, courseContent := [], [], [], [];
      enrollments, progress, notes := [], [], [];
      quizzes, quizQuestions, quizAttempts := [], [], [];
    }

    /** `createContent`: appends the catalog row, with the column defaults applied. */
    method CreateContent(item: Content)
      requires Valid()
      modifies this`content
      ensures Valid() && content == old(content) + [WithContentDefaults(item)]
    {
      content := content + [WithContentDefaults(item)];
    }

    /** `updateContent`, restricted to the tags column: a `None` tags value is skipped. */
    method UpdateContentTags(id: Id, tags: Option<seq<string>>)
      requires Valid()
      modifies this`content
      ensures Valid() && |content| == |old(content)|
      ensures forall i :: 0 <= i < |content| ==>
        content[i] == if old(content)[i].id == id && tags.Some? then old(content)[i].(tags := tags) else old(content)[i]
    {
      var rows := content;
      content := seq(|rows|, i requires 0 <= i < |rows| =>
        if rows[i].id == id && tags.Some? then rows[i].(tags := tags) else rows[i]);
    }

    /** `createCourse`: appends the course row. */
    method CreateCourse(course: Course)
      requires Valid()
      modifies this`courses
      ensures Valid() && courses == old(courses) + [course]
    {
      courses := courses + [course];
    }

    /** `addContentToCourse`: appends a membership row, with no duplicate check. */
    method AddContentToCourse(id: Id, courseId: Id, contentId: Id, order: int)
      requires Valid()
      modifies this`courseContent
      ensures Valid() && courseContent == old(courseContent) + [CourseContent(id, courseId, contentId, order)]
    {
      courseContent := courseContent + [CourseContent(id, courseId, contentId, order)];
    }

    /** `enrollUser`: always appends a new row with `progress 0` and no `completedAt`,
        even when the user is already enrolled in the course. */
    method EnrollUser(userId: Id, courseId: Id, freshId: Id, now: Time) returns (e: Enrollment)
      requires Valid()
      modifies this`enrollments
      ensures Valid() && enrollments == old(enrollments) + [e]
      ensures e.userId == userId && e.courseId == courseId && e.id == freshId && e.enrolledAt == now
      ensures e.progress == 0.0 && e.completedAt == None
    {
      e := NewEnrollment(freshId, userId, courseId, now);
      enrollments := enrollments + [e];
    }

    /** `updateEnrollmentProgress`: every row of (userId, courseId) gets the value;
        `completedAt` becomes now exactly when the value is at least 100. */
    method UpdateEnrollmentProgress(userId: Id, courseId: Id, value: real, now: Time)
      requires Valid()
      modifies this`enrollments
      ensures Valid() && enrollments == WithCourseProgress(old(enrollments), userId, courseId, value, now)
    {
      enrollments := WithCourseProgress(enrollments, userId, courseId, value, now);
    }

    /** `updateProgress`: the check-then-insert upsert on (userId, contentId). Returns the
        written row. `freshId` is used only when a row is inserted. */
    method UpdateProgress(userId: Id, contentId: Id, patch: ProgressPatch, freshId: Id, now: Time) returns (row: Progress)
      requires Valid() && FreshProgressId(progress, freshId)
      modifies this`progress
      ensures Valid()
      ensures progress == Upserted(old(progress), userId, contentId, patch, freshId, now)
      ensures match FindProgress(old(progress), userId, contentId)
        case Some(k) => |progress| == |old(progress)| && row == progress[k] && row == ApplyPatch(old(progress)[k], patch, now)
        case None => progress == old(progress) + [row] && row == InsertedProgress(freshId, userId, contentId, patch, now)
    {
      UpsertShape(progress, userId, contentId, patch, freshId, now);
      UpsertKeepsPairsUnique(progress, userId, contentId, patch, freshId, now);
      UpsertKeepsIdsUnique(progress, userId, contentId, patch, freshId, now);
      var k := FindProgress(progress, userId, contentId);
      if k.Some? {
        var existing := progress[k.value];
        progress := PatchWhereId(progress, existing.id, patch, now);
        row := progress[k.value];
      } else {
        row := InsertedProgress(freshId, userId, contentId, patch, now);
        progress := progress + [row];
      }
    }

    /** `createQuiz`: appends a quiz row with the column defaults applied. */
    method CreateQuiz(freshId: Id, input: QuizInput, createdBy: Id, now: Time) returns (q: Quiz)
      requires Valid()
      modifies this`quizzes
      ensures Valid() && quizzes == old(quizzes) + [q] && q == NewQuiz(freshId, input, createdBy, now)
    {
      q := NewQuiz(freshId, input, createdBy, now);
      quizzes := quizzes + [q];
    }

    /** `addQuizQuestion`: appends the question row as given. */
    method AddQuizQuestion(question: QuizQuestion)
      requires Valid()
      modifies this`quizQuestions
      ensures Valid() && quizQuestions == old(quizQuestions) + [question]
    {
      quizQuestions := quizQuestions + [question];
    }

    /** `startQuizAttempt`: always appends an in-progress attempt; neither the quiz's
        existence nor its status is checked. */
    method StartQuizAttempt(userId: Id, quizId: Id, freshId: Id, now: Time) returns (a: QuizAttempt)
      requires Valid() && forall i :: 0 <= i < |quizAttempts| ==> quizAttempts[i].id != freshId
      modifies this`quizAttempts
      ensures Valid() && quizAttempts == old(quizAttempts) + [a]
      ensures a.id == freshId && a.userId == userId && a.quizId == quizId && a.startedAt == now
      ensures a.completedAt == None && a.answers == None && a.score == None && a.percentage == None
    {
      a := NewQuizAttempt(freshId, userId, quizId, now);
      quizAttempts := quizAttempts + [a];
    }

    /** `submitQuizAttempt`: stores the caller's answers, score and percentage and stamps
        `completedAt`, whether or not the attempt was already completed. Returns the
        updated row, or `None` when no attempt has the id. */
    method SubmitQuizAttempt(attemptId: Id, answers: Option<Json>, score: real, percentage: real, now: Time)
      returns (r: Option<QuizAttempt>)
      requires Valid()
      modifies this`quizAttempts
      ensures Valid() && quizAttempts == Submitted(old(quizAttempts), attemptId, answers, score, percentage, now)
      ensures r.None? <==> forall i :: 0 <= i < |quizAttempts| ==> quizAttempts[i].id != attemptId
      ensures r.Some? ==> r.value in quizAttempts && r.value.id == attemptId && r.value.completedAt == Some(now)
    {
      quizAttempts := Submitted(quizAttempts, attemptId, answers, score, percentage, now);
      var updated := Filter(quizAttempts, (a: QuizAttempt) => a.id == attemptId);
      if |updated| == 0 {
        r := None;
      } else {
        r := Some(updated[0]);
      }
    }
  }
}
