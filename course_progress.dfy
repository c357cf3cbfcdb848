/** `getUserCourseProgress`: a user's progress in a course, as the sum of the user's
    stored progress over the course's joined content divided by the number of joined
    items, and what that number means. */
module CourseProgress {
  import opened Schema
  import opened Storage

  /** The ids of the joined content items (the list passed to `inArray`). */
  function ItemIds(items: seq<Content>): (ids: set<Id>)
    ensures forall k :: 0 <= k < |items| ==> items[k].id in ids
    ensures forall x :: x in ids ==> exists k :: 0 <= k < |items| && items[k].id == x
  {
    if items == [] then {} else {items[0].id} + ItemIds(items[1..])
  }

  /** The `reduce` over the selected rows: the progress of the user's rows whose
      content is among `ids`, summed. */
  function ProgressSum(rows: seq<Progress>, userId: Id, ids: set<Id>): (r: real)
    ensures ids == {} ==> r == 0.0
    ensures (forall i :: 0 <= i < |rows| ==> rows[i].progress >= 0.0) ==> r >= 0.0
  {
    if rows == [] then 0.0
    else
      (if rows[0].userId == userId && rows[0].contentId in ids then rows[0].progress else 0.0)
      + ProgressSum(rows[1..], userId, ids)
  }

  /** `getUserCourseProgress`: 0 for a course with no joined content, otherwise the
      summed progress divided by the number of joined items. */
  function UserCourseProgress(courseContent: seq<CourseContent>, content: seq<Content>, rows: seq<Progress>,
                              userId: Id, courseId: Id): (r: real)
    ensures |CourseItems(courseContent, content, courseId)| == 0 ==> r == 0.0
  {
    CourseMean(rows, userId, CourseItems(courseContent, content, courseId))
  }

  /** The division `getUserCourseProgress` makes once it has the joined items. */
  function CourseMean(rows: seq<Progress>, userId: Id, items: seq<Content>): (r: real)
    ensures |items| == 0 ==> r == 0.0
  {
    if |items| == 0 then 0.0
    else ProgressSum(rows, userId, ItemIds(items)) / (|items| as real)
  }

  /** The progress stored for (userId, contentId), or 0 when there is no row. */
  function StoredProgress(rows: seq<Progress>, userId: Id, contentId: Id): real
  {
    match FindProgress(rows, userId, contentId)
    case Some(k) => rows[k].progress
    case None => 0.0
  }

  /** The reference sum: every joined item contributes its stored progress, or 0. */
  function ItemsProgressSum(rows: seq<Progress>, userId: Id, items: seq<Content>): real
  {
    if items == [] then 0.0
    else StoredProgress(rows, userId, items[0].id) + ItemsProgressSum(rows, userId, items[1..])
  }

  /** Every stored progress value is a percentage. */
  predicate ProgressInRange(rows: seq<Progress>)
  {
    forall i :: 0 <= i < |rows| ==> 0.0 <= rows[i].progress <= 100.0
  }

  lemma PairsUniqueTail(rows: seq<Progress>)
    requires rows != [] && PairsUnique(rows)
    ensures PairsUnique(rows[1..])
  {
    forall i, j | 0 <= i < j < |rows| - 1
      ensures !IsRowFor(rows[1..][j], rows[1..][i].userId, rows[1..][i].contentId)
    {
      assert rows[1..][i] == rows[i + 1] && rows[1..][j] == rows[j + 1];
    }
  }

  /** Rows of other pairs contribute nothing. */
  lemma {:induction false} ProgressSumNoRow(rows: seq<Progress>, userId: Id, ids: set<Id>)
    requires forall i :: 0 <= i < |rows| && rows[i].userId == userId ==> rows[i].contentId !in ids
    ensures ProgressSum(rows, userId, ids) == 0.0
  {
    if rows != [] {
      ProgressSumNoRow(rows[1..], userId, ids);
    }
  }

  /** Dropping an id that no row of the user carries does not change the sum. */
  lemma {:induction false} ProgressSumDrop(rows: seq<Progress>, userId: Id, ids: set<Id>, x: Id)
    requires forall i :: 0 <= i < |rows| ==> !IsRowFor(rows[i], userId, x)
    ensures ProgressSum(rows, userId, ids) == ProgressSum(rows, userId, ids - {x})
  {
    if rows != [] {
      ProgressSumDrop(rows[1..], userId, ids, x);
    }
  }

  /** The sum over a disjoint union of id sets is the sum of the two sums. */
  lemma {:induction false} ProgressSumSplit(rows: seq<Progress>, userId: Id, ids: set<Id>, x: Id)
    requires x !in ids
    ensures ProgressSum(rows, userId, {x} + ids) == ProgressSum(rows, userId, {x}) + ProgressSum(rows, userId, ids)
  {
    if rows != [] {
      ProgressSumSplit(rows[1..], userId, ids, x);
    }
  }

  /** With one row per pair, the sum over one id is the stored progress of that pair. */
  lemma {:induction false} ProgressSumSingle(rows: seq<Progress>, userId: Id, contentId: Id)
    requires PairsUnique(rows)
    ensures ProgressSum(rows, userId, {contentId}) == StoredProgress(rows, userId, contentId)
  {
    if rows != [] {
      PairsUniqueTail(rows);
      if IsRowFor(rows[0], userId, contentId) {
        forall i | 0 <= i < |rows[1..]| ensures !IsRowFor(rows[1..][i], userId, contentId) {
          assert rows[1..][i] == rows[i + 1];
        }
        ProgressSumNoRow(rows[1..], userId, {contentId});
      } else {
        ProgressSumSingle(rows[1..], userId, contentId);
      }
    }
  }

  /** With one row per pair and no item joined twice, the summed progress is the sum
      over the joined items of their stored progress. */
  lemma {:induction false} ProgressSumOverDistinct(rows: seq<Progress>, userId: Id, items: seq<Content>)
    requires PairsUnique(rows) && DistinctIds(items)
    ensures ProgressSum(rows, userId, ItemIds(items)) == ItemsProgressSum(rows, userId, items)
  {
    if items == [] {
      ProgressSumNoRow(rows, userId, {});
    } else {
      var rest := items[1..];
      assert DistinctIds(rest) by {
        forall i, j | 0 <= i < j < |rest| ensures rest[i].id != rest[j].id {
          assert rest[i] == items[i + 1] && rest[j] == items[j + 1];
        }
      }
      assert forall k :: 0 <= k < |rest| ==> rest[k].id != items[0].id by {
        forall k | 0 <= k < |rest| ensures rest[k].id != items[0].id {
          assert rest[k] == items[k + 1];
        }
      }
      assert ItemIds(items) == {items[0].id} + ItemIds(rest);
      ProgressSumOverDistinct(rows, userId, rest);
      ProgressSumSplit(rows, userId, ItemIds(rest), items[0].id);
      ProgressSumSingle(rows, userId, items[0].id);
      assert ItemsProgressSum(rows, userId, items)
          == StoredProgress(rows, userId, items[0].id) + ItemsProgressSum(rows, userId, rest);
    }
  }

  /** The joined items with every content id kept once (its last occurrence). */
  function Dedup(items: seq<Content>): (r: seq<Content>)
    ensures DistinctIds(r)
    ensures ItemIds(r) == ItemIds(items)
    ensures |r| <= |items|
  {
    if items == [] then []
    else
      var rest := Dedup(items[1..]);
      if items[0].id in ItemIds(items[1..]) then rest
      else
        DistinctCons(items[0], rest);
        assert ([items[0]] + rest)[1..] == rest;
        [items[0]] + rest
  }

  /** An item whose id is new may be put in front of distinct items. */
  lemma DistinctCons(x: Content, rest: seq<Content>)
    requires DistinctIds(rest) && x.id !in ItemIds(rest)
    ensures DistinctIds([x] + rest)
  {
    var r := [x] + rest;
    forall i, j | 0 <= i < j < |r| ensures r[i].id != r[j].id {
      assert r[j] == rest[j - 1];
      if i > 0 {
        assert r[i] == rest[i - 1];
      }
    }
  }

  /** Items that are already distinct are kept as they are. */
  lemma {:induction false} DedupDistinct(items: seq<Content>)
    requires DistinctIds(items)
    ensures Dedup(items) == items
  {
    if items != [] {
      var rest := items[1..];
      assert DistinctIds(rest) by {
        forall i, j | 0 <= i < j < |rest| ensures rest[i].id != rest[j].id {
          assert rest[i] == items[i + 1] && rest[j] == items[j + 1];
        }
      }
      forall k | 0 <= k < |rest| ensures rest[k].id != items[0].id {
        assert rest[k] == items[k + 1];
      }
      assert items[0].id !in ItemIds(rest);
      DedupDistinct(rest);
      assert items == [items[0]] + rest;
    }
  }

  /** Absent rows count as zero and an item joined more than once is summed once: with
      one row per pair, the summed progress is the sum of the stored progress of each
      distinct joined item. */
  lemma ProgressSumOverItems(rows: seq<Progress>, userId: Id, items: seq<Content>)
    requires PairsUnique(rows)
    ensures ProgressSum(rows, userId, ItemIds(items)) == ItemsProgressSum(rows, userId, Dedup(items))
  {
    ProgressSumOverDistinct(rows, userId, Dedup(items));
  }

  /** `getUserCourseProgress` sums the stored progress of each distinct joined item (an
      item without a progress row counting as 0) and divides by the number of joined
      items, so an item linked twice is summed once but counted twice in the divisor. */
  lemma CourseProgressIsMeanOverItems(courseContent: seq<CourseContent>, content: seq<Content>, rows: seq<Progress>,
                                      userId: Id, courseId: Id)
    requires PairsUnique(rows)
    ensures var items := CourseItems(courseContent, content, courseId);
      UserCourseProgress(courseContent, content, rows, userId, courseId)
        == if |items| == 0 then 0.0 else ItemsProgressSum(rows, userId, Dedup(items)) / (|items| as real)
  {
    ProgressSumOverItems(rows, userId, CourseItems(courseContent, content, courseId));
  }

  /** When no item is linked twice this is the plain mean over the joined items. */
  lemma CourseProgressIsMeanOverDistinctItems(courseContent: seq<CourseContent>, content: seq<Content>,
                                              rows: seq<Progress>, userId: Id, courseId: Id)
    requires PairsUnique(rows) && DistinctIds(CourseItems(courseContent, content, courseId))
    ensures var items := CourseItems(courseContent, content, courseId);
      UserCourseProgress(courseContent, content, rows, userId, courseId)
        == if |items| == 0 then 0.0 else ItemsProgressSum(rows, userId, items) / (|items| as real)
  {
    CourseProgressIsMeanOverItems(courseContent, content, rows, userId, courseId);
    DedupDistinct(CourseItems(courseContent, content, courseId));
  }

  /** Each pair contributes at most 100, so the sum over `ids` is at most 100 per id. */
  lemma {:induction false} ProgressSumBound(rows: seq<Progress>, userId: Id, ids: set<Id>)
    requires PairsUnique(rows) && ProgressInRange(rows)
    ensures 0.0 <= ProgressSum(rows, userId, ids) <= 100.0 * (|ids| as real)
  {
    if rows != [] {
      var rest := rows[1..];
      PairsUniqueTail(rows);
      assert ProgressInRange(rest) by {
        forall i | 0 <= i < |rest| ensures 0.0 <= rest[i].progress <= 100.0 {
          assert rest[i] == rows[i + 1];
        }
      }
      var x := rows[0].contentId;
      if rows[0].userId == userId && x in ids {
        forall i | 0 <= i < |rest| ensures !IsRowFor(rest[i], userId, x) {
          assert rest[i] == rows[i + 1];
        }
        ProgressSumDrop(rest, userId, ids, x);
        ProgressSumBound(rest, userId, ids - {x});
        assert |ids - {x}| == |ids| - 1;
      } else {
        ProgressSumBound(rest, userId, ids);
      }
    }
  }

  /** A course has at least as many joined items as distinct content ids. */
  lemma {:induction false} ItemIdsSize(items: seq<Content>)
    ensures |ItemIds(items)| <= |items|
  {
    if items != [] {
      ItemIdsSize(items[1..]);
    }
  }

  /** With one row per pair and every stored progress a percentage, course progress
      is a percentage too. */
  lemma CourseProgressInRange(courseContent: seq<CourseContent>, content: seq<Content>, rows: seq<Progress>,
                              userId: Id, courseId: Id)
    requires PairsUnique(rows) && ProgressInRange(rows)
    ensures 0.0 <= UserCourseProgress(courseContent, content, rows, userId, courseId) <= 100.0
  {
    var items := CourseItems(courseContent, content, courseId);
    if |items| > 0 {
      var ids := ItemIds(items);
      ProgressSumBound(rows, userId, ids);
      ItemIdsSize(items);
      MeanBound(ProgressSum(rows, userId, ids), |ids|, |items|);
    }
  }

  lemma MeanBound(sum: real, m: nat, n: nat)
    requires 0 < n && m <= n && 0.0 <= sum <= 100.0 * (m as real)
    ensures 0.0 <= sum / (n as real) <= 100.0
  {
    var d := n as real;
    assert 100.0 * (m as real) <= 100.0 * d;
    assert sum / d * d == sum;
  }

  /** Three joined items with progress rows of 100 and 50 for the first two and none for
      the third: the course progress is 50, not the 75 that a mean over the existing
      rows would give. */
  lemma AbsentItemCountsAsZero(userId: Id, a: Content, b: Content, c: Content, pa: Progress, pb: Progress)
    requires a.id != b.id && b.id != c.id && a.id != c.id
    requires pa.userId == userId && pa.contentId == a.id && pa.progress == 100.0
    requires pb.userId == userId && pb.contentId == b.id && pb.progress == 50.0
    ensures CourseMean([pa, pb], userId, [a, b, c]) == 50.0
  {
    var items := [a, b, c];
    var ids := ItemIds(items);
    assert items[0] == a && items[1] == b;
    assert pa.contentId in ids && pb.contentId in ids;
    var rows := [pa, pb];
    assert rows[1..] == [pb] && rows[1..][1..] == [];
    assert ProgressSum(rows[1..], userId, ids) == 50.0;
    assert ProgressSum(rows, userId, ids) == 150.0;
  }

  /** One item linked twice to a course, with a stored progress of 100: the item is
      summed once and counted twice, so the course progress is 50, not 100. */
  lemma DuplicateLinkDilutes(userId: Id, a: Content, pa: Progress)
    requires pa.userId == userId && pa.contentId == a.id && pa.progress == 100.0
    ensures CourseMean([pa], userId, [a, a]) == 50.0
  {
    var items := [a, a];
    assert items[0] == a;
    assert ItemIds(items) == {a.id};
    assert ProgressSum([pa], userId, {a.id}) == 100.0;
  }
}
