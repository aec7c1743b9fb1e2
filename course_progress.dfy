/**
 * A user's progress through a course: how many content items the course has,
 * how many the user completed, the rounded percentage, and the next item to
 * study. The progress table is passed in as data; the two counting queries
 * and the per-item lookup read it as the database queries do.
 */
module CourseProgress {
  import opened JsLib

  datatype ContentType = Article | Assessment

  /** An article or assessment of a section: its id and title. */
  datatype ContentItem = ContentItem(id: string, title: string)

  /** A course section with its articles and assessments, each list in order. */
  datatype Section = Section(articles: seq<ContentItem>, assessments: seq<ContentItem>)

  /** What a progress row points at: `articleId` or `assessmentId`. */
  datatype ContentRef = ContentRef(kind: ContentType, id: string)

  /** A `UserProgress` row; `completedAt` is null until the item is completed. */
  datatype ProgressRecord = ProgressRecord(userId: string, content: ContentRef, completedAt: Option<int>)

  /** The progress table, and for each content item the course its section belongs to. */
  datatype ProgressDb = ProgressDb(records: seq<ProgressRecord>, courseOf: map<ContentRef, string>)

  /** `AdjacentLessonInfo`: the item's id as slug, its title as name, and its type. */
  datatype LessonInfo = LessonInfo(slug: string, name: string, kind: ContentType)

  /** `UserEnrollmentData` as `calculateCourseProgress` fills it in. */
  datatype EnrollmentData = EnrollmentData(
    progress: int,
    lessonsCompleted: nat,
    assessmentsCompleted: nat,
    nextLesson: Option<LessonInfo>)

  // ---------------------------------------------------------------------------
  // Counting
  // ---------------------------------------------------------------------------

  /** `sections.reduce((acc, s) => acc + s.articles.length + s.assessments.length, 0)`. */
  function TotalContents(sections: seq<Section>): nat {
    if sections == [] then 0
    else
      var last := sections[|sections| - 1];
      TotalContents(sections[..|sections| - 1]) + |last.articles| + |last.assessments|
  }

  /** The items of one section in walking order: its articles, then its assessments. */
  function SectionItems(s: Section): seq<LessonInfo> {
    Tag(s.articles, Article) + Tag(s.assessments, Assessment)
  }

  function Tag(xs: seq<ContentItem>, kind: ContentType): (r: seq<LessonInfo>)
    ensures |r| == |xs|
    ensures forall n :: 0 <= n < |xs| ==> r[n] == LessonInfo(xs[n].id, xs[n].title, kind)
  {
    if xs == [] then []
    else Tag(xs[..|xs| - 1], kind) + [LessonInfo(xs[|xs| - 1].id, xs[|xs| - 1].title, kind)]
  }

  /** Every item of the course in walking order: sections in order, and within
      each section all articles before any assessment. */
  function Items(sections: seq<Section>): seq<LessonInfo> {
    if sections == [] then []
    else Items(sections[..|sections| - 1]) + SectionItems(sections[|sections| - 1])
  }

  lemma {:induction false} ItemsAppend(a: seq<Section>, b: seq<Section>)
    ensures Items(a + b) == Items(a) + Items(b)
  {
    if b == [] {
      assert a + b == a;
    } else {
      var n := |b| - 1;
      var ab := a + b;
      assert ab[..|ab| - 1] == a + b[..n];
      assert ab[|ab| - 1] == b[n];
      calc {
        Items(ab);
        Items(ab[..|ab| - 1]) + SectionItems(ab[|ab| - 1]);
        Items(a + b[..n]) + SectionItems(b[n]);
        { ItemsAppend(a, b[..n]); }
        (Items(a) + Items(b[..n])) + SectionItems(b[n]);
        Items(a) + (Items(b[..n]) + SectionItems(b[n]));
        Items(a) + Items(b);
      }
    }
  }

  /** The total the reduce computes is the number of items the walk visits. */
  lemma {:induction false} TotalContentsCountsItems(sections: seq<Section>)
    ensures TotalContents(sections) == |Items(sections)|
  {
    if sections != [] {
      TotalContentsCountsItems(sections[..|sections| - 1]);
    }
  }

  /** `it` is one of the section's items of the type its tag names. */
  predicate ComesFrom(it: LessonInfo, s: Section) {
    if it.kind == Article then ContentItem(it.slug, it.name) in s.articles
    else ContentItem(it.slug, it.name) in s.assessments
  }

  /** Every item the walk visits comes from the list its type tag names. */
  lemma {:induction false} ItemsTagged(sections: seq<Section>)
    ensures forall it :: it in Items(sections) ==> exists i :: 0 <= i < |sections| && ComesFrom(it, sections[i])
  {
    if sections != [] {
      var n := |sections| - 1;
      ItemsTagged(sections[..n]);
      var last := sections[n];
      forall it | it in Items(sections)
        ensures exists i :: 0 <= i < |sections| && ComesFrom(it, sections[i])
      {
        if it in Items(sections[..n]) {
          var i :| 0 <= i < n && ComesFrom(it, sections[..n][i]);
          assert sections[..n][i] == sections[i];
        } else {
          assert it in SectionItems(last);
          if it in Tag(last.articles, Article) {
            var m :| 0 <= m < |last.articles| && Tag(last.articles, Article)[m] == it;
            assert ContentItem(it.slug, it.name) == last.articles[m];
          } else {
            assert it in Tag(last.assessments, Assessment);
            var m :| 0 <= m < |last.assessments| && Tag(last.assessments, Assessment)[m] == it;
            assert ContentItem(it.slug, it.name) == last.assessments[m];
          }
          assert ComesFrom(it, sections[n]);
        }
      }
    }
  }

  /** A row the completion count for `kind` includes: this user's, for an item
      of that type whose section belongs to the course, with `completedAt` set. */
  predicate CountsAsCompleted(rec: ProgressRecord, db: ProgressDb, userId: string, courseId: string, kind: ContentType) {
    && rec.userId == userId
    && rec.content.kind == kind
    && rec.content in db.courseOf && db.courseOf[rec.content] == courseId
    && rec.completedAt.Some?
  }

  /** `prisma.userProgress.count` with the user, the course and `completedAt`
      not null as its filter. */
  function CountCompleted(db: ProgressDb, userId: string, courseId: string, kind: ContentType): (r: nat)
    ensures r <= |db.records|
    ensures r == 0 <==> forall rec :: rec in db.records ==> !CountsAsCompleted(rec, db, userId, courseId, kind)
  {
    var matching := Filter((rec: ProgressRecord) => CountsAsCompleted(rec, db, userId, courseId, kind), db.records);
    assert matching != [] ==> matching[0] in matching;
    |matching|
  }

  // ---------------------------------------------------------------------------
  // Percentage
  // ---------------------------------------------------------------------------

  /** `Math.round(completed / total * 100)` in exact arithmetic: the integer
      nearest to 100·completed/total, halves rounded up. */
  function RoundPercent(completed: nat, total: nat): (r: int)
    requires total > 0
    ensures 2 * total * r <= 200 * completed + total < 2 * total * (r + 1)
    ensures r >= 0
    ensures completed <= total ==> r <= 100
  {
    var q := (200 * completed + total) / (2 * total);
    DivBounds(200 * completed + total, 2 * total);
    if completed <= total then
      MulCancel(2 * total, q, 101);
      q
    else q
  }

  lemma DivBounds(a: nat, b: nat)
    requires b > 0
    ensures b * (a / b) <= a < b * (a / b + 1)
  {
    var q, m := a / b, a % b;
    assert a == b * q + m && 0 <= m < b;
    assert b * (q + 1) == b * q + b;
  }

  lemma MulCancel(b: int, x: int, y: int)
    requires b > 0 && b * x < b * y
    ensures x < y
  {
  }

  // ---------------------------------------------------------------------------
  // Next lesson
  // ---------------------------------------------------------------------------

  /** `prisma.userProgress.findFirst` for the user and the item: the first row
      for that pair, or none. */
  function FindProgress(records: seq<ProgressRecord>, userId: string, content: ContentRef): (r: Option<ProgressRecord>)
    ensures r.Some? ==> r.value in records && r.value.userId == userId && r.value.content == content
    ensures r.None? <==> forall rec :: rec in records ==> !(rec.userId == userId && rec.content == content)
  {
    match FindIndex((rec: ProgressRecord) => rec.userId == userId && rec.content == content, records)
    case None => None
    case Some(k) => Some(records[k])
  }

  /** The negation of `!progress || !progress.completedAt`: a row exists and it is completed. */
  predicate IsComplete(db: ProgressDb, userId: string, item: LessonInfo) {
    match FindProgress(db.records, userId, ContentRef(item.kind, item.slug))
    case None => false
    case Some(rec) => rec.completedAt.Some?
  }

  /** Item `k` is incomplete and every item before it is complete. */
  predicate FirstIncompleteAt(db: ProgressDb, userId: string, items: seq<LessonInfo>, k: int) {
    && 0 <= k < |items|
    && !IsComplete(db, userId, items[k])
    && forall j :: 0 <= j < k ==> IsComplete(db, userId, items[j])
  }

  /** The first item of `items` the user has not completed. */
  function FirstIncomplete(db: ProgressDb, userId: string, items: seq<LessonInfo>): (r: Option<LessonInfo>)
    ensures r.None? <==> forall it :: it in items ==> IsComplete(db, userId, it)
    ensures r.Some? ==> !IsComplete(db, userId, r.value)
    ensures r.Some? ==> exists k :: FirstIncompleteAt(db, userId, items, k) && items[k] == r.value
  {
    match FindIndex((it: LessonInfo) => !IsComplete(db, userId, it), items)
    case None => None
    case Some(k) => Some(items[k])
  }

  /** The search stops in the first part when that part holds an incomplete item. */
  lemma FirstIncompleteAppend(db: ProgressDb, userId: string, a: seq<LessonInfo>, b: seq<LessonInfo>)
    ensures FirstIncomplete(db, userId, a + b)
         == if FirstIncomplete(db, userId, a).Some? then FirstIncomplete(db, userId, a) else FirstIncomplete(db, userId, b)
  {
    var p := (it: LessonInfo) => !IsComplete(db, userId, it);
    FindIndexAppend(p, a, b);
    match FindIndex(p, a)
    case Some(i) =>
      assert (a + b)[i] == a[i];
    case None =>
      match FindIndex(p, b)
      case Some(j) =>
        assert (a + b)[|a| + j] == b[j];
      case None =>
  }

  /** What the walk has seen after the first `j` articles of section `i`, and
      after all of section `i`'s articles and the first `j` assessments, is a
      prefix of the whole walk. */
  lemma ItemsSingle(s: Section)
    ensures Items([s]) == SectionItems(s)
  {
    assert [s][..0] == [];
  }

  lemma ItemsAround(pre: seq<Section>, s: Section, post: seq<Section>)
    ensures Items(pre + [s] + post) == Items(pre) + SectionItems(s) + Items(post)
  {
    ItemsAppend(pre + [s], post);
    ItemsAppend(pre, [s]);
    ItemsSingle(s);
  }

  lemma ItemsSplit(sections: seq<Section>, i: nat)
    requires i < |sections|
    ensures Items(sections) == Items(sections[..i]) + SectionItems(sections[i]) + Items(sections[i + 1..])
  {
    SplitAt(sections, i);
    ItemsAround(sections[..i], sections[i], sections[i + 1..]);
  }

  lemma PrefixInMiddle<T>(a: seq<T>, part: seq<T>, w: seq<T>, p: seq<T>)
    requires part <= w
    ensures a + part <= a + w + p
  {
    assert a + w + p == (a + part) + (w[|part|..] + p);
  }

  lemma FirstIncompleteOfPrefix(db: ProgressDb, userId: string, seen: seq<LessonInfo>, all: seq<LessonInfo>)
    requires seen <= all
    requires FirstIncomplete(db, userId, seen).Some?
    ensures FirstIncomplete(db, userId, all) == FirstIncomplete(db, userId, seen)
  {
    assert all == seen + all[|seen|..];
    FirstIncompleteAppend(db, userId, seen, all[|seen|..]);
  }

  /** When every earlier section is complete and the walk finds an incomplete
      item in a prefix `part` of section `i`, that item is the walk's answer. */
  lemma StopInSection(db: ProgressDb, userId: string, sections: seq<Section>, i: nat, part: seq<LessonInfo>)
    requires i < |sections|
    requires part <= SectionItems(sections[i])
    requires FirstIncomplete(db, userId, Items(sections[..i])).None?
    requires FirstIncomplete(db, userId, part).Some?
    ensures FirstIncomplete(db, userId, Items(sections)) == FirstIncomplete(db, userId, part)
  {
    var before := Items(sections[..i]);
    ItemsSplit(sections, i);
    PrefixInMiddle(before, part, SectionItems(sections[i]), Items(sections[i + 1..]));
    FirstIncompleteAppend(db, userId, before, part);
    FirstIncompleteOfPrefix(db, userId, before + part, Items(sections));
  }

  /** Passing a section with no incomplete item keeps the walk without an answer. */
  lemma PassSection(db: ProgressDb, userId: string, sections: seq<Section>, i: nat)
    requires i < |sections|
    requires FirstIncomplete(db, userId, Items(sections[..i])).None?
    requires FirstIncomplete(db, userId, SectionItems(sections[i])).None?
    ensures FirstIncomplete(db, userId, Items(sections[..i + 1])).None?
  {
    assert sections[..i + 1][..i] == sections[..i];
    assert Items(sections[..i + 1]) == Items(sections[..i]) + SectionItems(sections[i]);
    FirstIncompleteAppend(db, userId, Items(sections[..i]), SectionItems(sections[i]));
  }

  /** One inner `for ... of` loop: the first item of the list, tagged with
      `kind`, that has no completed progress row; the loop breaks there. */
  method FindIncomplete(userId: string, db: ProgressDb, items: seq<ContentItem>, kind: ContentType)
    returns (found: Option<LessonInfo>)
    ensures found == FirstIncomplete(db, userId, Tag(items, kind))
  {
    found := None;
    ghost var tagged := Tag(items, kind);
    var j := 0;
    while j < |items|
      invariant 0 <= j <= |items|
      invariant forall k :: 0 <= k < j ==> IsComplete(db, userId, tagged[k])
    {
      var item := LessonInfo(items[j].id, items[j].title, kind);
      if !IsComplete(db, userId, item) {
        found := Some(item);
        assert FirstIncompleteAt(db, userId, tagged, j);
        FirstIncompleteIs(db, userId, tagged, j);
        return;
      }
      j := j + 1;
    }
    assert forall it :: it in tagged ==> IsComplete(db, userId, it);
  }

  lemma FirstIncompleteIs(db: ProgressDb, userId: string, items: seq<LessonInfo>, k: int)
    requires FirstIncompleteAt(db, userId, items, k)
    ensures FirstIncomplete(db, userId, items) == Some(items[k])
  {
    var r := FirstIncomplete(db, userId, items);
    assert r.Some?;
    var k' :| FirstIncompleteAt(db, userId, items, k') && items[k'] == r.value;
  }

  /** The nested loops of `calculateCourseProgress`: the articles of each
      section, then its assessments; the first item without a completed row
      ends both loops. The result is the first incomplete item of the walk. */
  method FindNextLesson(userId: string, sections: seq<Section>, db: ProgressDb) returns (nextLesson: Option<LessonInfo>)
    ensures nextLesson == FirstIncomplete(db, userId, Items(sections))
  {
    nextLesson := None;
    var i := 0;
    while i < |sections|
      invariant 0 <= i <= |sections|
      invariant nextLesson.None? && FirstIncomplete(db, userId, Items(sections[..i])).None?
    {
      var section := sections[i];
      nextLesson := FindIncomplete(userId, db, section.articles, Article);
      if nextLesson.Some? {
        StopInSection(db, userId, sections, i, Tag(section.articles, Article));
        break;
      }
      nextLesson := FindIncomplete(userId, db, section.assessments, Assessment);
      FirstIncompleteAppend(db, userId, Tag(section.articles, Article), Tag(section.assessments, Assessment));
      if nextLesson.Some? {
        StopInSection(db, userId, sections, i, SectionItems(section));
        break;
      }
      PassSection(db, userId, sections, i);
      i := i + 1;
    }
    if nextLesson.None? {
      assert sections[..i] == sections;
    }
  }

  // ---------------------------------------------------------------------------
  // calculateCourseProgress
  // ---------------------------------------------------------------------------

  /** `calculateCourseProgress(userId, courseId, sections)`. A course without
      items gives the zero result and no next lesson, with no division.
      Otherwise the two counts are the completed rows of the course by type,
      the percentage is their sum rounded over the item count (0 when nothing
      is completed), and the next lesson is the first incomplete item of the
      walk, absent exactly when every item is complete. */
  method CalculateCourseProgress(userId: string, courseId: string, sections: seq<Section>, db: ProgressDb)
    returns (r: EnrollmentData)
    ensures TotalContents(sections) == 0 ==> r == EnrollmentData(0, 0, 0, None)
    ensures TotalContents(sections) > 0 ==>
      && r.lessonsCompleted == CountCompleted(db, userId, courseId, Article)
      && r.assessmentsCompleted == CountCompleted(db, userId, courseId, Assessment)
      && r.progress == (if r.lessonsCompleted + r.assessmentsCompleted > 0
                        then RoundPercent(r.lessonsCompleted + r.assessmentsCompleted, TotalContents(sections))
                        else 0)
      && r.nextLesson == FirstIncomplete(db, userId, Items(sections))
    ensures r.progress >= 0
    ensures r.lessonsCompleted + r.assessmentsCompleted <= TotalContents(sections) ==> r.progress <= 100
    ensures r.nextLesson.None? <==> forall it :: it in Items(sections) ==> IsComplete(db, userId, it)
  {
    var totalContents := TotalContents(sections);
    TotalContentsCountsItems(sections);
    if totalContents == 0 {
      assert Items(sections) == [];
      return EnrollmentData(0, 0, 0, None);
    }
    var completedArticles := CountCompleted(db, userId, courseId, Article);
    var completedAssessments := CountCompleted(db, userId, courseId, Assessment);
    var totalCompleted := completedArticles + completedAssessments;
    var progressPercentage := if totalCompleted > 0 then RoundPercent(totalCompleted, totalContents) else 0;
    var nextLesson := FindNextLesson(userId, sections, db);
    r := EnrollmentData(progressPercentage, completedArticles, completedAssessments, nextLesson);
  }
}
