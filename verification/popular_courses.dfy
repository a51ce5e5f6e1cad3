/** The popular-courses page: view counts defaulted to 0, the top courses by views, and the
    top files by views, where the copies of a file kept inline under `course.files` and in
    the standalone file list are summed into one aggregate per key. */
module PopularCourses {
  import opened Wrappers
  import opened Seqs
  import opened Records
  import opened Keyed

  // ---------------------------------------------------------------------------------------
  // Normalisation

  /** A view count, 0 when missing. */
  function ViewsOr0(v: Option<int>): int {
    v.GetOr(0)
  }

  /** One file of `normalizeFiles`: a missing `views` becomes 0. */
  function NormalizeFile(f: StudyFile): (r: StudyFile)
    ensures r.views.Some?
    ensures f.views.Some? ==> r == f
    ensures f.views.None? ==> r.views == Some(0)
    ensures r.(views := f.views) == f
  {
    f.(views := Some(ViewsOr0(f.views)))
  }

  /** `normalizeFiles(raw)` */
  function NormalizeFiles(fs: seq<StudyFile>): (r: seq<StudyFile>)
    ensures |r| == |fs|
    ensures forall k :: 0 <= k < |r| ==> r[k] == NormalizeFile(fs[k])
  {
    seq(|fs|, k requires 0 <= k < |fs| => NormalizeFile(fs[k]))
  }

  /** One course of `normalizeCourses`: views and student ids get defaults, inline files
      are normalised, and nothing else changes. */
  function NormalizeCourse(c: Course): (r: Course)
    ensures r.views.Some? && r.studentIds.Some?
    ensures c.views.Some? ==> r.views == c.views
    ensures c.views.None? ==> r.views == Some(0)
    ensures c.studentIds.Some? ==> r.studentIds == c.studentIds
    ensures c.studentIds.None? ==> r.studentIds == Some([])
    ensures r.files.Some? <==> c.files.Some?
    ensures c.files.Some? ==> |r.files.value| == |c.files.value|
    ensures c.files.Some? ==> forall k :: 0 <= k < |c.files.value| ==> r.files.value[k] == NormalizeFile(c.files.value[k])
    ensures r.(views := c.views, studentIds := c.studentIds, files := c.files) == c
  {
    c.(views := Some(ViewsOr0(c.views)),
       studentIds := Some(c.studentIds.GetOr([])),
       files := if c.files.Some? then Some(NormalizeFiles(c.files.value)) else None)
  }

  /** `normalizeCourses(raw)` */
  function NormalizeCourses(cs: seq<Course>): (r: seq<Course>)
    ensures |r| == |cs|
    ensures forall k :: 0 <= k < |r| ==> r[k] == NormalizeCourse(cs[k])
  {
    seq(|cs|, k requires 0 <= k < |cs| => NormalizeCourse(cs[k]))
  }

  /** Every normalised course has its defaults filled in. */
  predicate IsNormalCourse(c: Course) {
    c.views.Some? && c.studentIds.Some?
    && (c.files.Some? ==> forall k :: 0 <= k < |c.files.value| ==> c.files.value[k].views.Some?)
  }

  /** Normalisation fills every default and a second pass changes nothing. */
  lemma {:induction false} NormalizeCoursesSettles(cs: seq<Course>)
    ensures forall k :: 0 <= k < |cs| ==> IsNormalCourse(NormalizeCourses(cs)[k])
    ensures NormalizeCourses(NormalizeCourses(cs)) == NormalizeCourses(cs)
  {
    var r := NormalizeCourses(cs);
    forall k | 0 <= k < |cs|
      ensures IsNormalCourse(r[k]) && NormalizeCourse(r[k]) == r[k]
    {
      var c := r[k];
      if c.files.Some? {
        assert NormalizeFiles(c.files.value) == c.files.value;
      }
    }
  }

  /** A second pass of `normalizeFiles` changes nothing. */
  lemma {:induction false} NormalizeFilesSettles(fs: seq<StudyFile>)
    ensures NormalizeFiles(NormalizeFiles(fs)) == NormalizeFiles(fs)
  {
  }

  // ---------------------------------------------------------------------------------------
  // Top courses

  function CourseViews(c: Course): int {
    ViewsOr0(c.views)
  }

  /** `topCourses`: the `topN` courses with most views; ties keep their input order. */
  function TopCourses(courses: seq<Course>, topN: nat): (r: seq<Course>)
    ensures |r| == if topN < |courses| then topN else |courses|
    ensures NonIncreasing(r, CourseViews)
    ensures multiset(r) <= multiset(courses)
  {
    TopRanked(courses, CourseViews, topN)
  }

  /** No course left out of the top list has more views than one in it, and among courses
      with equal views the listed ones are the first ones of the input, in input order. */
  lemma {:induction false} TopCoursesAreTop(courses: seq<Course>, topN: nat, out: Course, kept: Course)
    requires out in multiset(courses) - multiset(TopCourses(courses, topN))
    requires kept in TopCourses(courses, topN)
    ensures CourseViews(out) <= CourseViews(kept)
    ensures WithKey(TopCourses(courses, topN), CourseViews, CourseViews(kept))
         <= WithKey(courses, CourseViews, CourseViews(kept))
  {
    TopRankedIsTop(courses, CourseViews, topN, out, kept);
    TopRankedStable(courses, CourseViews, topN, CourseViews(kept));
  }

  // ---------------------------------------------------------------------------------------
  // Top files

  /** One file seen by the aggregation: its map key, name, views and the course id and
      name it contributes to the aggregate's lists, if any. */
  datatype Contribution = Contribution(
    key: string, name: string, views: int,
    courseId: Option<string>, courseName: Option<string>)

  /** The page's `FileAggregate`; its `id` is the map key. */
  datatype FileAggregate = FileAggregate(
    id: string, name: string, views: int,
    courseIds: seq<string>, courseNames: seq<string>)

  function AggregateId(a: FileAggregate): string { a.id }
  function AggregateViews(a: FileAggregate): int { a.views }
  function ContributionKey(c: Contribution): string { c.key }

  /** The key of an id-less inline file. */
  function InlineKey(courseId: string, name: string): string {
    courseId + "::" + name
  }

  /** The key of an id-less standalone file. */
  function GlobalKey(name: string): string {
    "global::" + name
  }

  /** An inline file always contributes its course's id and name. */
  function InlineContribution(course: Course, f: StudyFile): Contribution {
    Contribution(f.id.GetOr(InlineKey(course.id, f.name)), f.name, ViewsOr0(f.views),
                 Some(course.id), Some(course.name))
  }

  /** The inline files `fs` of `course`, in order. */
  function FileContributions(course: Course, fs: seq<StudyFile>): seq<Contribution> {
    if fs == [] then []
    else FileContributions(course, fs[..|fs| - 1]) + [InlineContribution(course, fs[|fs| - 1])]
  }

  function CourseContributions(course: Course): seq<Contribution> {
    if course.files.Some? then FileContributions(course, course.files.value) else []
  }

  /** The inline files of all courses, course by course. */
  function InlineContributions(courses: seq<Course>): seq<Contribution> {
    if courses == [] then []
    else InlineContributions(courses[..|courses| - 1]) + CourseContributions(courses[|courses| - 1])
  }

  /** The name of the first course with id `courseId`, when it is non-empty. */
  function ParentName(courses: seq<Course>, courseId: string): Option<string> {
    match FirstByKey(courses, CourseKey, courseId)
    case Some(c) => if c.name != "" then Some(c.name) else None
    case None => None
  }

  /** A standalone file contributes its course id when non-empty and its parent course's
      name when that course exists and has a non-empty name. */
  function GlobalContribution(courses: seq<Course>, f: StudyFile): Contribution {
    Contribution(f.id.GetOr(GlobalKey(f.name)), f.name, ViewsOr0(f.views),
                 if f.courseId != "" then Some(f.courseId) else None,
                 ParentName(courses, f.courseId))
  }

  function GlobalContributions(courses: seq<Course>, fs: seq<StudyFile>): seq<Contribution> {
    if fs == [] then []
    else GlobalContributions(courses, fs[..|fs| - 1]) + [GlobalContribution(courses, fs[|fs| - 1])]
  }

  /** Everything the aggregation visits, in visiting order. */
  function Contributions(courses: seq<Course>, globalFiles: seq<StudyFile>): seq<Contribution> {
    InlineContributions(courses) + GlobalContributions(courses, globalFiles)
  }

  /** `if (x && !xs.includes(x)) xs.push(x)` */
  function PushNew(xs: seq<string>, x: Option<string>): (r: seq<string>)
    ensures NoDup(xs) ==> NoDup(r)
    ensures forall y :: y in r <==> y in xs || x == Some(y)
  {
    if x.Some? && x.value !in xs then xs + [x.value] else xs
  }

  /** One step of the loop: add to the entry with the contribution's key, or open one. */
  function Upsert(entries: seq<FileAggregate>, c: Contribution): (r: seq<FileAggregate>)
    ensures |r| == if HasKey(entries, AggregateId, c.key) then |entries| else |entries| + 1
    ensures HasKey(r, AggregateId, c.key)
    ensures forall i :: 0 <= i < |entries| && entries[i].id != c.key ==> r[i] == entries[i]
    ensures !HasKey(entries, AggregateId, c.key) ==>
      r[|entries|].id == c.key && r[|entries|].name == c.name && r[|entries|].views == c.views
  {
    match FirstIndex(entries, AggregateId, c.key)
    case Some(i) =>
      var r := entries[i := entries[i].(views := entries[i].views + c.views,
                                        courseIds := PushNew(entries[i].courseIds, c.courseId),
                                        courseNames := PushNew(entries[i].courseNames, c.courseName))];
      assert AggregateId(r[i]) == c.key;
      r
    case None =>
      var r := entries + [FileAggregate(c.key, c.name, c.views, PushNew([], c.courseId), PushNew([], c.courseName))];
      assert AggregateId(r[|entries|]) == c.key;
      r
  }

  /** The map's entries, in insertion order, after visiting `cs`. */
  function Aggregate(cs: seq<Contribution>): (r: seq<FileAggregate>)
    ensures DistinctIds(r)
    ensures |r| <= |cs|
  {
    if cs == [] then []
    else
      UpsertKeys(Aggregate(cs[..|cs| - 1]), cs[|cs| - 1]);
      Upsert(Aggregate(cs[..|cs| - 1]), cs[|cs| - 1])
  }

  /** `topFiles`: the aggregates ranked by views, cut to `topN`. */
  function TopFilesOf(courses: seq<Course>, globalFiles: seq<StudyFile>, topN: nat): (r: seq<FileAggregate>)
    ensures var all := Aggregate(Contributions(courses, globalFiles));
      |r| == if topN < |all| then topN else |all|
    ensures NonIncreasing(r, AggregateViews)
    ensures multiset(r) <= multiset(Aggregate(Contributions(courses, globalFiles)))
  {
    TopRanked(Aggregate(Contributions(courses, globalFiles)), AggregateViews, topN)
  }

  /** No aggregate left out of the top files has more views than one in it, and among
      aggregates with equal views the listed ones are the first ones in map insertion order. */
  lemma {:induction false} TopFilesAreTop(courses: seq<Course>, globalFiles: seq<StudyFile>, topN: nat,
                                          out: FileAggregate, kept: FileAggregate)
    requires out in multiset(Aggregate(Contributions(courses, globalFiles))) - multiset(TopFilesOf(courses, globalFiles, topN))
    requires kept in TopFilesOf(courses, globalFiles, topN)
    ensures out.views <= kept.views
    ensures WithKey(TopFilesOf(courses, globalFiles, topN), AggregateViews, kept.views)
         <= WithKey(Aggregate(Contributions(courses, globalFiles)), AggregateViews, kept.views)
  {
    var all := Aggregate(Contributions(courses, globalFiles));
    TopRankedIsTop(all, AggregateViews, topN, out, kept);
    TopRankedStable(all, AggregateViews, topN, kept.views);
  }

  /** Sum of the views of all contributions with key `k`. */
  function KeyViews(cs: seq<Contribution>, k: string): int {
    if cs == [] then 0
    else KeyViews(cs[..|cs| - 1], k) + (if cs[|cs| - 1].key == k then cs[|cs| - 1].views else 0)
  }

  function SumContributions(cs: seq<Contribution>): int {
    if cs == [] then 0 else SumContributions(cs[..|cs| - 1]) + cs[|cs| - 1].views
  }

  function SumAggregates(es: seq<FileAggregate>): int {
    if es == [] then 0 else SumAggregates(es[..|es| - 1]) + es[|es| - 1].views
  }

  /** No two aggregates share a key. */
  predicate DistinctIds(es: seq<FileAggregate>) {
    forall i, j :: 0 <= i < j < |es| ==> es[i].id != es[j].id
  }

  /** Each aggregate's course ids and course names are duplicate-free. */
  predicate DistinctLists(es: seq<FileAggregate>) {
    forall i :: 0 <= i < |es| ==> NoDup(es[i].courseIds) && NoDup(es[i].courseNames)
  }

  lemma {:induction false} NoKeyNoViews(cs: seq<Contribution>, k: string)
    requires forall i :: 0 <= i < |cs| ==> cs[i].key != k
    ensures KeyViews(cs, k) == 0
  {
    if cs != [] {
      var init := cs[..|cs| - 1];
      assert forall i :: 0 <= i < |init| ==> init[i] == cs[i];
      NoKeyNoViews(init, k);
    }
  }

  /** The keys visited by `cs` are those of all but its last element, plus the last one's. */
  lemma {:induction false} ContributionKeysSnoc(cs: seq<Contribution>)
    requires cs != []
    ensures forall k ::
      HasKey(cs, ContributionKey, k) <==> HasKey(cs[..|cs| - 1], ContributionKey, k) || k == cs[|cs| - 1].key
  {
    var init := cs[..|cs| - 1];
    forall k ensures HasKey(cs, ContributionKey, k) <==> HasKey(init, ContributionKey, k) || k == cs[|cs| - 1].key {
      if HasKey(cs, ContributionKey, k) && k != cs[|cs| - 1].key {
        var i :| 0 <= i < |cs| && ContributionKey(cs[i]) == k;
        assert ContributionKey(init[i]) == k;
      }
      if HasKey(init, ContributionKey, k) {
        var i :| 0 <= i < |init| && ContributionKey(init[i]) == k;
        assert ContributionKey(cs[i]) == k;
      }
      if k == cs[|cs| - 1].key {
        assert ContributionKey(cs[|cs| - 1]) == k;
      }
    }
  }

  /** An upsert adds the contribution's key and keeps the keys distinct. */
  lemma {:induction false} UpsertKeys(e: seq<FileAggregate>, c: Contribution)
    ensures forall k :: HasKey(Upsert(e, c), AggregateId, k) <==> HasKey(e, AggregateId, k) || k == c.key
    ensures DistinctIds(e) ==> DistinctIds(Upsert(e, c))
  {
    var r := Upsert(e, c);
    match FirstIndex(e, AggregateId, c.key)
    case Some(i) =>
      assert AggregateId(e[i]) == c.key;
      forall k ensures HasKey(r, AggregateId, k) <==> HasKey(e, AggregateId, k) || k == c.key {
        if HasKey(r, AggregateId, k) {
          var j :| 0 <= j < |r| && AggregateId(r[j]) == k;
          assert AggregateId(e[j]) == k;
        }
        if HasKey(e, AggregateId, k) {
          var j :| 0 <= j < |e| && AggregateId(e[j]) == k;
          assert AggregateId(r[j]) == k;
        }
      }
    case None =>
      forall k ensures HasKey(r, AggregateId, k) <==> HasKey(e, AggregateId, k) || k == c.key {
        if HasKey(r, AggregateId, k) && k != c.key {
          var j :| 0 <= j < |r| && AggregateId(r[j]) == k;
          assert AggregateId(e[j]) == k;
        }
        if HasKey(e, AggregateId, k) {
          var j :| 0 <= j < |e| && AggregateId(e[j]) == k;
          assert AggregateId(r[j]) == k;
        }
        if k == c.key {
          assert AggregateId(r[|e|]) == k;
        }
      }
  }

  /** The aggregates are keyed exactly by the visited keys, one aggregate per key. */
  lemma {:induction false} AggregateKeys(cs: seq<Contribution>)
    ensures DistinctIds(Aggregate(cs))
    ensures forall k :: HasKey(Aggregate(cs), AggregateId, k) <==> HasKey(cs, ContributionKey, k)
  {
    if cs != [] {
      AggregateKeys(cs[..|cs| - 1]);
      UpsertKeys(Aggregate(cs[..|cs| - 1]), cs[|cs| - 1]);
      ContributionKeysSnoc(cs);
    }
  }

  /** Each aggregate holds the summed views of every visited file with its key. */
  lemma {:induction false} AggregateViewsByKey(cs: seq<Contribution>)
    ensures forall p :: 0 <= p < |Aggregate(cs)| ==> Aggregate(cs)[p].views == KeyViews(cs, Aggregate(cs)[p].id)
  {
    if cs != [] {
      var init := cs[..|cs| - 1];
      var c := cs[|cs| - 1];
      AggregateViewsByKey(init);
      AggregateKeys(init);
      var e := Aggregate(init);
      var r := Aggregate(cs);
      assert r == Upsert(e, c);
      forall p | 0 <= p < |r| ensures r[p].views == KeyViews(cs, r[p].id) {
        assert KeyViews(cs, r[p].id) == KeyViews(init, r[p].id) + (if c.key == r[p].id then c.views else 0);
        match FirstIndex(e, AggregateId, c.key)
        case Some(i) =>
          if p != i {
            assert e[p].id != e[i].id;
          }
        case None =>
          if p == |e| {
            assert !HasKey(init, ContributionKey, c.key);
            forall j | 0 <= j < |init| ensures init[j].key != c.key {
              assert ContributionKey(init[j]) != c.key;
            }
            NoKeyNoViews(init, c.key);
          } else {
            assert AggregateId(e[p]) != c.key;
          }
      }
    }
  }

  lemma {:induction false} SumAggregatesUpdate(es: seq<FileAggregate>, i: nat, a: FileAggregate)
    requires i < |es|
    ensures SumAggregates(es[i := a]) == SumAggregates(es) - es[i].views + a.views
    decreases |es|
  {
    var n := |es| - 1;
    if i == n {
      assert es[i := a][..n] == es[..n];
    } else {
      assert es[i := a][..n] == es[..n][i := a];
      SumAggregatesUpdate(es[..n], i, a);
    }
  }

  /** No views are lost or counted twice: the aggregates' views add up to the views of all
      visited files. */
  lemma {:induction false} AggregateKeepsTotal(cs: seq<Contribution>)
    ensures SumAggregates(Aggregate(cs)) == SumContributions(cs)
  {
    if cs != [] {
      var init := cs[..|cs| - 1];
      var c := cs[|cs| - 1];
      AggregateKeepsTotal(init);
      assert Aggregate(cs) == Upsert(Aggregate(init), c);
      UpsertAddsViews(Aggregate(init), c);
    }
  }

  /** One visit adds its views to the total, whether it updates an entry or adds one. */
  lemma {:induction false} UpsertAddsViews(e: seq<FileAggregate>, c: Contribution)
    ensures SumAggregates(Upsert(e, c)) == SumAggregates(e) + c.views
  {
    match FirstIndex(e, AggregateId, c.key)
    case Some(i) =>
      SumAggregatesUpdate(e, i, e[i].(views := e[i].views + c.views,
                                      courseIds := PushNew(e[i].courseIds, c.courseId),
                                      courseNames := PushNew(e[i].courseNames, c.courseName)));
    case None =>
      var r := Upsert(e, c);
      assert r[..|r| - 1] == e;
  }

  /** Course ids and course names are pushed only when absent. */
  lemma {:induction false} AggregateListsDistinct(cs: seq<Contribution>)
    ensures DistinctLists(Aggregate(cs))
  {
    if cs != [] {
      AggregateListsDistinct(cs[..|cs| - 1]);
    }
  }

  /** Two files visited with the same key, and nothing else, give a single aggregate whose
      views are the sum of both (an inline and a standalone copy with one id, or two id-less
      standalone files of one name). */
  lemma {:induction false} SameKeyMerges(c1: Contribution, c2: Contribution)
    requires c1.key == c2.key
    ensures |Aggregate([c1, c2])| == 1
    ensures Aggregate([c1, c2])[0].id == c1.key
    ensures Aggregate([c1, c2])[0].views == c1.views + c2.views
    ensures Aggregate([c1, c2])[0].name == c1.name
  {
    assert [c1, c2][..1] == [c1];
    assert [c1][..0] == [];
    var a := FileAggregate(c1.key, c1.name, c1.views, PushNew([], c1.courseId), PushNew([], c1.courseName));
    assert Aggregate([c1]) == [a];
    assert FirstIndex([a], AggregateId, c2.key) == Some(0);
  }

  /** An id-less inline file and an id-less standalone file never share a key, as long as
      course ids contain no ':' (generated ids never do) and no course has the id "global". */
  lemma {:induction false} InlineAndGlobalKeysDiffer(courseId: string, name1: string, name2: string)
    requires ':' !in courseId && courseId != "global"
    ensures InlineKey(courseId, name1) != GlobalKey(name2)
  {
    var a := InlineKey(courseId, name1);
    var b := GlobalKey(name2);
    var n := |courseId|;
    if n < 6 {
      assert a[n] == ':' && b[n] == "global"[n];
      assert a[n] != b[n];
    } else if n == 6 {
      assert a[..6] == courseId && b[..6] == "global";
      assert a[..6] != b[..6];
    } else {
      assert a[6] == courseId[6] && b[6] == ':';
      assert a[6] != b[6];
    }
  }

  lemma {:induction false} AggregateSnoc(cs: seq<Contribution>, c: Contribution)
    ensures Aggregate(cs + [c]) == Upsert(Aggregate(cs), c)
  {
    assert (cs + [c])[..|cs|] == cs;
  }

  lemma {:induction false} FileContributionsSnoc(course: Course, fs: seq<StudyFile>, j: nat)
    requires j < |fs|
    ensures FileContributions(course, fs[..j + 1]) == FileContributions(course, fs[..j]) + [InlineContribution(course, fs[j])]
  {
    assert fs[..j + 1][..j] == fs[..j];
  }

  lemma {:induction false} GlobalContributionsSnoc(courses: seq<Course>, fs: seq<StudyFile>, j: nat)
    requires j < |fs|
    ensures GlobalContributions(courses, fs[..j + 1]) == GlobalContributions(courses, fs[..j]) + [GlobalContribution(courses, fs[j])]
  {
    assert fs[..j + 1][..j] == fs[..j];
  }

  lemma {:induction false} InlineContributionsSnoc(courses: seq<Course>, i: nat)
    requires i < |courses|
    ensures InlineContributions(courses[..i + 1]) == InlineContributions(courses[..i]) + CourseContributions(courses[i])
  {
    assert courses[..i + 1][..i] == courses[..i];
  }

  lemma {:induction false} InlineStep(before: seq<Contribution>, course: Course, fs: seq<StudyFile>, j: nat)
    requires j < |fs|
    ensures Aggregate(before + FileContributions(course, fs[..j + 1]))
         == Upsert(Aggregate(before + FileContributions(course, fs[..j])), InlineContribution(course, fs[j]))
  {
    FileContributionsSnoc(course, fs, j);
    assert before + FileContributions(course, fs[..j + 1])
        == (before + FileContributions(course, fs[..j])) + [InlineContribution(course, fs[j])];
    AggregateSnoc(before + FileContributions(course, fs[..j]), InlineContribution(course, fs[j]));
  }

  lemma {:induction false} GlobalStep(before: seq<Contribution>, courses: seq<Course>, fs: seq<StudyFile>, j: nat)
    requires j < |fs|
    ensures Aggregate(before + GlobalContributions(courses, fs[..j + 1]))
         == Upsert(Aggregate(before + GlobalContributions(courses, fs[..j])), GlobalContribution(courses, fs[j]))
  {
    GlobalContributionsSnoc(courses, fs, j);
    assert before + GlobalContributions(courses, fs[..j + 1])
        == (before + GlobalContributions(courses, fs[..j])) + [GlobalContribution(courses, fs[j])];
    AggregateSnoc(before + GlobalContributions(courses, fs[..j]), GlobalContribution(courses, fs[j]));
  }

  /** The inner loop over one course's inline files. */
  method UpsertCourseFiles(entries: seq<FileAggregate>, ghost before: seq<Contribution>, course: Course)
    returns (r: seq<FileAggregate>)
    requires entries == Aggregate(before)
    ensures r == Aggregate(before + CourseContributions(course))
  {
    r := entries;
    if course.files.None? {
      assert before + CourseContributions(course) == before;
      return;
    }
    var fs := course.files.value;
    var j := 0;
    assert fs[..0] == [];
    assert before + FileContributions(course, fs[..0]) == before;
    while j < |fs|
      invariant 0 <= j <= |fs|
      invariant r == Aggregate(before + FileContributions(course, fs[..j]))
    {
      InlineStep(before, course, fs, j);
      r := Upsert(r, InlineContribution(course, fs[j]));
      j := j + 1;
    }
    assert fs[..j] == fs;
  }

  /** The `topFiles` computation, visiting the inline files course by course and then the
      standalone files, upserting into the insertion-ordered map. */
  method TopFiles(courses: seq<Course>, globalFiles: seq<StudyFile>, topN: nat) returns (r: seq<FileAggregate>)
    ensures r == TopFilesOf(courses, globalFiles, topN)
  {
    var entries: seq<FileAggregate> := [];
    var i := 0;
    while i < |courses|
      invariant 0 <= i <= |courses|
      invariant entries == Aggregate(InlineContributions(courses[..i]))
    {
      entries := UpsertCourseFiles(entries, InlineContributions(courses[..i]), courses[i]);
      InlineContributionsSnoc(courses, i);
      i := i + 1;
    }
    assert courses[..i] == courses;
    ghost var inline := InlineContributions(courses);
    var g := 0;
    assert globalFiles[..0] == [];
    assert inline + GlobalContributions(courses, globalFiles[..0]) == inline;
    while g < |globalFiles|
      invariant 0 <= g <= |globalFiles|
      invariant entries == Aggregate(inline + GlobalContributions(courses, globalFiles[..g]))
    {
      GlobalStep(inline, courses, globalFiles, g);
      entries := Upsert(entries, GlobalContribution(courses, globalFiles[g]));
      g := g + 1;
    }
    assert globalFiles[..g] == globalFiles;
    r := TopRanked(entries, AggregateViews, topN);
  }

  // ---------------------------------------------------------------------------------------
  // Per-course counts

  /** The file count shown on a course card: the larger of its inline file count and the
      number of standalone files pointing at it. */
  function FileCount(course: Course, globalFiles: seq<StudyFile>): (n: nat)
    ensures course.files.Some? ==> n >= |course.files.value|
    ensures n >= CountKey(globalFiles, FileCourse, course.id)
    ensures n == CountKey(globalFiles, FileCourse, course.id)
         || (course.files.Some? && n == |course.files.value|)
  {
    var inline := if course.files.Some? then |course.files.value| else 0;
    var standalone := CountKey(globalFiles, FileCourse, course.id);
    if inline > standalone then inline else standalone
  }

  /** The student count shown on a course card. */
  function StudentCount(course: Course): (n: nat)
    ensures course.studentIds.Some? ==> n == |course.studentIds.value|
    ensures course.studentIds.None? ==> n == 0
  {
    |course.studentIds.GetOr([])|
  }
}
