/** The course screen: add, edit and delete courses while keeping each lecturer's
    `courses` list in step with `course.lecturerId`. */
module CourseManagement {
  import opened Wrappers
  import opened Seqs
  import opened Text
  import opened Records
  import opened Keyed

  /** `courses.some(c => c.code.toLowerCase() === code.toLowerCase())` */
  predicate CodeTaken(courses: seq<Course>, code: string)
    ensures !CodeTaken(courses, code) ==> forall c :: c in courses ==> Lower(c.code) != Lower(code)
  {
    exists k :: 0 <= k < |courses| && Lower(courses[k].code) == Lower(code)
  }

  /** After a course is appended, its code is taken in every letter case, and every code
      taken before stays taken. */
  lemma {:induction false} CodeTakenAfterAppend(courses: seq<Course>, c: Course, code: string)
    ensures CodeTaken(courses + [c], code) <==> CodeTaken(courses, code) || Lower(c.code) == Lower(code)
  {
    var all := courses + [c];
    if CodeTaken(courses, code) {
      var k :| 0 <= k < |courses| && Lower(courses[k].code) == Lower(code);
      assert all[k] == courses[k];
    }
    if Lower(c.code) == Lower(code) {
      assert all[|courses|] == c;
    }
    if CodeTaken(all, code) {
      var k :| 0 <= k < |all| && Lower(all[k].code) == Lower(code);
      if k < |courses| {
        assert all[k] == courses[k];
      }
    }
  }

  /** A lecturer's course list after `Array.from(new Set([...courses, cid]))`. */
  function WithCourse(courses: seq<string>, cid: string): (r: seq<string>)
    ensures NoDup(r) && multiset(r)[cid] == 1
    ensures forall c :: c in r <==> c in courses || c == cid
    ensures NoDup(courses) ==> r == if cid in courses then courses else courses + [cid]
  {
    DedupSnoc(courses, cid);
    NoDupCount(Dedup(courses + [cid]), cid);
    if NoDup(courses) then DedupOfNoDup(courses); Dedup(courses + [cid])
    else Dedup(courses + [cid])
  }

  /** The lecturers after `addCourse` assigned course `cid` to lecturer `lid`:
      each lecturer with that id lists `cid` exactly once, nobody else changes. */
  function AttachCourse(ls: seq<Lecturer>, lid: string, cid: string): (r: seq<Lecturer>)
    ensures |r| == |ls|
    ensures forall k :: 0 <= k < |r| ==> r[k].(courses := ls[k].courses) == ls[k] && r[k].id == ls[k].id
    ensures forall k :: 0 <= k < |r| && ls[k].id == lid ==>
      r[k].courses == WithCourse(ls[k].courses, cid) && multiset(r[k].courses)[cid] == 1
    ensures forall k :: 0 <= k < |r| && ls[k].id != lid ==> r[k] == ls[k]
  {
    seq(|ls|, k requires 0 <= k < |ls| =>
      if ls[k].id == lid then ls[k].(courses := WithCourse(ls[k].courses, cid)) else ls[k])
  }

  /** The lecturers after course `cid` moved from lecturer `oldLid` to `newLid`; the
      `oldLid` test comes first, so when both are the same lecturer it loses the course. */
  function Reassign(ls: seq<Lecturer>, oldLid: string, newLid: string, cid: string): (r: seq<Lecturer>)
    ensures |r| == |ls|
    ensures forall k :: 0 <= k < |r| ==> r[k].(courses := ls[k].courses) == ls[k] && r[k].id == ls[k].id
    ensures forall k :: 0 <= k < |r| && ls[k].id == oldLid ==>
      r[k].courses == Without(ls[k].courses, cid) && cid !in r[k].courses
    ensures forall k :: 0 <= k < |r| && ls[k].id != oldLid && ls[k].id == newLid ==>
      r[k].courses == WithCourse(ls[k].courses, cid) && multiset(r[k].courses)[cid] == 1
    ensures forall k :: 0 <= k < |r| && ls[k].id != oldLid && ls[k].id != newLid ==> r[k] == ls[k]
  {
    seq(|ls|, k requires 0 <= k < |ls| =>
      if ls[k].id == oldLid then ls[k].(courses := Without(ls[k].courses, cid))
      else if ls[k].id == newLid then ls[k].(courses := WithCourse(ls[k].courses, cid))
      else ls[k])
  }

  /** The lecturers after course `cid` was deleted: nobody lists it any more. */
  function DetachEverywhere(ls: seq<Lecturer>, cid: string): (r: seq<Lecturer>)
    ensures |r| == |ls|
    ensures forall k :: 0 <= k < |r| ==> r[k].(courses := ls[k].courses) == ls[k] && r[k].id == ls[k].id
    ensures forall k :: 0 <= k < |r| ==> r[k].courses == Without(ls[k].courses, cid) && cid !in r[k].courses
  {
    seq(|ls|, k requires 0 <= k < |ls| => ls[k].(courses := Without(ls[k].courses, cid)))
  }

  /** The one field `editCourseField` sets (the table edits these five). */
  datatype CourseEdit =
    | EditName(name: string)
    | EditCode(code: string)
    | EditDescription(description: string)
    | EditSemester(semester: int)
    | EditLecturer(lecturerId: string)

  function ApplyEdit(c: Course, e: CourseEdit): Course {
    match e
    case EditName(v) => c.(name := v)
    case EditCode(v) => c.(code := v)
    case EditDescription(v) => c.(description := v)
    case EditSemester(v) => c.(semester := v)
    case EditLecturer(v) => c.(lecturerId := v)
  }

  /** `courses.map(c => c.id === id ? { ...c, [field]: value } : c)`: every course with
      that id gets the edit, the others are untouched. */
  function EditCourses(courses: seq<Course>, id: string, e: CourseEdit): (r: seq<Course>)
    ensures |r| == |courses|
    ensures forall k :: 0 <= k < |r| ==> r[k].id == courses[k].id
    ensures forall k :: 0 <= k < |r| && courses[k].id == id ==> r[k] == ApplyEdit(courses[k], e)
    ensures forall k :: 0 <= k < |r| && courses[k].id != id ==> r[k] == courses[k]
  {
    seq(|courses|, k requires 0 <= k < |courses| =>
      if courses[k].id == id then ApplyEdit(courses[k], e) else courses[k])
  }

  /** The record `addCourse` creates: no students, zero views, no inline files. */
  function NewCourse(id: string, name: string, code: string, description: string,
                     lecturerId: string, semester: int): Course {
    Course(id, name, code, description, semester, lecturerId, Some([]), Some(0), None)
  }

  /** The two collections the course screen holds and saves together (`saveAll`). */
  class CourseBoard {
    var courses: seq<Course>
    var lecturers: seq<Lecturer>

    /** The load effect: both collections as stored. */
    constructor (savedCourses: seq<Course>, savedLecturers: seq<Lecturer>)
      ensures courses == savedCourses && lecturers == savedLecturers
    {
      courses := savedCourses;
      lecturers := savedLecturers;
    }

    /** `addCourse(false)` with the form fields; `newId` stands for `generateId('crs')`.
        Rejected (nothing saved) on an empty name or code or a code already used,
        ignoring case. */
    method AddCourse(name: string, code: string, description: string, lecturerId: string,
                     semester: int, newId: string) returns (ok: bool)
      modifies this
      ensures ok <==> name != "" && code != "" && !CodeTaken(old(courses), code)
      ensures !ok ==> courses == old(courses) && lecturers == old(lecturers)
      ensures ok ==> courses == old(courses) + [NewCourse(newId, name, code, description, lecturerId, semester)]
      ensures ok ==> lecturers == if lecturerId == "" then old(lecturers) else AttachCourse(old(lecturers), lecturerId, newId)
    {
      if name == "" || code == "" {
        return false;
      }
      if CodeTaken(courses, code) {
        return false;
      }
      var course := NewCourse(newId, name, code, description, lecturerId, semester);
      var updatedCourses := courses + [course];
      var updatedLecturers := lecturers;
      if course.lecturerId != "" {
        updatedLecturers := AttachCourse(lecturers, course.lecturerId, course.id);
      }
      courses, lecturers := updatedCourses, updatedLecturers;
      return true;
    }

    /** `editCourseField(id, field, value)`. A lecturer change detaches the course from the
        lecturer the first course with that id had and attaches it to the new one. */
    method EditCourseField(id: string, e: CourseEdit)
      modifies this
      ensures courses == EditCourses(old(courses), id, e)
      ensures lecturers ==
        match (e, FirstByKey(old(courses), CourseKey, id))
        case (EditLecturer(v), Some(oldCourse)) => Reassign(old(lecturers), oldCourse.lecturerId, v, id)
        case _ => old(lecturers)
    {
      var updatedCourses := EditCourses(courses, id, e);
      var updatedLecturers := lecturers;
      if e.EditLecturer? {
        var oldCourse := FirstByKey(courses, CourseKey, id);
        if oldCourse.Some? {
          updatedLecturers := Reassign(lecturers, oldCourse.value.lecturerId, e.lecturerId, id);
        }
      }
      courses, lecturers := updatedCourses, updatedLecturers;
    }

    /** `deleteCourse(id)`: drop every course with that id and the id from every lecturer. */
    method DeleteCourse(id: string)
      modifies this
      ensures courses == RemoveByKey(old(courses), CourseKey, id)
      ensures lecturers == DetachEverywhere(old(lecturers), id)
    {
      courses, lecturers := RemoveByKey(courses, CourseKey, id), DetachEverywhere(lecturers, id);
    }
  }

  /** Lecturer `lid` exists and lists course `cid`. */
  predicate LecturerLists(ls: seq<Lecturer>, lid: string, cid: string) {
    exists j :: 0 <= j < |ls| && ls[j].id == lid && cid in ls[j].courses
  }

  /** Some course with id `cid` names lecturer `lid`. */
  predicate CourseNames(cs: seq<Course>, cid: string, lid: string) {
    exists i :: 0 <= i < |cs| && cs[i].id == cid && cs[i].lecturerId == lid
  }

  /** The two-way course/lecturer reference: an assigned course is listed by its
      lecturer, and a listed course names the lecturer listing it. */
  predicate Linked(cs: seq<Course>, ls: seq<Lecturer>) {
    && (forall i :: 0 <= i < |cs| && cs[i].lecturerId != "" ==> LecturerLists(ls, cs[i].lecturerId, cs[i].id))
    && (forall j, cid :: 0 <= j < |ls| && cid in ls[j].courses ==> CourseNames(cs, cid, ls[j].id))
  }

  predicate UniqueCourseIds(cs: seq<Course>) {
    forall a, b :: 0 <= a < b < |cs| ==> cs[a].id != cs[b].id
  }

  /** Adding a course under a fresh id, assigned to nobody or to an existing lecturer,
      keeps the reference two-way. */
  lemma {:induction false} AddCourseKeepsLinked(cs: seq<Course>, ls: seq<Lecturer>, c: Course)
    requires Linked(cs, ls)
    requires forall i :: 0 <= i < |cs| ==> cs[i].id != c.id
    requires c.lecturerId == "" || HasKey(ls, LecturerKey, c.lecturerId)
    ensures Linked(cs + [c], if c.lecturerId == "" then ls else AttachCourse(ls, c.lecturerId, c.id))
  {
    var cs' := cs + [c];
    var ls' := if c.lecturerId == "" then ls else AttachCourse(ls, c.lecturerId, c.id);
    forall i | 0 <= i < |cs'| && cs'[i].lecturerId != ""
      ensures LecturerLists(ls', cs'[i].lecturerId, cs'[i].id)
    {
      if i < |cs| {
        assert cs'[i] == cs[i];
        assert LecturerLists(ls, cs[i].lecturerId, cs[i].id);
        var j :| 0 <= j < |ls| && ls[j].id == cs[i].lecturerId && cs[i].id in ls[j].courses;
        assert ls'[j].id == ls[j].id && cs[i].id in ls'[j].courses;
      } else {
        assert cs'[i] == c;
        var j :| 0 <= j < |ls| && ls[j].id == c.lecturerId;
        assert ls'[j].id == c.lecturerId && c.id in ls'[j].courses;
      }
    }
    forall j, x | 0 <= j < |ls'| && x in ls'[j].courses
      ensures CourseNames(cs', x, ls'[j].id)
    {
      assert ls'[j].id == ls[j].id;
      if x in ls[j].courses {
        assert CourseNames(cs, x, ls[j].id);
        var i :| 0 <= i < |cs| && cs[i].id == x && cs[i].lecturerId == ls[j].id;
        assert cs'[i] == cs[i];
      } else {
        assert ls'[j] != ls[j];
        assert x == c.id && ls[j].id == c.lecturerId;
        assert cs'[|cs|] == c;
      }
    }
  }

  /** Deleting a course keeps the reference two-way. */
  lemma {:induction false} DeleteCourseKeepsLinked(cs: seq<Course>, ls: seq<Lecturer>, id: string)
    requires Linked(cs, ls)
    ensures Linked(RemoveByKey(cs, CourseKey, id), DetachEverywhere(ls, id))
  {
    DeleteCourseKeepsListed(cs, ls, id);
    DeleteCourseKeepsNamed(cs, ls, id);
  }

  lemma {:induction false} DeleteCourseKeepsListed(cs: seq<Course>, ls: seq<Lecturer>, id: string)
    requires Linked(cs, ls)
    ensures var cs', ls' := RemoveByKey(cs, CourseKey, id), DetachEverywhere(ls, id);
      forall i :: 0 <= i < |cs'| && cs'[i].lecturerId != "" ==> LecturerLists(ls', cs'[i].lecturerId, cs'[i].id)
  {
    var cs' := RemoveByKey(cs, CourseKey, id);
    var ls' := DetachEverywhere(ls, id);
    forall i | 0 <= i < |cs'| && cs'[i].lecturerId != ""
      ensures LecturerLists(ls', cs'[i].lecturerId, cs'[i].id)
    {
      var c := cs'[i];
      assert c in cs && c.id != id;
      var i0 :| 0 <= i0 < |cs| && cs[i0] == c;
      assert LecturerLists(ls, c.lecturerId, c.id);
      var j :| 0 <= j < |ls| && ls[j].id == c.lecturerId && c.id in ls[j].courses;
      assert multiset(ls'[j].courses)[c.id] == multiset(ls[j].courses)[c.id];
      assert ls'[j].id == ls[j].id && c.id in ls'[j].courses;
    }
  }

  lemma {:induction false} DeleteCourseKeepsNamed(cs: seq<Course>, ls: seq<Lecturer>, id: string)
    requires Linked(cs, ls)
    ensures var cs', ls' := RemoveByKey(cs, CourseKey, id), DetachEverywhere(ls, id);
      forall j, x :: 0 <= j < |ls'| && x in ls'[j].courses ==> CourseNames(cs', x, ls'[j].id)
  {
    var cs' := RemoveByKey(cs, CourseKey, id);
    var ls' := DetachEverywhere(ls, id);
    forall j, x | 0 <= j < |ls'| && x in ls'[j].courses
      ensures CourseNames(cs', x, ls'[j].id)
    {
      assert x != id && ls'[j].id == ls[j].id;
      assert multiset(ls'[j].courses)[x] == multiset(ls[j].courses)[x];
      assert x in ls[j].courses;
      assert CourseNames(cs, x, ls[j].id);
      var i :| 0 <= i < |cs| && cs[i].id == x && cs[i].lecturerId == ls[j].id;
      assert cs[i] in cs';
      var i' :| 0 <= i' < |cs'| && cs'[i'] == cs[i];
    }
  }

  /** Moving a course to a different, existing lecturer keeps the reference two-way
      (course ids are distinct, so the edited course is the one whose lecturer is looked up). */
  lemma {:induction false} ReassignKeepsLinked(cs: seq<Course>, ls: seq<Lecturer>, p: nat, newLid: string)
    requires Linked(cs, ls) && UniqueCourseIds(cs)
    requires p < |cs| && cs[p].lecturerId != newLid
    requires newLid == "" || HasKey(ls, LecturerKey, newLid)
    ensures FirstByKey(cs, CourseKey, cs[p].id) == Some(cs[p])
    ensures Linked(EditCourses(cs, cs[p].id, EditLecturer(newLid)),
                   Reassign(ls, cs[p].lecturerId, newLid, cs[p].id))
  {
    assert FirstIndex(cs, CourseKey, cs[p].id) == Some(p);
    ReassignKeepsListed(cs, ls, p, newLid);
    ReassignKeepsNamed(cs, ls, p, newLid);
  }

  lemma {:induction false} ReassignKeepsListed(cs: seq<Course>, ls: seq<Lecturer>, p: nat, newLid: string)
    requires Linked(cs, ls) && UniqueCourseIds(cs)
    requires p < |cs| && cs[p].lecturerId != newLid
    requires newLid == "" || HasKey(ls, LecturerKey, newLid)
    ensures var cs', ls' := EditCourses(cs, cs[p].id, EditLecturer(newLid)), Reassign(ls, cs[p].lecturerId, newLid, cs[p].id);
      forall i :: 0 <= i < |cs'| && cs'[i].lecturerId != "" ==> LecturerLists(ls', cs'[i].lecturerId, cs'[i].id)
  {
    var id, oldLid := cs[p].id, cs[p].lecturerId;
    var cs' := EditCourses(cs, id, EditLecturer(newLid));
    var ls' := Reassign(ls, oldLid, newLid, id);
    forall i | 0 <= i < |cs'| && cs'[i].lecturerId != ""
      ensures LecturerLists(ls', cs'[i].lecturerId, cs'[i].id)
    {
      if i == p {
        var j :| 0 <= j < |ls| && ls[j].id == newLid;
        assert ls'[j].id == newLid && id in ls'[j].courses;
      } else {
        assert cs[i].id != id && cs'[i] == cs[i];
        assert LecturerLists(ls, cs[i].lecturerId, cs[i].id);
        var j :| 0 <= j < |ls| && ls[j].id == cs[i].lecturerId && cs[i].id in ls[j].courses;
        assert multiset(Without(ls[j].courses, id))[cs[i].id] == multiset(ls[j].courses)[cs[i].id];
        assert ls'[j].id == cs[i].lecturerId && cs[i].id in ls'[j].courses;
      }
    }
  }

  lemma {:induction false} ReassignKeepsNamed(cs: seq<Course>, ls: seq<Lecturer>, p: nat, newLid: string)
    requires Linked(cs, ls) && UniqueCourseIds(cs)
    requires p < |cs| && cs[p].lecturerId != newLid
    ensures var cs', ls' := EditCourses(cs, cs[p].id, EditLecturer(newLid)), Reassign(ls, cs[p].lecturerId, newLid, cs[p].id);
      forall j, x :: 0 <= j < |ls'| && x in ls'[j].courses ==> CourseNames(cs', x, ls'[j].id)
  {
    var id, oldLid := cs[p].id, cs[p].lecturerId;
    var cs' := EditCourses(cs, id, EditLecturer(newLid));
    var ls' := Reassign(ls, oldLid, newLid, id);
    forall j, x | 0 <= j < |ls'| && x in ls'[j].courses
      ensures CourseNames(cs', x, ls'[j].id)
    {
      assert ls'[j].id == ls[j].id;
      if x == id && ls[j].id == newLid {
        assert cs'[p].id == id && cs'[p].lecturerId == newLid;
      } else {
        assert x in ls[j].courses by {
          if ls[j].id == oldLid {
            assert multiset(Without(ls[j].courses, id))[x] == multiset(ls[j].courses)[x];
          }
        }
        assert CourseNames(cs, x, ls[j].id);
        var i :| 0 <= i < |cs| && cs[i].id == x && cs[i].lecturerId == ls[j].id;
        assert i != p;
        assert cs'[i] == cs[i];
      }
    }
  }

  /** Reassigning a course to the lecturer it already has drops it from that lecturer's
      list while the course still names the lecturer: the reference becomes one-way. */
  lemma {:induction false} ReassignToSameLecturerUnlinks(cs: seq<Course>, ls: seq<Lecturer>, p: nat)
    requires p < |cs| && cs[p].lecturerId != ""
    ensures !Linked(EditCourses(cs, cs[p].id, EditLecturer(cs[p].lecturerId)),
                    Reassign(ls, cs[p].lecturerId, cs[p].lecturerId, cs[p].id))
  {
    var cs' := EditCourses(cs, cs[p].id, EditLecturer(cs[p].lecturerId));
    var ls' := Reassign(ls, cs[p].lecturerId, cs[p].lecturerId, cs[p].id);
    assert cs'[p] == cs[p];
    assert !LecturerLists(ls', cs[p].lecturerId, cs[p].id);
  }

  /** Deleting a course right after adding it under a fresh id restores both
      collections, provided lecturers' course lists were duplicate-free. */
  lemma {:induction false} AddThenDeleteCourse(cs: seq<Course>, ls: seq<Lecturer>, c: Course)
    requires forall i :: 0 <= i < |cs| ==> cs[i].id != c.id
    requires forall j :: 0 <= j < |ls| ==> NoDup(ls[j].courses) && c.id !in ls[j].courses
    ensures RemoveByKey(cs + [c], CourseKey, c.id) == cs
    ensures DetachEverywhere(if c.lecturerId == "" then ls else AttachCourse(ls, c.lecturerId, c.id), c.id) == ls
  {
    RemoveByKeyAppend(cs, [c], CourseKey, c.id);
    RemoveAbsentKey(cs, CourseKey, c.id);
    assert RemoveByKey([c], CourseKey, c.id) == [];
    var ls' := if c.lecturerId == "" then ls else AttachCourse(ls, c.lecturerId, c.id);
    var r := DetachEverywhere(ls', c.id);
    forall j | 0 <= j < |ls| ensures r[j] == ls[j] {
      if ls'[j] != ls[j] {
        WithoutAppend(ls[j].courses, [c.id], c.id);
        assert r[j].courses == ls[j].courses;
      }
    }
  }
}
