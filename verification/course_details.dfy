/** The course page: the course and its lecturer looked up by id, its student roster (the
    students naming the course, then the students the course names, one entry per student
    id), its files, and the display name of a file's uploader. */
module CourseDetails {
  import opened Wrappers
  import opened Seqs
  import opened Text
  import opened Records
  import opened Keyed
  import FileManagement

  /** The selected course: none for an empty route id, else the first course with that id. */
  function FindCourse(courses: seq<Course>, routeId: string): (r: Option<Course>)
    ensures routeId == "" ==> r.None?
    ensures routeId != "" ==> (r.Some? <==> HasKey(courses, CourseKey, routeId))
    ensures r.Some? ==> IsFirst(courses, CourseKey, routeId, r.value)
  {
    FirstByKeyIsFirst(courses, CourseKey, routeId);
    if routeId == "" then None else FirstByKey(courses, CourseKey, routeId)
  }

  /** The course's lecturer: none without a course or with an empty `lecturerId`, else the
      first lecturer with that id. */
  function ResolveLecturer(course: Option<Course>, lecturers: seq<Lecturer>): (r: Option<Lecturer>)
    ensures course.None? || course.value.lecturerId == "" ==> r.None?
    ensures course.Some? && course.value.lecturerId != "" ==>
      (r.Some? <==> HasKey(lecturers, LecturerKey, course.value.lecturerId))
    ensures r.Some? ==> course.Some? && IsFirst(lecturers, LecturerKey, course.value.lecturerId, r.value)
  {
    if course.None? || course.value.lecturerId == "" then None
    else
      FirstByKeyIsFirst(lecturers, LecturerKey, course.value.lecturerId);
      FirstByKey(lecturers, LecturerKey, course.value.lecturerId)
  }

  // ---------------------------------------------------------------------------------------
  // Student roster

  /** The student lists the course in its `courseIds`. */
  predicate NamesCourse(course: Course, s: Student) {
    course.id in s.courseIds
  }

  /** The course lists the student in its `studentIds`. */
  predicate NamedByCourse(course: Course, s: Student) {
    course.studentIds.Some? && s.id in course.studentIds.value
  }

  /** `viaStudentCourseIds` */
  function ViaCourseIds(course: Course, students: seq<Student>): seq<Student> {
    Filter(students, s => NamesCourse(course, s))
  }

  /** `viaCourseStudentIds` */
  function ViaStudentIds(course: Course, students: seq<Student>): seq<Student> {
    Filter(students, s => NamedByCourse(course, s))
  }

  /** `courseStudents`: both lists, in that order, through a `Map` keyed by student id. */
  function Roster(course: Option<Course>, students: seq<Student>): (r: seq<Student>)
    ensures course.None? ==> r == []
    ensures DistinctKeys(r, StudentKey)
    ensures forall s :: s in r ==> s in students
  {
    if course.None? then []
    else
      var both := ViaCourseIds(course.value, students) + ViaStudentIds(course.value, students);
      MapValuesKeys(both, StudentKey);
      MapValues(both, StudentKey)
  }

  /** The roster loop: `[...via1, ...via2].forEach(st => map.set(st.id, st))`. */
  method CourseStudents(course: Option<Course>, students: seq<Student>) returns (r: seq<Student>)
    ensures r == Roster(course, students)
  {
    if course.None? {
      return [];
    }
    var both := ViaCourseIds(course.value, students) + ViaStudentIds(course.value, students);
    r := [];
    var i := 0;
    while i < |both|
      invariant 0 <= i <= |both|
      invariant r == MapValues(both[..i], StudentKey)
    {
      assert both[..i + 1][..i] == both[..i];
      r := MapSet(r, StudentKey, both[i]);
      i := i + 1;
    }
    assert both[..i] == both;
  }

  /** Whatever the stored data, the roster has one entry per student id; every entry is a
      stored student tied to the course, and every tied student's id is on the roster. */
  lemma {:induction false} RosterKeys(course: Course, students: seq<Student>)
    ensures DistinctKeys(Roster(Some(course), students), StudentKey)
    ensures forall s :: s in Roster(Some(course), students) ==>
      s in students && (NamesCourse(course, s) || NamedByCourse(course, s))
    ensures forall s :: s in students && (NamesCourse(course, s) || NamedByCourse(course, s)) ==>
      HasKey(Roster(Some(course), students), StudentKey, s.id)
  {
    var both := ViaCourseIds(course, students) + ViaStudentIds(course, students);
    MapValuesKeys(both, StudentKey);
    forall s | s in students && (NamesCourse(course, s) || NamedByCourse(course, s))
      ensures HasKey(both, StudentKey, s.id)
    {
      assert s in both;
      var i :| 0 <= i < |both| && both[i] == s;
      assert StudentKey(both[i]) == s.id;
    }
  }

  /** With distinct student ids, the roster is exactly the students tied to the course: those
      naming the course first, in list order, then those only the course names, in list order. */
  lemma {:induction false} RosterOrder(course: Course, students: seq<Student>)
    requires DistinctKeys(students, StudentKey)
    ensures Roster(Some(course), students)
         == ViaCourseIds(course, students) + Lacking(ViaStudentIds(course, students), ViaCourseIds(course, students))
    ensures forall s :: s in Roster(Some(course), students) <==>
      s in students && (NamesCourse(course, s) || NamedByCourse(course, s))
  {
    var a := ViaCourseIds(course, students);
    var b := ViaStudentIds(course, students);
    FilterDistinctKeys(students, s => NamesCourse(course, s), StudentKey);
    FilterDistinctKeys(students, s => NamedByCourse(course, s), StudentKey);
    forall x, y | x in a && y in b && StudentKey(x) == StudentKey(y) ensures x == y {
      DistinctKeysIdentify(students, StudentKey, x, y);
    }
    MapValuesUnion(a, b, StudentKey);
  }

  // ---------------------------------------------------------------------------------------
  // Files and uploaders

  /** `courseFiles`: the files of the course, in stored order. */
  function CourseFiles(course: Option<Course>, files: seq<StudyFile>): (r: seq<StudyFile>)
    ensures course.None? ==> r == []
    ensures course.Some? ==> forall f :: f in r <==> f in files && f.courseId == course.value.id
    ensures course.Some? ==> |r| == CountKey(files, FileCourse, course.value.id)
    ensures course.Some? ==> r == Filter(files, (f: StudyFile) => f.courseId == course.value.id)
  {
    if course.None? then []
    else
      SelectByKeyIsFilter(files, FileCourse, course.value.id, (f: StudyFile) => f.courseId == course.value.id);
      SelectByKey(files, FileCourse, course.value.id)
  }

  /** The label of an unknown uploader. */
  const Unknown: string := "לא ידוע"

  /** `extractNumericTail(raw)`: the same short form as the file screen's uploader column,
      except that a blank id reads as unknown. */
  function ExtractNumericTail(raw: string): (r: string)
    ensures IsBlank(raw) ==> r == Unknown
    ensures !IsBlank(raw) ==> r == FileManagement.FormatUploaderId(raw)
  {
    if raw == [] || Trim(raw) == "" then Unknown else NumericTail(raw)
  }

  /** `getUploaderName(uploaderId)`: a student with that id wins, then a lecturer with it,
      else the id's numeric tail. */
  function UploaderName(students: seq<Student>, lecturers: seq<Lecturer>, uploaderId: string): (r: string)
    ensures HasKey(students, StudentKey, uploaderId) ==>
      exists s :: IsFirst(students, StudentKey, uploaderId, s) && r == s.fullName
    ensures !HasKey(students, StudentKey, uploaderId) && HasKey(lecturers, LecturerKey, uploaderId) ==>
      exists l :: IsFirst(lecturers, LecturerKey, uploaderId, l) && r == l.name
    ensures !HasKey(students, StudentKey, uploaderId) && !HasKey(lecturers, LecturerKey, uploaderId) ==>
      r == ExtractNumericTail(uploaderId)
  {
    FirstByKeyIsFirst(students, StudentKey, uploaderId);
    FirstByKeyIsFirst(lecturers, LecturerKey, uploaderId);
    match FirstByKey(students, StudentKey, uploaderId)
    case Some(s) => s.fullName
    case None =>
      match FirstByKey(lecturers, LecturerKey, uploaderId)
      case Some(l) => l.name
      case None => ExtractNumericTail(uploaderId)
  }
}
