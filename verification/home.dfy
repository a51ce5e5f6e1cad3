/** The home page: the first-run seeding of the stored courses and lecturers, and the file
    count, student count and lecturer shown on each course card. */
module Home {
  import opened Wrappers
  import opened Seqs
  import opened Text
  import opened Records
  import opened Keyed
  import opened LecturerSeed
  import CourseDetails

  /** A default course: no lecturer, no students, no views yet. */
  function DefaultCourse(id: string, name: string, code: string, description: string, semester: int): (c: Course)
    ensures c.lecturerId == "" && c.studentIds == Some([]) && c.views == Some(0) && c.files.None?
  {
    Course(id, name, code, description, semester, "", Some([]), Some(0), None)
  }

  /** The names and descriptions of the default courses, in order. */
  const Name0: string := "מבוא למדעי המחשב"
  const Description0: string := "יסודות תכנות, מבנה מחשב ופתרון בעיות."
  const Name1: string := "אלגוריתמים"
  const Description1: string := "ניתוח אלגוריתמים, רשימות מקושרות, מחסניות, עצים וגרפים."
  const Name2: string := "ארכיטקטורת מחשבים"
  const Description2: string := "מערכות ספרתיות, מעבדים ותכנון מערכות מחשב."
  const Name3: string := "מערכות הפעלה"
  const Description3: string := "ניהול תהליכים, זיכרון, קבצים ותזמון."
  const Name4: string := "תכנות מונחה עצמים"
  const Description4: string := "עקרונות OOP: מחלקות, ירושה, פולימורפיזם ותבניות תכנון."
  const Name5: string := "בסיסי נתונים"
  const Description5: string := "SQL, תכנון בסיסי נתונים, נורמליזציה ומערכות ניהול DB."
  const Name6: string := "אבטחת מידע"
  const Description6: string := "קריפטוגרפיה, פרוטוקולי אבטחה, הגנה מפני תקיפות סייבר."
  const Name7: string := "רשתות מחשבים"
  const Description7: string := "מודל OSI, TCP/IP, פרוטוקולים ויישומי אינטרנט."
  const Name8: string := "בינה מלאכותית"
  const Description8: string := "יסודות AI, חיפוש, למידה חישובית ויישומים חכמים."
  const Name9: string := "פיתוח יישומי אינטרנט"
  const Description9: string := "פיתוח צד לקוח וצד שרת, טכנולוגיות Web מתקדמות."

  /** The codes of the default courses, in order. */
  function DefaultCodes(): (r: seq<string>)
    ensures |r| == 10
  {
    ["CS101", "CS201", "CS301", "CS302", "CS202", "CS303", "CS401", "CS304", "CS402", "CS305"]
  }

  /** `defaultCourses`; `ids` are the ten `generateId("crs")` values drawn when the page
      module loads. */
  function DefaultCourses(ids: seq<string>): (r: seq<Course>)
    requires |ids| == 10
    ensures |r| == 10
    ensures forall k :: 0 <= k < 10 ==> r[k].id == ids[k] && r[k].code == DefaultCodes()[k]
    ensures forall k :: 0 <= k < 10 ==>
      r[k].lecturerId == "" && r[k].studentIds == Some([]) && r[k].views == Some(0) && r[k].files.None?
    ensures forall k :: 0 <= k < 10 ==> 1 <= r[k].semester <= 4
  {
    [
      DefaultCourse(ids[0], Name0, "CS101", Description0, 1),
      DefaultCourse(ids[1], Name1, "CS201", Description1, 2),
      DefaultCourse(ids[2], Name2, "CS301", Description2, 3),
      DefaultCourse(ids[3], Name3, "CS302", Description3, 4),
      DefaultCourse(ids[4], Name4, "CS202", Description4, 2),
      DefaultCourse(ids[5], Name5, "CS303", Description5, 3),
      DefaultCourse(ids[6], Name6, "CS401", Description6, 4),
      DefaultCourse(ids[7], Name7, "CS304", Description7, 3),
      DefaultCourse(ids[8], Name8, "CS402", Description8, 4),
      DefaultCourse(ids[9], Name9, "CS305", Description9, 3)
    ]
  }

  /** A code of the form `CS` followed by three digits, lowered. */
  lemma {:induction false} LowerCourseCode(digits: string)
    requires |digits| == 3 && forall k :: 0 <= k < 3 ==> IsDigit(digits[k])
    ensures Lower("CS" + digits) == "cs" + digits
  {
  }

  /** The three digits of each default code, in order. */
  function DefaultCodeDigits(): (r: seq<string>)
    ensures |r| == 10
    ensures forall k :: 0 <= k < 10 ==> |r[k]| == 3 && forall i :: 0 <= i < 3 ==> IsDigit(r[k][i])
  {
    ["101", "201", "301", "302", "202", "303", "401", "304", "402", "305"]
  }

  /** The default codes are `CS` followed by their digits, lowered to `cs` and the digits. */
  lemma {:induction false} DefaultCodesLowered()
    ensures forall k :: 0 <= k < 10 ==> Lower(DefaultCodes()[k]) == "cs" + DefaultCodeDigits()[k]
  {
    forall k | 0 <= k < 10 ensures Lower(DefaultCodes()[k]) == "cs" + DefaultCodeDigits()[k] {
      assert DefaultCodes()[k] == "CS" + DefaultCodeDigits()[k];
      LowerCourseCode(DefaultCodeDigits()[k]);
    }
  }

  /** The digit groups are pairwise distinct. */
  lemma {:induction false} DefaultCodeDigitsDistinct()
    ensures forall i, j :: 0 <= i < j < 10 ==> DefaultCodeDigits()[i] != DefaultCodeDigits()[j]
  {
    var d := DefaultCodeDigits();
    forall i, j | 0 <= i < j < 10 ensures d[i] != d[j] {
      assert d[i][0] != d[j][0] || d[i][2] != d[j][2];
    }
  }

  /** The default codes are pairwise distinct, even ignoring case. */
  lemma {:induction false} DefaultCodesLowerDistinct()
    ensures forall i, j :: 0 <= i < j < 10 ==> Lower(DefaultCodes()[i]) != Lower(DefaultCodes()[j])
  {
    DefaultCodesLowered();
    DefaultCodeDigitsDistinct();
    var d := DefaultCodeDigits();
    forall i, j | 0 <= i < j < 10 ensures "cs" + d[i] != "cs" + d[j] {
      assert ("cs" + d[i])[2..] == d[i] && ("cs" + d[j])[2..] == d[j];
    }
  }

  /** No two default courses share a code, even ignoring case, so none of them would be
      refused by the code check of `addCourse`. */
  lemma {:induction false} DefaultCodesDistinct(ids: seq<string>)
    requires |ids| == 10
    ensures forall i, j :: 0 <= i < j < 10 ==>
      Lower(DefaultCourses(ids)[i].code) != Lower(DefaultCourses(ids)[j].code)
  {
    DefaultCodesLowerDistinct();
  }

  /** `if (saved.length === 0) saved = defaults`. */
  function SeedIfEmpty<T>(saved: seq<T>, defaults: seq<T>): (r: seq<T>)
    ensures saved != [] ==> r == saved
    ensures saved == [] ==> r == defaults
  {
    if |saved| == 0 then defaults else saved
  }

  /** Seeding a second time changes nothing once the defaults are non-empty. */
  lemma {:induction false} SeedIfEmptySettles<T>(saved: seq<T>, defaults: seq<T>)
    requires defaults != []
    ensures SeedIfEmpty(saved, defaults) != []
    ensures SeedIfEmpty(SeedIfEmpty(saved, defaults), defaults) == SeedIfEmpty(saved, defaults)
  {
  }

  /** The stored collections the home page reads, and the page state it fills. */
  class HomePage {
    var storedCourses: seq<Course>
    var storedLecturers: seq<Lecturer>
    var courses: seq<Course>
    var lecturers: seq<Lecturer>
    var files: seq<StudyFile>
    var students: seq<Student>

    constructor (storedCourses: seq<Course>, storedLecturers: seq<Lecturer>)
      ensures this.storedCourses == storedCourses && this.storedLecturers == storedLecturers
      ensures courses == [] && lecturers == [] && files == [] && students == []
    {
      this.storedCourses := storedCourses;
      this.storedLecturers := storedLecturers;
      courses, lecturers, files, students := [], [], [], [];
    }

    /** First half of the load effect: an empty stored course list is replaced (and
        saved) by the default courses. */
    method SeedCourses(defaultIds: seq<string>)
      requires |defaultIds| == 10
      modifies this
      ensures storedCourses == SeedIfEmpty(old(storedCourses), DefaultCourses(defaultIds)) && storedCourses != []
      ensures courses == storedCourses
      ensures storedLecturers == old(storedLecturers) && lecturers == old(lecturers)
      ensures files == old(files) && students == old(students)
    {
      var savedCourses := storedCourses;
      if |savedCourses| == 0 {
        savedCourses := DefaultCourses(defaultIds);
        storedCourses := savedCourses;
      }
      courses := savedCourses;
    }

    /** Second half of the load effect: an empty stored lecturer list is replaced (and
        saved) by the permanent lecturers. */
    method SeedLecturers()
      modifies this
      ensures storedLecturers == SeedIfEmpty(old(storedLecturers), PermanentLecturers()) && storedLecturers != []
      ensures lecturers == storedLecturers
      ensures storedCourses == old(storedCourses) && courses == old(courses)
      ensures files == old(files) && students == old(students)
    {
      var savedLecturers := storedLecturers;
      if |savedLecturers| == 0 {
        savedLecturers := PermanentLecturers();
        storedLecturers := savedLecturers;
      }
      lecturers := savedLecturers;
    }

    /** The load effect: seed what is empty, keep what is not, and show the stored
        collections. */
    method Load(defaultIds: seq<string>, savedFiles: seq<StudyFile>, savedStudents: seq<Student>)
      requires |defaultIds| == 10
      modifies this
      ensures storedCourses == SeedIfEmpty(old(storedCourses), DefaultCourses(defaultIds))
      ensures storedLecturers == SeedIfEmpty(old(storedLecturers), PermanentLecturers())
      ensures storedCourses != [] && storedLecturers != []
      ensures courses == storedCourses && lecturers == storedLecturers
      ensures files == savedFiles && students == savedStudents
    {
      SeedCourses(defaultIds);
      SeedLecturers();
      files, students := savedFiles, savedStudents;
    }
  }

  /** The file count on a course card: the files pointing at the course. It agrees with the
      course page's file list. */
  function CardFileCount(course: Course, files: seq<StudyFile>): (n: nat)
    ensures n == CountKey(files, FileCourse, course.id)
    ensures n == |CourseDetails.CourseFiles(Some(course), files)|
  {
    |SelectByKey(files, FileCourse, course.id)|
  }

  /** The students counted on a course card: those whose `courseIds` name the course. */
  function CardStudents(course: Course, students: seq<Student>): (r: seq<Student>)
    ensures forall s :: s in r <==> s in students && course.id in s.courseIds
  {
    CourseDetails.ViaCourseIds(course, students)
  }

  /** With distinct student ids, a card never counts more students than the course page's
      roster lists: the roster starts with exactly the students the card counts. */
  lemma {:induction false} CardCountWithinRoster(course: Course, students: seq<Student>)
    requires DistinctKeys(students, StudentKey)
    ensures CardStudents(course, students) <= CourseDetails.Roster(Some(course), students)
    ensures |CardStudents(course, students)| <= |CourseDetails.Roster(Some(course), students)|
  {
    CourseDetails.RosterOrder(course, students);
  }

  /** The lecturer on a course card: the first lecturer whose id is the course's
      `lecturerId`. For a non-empty `lecturerId` it is the course page's lecturer. */
  function CardLecturer(course: Course, lecturers: seq<Lecturer>): (r: Option<Lecturer>)
    ensures r.Some? <==> HasKey(lecturers, LecturerKey, course.lecturerId)
    ensures r.Some? ==> IsFirst(lecturers, LecturerKey, course.lecturerId, r.value)
    ensures course.lecturerId != "" ==> r == CourseDetails.ResolveLecturer(Some(course), lecturers)
  {
    FirstByKeyIsFirst(lecturers, LecturerKey, course.lecturerId);
    FirstByKey(lecturers, LecturerKey, course.lecturerId)
  }
}
