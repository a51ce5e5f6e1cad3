/** The four persisted record shapes, with the fields the pages actually read and write. */
module Records {
  import opened Wrappers

  datatype FileType = Pdf | Ppt | Doc | Link | Other

  datatype FileStatus = Pending | Approved | Rejected

  /** A study file. Inline copies under `course.files` may lack an id; `views` is `None`
      when the stored value is missing or not a number. */
  datatype StudyFile = StudyFile(
    id: Option<string>,
    name: string,
    description: string,
    fileType: FileType,
    fileUrl: string,
    courseId: string,
    status: FileStatus,
    uploaderId: string,
    views: Option<int>)

  /** A course. `lecturerId` is `""` when unassigned (also standing for a missing or null
      value); `studentIds`, `views` and `files` are optional in stored data. */
  datatype Course = Course(
    id: string,
    name: string,
    code: string,
    description: string,
    semester: int,
    lecturerId: string,
    studentIds: Option<seq<string>>,
    views: Option<int>,
    files: Option<seq<StudyFile>>)

  datatype Lecturer = Lecturer(
    id: string,
    name: string,
    email: string,
    specialization: Option<string>,
    courses: seq<string>,
    semesters: seq<int>)

  datatype Student = Student(
    id: string,
    fullName: string,
    email: string,
    nationalId: string,
    semester: int,
    courseIds: seq<string>)

  /** Record keys, passed to the generic lookups of module Keyed. */
  function CourseKey(c: Course): string { c.id }
  function LecturerKey(l: Lecturer): string { l.id }
  function StudentKey(s: Student): string { s.id }
  function FileKey(f: StudyFile): Option<string> { f.id }
  function FileCourse(f: StudyFile): string { f.courseId }
}
