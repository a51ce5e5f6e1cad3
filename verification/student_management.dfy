/** The student screen: the form's checks and clamps, and saving / deleting students
    in the stored list. Its local `isValidEmail` / `isValidNationalId` are the same
    regular expressions as the shared validators, so those are used here. */
module StudentManagement {
  import opened Wrappers
  import opened Seqs
  import opened Text
  import opened Records
  import opened Keyed
  import opened Validation

  const SemesterMin := 1
  const SemesterMax := 99

  /** The semester input: `parseInt` of the text (an empty text reads as the minimum),
      `NaN` becomes the minimum, anything else is clamped into range. */
  function ClampSemester(parsed: Option<int>): (r: int)
    ensures SemesterMin <= r <= SemesterMax
    ensures parsed.None? ==> r == SemesterMin
    ensures parsed.Some? && SemesterMin <= parsed.value <= SemesterMax ==> r == parsed.value
    ensures parsed.Some? && parsed.value < SemesterMin ==> r == SemesterMin
    ensures parsed.Some? && parsed.value > SemesterMax ==> r == SemesterMax
  {
    match parsed
    case None => SemesterMin
    case Some(v) => if v < SemesterMin then SemesterMin else if v > SemesterMax then SemesterMax else v
  }

  /** Clamping a value the input already shows leaves it as it is. */
  lemma {:induction false} ClampSemesterStable(parsed: Option<int>)
    ensures ClampSemester(Some(ClampSemester(parsed))) == ClampSemester(parsed)
  {
  }

  /** `toggleCourse(c)`: drop every copy of a selected course, append an unselected one. */
  function ToggleCourse(ids: seq<string>, c: string): (r: seq<string>)
    ensures c in r <==> c !in ids
    ensures forall d :: d != c ==> (d in r <==> d in ids)
    ensures c !in ids ==> r == ids + [c]
    ensures c in ids ==> multiset(r) == multiset(ids)[c := 0]
  {
    if c in ids then Without(ids, c) else ids + [c]
  }

  /** Ticking and unticking an unselected course restores the selection. */
  lemma {:induction false} ToggleCourseTwice(ids: seq<string>, c: string)
    requires c !in ids
    ensures ToggleCourse(ToggleCourse(ids, c), c) == ids
  {
    WithoutAppend(ids, [c], c);
    assert Without([c], c) == [];
  }

  /** What the form hands to `onSave`; `id` is `""` when adding. */
  datatype Draft = Draft(id: string, fullName: string, email: string, nationalId: string,
                         semester: int, courseIds: seq<string>)

  datatype SubmitError = MissingField | InvalidEmail | InvalidNationalId

  datatype Submission = Refused(error: SubmitError) | Accepted(draft: Draft)

  /** A valid e-mail has no whitespace, so trimming it changes nothing. */
  lemma {:induction false} ValidEmailIsTrimmed(s: string)
    requires IsValidEmail(s)
    ensures Trim(s) == s
  {
    var i, j :| EmailSplitAt(s, i, j);
    assert NoSpace(s) by {
      forall k | 0 <= k < |s| ensures !IsSpace(s[k]) {
        if k != i {
          assert IsEmailChar(s[k]);
        }
      }
    }
    TrimNoSpace(s);
  }

  /** A valid national id is all digits, so trimming it changes nothing. */
  lemma {:induction false} ValidNationalIdIsTrimmed(s: string)
    requires IsValidNationalId(s)
    ensures Trim(s) == s
  {
    assert NoSpace(s) by {
      forall k | 0 <= k < |s| ensures !IsSpace(s[k]) {
        assert IsDigit(DigitsOnly(s)[k]);
      }
    }
    TrimNoSpace(s);
  }

  /** `handleSubmit`: the three checks in order, then the trimmed fields. Only the name
      can actually change under trimming: a valid e-mail and id have no whitespace. */
  function Submit(id: string, fullName: string, email: string, nationalId: string,
                  semester: int, courseIds: seq<string>): (r: Submission)
    ensures r == Refused(MissingField) <==> fullName == "" || email == "" || nationalId == ""
    ensures r == Refused(InvalidEmail) <==>
      fullName != "" && email != "" && nationalId != "" && !IsValidEmail(email)
    ensures r == Refused(InvalidNationalId) <==>
      fullName != "" && email != "" && nationalId != "" && IsValidEmail(email) && !IsValidNationalId(nationalId)
    ensures r.Accepted? ==> r.draft == Draft(id, Trim(fullName), email, nationalId, semester, courseIds)
    ensures r.Accepted? ==> IsValidEmail(r.draft.email) && IsValidNationalId(r.draft.nationalId)
  {
    if fullName == "" || email == "" || nationalId == "" then Refused(MissingField)
    else if !IsValidEmail(email) then Refused(InvalidEmail)
    else if !IsValidNationalId(nationalId) then Refused(InvalidNationalId)
    else
      ValidEmailIsTrimmed(email);
      ValidNationalIdIsTrimmed(nationalId);
      Accepted(Draft(id, Trim(fullName), Trim(email), Trim(nationalId), semester, courseIds))
  }

  /** The draft's fields spread over a stored student, which keeps its id. */
  function Overwrite(s: Student, d: Draft): Student {
    Student(s.id, d.fullName, d.email, d.nationalId, d.semester, d.courseIds)
  }

  /** `students.map(s => s.id === d.id ? { ...s, ...d } : s)` */
  function UpdateStudents(ss: seq<Student>, d: Draft): (r: seq<Student>)
    ensures |r| == |ss|
    ensures forall k :: 0 <= k < |r| ==> r[k].id == ss[k].id
    ensures forall k :: 0 <= k < |r| && ss[k].id == d.id ==> r[k] == Overwrite(ss[k], d)
    ensures forall k :: 0 <= k < |r| && ss[k].id != d.id ==> r[k] == ss[k]
  {
    seq(|ss|, k requires 0 <= k < |ss| => if ss[k].id == d.id then Overwrite(ss[k], d) else ss[k])
  }

  predicate DistinctNationalIds(ss: seq<Student>) {
    forall a, b :: 0 <= a < b < |ss| ==> ss[a].nationalId != ss[b].nationalId
  }

  /** The duplicate guard keeps national ids distinct across adds. */
  lemma {:induction false} AddKeepsNationalIdsDistinct(ss: seq<Student>, s: Student)
    requires DistinctNationalIds(ss) && UniqueByNationalId(ss, s.nationalId)
    ensures DistinctNationalIds(ss + [s])
  {
  }

  /** The stored student list (`persistStudents`). */
  class StudentRoster {
    var students: seq<Student>

    constructor (saved: seq<Student>)
      ensures students == saved
    {
      students := saved;
    }

    /** `handleSaveStudent(d)`: a draft with an id updates the students with that id; one
        without is added under `newId` (standing for `uuidv4()`) unless a student already
        has its national id. */
    method SaveStudent(d: Draft, newId: string) returns (ok: bool)
      modifies this
      ensures d.id != "" ==> ok && students == UpdateStudents(old(students), d)
      ensures d.id == "" ==> (ok <==> UniqueByNationalId(old(students), d.nationalId))
      ensures d.id == "" && !ok ==> students == old(students)
      ensures d.id == "" && ok ==>
        students == old(students) + [Student(newId, d.fullName, d.email, d.nationalId, d.semester, d.courseIds)]
    {
      if d.id != "" {
        students := UpdateStudents(students, d);
        return true;
      }
      if !UniqueByNationalId(students, d.nationalId) {
        return false;
      }
      var s := Student(newId, d.fullName, d.email, d.nationalId, d.semester, d.courseIds);
      students := students + [s];
      return true;
    }

    /** `handleDelete(id)`; `confirmed` is the answer to `window.confirm`. */
    method Delete(id: string, confirmed: bool)
      modifies this
      ensures !confirmed ==> students == old(students)
      ensures confirmed ==> students == RemoveByKey(old(students), StudentKey, id)
    {
      if !confirmed {
        return;
      }
      students := RemoveByKey(students, StudentKey, id);
    }
  }
}
