/** The study-file screen: adding a file (name, URL and course required), editing and
    deleting by id, and the short form of an uploader id shown in the table. */
module FileManagement {
  import opened Wrappers
  import opened Text
  import opened Records
  import opened Keyed

  /** `formatUploaderId(raw)`: `"-"` for a blank id, else its numeric tail. */
  function FormatUploaderId(raw: string): (r: string)
    ensures IsBlank(raw) ==> r == "-"
    ensures !IsBlank(raw) ==> r == NumericTail(raw) && r != []
  {
    if raw == [] || Trim(raw) == "" then "-" else NumericTail(raw)
  }

  /** An id made by `generateId(prefix)`, `prefix_<ms>_<n>`, is shown as the decimal `n`. */
  lemma {:induction false} FormatGeneratedUploaderId(prefix: string, ms: nat, n: nat)
    ensures FormatUploaderId(prefix + "_" + NatToString(ms) + "_" + NatToString(n)) == NatToString(n)
  {
    var a := prefix + "_" + NatToString(ms);
    var digits := NatToString(n);
    var raw := a + "_" + digits;
    assert raw == a + ['_'] + digits;
    assert '_' !in digits by {
      assert forall k :: 0 <= k < |digits| ==> IsDigit(digits[k]);
    }
    LastSegmentAfter(a, '_', digits);
    DigitsOnlyOfDigits(digits);
    assert !IsBlank(raw) by {
      assert raw[|raw| - 1] == digits[|digits| - 1];
      assert IsDigit(raw[|raw| - 1]);
    }
  }

  /** `files.map(f => f.id === id ? updated : f)` */
  function ReplaceById(files: seq<StudyFile>, id: Option<string>, updated: StudyFile): (r: seq<StudyFile>)
    ensures |r| == |files|
    ensures forall k :: 0 <= k < |r| ==> r[k] == if files[k].id == id then updated else files[k]
    ensures updated.id == id ==> forall k :: 0 <= k < |r| ==> r[k].id == files[k].id
  {
    seq(|files|, k requires 0 <= k < |files| => if files[k].id == id then updated else files[k])
  }

  /** Saving the same edit twice is saving it once. */
  lemma {:induction false} ReplaceByIdIdempotent(files: seq<StudyFile>, id: Option<string>, updated: StudyFile)
    requires updated.id == id
    ensures ReplaceById(ReplaceById(files, id, updated), id, updated) == ReplaceById(files, id, updated)
  {
  }

  datatype AddFileOutcome = Added | MissingNameOrUrl | MissingCourse

  /** The record `addFile` appends; it has no `views` field. */
  function NewFile(id: string, name: string, description: string, fileType: FileType, fileUrl: string,
                   courseId: string, status: FileStatus, uploaderId: string): StudyFile {
    StudyFile(Some(id), name, description, fileType, fileUrl, courseId, status, uploaderId, None)
  }

  /** Deleting a file right after adding it under a fresh id restores the list. */
  lemma {:induction false} AddThenDeleteFile(files: seq<StudyFile>, f: StudyFile)
    requires f.id.Some? && forall k :: 0 <= k < |files| ==> files[k].id != f.id
    ensures RemoveByKey(files + [f], FileKey, f.id) == files
  {
    RemoveByKeyAppend(files, [f], FileKey, f.id);
    RemoveAbsentKey(files, FileKey, f.id);
    assert RemoveByKey([f], FileKey, f.id) == [];
  }

  /** The stored file list. */
  class FileBoard {
    var files: seq<StudyFile>

    constructor (saved: seq<StudyFile>)
      ensures files == saved
    {
      files := saved;
    }

    /** `addFile(false)` with the form fields; `newId` stands for `generateId('file')`. */
    method AddFile(name: string, description: string, fileType: FileType, fileUrl: string,
                   courseId: string, status: FileStatus, uploaderId: string, newId: string)
      returns (outcome: AddFileOutcome)
      modifies this
      ensures outcome == MissingNameOrUrl <==> name == "" || fileUrl == ""
      ensures outcome == MissingCourse <==> name != "" && fileUrl != "" && courseId == ""
      ensures outcome != Added ==> files == old(files)
      ensures outcome == Added ==>
        files == old(files) + [NewFile(newId, name, description, fileType, fileUrl, courseId, status, uploaderId)]
    {
      if name == "" || fileUrl == "" {
        return MissingNameOrUrl;
      }
      if courseId == "" {
        return MissingCourse;
      }
      files := files + [NewFile(newId, name, description, fileType, fileUrl, courseId, status, uploaderId)];
      return Added;
    }

    /** `saveEdit(id, updated)` */
    method SaveEdit(id: Option<string>, updated: StudyFile)
      modifies this
      ensures files == ReplaceById(old(files), id, updated)
    {
      files := ReplaceById(files, id, updated);
    }

    /** `deleteFile(id)`; `confirmed` is the answer to `window.confirm`. */
    method DeleteFile(id: Option<string>, confirmed: bool)
      modifies this
      ensures !confirmed ==> files == old(files)
      ensures confirmed ==> files == RemoveByKey(old(files), FileKey, id)
    {
      if confirmed {
        files := RemoveByKey(files, FileKey, id);
      }
    }
  }
}
