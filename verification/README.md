# OnoTime core, modelled in Dafny

OnoTime is a small academic-administration web app. Its pages manage four collections, which it keeps in browser storage:

- courses;
- lecturers, starting from a fixed set of 15 permanent lecturers;
- students;
- study files.

This project models the logic of those pages:

- the validators (e-mail, 9-digit national id, unique national id);
- the permanent-lecturer seed table;
- the add / edit / delete handlers of the course, lecturer, student and file management pages, including the links they keep between a course's `lecturerId` and a lecturer's `courses`;
- the popular-courses page: normalisation of loaded records, the top-courses ranking, and the aggregation of inline and standalone files into a top-files list;
- the course-details page: course and lecturer lookup, the student roster union, the file list and uploader-name resolution;
- the home page: the seed-if-empty load and the per-course card counts.

Layout, one module per file except where noted:

- `wrappers.dfy` (`Wrappers`): `Option`.
- `seqs.dfy` (`Seqs`): sequence helpers. Covers duplicate-freedom, removal, stable descending sort, `Take`, top-n ranking and filters.
- `text.dfy` (`Text`): string helpers. Covers JavaScript `\s` whitespace, `trim`, ASCII lower-casing, `split`/`join`, last segment, digit extraction and decimal rendering.
- `keyed.dfy` (`Keyed`): look-ups and updates by key, modelling JavaScript `find`, `filter` and `Map`.
- `records.dfy` (`Records`): the entity datatypes `Course`, `Lecturer`, `Student` and `StudyFile`.
- `validation.dfy`, `lecturer_seed.dfy`: the validators and the seed table. `lecturer_seed.dfy` holds two modules: `LecturerSeed` (the table) and `LecturerSeedFacts` (what the table guarantees).
- `course_management.dfy`, `lecturer_management.dfy`, `student_management.dfy`, `file_management.dfy`: each page's handlers. The page's state (`courses`, `lecturers`, `students`, `files`) is a class whose `seq` fields the handler methods reassign. The `map`/`filter` transforms the handlers apply are pure functions, with lemmas about them.
- `popular_courses.dfy`, `course_details.dfy`, `home.dfy`: the read-only pages. The loops that build the top-files list and the roster are methods proved equal to specification functions.

Storage reads are parameters of the constructors and load methods. Storage writes are the new values of the class fields. Fresh ids, which the source draws from `Date.now`, `Math.random` or `uuidv4`, are method parameters.

## Model

| member | source | states |
|---|---|---|
| Validation.IsValidEmail | src/utils/validation.ts:3-4 | holds exactly when the text matches the e-mail pattern: no whitespace, exactly one '@', a non-empty local part, and a domain with a '.' that has a character on each side |
| Validation.ValidEmailParts | src/utils/validation.ts:3-4 | a non-empty plain local part joined by '@' to a dotted domain is accepted |
| Validation.IsValidNationalId | src/utils/validation.ts:6-7 | holds exactly when the text has length 9 and consists of decimal digits only |
| Validation.NineDigitNumberIsValidId | src/utils/validation.ts:6-7 | the decimal rendering of any number from 100000000 to 999999999 is a valid national id |
| Validation.UniqueByNationalId | src/utils/validation.ts:9-10 | true exactly when no student in the list has the given national id |
| Validation.NotUniqueAfterAppend | src/utils/validation.ts:9-10 | after a student is appended, its national id is no longer unique in the list; the duplicate guard relies on this |
| LecturerSeed.PermanentLecturers | src/models/Lecturer.ts:13-135 | there are exactly 15 permanent lecturers, each with no courses and semesters `[0]` |
| LecturerSeedFacts.PermanentIdsDistinct | src/models/Lecturer.ts:14-135 | the 15 permanent ids are pairwise distinct |
| LecturerSeedFacts.PermanentIdsNineDigits | src/models/Lecturer.ts:16-128 | every permanent id is a valid 9-digit national id, so the load-time id normalisation keeps it |
| LecturerSeedFacts.PermanentSeedsWellFormed | src/models/Lecturer.ts:16-130 | every seed record has a nine-digit id and an address of the e-mail pattern |
| LecturerSeedFacts.PermanentEmailsValid | src/models/Lecturer.ts:18-130 | every permanent lecturer's e-mail passes the e-mail validator |
| CourseManagement.WithCourse | src/pages/CourseManagement.tsx:92-99 | adding a course id through a `Set` gives a duplicate-free list holding the id exactly once plus the old ids; a duplicate-free list gains the id at the end only if it was absent |
| CourseManagement.AttachCourse | src/pages/CourseManagement.tsx:92-99 | the lecturer with the given id gains the course through `WithCourse`; every other lecturer, and every other field, is unchanged |
| CourseManagement.Reassign | src/pages/CourseManagement.tsx:112-123 | the old lecturer loses the course id; the new lecturer (if different) gains it once; every other lecturer is unchanged |
| CourseManagement.DetachEverywhere | src/pages/CourseManagement.tsx:128-135 | every lecturer's list loses the deleted course id; the count of lecturers and all their other fields are unchanged |
| CourseManagement.EditCourses | src/pages/CourseManagement.tsx:106-111 | only courses with the given id receive the edit; the length, every id and every other course are unchanged |
| CourseManagement.CourseBoard.constructor | src/pages/CourseManagement.tsx:26-33 | the page starts from the saved courses and lecturers |
| CourseManagement.CourseBoard.AddCourse | src/pages/CourseManagement.tsx:55-104 | succeeds exactly when name and code are non-empty and no course has the same code case-insensitively; failure changes nothing; success appends one course with the given fields, views 0 and no students, and links it to its lecturer if one was chosen |
| CourseManagement.CourseBoard.EditCourseField | src/pages/CourseManagement.tsx:106-126 | courses become `EditCourses` of the old list; lecturers change only for a lecturer-id edit, through `Reassign` |
| CourseManagement.CourseBoard.DeleteCourse | src/pages/CourseManagement.tsx:128-135 | removes every course with the id and detaches the id from every lecturer |
| CourseManagement.AddCourseKeepsLinked | src/pages/CourseManagement.tsx:79-99 | adding a course with a fresh id to an existing or empty lecturer keeps every course–lecturer link consistent in both directions |
| CourseManagement.DeleteCourseKeepsLinked | src/pages/CourseManagement.tsx:128-135 | deleting a course keeps the links consistent in both directions |
| CourseManagement.ReassignKeepsLinked | src/pages/CourseManagement.tsx:112-123 | moving a course to a different lecturer (existing or none) keeps the links consistent |
| CourseManagement.ReassignToSameLecturerUnlinks | src/pages/CourseManagement.tsx:112-123 | re-selecting the same lecturer removes the course from that lecturer's list, which breaks the link |
| CourseManagement.CodeTaken | src/pages/CourseManagement.tsx:74 | when no course's code matches, the code differs from every course's code in lower case |
| CourseManagement.CodeTakenAfterAppend | src/pages/CourseManagement.tsx:74 | after a course is appended, a code is taken exactly when it was taken before or matches the new course's code in lower case |
| CourseManagement.AddThenDeleteCourse | src/pages/CourseManagement.tsx:55-135 | adding a course with a fresh id and then deleting it restores both collections |
| LecturerManagement.NormalizeIds | src/pages/LecturerManagement.tsx:38-41 | an id of length 9 is kept and any other id is replaced by the supplied fresh id; nothing else changes |
| LecturerManagement.SeedIdsUnchanged | src/pages/LecturerManagement.tsx:38-41 | id normalisation leaves the permanent lecturers unchanged |
| LecturerManagement.NotPermanent | src/pages/LecturerManagement.tsx:49 | keeps exactly the saved lecturers whose id is not a permanent id |
| LecturerManagement.Merge | src/pages/LecturerManagement.tsx:44-50 | the permanent lecturers come first, in seed order, each replaced by the first saved record with its id; then the saved non-permanent ones in saved order; no saved non-permanent record is lost and nothing new appears |
| LecturerManagement.MergeFindsOwnSlot | src/pages/LecturerManagement.tsx:44-47 | with distinct permanent ids, looking a permanent id up in the merge finds that lecturer's own slot |
| LecturerManagement.MergeIdempotent | src/pages/LecturerManagement.tsx:44-50 | merging again on the next load changes nothing |
| LecturerManagement.MergeNothingSaved | src/pages/LecturerManagement.tsx:44-50 | with nothing saved, the merge is exactly the permanent set |
| LecturerManagement.SortedDistinct | src/pages/LecturerManagement.tsx:66-73 | the result is strictly ascending and has the same members as the input |
| LecturerManagement.AllSemesterOptions | src/pages/LecturerManagement.tsx:66-73 | strictly ascending, holding exactly the semesters some course has |
| LecturerManagement.SemesterOf | src/pages/LecturerManagement.tsx:59-63 | a found semester is that of the last course with the id, the entry the `Map` keeps; none is found only when no course has the id |
| LecturerManagement.SemestersForCourses | src/pages/LecturerManagement.tsx:88-97 | strictly ascending; for no ids it is every course semester, otherwise the semesters of the listed ids that exist; always a subset of `AllSemesterOptions` |
| LecturerManagement.ComputeAllSemesterOptions | src/pages/LecturerManagement.tsx:66-73 | the set-filling loop returns `AllSemesterOptions` |
| LecturerManagement.ComputeSemestersForCourses | src/pages/LecturerManagement.tsx:88-97 | the set-filling loop returns `SemestersForCourses` |
| LecturerManagement.Somes | src/pages/LecturerManagement.tsx:134-142 | keeps exactly the numbers that parsed |
| LecturerManagement.SemesterTextTokensOfJoin | src/pages/LecturerManagement.tsx:224-231 | splitting comma-joined trimmed non-empty tokens returns those tokens |
| LecturerManagement.FilterSemestersTextKeeps | src/pages/LecturerManagement.tsx:224-231 | a token survives exactly when it is the text of an allowed semester |
| LecturerManagement.FilterSemestersTextDrops | src/pages/LecturerManagement.tsx:224-231 | the text is rewritten exactly when some token is not allowed |
| LecturerManagement.FilterSemestersText | src/pages/LecturerManagement.tsx:224-231 | a new text is proposed only when it differs from the current tokens joined by ',' |
| LecturerManagement.FilterSemestersTextSettles | src/pages/LecturerManagement.tsx:224-231 | filtering an already-filtered text changes nothing |
| LecturerManagement.AllowedFor | src/pages/LecturerManagement.tsx:211-213 | strictly ascending and within `AllSemesterOptions`; the semesters of the first lecturer with the id's courses, or every course semester when no lecturer has the id |
| LecturerManagement.AssignCourses | src/pages/LecturerManagement.tsx:156-160 | the chosen courses get the new lecturer id; every other course and every other field is unchanged |
| LecturerManagement.ClearLecturer | src/pages/LecturerManagement.tsx:173-177 | exactly the courses taught by the deleted lecturer lose their lecturer id; afterwards no course names that lecturer |
| LecturerManagement.ReassignCourses | src/pages/LecturerManagement.tsx:190-207 | listed courses get the lecturer; unlisted courses that had this lecturer are cleared; others are unchanged; the lecturer teaches exactly the listed courses |
| LecturerManagement.NewLecturerId | src/pages/LecturerManagement.tsx:147-153 | a non-blank custom id is used trimmed, otherwise the fresh id |
| LecturerManagement.EditedLecturer | src/pages/LecturerManagement.tsx:182-218 | a name or e-mail edit sets that field; a courses edit sets the courses and their semesters; a semesters edit keeps the allowed ones in order; id and specialization never change |
| LecturerManagement.EditLecturers | src/pages/LecturerManagement.tsx:181-221 | only lecturers with the id are edited; after a semesters edit every stored semester is allowed by the lecturer's pre-edit courses |
| LecturerManagement.LecturerBoard.constructor | src/pages/LecturerManagement.tsx:33-54 | the page starts from the merge of the permanent and saved lecturers and the saved courses |
| LecturerManagement.LecturerBoard.AddLecturer | src/pages/LecturerManagement.tsx:114-166 | succeeds exactly when name and e-mail are non-empty and the e-mail is valid; failure changes nothing; success appends one lecturer with the allowed parsed semesters and assigns the chosen courses to it |
| LecturerManagement.LecturerBoard.DeleteLecturer | src/pages/LecturerManagement.tsx:168-178 | refuses exactly the permanent ids and then changes nothing; otherwise removes the lecturer and clears its courses |
| LecturerManagement.LecturerBoard.EditLecturerField | src/pages/LecturerManagement.tsx:181-221 | lecturers become `EditLecturers`; courses change only on a courses edit, through `ReassignCourses` |
| LecturerManagement.AddLecturerLeavesStaleListing | src/pages/LecturerManagement.tsx:156-162 | taking a course over in `addLecturer` leaves the previous lecturer still listing it |
| LecturerManagement.EditCoursesLeavesStaleListing | src/pages/LecturerManagement.tsx:190-207 | taking a course over in a courses edit leaves the previous lecturer still listing it |
| LecturerManagement.DeleteLecturerKeepsLinked | src/pages/LecturerManagement.tsx:173-177 | deleting a lecturer keeps the course–lecturer links consistent |
| StudentManagement.ClampSemester | src/pages/StudentManagement.tsx:127-130 | the result lies in 1..99; a missing number gives 1; an in-range value is kept; out-of-range values go to the nearer bound |
| StudentManagement.ClampSemesterStable | src/pages/StudentManagement.tsx:127-130 | clamping a clamped value changes nothing |
| StudentManagement.ToggleCourse | src/pages/StudentManagement.tsx:50-52 | the course is present afterwards exactly when it was absent before; an absent id is appended; a present id loses every occurrence; other ids are untouched |
| StudentManagement.ToggleCourseTwice | src/pages/StudentManagement.tsx:50-52 | toggling an absent course twice restores the list |
| StudentManagement.ValidEmailIsTrimmed | src/pages/StudentManagement.tsx:58-78 | a valid e-mail is already trimmed |
| StudentManagement.Submit | src/pages/StudentManagement.tsx:54-81 | each refusal happens exactly under its condition, checked in order: missing field, bad e-mail, bad national id; success yields the trimmed, valid fields |
| StudentManagement.UpdateStudents | src/pages/StudentManagement.tsx:300-303 | students with the draft's id receive the submitted fields; length, ids and all others are unchanged |
| StudentManagement.AddKeepsNationalIdsDistinct | src/pages/StudentManagement.tsx:305-319 | the duplicate guard keeps national ids distinct |
| StudentManagement.StudentRoster.constructor | src/pages/StudentManagement.tsx:264-272 | the page starts from the saved students |
| StudentManagement.StudentRoster.SaveStudent | src/pages/StudentManagement.tsx:298-324 | an existing id is updated in place; a new student is refused exactly when its national id exists, which changes nothing; otherwise exactly one student is appended |
| StudentManagement.StudentRoster.Delete | src/pages/StudentManagement.tsx:331-335 | with confirmation, removes exactly the students with the id; otherwise changes nothing |
| FileManagement.FormatUploaderId | src/pages/FileManagement.tsx:118-125 | a blank id shows "-"; any other id shows its non-empty numeric tail |
| FileManagement.FormatGeneratedUploaderId | src/pages/FileManagement.tsx:118-125 | for an id `prefix_ms_n`, as `generateId` at src/utils/id.ts:2 builds it, the shown value is the decimal `n` |
| FileManagement.ReplaceById | src/pages/FileManagement.tsx:104-109 | every file with the id is replaced by the edited file; length and all other files are unchanged |
| FileManagement.ReplaceByIdIdempotent | src/pages/FileManagement.tsx:104-109 | saving the same edit twice equals saving it once |
| FileManagement.AddThenDeleteFile | src/pages/FileManagement.tsx:95-116 | deleting a freshly added file restores the list |
| FileManagement.FileBoard.constructor | src/pages/FileManagement.tsx:29-32 | the page starts from the saved files |
| FileManagement.FileBoard.AddFile | src/pages/FileManagement.tsx:49-99 | a missing name or URL refuses first, then a missing course; refusal changes nothing; success appends exactly one file with the given fields and no views |
| FileManagement.FileBoard.SaveEdit | src/pages/FileManagement.tsx:104-109 | files become `ReplaceById` of the old list |
| FileManagement.FileBoard.DeleteFile | src/pages/FileManagement.tsx:111-116 | with confirmation, removes exactly the files with the id; otherwise changes nothing |
| PopularCourses.NormalizeFile | src/pages/PopularCoursesPage.tsx:72-78 | a missing view count becomes 0; a present one is kept; no other field changes |
| PopularCourses.NormalizeFiles | src/pages/PopularCoursesPage.tsx:72-78 | preserves length and order and normalises each file |
| PopularCourses.NormalizeCourse | src/pages/PopularCoursesPage.tsx:56-70 | missing views become 0 and missing student ids `[]`; inline files are normalised; present values and all other fields are kept |
| PopularCourses.NormalizeCourses | src/pages/PopularCoursesPage.tsx:56-70 | preserves length and order and normalises each course |
| PopularCourses.NormalizeCoursesSettles | src/pages/PopularCoursesPage.tsx:56-70 | every normalised course has all defaults filled, and normalising again changes nothing |
| PopularCourses.NormalizeFilesSettles | src/pages/PopularCoursesPage.tsx:72-78 | normalising files again changes nothing |
| PopularCourses.TopCourses | src/pages/PopularCoursesPage.tsx:99-101 | length `min(topN, |courses|)`, non-increasing in views, drawn from the input without duplication |
| PopularCourses.TopCoursesAreTop | src/pages/PopularCoursesPage.tsx:99-101 | no left-out course has more views than a kept one, and courses with equal views keep their input order |
| PopularCourses.PushNew | src/pages/PopularCoursesPage.tsx:114-115 | adding an optional value keeps the list duplicate-free, and the members are the old ones plus the value |
| PopularCourses.Upsert | src/pages/PopularCoursesPage.tsx:110-124 | a known key keeps the length, a new key adds one entry at the end carrying the contribution's key, name and views; the key is then present and every entry with another key is unchanged |
| PopularCourses.Aggregate | src/pages/PopularCoursesPage.tsx:107-148 | the aggregate ids are distinct and there are no more aggregates than contributions |
| PopularCourses.AggregateKeys | src/pages/PopularCoursesPage.tsx:107-148 | the aggregate ids are distinct, and an id is present exactly when some contribution has that key |
| PopularCourses.AggregateViewsByKey | src/pages/PopularCoursesPage.tsx:107-148 | each aggregate's views are the sum of the views contributed under its key |
| PopularCourses.AggregateKeepsTotal | src/pages/PopularCoursesPage.tsx:107-148 | before truncation, total aggregate views equal total contributed views |
| PopularCourses.UpsertAddsViews | src/pages/PopularCoursesPage.tsx:110-124 | visiting one file raises the total views by exactly the file's views, whether it updates an entry or adds one |
| PopularCourses.AggregateListsDistinct | src/pages/PopularCoursesPage.tsx:114-115 | every aggregate's course-id and course-name lists are duplicate-free |
| PopularCourses.SameKeyMerges | src/pages/PopularCoursesPage.tsx:110-117 | two contributions with one key, such as an inline and a standalone file sharing an id, give one aggregate with summed views and the first name |
| PopularCourses.InlineAndGlobalKeysDiffer | src/pages/PopularCoursesPage.tsx:110 | an id-less inline key never equals an id-less standalone key when the course id has no ':' and is not "global" |
| PopularCourses.TopFilesOf | src/pages/PopularCoursesPage.tsx:103-151 | exactly `min(topN, number of aggregates)` entries, non-increasing in views, drawn from the aggregates without duplication |
| PopularCourses.TopFilesAreTop | src/pages/PopularCoursesPage.tsx:150 | no left-out aggregate has more views than a kept one, and aggregates with equal views keep the map's insertion order |
| PopularCourses.UpsertCourseFiles | src/pages/PopularCoursesPage.tsx:107-126 | the inner loop over a course's files leaves exactly the aggregate of the contributions so far plus that course's |
| PopularCourses.TopFiles | src/pages/PopularCoursesPage.tsx:103-151 | the loops return `TopFilesOf` |
| PopularCourses.FileCount | src/pages/PopularCoursesPage.tsx:177-179 | the larger of the inline count and the number of standalone files with the course id |
| PopularCourses.StudentCount | src/pages/PopularCoursesPage.tsx:181-183 | the length of the student-id list, or 0 when missing |
| CourseDetails.FindCourse | src/pages/CourseDetails.tsx:51-54 | no route id gives none; otherwise a course is found exactly when one has the id, and it is the first such course |
| CourseDetails.ResolveLecturer | src/pages/CourseDetails.tsx:57-60 | none when there is no course or its lecturer id is empty; otherwise found exactly when a lecturer has the id, and it is the first such lecturer |
| CourseDetails.Roster | src/pages/CourseDetails.tsx:63-70 | empty without a course; otherwise duplicate-free by student id and drawn from the students |
| CourseDetails.CourseStudents | src/pages/CourseDetails.tsx:63-70 | the map-filling loop returns `Roster` |
| CourseDetails.RosterKeys | src/pages/CourseDetails.tsx:65-69 | roster ids are distinct; every member comes from the students and is tied to the course; every tied student's id is present |
| CourseDetails.RosterOrder | src/pages/CourseDetails.tsx:65-69 | with distinct student ids: the students naming the course come first in list order, then those only the course names; a student is in the roster exactly when tied either way |
| CourseDetails.CourseFiles | src/pages/CourseDetails.tsx:73-76 | with a course, exactly the stored files whose course id is the course's, in stored order (a filter); none without a course |
| CourseDetails.ExtractNumericTail | src/pages/CourseDetails.tsx:79-85 | 'לא ידוע' for a blank id, otherwise the same tail the file page shows |
| CourseDetails.UploaderName | src/pages/CourseDetails.tsx:87-94 | the first student with the id wins, then the first lecturer with it, then the numeric tail |
| Home.DefaultCourses | src/pages/Home.tsx:19-120 | ten courses with the given ids, the fixed codes, no lecturer, no students, views 0 and semesters 1..4 |
| Home.DefaultCodesLowerDistinct | src/pages/Home.tsx:19-120 | the ten default codes stay pairwise distinct after lower-casing |
| Home.DefaultCodesDistinct | src/pages/Home.tsx:19-120 | no two default courses share a code, even ignoring case, so `addCourse`'s code check would refuse none of them |
| Home.SeedIfEmpty | src/pages/Home.tsx:130-140 | a non-empty stored list is used unchanged; an empty one is replaced by the defaults |
| Home.SeedIfEmptySettles | src/pages/Home.tsx:130-140 | after seeding the list is non-empty, and seeding again changes nothing |
| Home.HomePage.constructor | src/pages/Home.tsx:128-149 | starts from the stored lists with nothing displayed |
| Home.HomePage.SeedCourses | src/pages/Home.tsx:130-134 | stores and shows `SeedIfEmpty` of the stored courses; nothing else changes |
| Home.HomePage.SeedLecturers | src/pages/Home.tsx:136-140 | stores and shows `SeedIfEmpty` of the stored lecturers; nothing else changes |
| Home.HomePage.Load | src/pages/Home.tsx:128-149 | both lists are seeded if empty and shown; files and students are the loaded ones |
| Home.CardFileCount | src/pages/Home.tsx:239 | the number of files with the course id, which is the length of the course page's file list |
| Home.CardStudents | src/pages/Home.tsx:240 | exactly the students whose course list contains the course id |
| Home.CardCountWithinRoster | src/pages/Home.tsx:240 | with distinct student ids, the card's students are a prefix of the course page's roster, so the count never exceeds it |
| Home.CardLecturer | src/pages/Home.tsx:241 | found exactly when a lecturer has the course's lecturer id, and it is the first such; for a non-empty id it agrees with the course page |

## Left out

- Browser storage (`localStorage` reads and writes, JSON parsing) and the Firestore mirroring: stored collections are constructor or load parameters, and writes are the new field values.
- Random generation: the "Generate Random" branches, `generateId`, `uuidv4`, `generateLecturerId` and the random national id at src/pages/StudentManagement.tsx:347 draw on `Math.random`, `Date.now` or uuid. Fresh ids are method parameters instead. `FormatGeneratedUploaderId` states the shape `generateId` produces.
- `parseInt`: the semester text box's tokens and the student semester input arrive already parsed as optional integers.
- Case folding: the course-code comparison uses ASCII lower-casing, not full Unicode `toLowerCase`.
- A course's `lecturerId` that is `null` or `undefined` is modelled as the empty string. The two differ only if some lecturer has the id "".
- A non-numeric course `semester` (the source types it as a number): semesters are integers.
- `courseMapById` is last-wins (a JavaScript `Map`). `SemesterOf` finds the last course with an id, so duplicate course ids resolve the same way.
- A lecturer's `courses` and a student's `courseIds` are always-present lists. So the defensive reads are the identity in the model: `l.courses || []` at src/pages/CourseManagement.tsx:96, 117, 119 and 132, `Array.isArray(s.courseIds)` at src/pages/CourseDetails.tsx:65, and `s.courseIds?.includes` at src/pages/Home.tsx:240. A record missing either list is not modelled.
- `allowedSemestersForForm` (src/pages/LecturerManagement.tsx:76-85) is `getSemestersForCourses` of the selected courses. The model calls `SemestersForCourses` directly.
- The popular-courses page's `lecturerMap` and the display name it derives are presentation only.
- The student page's course list for its check-boxes, including the three fallback courses at src/pages/StudentManagement.tsx:282-288, which only feed the form.
- Form field state, editing toggles, alerts and confirm dialogs are left out. A confirmation is a boolean parameter.
- `topN` is a natural number. A negative `slice` bound is not modelled.
- PopularCourses.InlineAndGlobalKeysDiffer: requires a course id without ':' and other than "global". Otherwise an inline key `courseId::name` can equal a standalone key `global::name`.
- CourseDetails.RosterOrder: requires distinct student ids. With duplicates, the roster's `Map` keeps one entry per id, so the order statement is about ids, not records.
- Home.CardCountWithinRoster: requires distinct student ids, for the same reason. With duplicate ids, the card can count more students than the roster shows.
- PopularCourses.AggregateListsDistinct: states only that each aggregate's `courseIds` and `courseNames` lists are duplicate-free. Which ids and names they hold is not stated.
- Text.NumericTail: its own contract says only that the result is non-empty and is all digits or digit-free. Its meaning is stated through `FileManagement.FormatGeneratedUploaderId` and `Text.NumericTailIdempotent`.
