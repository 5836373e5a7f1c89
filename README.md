# Gradebook engine of the Faustino Virtual school records app

This project models, in Dafny, the gradebook engine that sits inside the
React screens of `index.js`. The engine works on one in-memory snapshot
(`appData`), which holds `usuarios`, `alumnos`, `cursos`, `inscripciones`,
`notas` and `trimestres`. It has five parts:

- **Grade ledger** (`grade_ledger.dfy`, module `GradeLedger`). The grading
  form loads a (student, course) pair's notes into an object keyed by
  `trimestre-tipo_nota-numero_nota`. Edited values are clamped to [0, 100].
  `handleSave` turns the form back into note records: it drops empty inputs
  and reuses the `id_nota` of the note already at that key. `handleSaveGrades`
  then replaces every note of the pair and leaves every other note alone.
  When no new notes result, it returns early and changes nothing. The
  trimester lock is not checked on save.
- **Trimester lock registry** (`lock_registry.dfy`, module `LockRegistry`).
  A (student, trimester) pair without a `trimestres` record reads as locked.
  `handleToggle` flips the pair's record, or appends an open one.
- **Enrollment manager** (`enrollment.dfy`, module `Enrollments`). The
  subject checklist of the student form is seeded as "all subjects of the
  grade and section" for a new student, or from the existing enrollments for
  an edited one. Submitting replaces all of the student's enrollments with the
  checked subjects. Deleting a student removes the student and their
  enrollments, but not their notes or lock records.
- **Report compiler** (`report.dfy`, module `Report`). `studentReport` builds
  one line per distinct subject: per-trimester averages, practice and exam
  lists in slot order, the final average and the pass/fail status.
- **Registries by id** (`courses.dfy`, `users.dfy`). Courses and users are
  created, edited and deleted by id. A course's `nombre_completo` is
  `nombre_curso + " " + paralelo`.

`gradebook.dfy` (module `Gradebook`) holds the snapshot in a class, `Store`,
with one method per management action. This matches how the app replaces
`appData` whole through `setAppData`. Each method's new snapshot is the value
that the matching function computes from the old snapshot. Each method also
keeps the invariant `Consistent`:

- every note is in an offered slot, with a score in [0, 100];
- there is at most one note per composite key, and note ids are unique;
- there is one lock record per pair, and lock ids are unique;
- student, course and user ids are unique.

Shared pieces live in separate files:

- `common.dfy`: `filter`, `map`, `find`, `new Set`, sums.
- `strings.dfy`: number-to-text, `Number`, `split('-')`, `trim()`.
- `ordered_object.dfy`: JavaScript objects as entries in insertion order.
- `entities.dfy`: the record types.

Modelling choices:

- Fresh ids, which the app mints from `Date.now()`/`Math.random()`, are
  parameters. Where an invariant depends on it, a parameter is required not
  to be in use already.
- Scores are `real`. `Math.round(x)` is `floor(x + 1/2)`, computed exactly.
  For an integer sum `s` of `n` scores, `Report.RoundOfIntegerMean` proves
  that this equals `(2s + n) div 2n`.
- The composite key stays a string. Its round trip through `split('-')` and
  `Number` is proved.
- The student-delete confirmation text (`index.js:866`) says that the
  student's notes are deleted too. The code (`index.js:782-784`) does not
  delete them, and the model follows the code.
- The model also follows the code when every input of a form is blank: no
  notes are saved, `handleSaveGrades` returns early, and the pair's old notes
  stay (`GradeLedger.SaveAllBlankKeepsNotes`).

## Model

| member | source | states |
|---|---|---|
| `GradeLedger.KeyRoundTrip` | index.js:144-170 | splitting the key `${t}-${k}-${n}` on '-' and reading the numbers back gives the slot (t, k, n) again, for every slot |
| `GradeLedger.SlotKeyInjective` | index.js:149-152 | different slots never share a key, so the form holds at most one input per slot |
| `GradeLedger.ParseKind` | index.js:158-169 | the kind text is read back as the kind that produced it, and nothing else |
| `GradeLedger.Clamp` | index.js:151 | `max(0, min(100, v))` lies in [0, 100]; equals v inside the range, 0 below it and 100 above it |
| `GradeLedger.InputValue` | index.js:151 | an empty input stays empty; a number becomes a clamped score in [0, 100]; an in-range number is kept |
| `GradeLedger.InputChangeEffect` | index.js:149-153 | after an edit the slot holds the clamped input and every other slot holds what it held before |
| `GradeLedger.InputChangeOk` | index.js:149-153 | editing an offered slot keeps the form's keys distinct and canonical and every value clamped |
| `GradeLedger.LoadGrades` | index.js:140-148 | the `forEach` load loop leaves exactly the form that writing the pair's notes one by one gives |
| `GradeLedger.PairNotesDistinctSlots` | index.js:141 | with unique composite keys, the notes of one pair are in distinct slots |
| `GradeLedger.LoadedValues` | index.js:142-146 | each note's slot in the loaded form shows that note's score |
| `GradeLedger.LoadedOk` | index.js:141-146 | loading correctly stored notes in distinct slots gives a form that keeps its invariant |
| `GradeLedger.FindNote` | index.js:159-164 | `find` returns the first note of the pair at the slot, or none exactly when no note of the pair is there |
| `GradeLedger.EntryNote` | index.js:155-172 | an entry yields a note exactly when it is non-empty and its key parses; the note is of the pair, in the entry's slot, with the entry's score and the reused or fresh id |
| `GradeLedger.SaveNotesMeaning` | index.js:154-174 | the saved notes are exactly the non-empty entries, one per slot, each with its entry's score; a slot that held a note keeps that note's `id_nota`, any other gets a supplied fresh id |
| `GradeLedger.SaveGradesEffect` | index.js:235-244 | no new notes (or an empty student or course id) leaves `notas` as it was; otherwise the pair's notes become exactly the new ones and every other pair's notes are unchanged |
| `GradeLedger.SaveAllBlankKeepsNotes` | index.js:235-240 | a form whose inputs are all blank saves no notes, so `notas` is unchanged |
| `GradeLedger.SaveTwice` | index.js:159-165 | saving the same form a second time leaves `notas` as the first save left it; with non-empty ids it produces the same notes with the same ids |
| `GradeLedger.SaveNotesValid` | index.js:151-172 | a form that keeps its invariant saves only notes in offered slots with scores in [0, 100] |
| `GradeLedger.SaveGradesUnique` | index.js:241-242 | replacing a pair's notes with notes in distinct slots keeps the composite key unique across `notas` |
| `GradeLedger.SaveGradesValid` | index.js:241-242 | replacing a pair's notes with correctly stored ones keeps every note correctly stored |
| `GradeLedger.SaveFormPreserves` | index.js:154-173 | load, edit and save keep every stored note correct and every composite key unique |
| `GradeLedger.SaveNotesIds` | index.js:159-172 | with fresh ids that are new and distinct, the notes `handleSave` builds have distinct ids, and any id they share with a stored note belongs to a note of the same pair |
| `GradeLedger.SaveGradesIds` | index.js:235-244 | replacing a pair's notes by notes of that pair with distinct ids, reusing only that pair's old ids, keeps note ids unique |
| `GradeLedger.SaveGradesKeeps` | index.js:235-244 | such a replacement keeps every note valid, composite keys unique and note ids unique |
| `GradeLedger.SaveNotesReplacement` | index.js:154-173 | the notes `handleSave` builds from a valid form, with new distinct fresh ids, are such a replacement |
| `GradeLedger.LoadSaveRoundTrip` | index.js:140-173 | opening the form and saving it without edits gives back exactly the pair's notes, ids included |
| `Strings.ParseNatToString` | index.js:168-170 | `Number` of the decimal text of n is n |
| `Strings.Trim` | index.js:387-389 | `trim()` returns a contiguous part of the input whose ends are not white space, and only white space is cut; white space is the ECMAScript set (line terminators, BOM and every Unicode space separator) |
| `LockRegistry.FindLock` | index.js:1246 | `find` returns a record of the pair, or none exactly when the pair has no record |
| `LockRegistry.IsUnlocked` | index.js:179 | a pair without a record reads as locked |
| `LockRegistry.ReadingsAgree` | index.js:1288-1290 | under the registry invariant, the grading form's reading (`find`) and the lock table's reading (`some`) agree |
| `LockRegistry.FlipById` | index.js:1248-1250 | exactly the records with the found id have `desbloqueado` flipped; all others are unchanged |
| `LockRegistry.ToggleExisting` | index.js:1247-1250 | toggling a pair that has a record flips that record only and keeps every id, student and trimester |
| `LockRegistry.ToggleExistingEffect` | index.js:1247-1250 | toggling a pair that has a record inverts its reading and keeps the invariant |
| `LockRegistry.ToggleAbsentEffect` | index.js:1251-1259 | the first toggle of a pair appends one record with `desbloqueado = true`; the pair then reads unlocked and the invariant holds |
| `LockRegistry.ToggleEffect` | index.js:1245-1262 | every toggle inverts the pair's reading, changes no other pair's record, adds at most one record of that pair, and keeps one record per pair with unique ids |
| `LockRegistry.ToggleOtherReading` | index.js:1245-1262 | toggling one pair leaves every other pair's reading unchanged |
| `LockRegistry.ToggleTwice` | index.js:1245-1262 | two toggles restore an existing record exactly, or leave a closed record behind for a new pair; either way the pair reads as before |
| `Enrollments.StudentCourseIds` | index.js:680-682 | a course id is listed exactly when the student has an enrollment in it |
| `Enrollments.SubjectsFor` | index.js:664-668 | no subjects while the grade or section is empty; otherwise exactly the courses of that grade and section |
| `Enrollments.SeedSelection` | index.js:678-696 | the seeding loop leaves the checklist that marking the subjects one by one gives |
| `Enrollments.SeededMeaning` | index.js:683-693 | the seeded checklist has each listed subject once: checked for a new student, and for an edited one checked exactly when already enrolled; no other keys |
| `Enrollments.ToggleSubjectEffect` | index.js:697-699 | toggling inverts the subject's mark (an absent mark becomes checked) and leaves the other marks alone |
| `Enrollments.SelectedIdsMeaning` | index.js:743-745 | the selected ids are exactly the checked keys, each once |
| `Enrollments.ReplaceEnrollmentsEffect` | index.js:740-752 | after the replace, the student's enrollments are exactly the checked subjects, without duplicates; every other student keeps exactly their enrollments |
| `Enrollments.StudentRecord` | index.js:720-729 | the stored student's `nombre` is the trimmed first names, a space and the trimmed last names; it has the trimmed CI, RUDE, nationality, address and phone, plus the given date and gender |
| `Enrollments.SubmitStudent` | index.js:713-755 | the submit is rejected exactly when a required field is empty; users, courses, notes and locks are never touched |
| `Enrollments.SubmitStudentEffect` | index.js:730-752 | an edit rewrites only the edited student's record; a create appends one record under the fresh id; either way the student's enrollments become the checked subjects without duplicates |
| `Enrollments.SubmitStudentOthers` | index.js:740-752 | every other student's enrollments are unchanged by a submit |
| `Enrollments.SubmitStudentUniqueIds` | index.js:730-738 | student ids stay unique when a create uses an unused id |
| `Enrollments.DeleteStudent` | index.js:779-787 | deleting a student leaves users, courses, notes and lock records unchanged |
| `Enrollments.DeleteStudentEffect` | index.js:782-784 | after a delete the student and all their enrollments are gone; every other student and their enrollments remain in order; ids stay unique |
| `Courses.TeacherOf` | index.js:901 | an empty teacher choice stores no teacher; any other choice stores that id |
| `Courses.MergeCourse` | index.js:897-907 | the edited course keeps its id, takes the form's fields, and has `nombre_completo = nombre_curso + " " + paralelo` |
| `Courses.SubmitCourseEffect` | index.js:895-915 | an edit rewrites exactly the records with the edited id and keeps every id; a create appends one record under the fresh id; full names stay consistent |
| `Courses.SubmitCourseUniqueIds` | index.js:903-913 | course ids stay unique when a create uses an unused id |
| `Courses.DeleteCourse` | index.js:929-935 | deleting a course leaves users, students, enrollments, notes and locks unchanged |
| `Courses.DeleteCourseEffect` | index.js:932 | no course keeps the deleted id, every other course remains in order, and ids stay unique |
| `Users.MergeUser` | index.js:386-396 | the edited user keeps their id and gets the trimmed names, CI and user name, the password, the screen's role, and a specialty only from the teachers' screen |
| `Users.SubmitUser` | index.js:500-526 | the submit is rejected exactly when a field the screen shows is empty |
| `Users.SubmitUserEffect` | index.js:393-402 | an edit rewrites exactly the records with the edited id and keeps every id; a create appends the new record and changes nothing else |
| `Users.NewUserFields` | index.js:516-523 | a created user has the fresh id, the trimmed fields, the screen's role, and a specialty only for teachers |
| `Users.SubmitUserUniqueIds` | index.js:397-402 | user ids stay unique when a create uses an unused id |
| `Users.DeleteUserEffect` | index.js:421-427 | no user keeps the deleted id, every other user remains in order, and ids stay unique |
| `Report.RoundHalfUp` | index.js:1091 | `Math.round(x)` is the integer r with r - 1/2 <= x < r + 1/2 |
| `Report.RoundOfIntegerMean` | index.js:1090-1092 | for an integer sum s of n scores, `Math.round(s / n)` is `(2s + n) div 2n` |
| `Report.Average` | index.js:1090-1092 | the average is null exactly when there are no values |
| `Report.AverageBounds` | index.js:1090-1092 | the rounded mean of values in [0, 100] lies in [0, 100] |
| `Report.FinalAverageMeaning` | index.js:1094-1095 | the final average is null exactly when all three trimester averages are null, and it lies in [0, 100] when they do |
| `Report.Estado` | index.js:1106 | `''` for a null average, `'Aprobado'` from 51 up, `'Reprobado'` below 51 |
| `Report.AverageExamples` | index.js:1090-1106 | notes [80, 70, 90] average to 80; trimester averages [80, null, 60] give 70 and a pass; a mean of 50.5 rounds up to 51, which passes; 50 fails; null gives `''` |
| `Report.SortBySlot` | index.js:1081-1088 | the sort puts notes in ascending `numero_nota` order and is a permutation of its input |
| `Report.InsertBySlotSorted` | index.js:1081-1088 | inserting into a slot-ordered list keeps it ordered |
| `Report.SortBySlotStable` | index.js:1081-1088 | notes with the same `numero_nota` keep their store order, as the stable `Array.prototype.sort` does |
| `Report.InsertBySlotFilter` | index.js:1081-1088 | an inserted note goes after every note already there with the same `numero_nota` |
| `Report.FoundCourses` | index.js:1072 | every resolved course exists and is named by one of the enrollments |
| `Report.StudentReport` | index.js:1070-1110 | one line per subject of the student's resolved courses, each subject once, in the order of the subject list |
| `Report.SubjectsMeaning` | index.js:1071-1073 | each subject appears once, and a subject is listed exactly when the student is enrolled in an existing course of it |
| `Report.NoEnrollmentsEmptyReport` | index.js:1071-1074 | a student without enrollments gets an empty report |
| `Report.DeletedStudentEmptyReport` | index.js:779-787 | after a student is deleted, their report is empty while their notes remain |
| `Report.MissingCourseSkipped` | index.js:1072 | an enrollment pointing to a missing course changes nothing in the report |
| `Report.SameCoursesSameReport` | index.js:1070-1108 | the report depends on the snapshot only through the student's resolved courses and the notes |
| `Report.TrimesterMeaning` | index.js:1077-1092 | practices and exams are each in slot order and together are exactly the trimester's notes; `promedio` is null exactly when the trimester has no notes |
| `Report.TrimesterBounds` | index.js:1090-1092 | with scores in [0, 100], a trimester average is null or in [0, 100] |
| `Report.RowBounds` | index.js:1094-1105 | with scores in [0, 100], every average of a report line is in [0, 100] |
| `Report.ReportBounds` | index.js:1077-1095 | with scores in [0, 100], every average on the report is in [0, 100] |
| `Gradebook.PushEnrollments` | index.js:746-751 | the push appends one enrollment of the student per selected course id, in selection order |
| `Gradebook.SubmitStudentConsistent` | index.js:730-752 | a valid student submit keeps the snapshot consistent |
| `Gradebook.Store.constructor` | index.js:1406 | the store holds the given consistent snapshot |
| `Gradebook.Store.IsUnlocked` | index.js:179 | the store's lock reading agrees with the lock table's |
| `Gradebook.Store.SaveGrades` | index.js:997-1006 | the second copy of `handleSaveGrades`: the snapshot's notes are replaced as `GradeLedger.SaveGrades` says, nothing else changes, and notes as the form builds them keep the snapshot consistent |
| `Gradebook.Store.SaveForm` | index.js:154-173 | saving the form stores the notes `handleSave` produces and keeps the snapshot consistent, note ids included, when the minted ids are new and distinct |
| `Gradebook.Store.ToggleTrimester` | index.js:1245-1262 | the lock records become the toggled ones, the pair's reading inverts, and the snapshot stays consistent |
| `Gradebook.Store.SubmitStudent` | index.js:713-755 | rejects exactly when a required field is empty, leaving the snapshot unchanged; otherwise the snapshot becomes the submitted one and stays consistent |
| `Gradebook.Store.DeleteStudent` | index.js:779-787 | the snapshot loses the student and their enrollments, keeps notes and locks, and stays consistent |
| `Gradebook.Store.SubmitCourse` | index.js:895-915 | the courses become the submitted ones and the snapshot stays consistent |
| `Gradebook.Store.DeleteCourse` | index.js:929-935 | only the course goes and the snapshot stays consistent |
| `Gradebook.Store.SubmitUser` | index.js:379-404 | rejects exactly when a field is empty; otherwise the users become the submitted ones and the snapshot stays consistent |
| `Gradebook.Store.DeleteUser` | index.js:544-550 | only the user goes and the snapshot stays consistent |

## Left out

- Rendering, hooks, modals, menus and the saving indicator are user interface.
- Loading and saving over `fetch`, the `setAllData` request, the optimistic
  update and the status timers are network I/O and asynchronous behaviour.
  The model replaces the snapshot synchronously.
- Login by credentials is authentication.
- Case-insensitive search filters and `localeCompare` sorting of names and
  subjects are left out. They depend on Unicode case mapping and collation.
  The subject list of the student form therefore keeps store order. The set
  of enrollments it leads to is unaffected.
- The teacher name shown beside each subject of the student form is display
  data only.
- Floating-point arithmetic: averages are exact real arithmetic with an
  explicit round-half-up.
- `Number(value)` of a non-numeric input (NaN) is not modelled. The number
  input yields either '' or a number.
- The edit forms' `handleEdit` (splitting a name back into first and last
  names) is left out. It only fills form fields.
- Id generation from `Date.now()`/`Math.random()`: fresh ids are parameters.
- `GradeLedger.SaveNotesMeaning`: a slot without an existing note gets one of
  the supplied fresh ids. The app mints these from `Date.now()` and
  `Math.random()` and does not check them; `Gradebook.Store.SaveForm` requires
  them new and distinct, which is what keeps note ids unique.
- Key order of `Object.entries`: the model keeps objects in insertion order.
  JavaScript lists integer-like keys (such as `"7"`) first, in ascending
  numeric order. Grade keys (`1-practica-2`) and course ids minted by the app
  (`c` followed by a timestamp) are never integer-like. For loaded course ids
  that are, the order of the checked subjects, of the pushed enrollments and
  of the report lines can differ from the model; the sets do not.
