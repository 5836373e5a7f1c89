/**
 * The enrollment manager of the student registry: the subject checklist of the
 * student form (`selectedSubjects`), submitting the form (create or edit the
 * student, then replace their enrollments with the checked subjects) and
 * deleting a student.
 */
module Enrollments {
  import opened Common
  import opened Strings
  import opened Entities
  import opened OrderedObject

  /** The checklist: course id to checked, in insertion order. */
  type Selection = Entries<Id, bool>

  /** The course ids a student is enrolled in, in enrollment order. */
  function StudentCourseIds(inscripciones: seq<Enrollment>, s: Id): (r: seq<Id>)
    ensures forall id :: id in r <==> Enrollment(s, id) in inscripciones
  {
    var mine := Filter(inscripciones, (i: Enrollment) => i.idAlumno == s);
    var r := Map(mine, (i: Enrollment) => i.idCurso);
    assert forall id :: Enrollment(s, id) in inscripciones ==> id in r by {
      forall id | Enrollment(s, id) in inscripciones ensures id in r {
        var k :| 0 <= k < |mine| && mine[k] == Enrollment(s, id);
        assert r[k] == id;
      }
    }
    r
  }

  /**
   * `subjectsForSelectedCourse`: the courses of the chosen grade and section,
   * none while either is still empty.
   */
  function SubjectsFor(cursos: seq<Course>, nombreCurso: string, paralelo: string): (r: seq<Course>)
    ensures nombreCurso == "" || paralelo == "" ==> r == []
    ensures forall c :: c in r <==>
      (c in cursos && nombreCurso != "" && paralelo != "" && c.nombreCurso == nombreCurso && c.paralelo == paralelo)
  {
    if nombreCurso == "" || paralelo == "" then []
    else Filter(cursos, (c: Course) => c.nombreCurso == nombreCurso && c.paralelo == paralelo)
  }

  /** The initial mark of a subject: checked for a new student, else whether they take it. */
  function Wanted(editingId: Option<Id>, inscripciones: seq<Enrollment>, courseId: Id): bool {
    if Editing(editingId) then courseId in StudentCourseIds(inscripciones, editingId.value) else true
  }

  /** What the `reduce` over `subjects` leaves in the initially empty accumulator. */
  function Seeded(subjects: seq<Course>, editingId: Option<Id>, inscripciones: seq<Enrollment>): Selection {
    if subjects == [] then []
    else
      var last := subjects[|subjects| - 1];
      Put(Seeded(subjects[..|subjects| - 1], editingId, inscripciones), last.idCurso,
          Wanted(editingId, inscripciones, last.idCurso))
  }

  /** The seeding effect of the student form: one mark per listed subject. */
  method SeedSelection(subjects: seq<Course>, editingId: Option<Id>, inscripciones: seq<Enrollment>)
    returns (acc: Selection)
    ensures acc == Seeded(subjects, editingId, inscripciones)
  {
    acc := [];
    var i := 0;
    while i < |subjects|
      invariant 0 <= i <= |subjects|
      invariant acc == Seeded(subjects[..i], editingId, inscripciones)
    {
      var subject := subjects[i];
      assert subjects[..i + 1][..i] == subjects[..i];
      acc := Put(acc, subject.idCurso, Wanted(editingId, inscripciones, subject.idCurso));
      i := i + 1;
    }
    assert subjects[..i] == subjects;
  }

  /**
   * The seeded checklist lists exactly the subjects' ids, each once: checked
   * for a new student, and for an edited one exactly when already enrolled.
   */
  lemma SeededMeaning(subjects: seq<Course>, editingId: Option<Id>, inscripciones: seq<Enrollment>, id: Id)
    ensures DistinctKeys(Seeded(subjects, editingId, inscripciones))
    ensures Get(Seeded(subjects, editingId, inscripciones), id) ==
      if id in CourseIds(subjects) then Some(Wanted(editingId, inscripciones, id)) else None
  {
    SeededDistinct(subjects, editingId, inscripciones);
    SeededGet(subjects, editingId, inscripciones, id);
  }

  lemma {:induction false} SeededDistinct(subjects: seq<Course>, editingId: Option<Id>, inscripciones: seq<Enrollment>)
    ensures DistinctKeys(Seeded(subjects, editingId, inscripciones))
  {
    if subjects != [] {
      var init, last := subjects[..|subjects| - 1], subjects[|subjects| - 1];
      SeededDistinct(init, editingId, inscripciones);
      PutDistinct(Seeded(init, editingId, inscripciones), last.idCurso, Wanted(editingId, inscripciones, last.idCurso));
    }
  }

  lemma {:induction false} SeededGet(subjects: seq<Course>, editingId: Option<Id>, inscripciones: seq<Enrollment>, id: Id)
    ensures Get(Seeded(subjects, editingId, inscripciones), id) ==
      if id in CourseIds(subjects) then Some(Wanted(editingId, inscripciones, id)) else None
  {
    if subjects != [] {
      var init, last := subjects[..|subjects| - 1], subjects[|subjects| - 1];
      var prev := Seeded(init, editingId, inscripciones);
      SeededGet(init, editingId, inscripciones, id);
      CourseIdsSnoc(subjects);
      if id == last.idCurso {
        PutGetSame(prev, id, Wanted(editingId, inscripciones, id));
      } else {
        PutGetOther(prev, last.idCurso, Wanted(editingId, inscripciones, last.idCurso), id);
      }
    }
  }

  lemma CourseIdsSnoc(subjects: seq<Course>)
    requires subjects != []
    ensures CourseIds(subjects) == CourseIds(subjects[..|subjects| - 1]) + [subjects[|subjects| - 1].idCurso]
  {
  }

  /** `handleSubjectToggle`: `[courseId]: !prev[courseId]` (an absent mark counts as unchecked). */
  function ToggleSubject(sel: Selection, courseId: Id): Selection {
    Put(sel, courseId, !Get(sel, courseId).GetOr(false))
  }

  /** Toggling inverts the subject's mark, checks an absent one, and leaves the other marks alone. */
  lemma ToggleSubjectEffect(sel: Selection, courseId: Id, other: Id)
    requires DistinctKeys(sel)
    ensures Get(ToggleSubject(sel, courseId), courseId) ==
      Some(if Get(sel, courseId).Some? then !Get(sel, courseId).value else true)
    ensures other != courseId ==> Get(ToggleSubject(sel, courseId), other) == Get(sel, other)
    ensures DistinctKeys(ToggleSubject(sel, courseId))
  {
    var v := !Get(sel, courseId).GetOr(false);
    PutGetSame(sel, courseId, v);
    PutDistinct(sel, courseId, v);
    if other != courseId {
      PutGetOther(sel, courseId, v, other);
    }
  }

  /** `Object.entries(selectedSubjects).filter(([_, on]) => on).map(([id, _]) => id)`. */
  function SelectedIds(sel: Selection): seq<Id> {
    Map(Filter(sel, (e: (Id, bool)) => e.1), (e: (Id, bool)) => e.0)
  }

  /** The selected ids are exactly the checked keys, each once. */
  lemma SelectedIdsMeaning(sel: Selection, id: Id)
    requires DistinctKeys(sel)
    ensures id in SelectedIds(sel) <==> Get(sel, id) == Some(true)
    ensures NoDuplicates(SelectedIds(sel))
  {
    var on := Filter(sel, (e: (Id, bool)) => e.1);
    var r := SelectedIds(sel);
    if id in r {
      var k :| 0 <= k < |r| && r[k] == id;
      assert on[k] in sel;
      var j :| 0 <= j < |sel| && sel[j] == on[k];
      GetAt(sel, j);
    }
    if Get(sel, id) == Some(true) {
      var j :| 0 <= j < |sel| && sel[j] == (id, true);
      assert sel[j] in on;
      var k :| 0 <= k < |on| && on[k] == sel[j];
      assert r[k] == id;
    }
    forall a, b | 0 <= a < b < |r| ensures r[a] != r[b] {
      FilterDistinctKeys(sel, (e: (Id, bool)) => e.1);
    }
  }

  /** Filtering keeps the keys distinct. */
  lemma {:induction false} FilterDistinctKeys(sel: Selection, p: ((Id, bool)) -> bool)
    requires DistinctKeys(sel)
    ensures DistinctKeys(Filter(sel, p))
  {
    if sel != [] {
      assert DistinctKeys(sel[1..]) by {
        forall a, b | 0 <= a < b < |sel[1..]| ensures sel[1..][a].0 != sel[1..][b].0 {
          assert sel[1..][a] == sel[a + 1] && sel[1..][b] == sel[b + 1];
        }
      }
      FilterDistinctKeys(sel[1..], p);
      var rest := Filter(sel[1..], p);
      if p(sel[0]) {
        var r := [sel[0]] + rest;
        assert Filter(sel, p) == r;
        forall a, b | 0 <= a < b < |r| ensures r[a].0 != r[b].0 {
          assert r[b] == rest[b - 1] && rest[b - 1] in sel[1..];
          if a == 0 {
            var m :| 0 <= m < |sel[1..]| && sel[1..][m] == rest[b - 1];
            assert sel[0].0 != sel[m + 1].0;
          } else {
            assert r[a] == rest[a - 1];
          }
        }
      }
    }
  }

  /**
   * `handleSubmit`'s enrollment step: drop the student's enrollments, then add
   * one per checked subject.
   */
  function ReplaceEnrollments(inscripciones: seq<Enrollment>, s: Id, sel: Selection): seq<Enrollment> {
    Filter(inscripciones, (i: Enrollment) => i.idAlumno != s)
      + Map(SelectedIds(sel), (id: Id) => Enrollment(s, id))
  }

  /**
   * After the replace the student's enrollments are exactly the checked
   * subjects, in checklist order and without duplicates; every other student
   * keeps exactly the enrollments they had.
   */
  lemma ReplaceEnrollmentsEffect(inscripciones: seq<Enrollment>, s: Id, sel: Selection, s': Id)
    requires DistinctKeys(sel)
    ensures Filter(ReplaceEnrollments(inscripciones, s, sel), (i: Enrollment) => i.idAlumno == s)
      == Map(SelectedIds(sel), (id: Id) => Enrollment(s, id))
    ensures NoDuplicates(StudentCourseIds(ReplaceEnrollments(inscripciones, s, sel), s))
    ensures s' != s ==>
      Filter(ReplaceEnrollments(inscripciones, s, sel), (i: Enrollment) => i.idAlumno == s')
      == Filter(inscripciones, (i: Enrollment) => i.idAlumno == s')
  {
    var keep := Filter(inscripciones, (i: Enrollment) => i.idAlumno != s);
    var added := Map(SelectedIds(sel), (id: Id) => Enrollment(s, id));
    var mine := (i: Enrollment) => i.idAlumno == s;
    FilterConcat(keep, added, mine);
    FilterNone(keep, mine);
    FilterAll(added, mine);
    var ids := Map(Filter(keep + added, mine), (i: Enrollment) => i.idCurso);
    assert ids == SelectedIds(sel);
    SelectedIdsMeaning(sel, s);
    if s' != s {
      var theirs := (i: Enrollment) => i.idAlumno == s';
      FilterConcat(keep, added, theirs);
      FilterNone(added, theirs);
      FilterFilter(inscripciones, (i: Enrollment) => i.idAlumno != s, theirs);
    }
  }

  /** The student form's fields. */
  datatype StudentForm = StudentForm(
    nombres: string,
    apellidos: string,
    ci: string,
    rude: string,
    fechaNacimiento: string,
    nacionalidad: string,
    genero: string,
    direccion: string,
    telefono: string)

  /** The required fields are filled in (checked before trimming). */
  predicate StudentFormOk(f: StudentForm) {
    f.nombres != "" && f.apellidos != "" && f.ci != "" && f.rude != ""
  }

  /** `newStudentData` under id `id`: trimmed names joined by a space, the other fields trimmed or kept. */
  function StudentRecord(f: StudentForm, id: Id): (r: Student)
    ensures r.idAlumno == id && r.fechaNacimiento == f.fechaNacimiento && r.genero == f.genero
    ensures r.nombre == Trim(f.nombres) + " " + Trim(f.apellidos)
    ensures r.ci == Trim(f.ci) && r.rude == Trim(f.rude) && r.nacionalidad == Trim(f.nacionalidad)
    ensures r.direccion == Trim(f.direccion) && r.telefono == Trim(f.telefono)
  {
    Student(id, Trim(f.nombres) + " " + Trim(f.apellidos), Trim(f.ci), Trim(f.rude),
            f.fechaNacimiento, Trim(f.nacionalidad), f.genero, Trim(f.direccion), Trim(f.telefono))
  }

  /** The ids of the students, in order. */
  function StudentIds(alumnos: seq<Student>): seq<Id> {
    Map(alumnos, (a: Student) => a.idAlumno)
  }

  /**
   * `handleSubmit`: None when a required field is empty (the alert); otherwise
   * the snapshot with the student edited in place or appended under `freshId`,
   * and their enrollments replaced by the checked subjects.
   */
  function SubmitStudent(data: AppData, f: StudentForm, editingId: Option<Id>, sel: Selection, freshId: Id)
    : (r: Option<AppData>)
    ensures r.None? <==> !StudentFormOk(f)
    ensures r.Some? ==> r.value.usuarios == data.usuarios && r.value.cursos == data.cursos
    ensures r.Some? ==> r.value.notas == data.notas && r.value.trimestres == data.trimestres
  {
    if !StudentFormOk(f) then None
    else
      var studentId := if Editing(editingId) then editingId.value else freshId;
      var alumnos :=
        if Editing(editingId) then
          Map(data.alumnos, (a: Student) => if a.idAlumno == studentId then StudentRecord(f, studentId) else a)
        else data.alumnos + [StudentRecord(f, studentId)];
      var inscripciones :=
        if studentId != "" then ReplaceEnrollments(data.inscripciones, studentId, sel) else data.inscripciones;
      Some(data.(alumnos := alumnos, inscripciones := inscripciones))
  }

  /**
   * A valid submit: editing rewrites only the edited student's record, creating
   * appends one record under the fresh id, and either way the student ends up
   * enrolled in exactly the checked subjects.
   */
  lemma SubmitStudentEffect(data: AppData, f: StudentForm, editingId: Option<Id>, sel: Selection, freshId: Id)
    requires StudentFormOk(f) && DistinctKeys(sel)
    requires !Editing(editingId) ==> freshId != ""
    ensures var r := SubmitStudent(data, f, editingId, sel, freshId).value;
      var id := if Editing(editingId) then editingId.value else freshId;
      && (Editing(editingId) ==> |r.alumnos| == |data.alumnos| && forall i :: 0 <= i < |data.alumnos| ==>
            r.alumnos[i] == if data.alumnos[i].idAlumno == id then StudentRecord(f, id) else data.alumnos[i])
      && (!Editing(editingId) ==> r.alumnos == data.alumnos + [StudentRecord(f, id)])
      && Filter(r.inscripciones, (i: Enrollment) => i.idAlumno == id) == Map(SelectedIds(sel), (c: Id) => Enrollment(id, c))
      && NoDuplicates(StudentCourseIds(r.inscripciones, id))
  {
    var id := if Editing(editingId) then editingId.value else freshId;
    ReplaceEnrollmentsEffect(data.inscripciones, id, sel, id);
  }

  /** Every other student keeps their enrollments through a submit. */
  lemma SubmitStudentOthers(data: AppData, f: StudentForm, editingId: Option<Id>, sel: Selection, freshId: Id, s': Id)
    requires StudentFormOk(f) && DistinctKeys(sel)
    requires s' != (if Editing(editingId) then editingId.value else freshId)
    ensures var r := SubmitStudent(data, f, editingId, sel, freshId).value;
      Filter(r.inscripciones, (i: Enrollment) => i.idAlumno == s')
      == Filter(data.inscripciones, (i: Enrollment) => i.idAlumno == s')
  {
    var id := if Editing(editingId) then editingId.value else freshId;
    if id != "" {
      ReplaceEnrollmentsEffect(data.inscripciones, id, sel, s');
    }
  }

  /** Creating a student under an unused id keeps the student ids unique; editing never changes an id. */
  lemma SubmitStudentUniqueIds(data: AppData, f: StudentForm, editingId: Option<Id>, sel: Selection, freshId: Id)
    requires StudentFormOk(f) && NoDuplicates(StudentIds(data.alumnos))
    requires !Editing(editingId) ==> freshId !in StudentIds(data.alumnos)
    ensures NoDuplicates(StudentIds(SubmitStudent(data, f, editingId, sel, freshId).value.alumnos))
  {
    var alumnos := SubmitStudent(data, f, editingId, sel, freshId).value.alumnos;
    if Editing(editingId) {
      var id := editingId.value;
      assert alumnos == Map(data.alumnos, (a: Student) => if a.idAlumno == id then StudentRecord(f, id) else a);
      EditKeepsIds(data.alumnos, f, id);
    } else {
      assert alumnos == data.alumnos + [StudentRecord(f, freshId)];
      AppendKeepsUnique(data.alumnos, StudentRecord(f, freshId));
    }
  }

  lemma EditKeepsIds(alumnos: seq<Student>, f: StudentForm, id: Id)
    ensures StudentIds(Map(alumnos, (a: Student) => if a.idAlumno == id then StudentRecord(f, id) else a))
      == StudentIds(alumnos)
  {
    var after := Map(alumnos, (a: Student) => if a.idAlumno == id then StudentRecord(f, id) else a);
    assert forall i :: 0 <= i < |alumnos| ==> after[i].idAlumno == alumnos[i].idAlumno;
  }

  lemma AppendKeepsUnique(alumnos: seq<Student>, a: Student)
    requires NoDuplicates(StudentIds(alumnos)) && a.idAlumno !in StudentIds(alumnos)
    ensures NoDuplicates(StudentIds(alumnos + [a]))
  {
    var before, after := StudentIds(alumnos), StudentIds(alumnos + [a]);
    assert after == before + [a.idAlumno] by {
      forall i | 0 <= i < |after| ensures after[i] == (before + [a.idAlumno])[i] {
        if i < |alumnos| {
          assert (alumnos + [a])[i] == alumnos[i];
        }
      }
    }
  }

  /** `confirmDelete`: remove the student and their enrollments; notes and locks stay. */
  function DeleteStudent(data: AppData, id: Id): (r: AppData)
    ensures r.usuarios == data.usuarios && r.cursos == data.cursos
    ensures r.notas == data.notas && r.trimestres == data.trimestres
  {
    data.(alumnos := Filter(data.alumnos, (a: Student) => a.idAlumno != id),
          inscripciones := Filter(data.inscripciones, (i: Enrollment) => i.idAlumno != id))
  }

  /**
   * After a delete no record of the student and none of their enrollments are
   * left, while every other student and their enrollments remain, in order.
   */
  lemma DeleteStudentEffect(data: AppData, id: Id, s': Id)
    ensures forall a :: a in DeleteStudent(data, id).alumnos ==> a.idAlumno != id
    ensures StudentCourseIds(DeleteStudent(data, id).inscripciones, id) == []
    ensures s' != id ==>
      Filter(DeleteStudent(data, id).alumnos, (a: Student) => a.idAlumno == s')
      == Filter(data.alumnos, (a: Student) => a.idAlumno == s')
    ensures s' != id ==>
      Filter(DeleteStudent(data, id).inscripciones, (i: Enrollment) => i.idAlumno == s')
      == Filter(data.inscripciones, (i: Enrollment) => i.idAlumno == s')
    ensures NoDuplicates(StudentIds(data.alumnos)) ==> NoDuplicates(StudentIds(DeleteStudent(data, id).alumnos))
  {
    var r := DeleteStudent(data, id);
    if NoDuplicates(StudentIds(data.alumnos)) {
      MapFilterNoDuplicates(data.alumnos, (a: Student) => a.idAlumno != id, (a: Student) => a.idAlumno);
    }
    FilterNone(r.inscripciones, (i: Enrollment) => i.idAlumno == id);
    if s' != id {
      FilterFilter(data.alumnos, (a: Student) => a.idAlumno != id, (a: Student) => a.idAlumno == s');
      FilterFilter(data.inscripciones, (i: Enrollment) => i.idAlumno != id, (i: Enrollment) => i.idAlumno == s');
    }
  }
}
