/**
 * The course registry: creating, editing and deleting `cursos` records by
 * `id_curso`. A course is one subject (`materia`) of one grade and section.
 */
module Courses {
  import opened Common
  import opened Entities

  /** The course form's fields; `idProfesor` is '' when no teacher is chosen. */
  datatype CourseForm = CourseForm(materia: string, nombreCurso: string, paralelo: string, idProfesor: string)

  /** `${nombre_curso} ${paralelo}`. */
  function FullName(nombreCurso: string, paralelo: string): string {
    nombreCurso + " " + paralelo
  }

  /** `formData.id_profesor || undefined`. */
  function TeacherOf(f: CourseForm): (r: Option<Id>)
    ensures r.None? <==> f.idProfesor == ""
    ensures r.Some? ==> r.value == f.idProfesor
  {
    if f.idProfesor == "" then None else Some(f.idProfesor)
  }

  /** `newCourseData` and `nombre_completo` written over `c`; the teacher is overwritten too. */
  function MergeCourse(c: Course, f: CourseForm): (r: Course)
    ensures r.idCurso == c.idCurso && r.materia == f.materia
    ensures r.nombreCurso == f.nombreCurso && r.paralelo == f.paralelo && r.idProfesor == TeacherOf(f)
    ensures r.nombreCompleto == FullName(r.nombreCurso, r.paralelo)
  {
    Course(c.idCurso, f.materia, f.nombreCurso, f.paralelo, TeacherOf(f), FullName(f.nombreCurso, f.paralelo))
  }

  /**
   * `handleSubmit` (no field is required): the matching record edited in
   * place, or a new one appended under `freshId`.
   */
  function SubmitCourse(cursos: seq<Course>, f: CourseForm, editingId: Option<Id>, freshId: Id): seq<Course> {
    if Editing(editingId) then Map(cursos, (c: Course) => if c.idCurso == editingId.value then MergeCourse(c, f) else c)
    else cursos + [MergeCourse(Course(freshId, "", "", "", None, ""), f)]
  }

  /** The full name stays consistent: a submit keeps `nombre_completo = nombre_curso + " " + paralelo` for every course. */
  predicate NamesConsistent(cursos: seq<Course>) {
    forall i :: 0 <= i < |cursos| ==> cursos[i].nombreCompleto == FullName(cursos[i].nombreCurso, cursos[i].paralelo)
  }

  /**
   * An edit rewrites exactly the records with the edited id and keeps every
   * id; a create appends one record under the fresh id; the full names stay
   * consistent.
   */
  lemma SubmitCourseEffect(cursos: seq<Course>, f: CourseForm, editingId: Option<Id>, freshId: Id)
    ensures var r := SubmitCourse(cursos, f, editingId, freshId);
      && (Editing(editingId) ==> |r| == |cursos| && CourseIds(r) == CourseIds(cursos))
      && (Editing(editingId) ==> forall i :: 0 <= i < |cursos| ==>
            r[i] == if cursos[i].idCurso == editingId.value then MergeCourse(cursos[i], f) else cursos[i])
      && (!Editing(editingId) ==> |r| == |cursos| + 1 && r[..|cursos|] == cursos)
      && (!Editing(editingId) ==> r[|cursos|].idCurso == freshId && r[|cursos|] == MergeCourse(r[|cursos|], f))
      && (NamesConsistent(cursos) ==> NamesConsistent(r))
  {
    var r := SubmitCourse(cursos, f, editingId, freshId);
    if Editing(editingId) {
      assert forall i :: 0 <= i < |r| ==> CourseIds(r)[i] == CourseIds(cursos)[i];
    } else {
      assert r[..|cursos|] == cursos;
    }
  }

  /** Submitting keeps the course ids unique when a create uses an unused id. */
  lemma SubmitCourseUniqueIds(cursos: seq<Course>, f: CourseForm, editingId: Option<Id>, freshId: Id)
    requires NoDuplicates(CourseIds(cursos))
    requires !Editing(editingId) ==> freshId !in CourseIds(cursos)
    ensures NoDuplicates(CourseIds(SubmitCourse(cursos, f, editingId, freshId)))
  {
    SubmitCourseEffect(cursos, f, editingId, freshId);
    if !Editing(editingId) {
      var r := SubmitCourse(cursos, f, editingId, freshId);
      assert CourseIds(r) == CourseIds(cursos) + [freshId] by {
        assert forall i :: 0 <= i < |cursos| ==> r[i] == cursos[i];
      }
    }
  }

  /** `confirmDelete`: only the course goes; enrollments and notes that name it stay. */
  function DeleteCourse(data: AppData, id: Id): (r: AppData)
    ensures r.usuarios == data.usuarios && r.alumnos == data.alumnos && r.inscripciones == data.inscripciones
    ensures r.notas == data.notas && r.trimestres == data.trimestres
  {
    data.(cursos := Filter(data.cursos, (c: Course) => c.idCurso != id))
  }

  /** After a delete no course has the id, and every course with another id is still there, in order. */
  lemma DeleteCourseEffect(data: AppData, id: Id, other: Id)
    ensures forall c :: c in DeleteCourse(data, id).cursos ==> c.idCurso != id
    ensures other != id ==>
      Filter(DeleteCourse(data, id).cursos, (c: Course) => c.idCurso == other)
      == Filter(data.cursos, (c: Course) => c.idCurso == other)
    ensures NoDuplicates(CourseIds(data.cursos)) ==> NoDuplicates(CourseIds(DeleteCourse(data, id).cursos))
  {
    if NoDuplicates(CourseIds(data.cursos)) {
      MapFilterNoDuplicates(data.cursos, (c: Course) => c.idCurso != id, (c: Course) => c.idCurso);
    }
    if other != id {
      FilterFilter(data.cursos, (c: Course) => c.idCurso != id, (c: Course) => c.idCurso == other);
    }
  }
}
