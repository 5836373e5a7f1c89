/**
 * The in-memory snapshot (`appData`) the whole application works on: one
 * record type per collection, field names as the spreadsheet columns have them.
 */
module Entities {
  import opened Common

  /** Every id is a string (`a123…`, `c123…`, `n123…`, `t123…`, `u123…`). */
  type Id = string

  /** A form's `editingId` is set (neither null nor empty): the form edits that record. */
  predicate Editing(editingId: Option<Id>) {
    editingId.Some? && editingId.value != ""
  }

  /** `tipo_nota`: a practice or an exam. */
  datatype Kind = Practica | Examen

  /** An `usuarios` record: an administrator ('Dirección') or a teacher ('Profesor'). */
  datatype User = User(
    idUsuario: Id,
    nombre: string,
    ci: string,
    usuario: string,
    contrasena: string,
    rol: string,
    especialidad: Option<string>)

  /** An `alumnos` record. */
  datatype Student = Student(
    idAlumno: Id,
    nombre: string,
    ci: string,
    rude: string,
    fechaNacimiento: string,
    nacionalidad: string,
    genero: string,
    direccion: string,
    telefono: string)

  /** A `cursos` record: one subject taught to one grade and section. */
  datatype Course = Course(
    idCurso: Id,
    materia: string,
    nombreCurso: string,
    paralelo: string,
    idProfesor: Option<Id>,
    nombreCompleto: string)

  /** An `inscripciones` record: a student takes a course. */
  datatype Enrollment = Enrollment(idAlumno: Id, idCurso: Id)

  /** A `notas` record: one score of one student in one course. */
  datatype Note = Note(
    idNota: Id,
    idAlumno: Id,
    idCurso: Id,
    trimestre: nat,
    tipoNota: Kind,
    numeroNota: nat,
    valorNota: real)

  /** A `trimestres` record: whether a student's trimester is open for grading. */
  datatype TrimesterLock = TrimesterLock(
    idTrimestre: Id,
    idAlumno: Id,
    trimestre: nat,
    desbloqueado: bool)

  /** The ids of some courses, in order. */
  function CourseIds(cs: seq<Course>): seq<Id> {
    Map(cs, (c: Course) => c.idCurso)
  }

  /** The whole dataset, loaded and saved as one document. */
  datatype AppData = AppData(
    usuarios: seq<User>,
    alumnos: seq<Student>,
    cursos: seq<Course>,
    inscripciones: seq<Enrollment>,
    notas: seq<Note>,
    trimestres: seq<TrimesterLock>)
}
