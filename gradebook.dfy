/**
 * The application's snapshot (`appData`) and the operations that replace it
 * (`onDataChange`/`setAppData`): one method per management action. Each
 * method's new snapshot is the value the matching function computes from the
 * old one, and every method keeps the snapshot's consistency invariant.
 */
module Gradebook {
  import opened Common
  import opened Entities
  import opened OrderedObject
  import GL = GradeLedger
  import LR = LockRegistry
  import En = Enrollments
  import Co = Courses
  import Us = Users

  /**
   * What every management action keeps: notes in offered slots with scores in
   * [0, 100], one note per composite key and unique note ids, one lock record
   * per (student, trimester) with unique ids, and unique student, course and
   * user ids.
   */
  predicate Consistent(d: AppData) {
    && GL.AllValid(d.notas) && GL.UniqueSlots(d.notas) && NoDuplicates(GL.NoteIds(d.notas))
    && LR.LocksOk(d.trimestres)
    && NoDuplicates(En.StudentIds(d.alumnos))
    && NoDuplicates(CourseIds(d.cursos))
    && NoDuplicates(Us.UserIds(d.usuarios))
  }

  /**
   * `updatedInscripciones.push(...newInscriptions)`: one enrollment of
   * `studentId` appended per selected course id, in selection order.
   */
  method PushEnrollments(ins: seq<Enrollment>, studentId: Id, courseIds: seq<Id>) returns (r: seq<Enrollment>)
    ensures r == ins + Map(courseIds, (id: Id) => Enrollment(studentId, id))
  {
    r := ins;
    var k := 0;
    while k < |courseIds|
      invariant 0 <= k <= |courseIds|
      invariant |r| == |ins| + k && r[..|ins|] == ins
      invariant forall j :: 0 <= j < k ==> r[|ins| + j] == Enrollment(studentId, courseIds[j])
    {
      r := r + [Enrollment(studentId, courseIds[k])];
      k := k + 1;
    }
    var m := Map(courseIds, (id: Id) => Enrollment(studentId, id));
    assert forall j :: 0 <= j < |r| ==> r[j] == (ins + m)[j];
  }

  /** A valid student submit keeps the snapshot consistent. */
  lemma SubmitStudentConsistent(d: AppData, f: En.StudentForm, editingId: Option<Id>, sel: En.Selection, freshId: Id)
    requires Consistent(d) && En.StudentFormOk(f)
    requires !Editing(editingId) ==> freshId !in En.StudentIds(d.alumnos)
    ensures Consistent(En.SubmitStudent(d, f, editingId, sel, freshId).value)
  {
    En.SubmitStudentUniqueIds(d, f, editingId, sel, freshId);
  }

  /** The snapshot the screens read and replace. */
  class Store {
    var data: AppData

    predicate Valid()
      reads this
    {
      Consistent(data)
    }

    /** The snapshot as loaded. */
    constructor (d: AppData)
      requires Consistent(d)
      ensures Valid() && data == d
    {
      data := d;
    }

    /** The grading form's lock reading for one student and trimester. */
    function IsUnlocked(s: Id, n: nat): (r: bool)
      reads this
      requires Valid()
      ensures r <==> LR.AnyUnlocked(data.trimestres, s, n)
    {
      LR.ReadingsAgree(data.trimestres, s, n);
      LR.IsUnlocked(data.trimestres, s, n)
    }

    /**
     * `handleSaveGrades(newGrades)`: the pair named by the first new note gets
     * exactly the new notes; no new notes changes nothing. The lock is not
     * consulted. Notes as the grading form builds them keep the snapshot
     * consistent.
     */
    method SaveGrades(newGrades: seq<Note>)
      requires Valid() && GL.Replacement(data.notas, newGrades)
      modifies this
      ensures Valid()
      ensures data == old(data).(notas := GL.SaveGrades(old(data.notas), newGrades))
    {
      GL.SaveGradesKeeps(data.notas, newGrades);
      data := data.(notas := GL.SaveGrades(data.notas, newGrades));
    }

    /**
     * The grading form's "Guardar Cambios": `handleSave` turns the form into
     * notes (reusing ids, minting `freshIds` otherwise), then `handleSaveGrades`
     * stores them. A form that keeps its invariant keeps the snapshot consistent.
     */
    method SaveForm(s: Id, c: Id, g: GL.LocalGrades, freshIds: seq<Id>)
      requires Valid() && GL.GradesOk(g) && |freshIds| == |g|
      requires NoDuplicates(freshIds) && forall k :: 0 <= k < |freshIds| ==> freshIds[k] !in GL.NoteIds(data.notas)
      modifies this
      ensures Valid()
      ensures data == old(data).(notas := GL.SaveGrades(old(data.notas), GL.SaveNotes(old(data.notas), s, c, g, freshIds)))
    {
      GL.SaveNotesReplacement(data.notas, s, c, g, freshIds);
      var updatedNotes := GL.SaveNotes(data.notas, s, c, g, freshIds);
      SaveGrades(updatedNotes);
    }

    /** `handleToggle(s, n)`: flip the pair's lock record, or append an open one under `freshId`. */
    method ToggleTrimester(s: Id, n: nat, freshId: Id)
      requires Valid() && !LR.IdInUse(data.trimestres, freshId)
      modifies this
      ensures Valid()
      ensures data == old(data).(trimestres := LR.Toggle(old(data.trimestres), s, n, freshId))
      ensures LR.IsUnlocked(data.trimestres, s, n) == !LR.IsUnlocked(old(data.trimestres), s, n)
    {
      LR.ToggleEffect(data.trimestres, s, n, freshId);
      data := data.(trimestres := LR.Toggle(data.trimestres, s, n, freshId));
    }

    /**
     * The student form's `handleSubmit`: rejected (nothing changes) when a
     * required field is empty; otherwise the student is edited in place or
     * appended under `freshId`, their enrollments are dropped and one is pushed
     * per checked subject.
     */
    method SubmitStudent(f: En.StudentForm, editingId: Option<Id>, sel: En.Selection, freshId: Id)
      returns (ok: bool)
      requires Valid()
      requires !Editing(editingId) ==> freshId != "" && freshId !in En.StudentIds(data.alumnos)
      modifies this
      ensures Valid()
      ensures ok <==> En.StudentFormOk(f)
      ensures ok ==> data == En.SubmitStudent(old(data), f, editingId, sel, freshId).value
      ensures !ok ==> data == old(data)
    {
      if !En.StudentFormOk(f) {
        return false;
      }
      SubmitStudentConsistent(data, f, editingId, sel, freshId);
      ghost var expected := En.SubmitStudent(data, f, editingId, sel, freshId).value;
      var studentId := if Editing(editingId) then editingId.value else freshId;
      var updatedAlumnos := data.alumnos;
      if Editing(editingId) {
        updatedAlumnos :=
          Map(data.alumnos, (a: Student) => if a.idAlumno == studentId then En.StudentRecord(f, studentId) else a);
      } else {
        updatedAlumnos := updatedAlumnos + [En.StudentRecord(f, studentId)];
      }
      assert updatedAlumnos == expected.alumnos;
      var updatedInscripciones := data.inscripciones;
      if studentId != "" {
        updatedInscripciones := Filter(data.inscripciones, (i: Enrollment) => i.idAlumno != studentId);
        var selectedCourseIds := En.SelectedIds(sel);
        updatedInscripciones := PushEnrollments(updatedInscripciones, studentId, selectedCourseIds);
        assert updatedInscripciones == En.ReplaceEnrollments(data.inscripciones, studentId, sel);
      }
      assert updatedInscripciones == expected.inscripciones;
      data := data.(alumnos := updatedAlumnos, inscripciones := updatedInscripciones);
      ok := true;
    }

    /** The student list's `confirmDelete`: the student and their enrollments go; notes and locks stay. */
    method DeleteStudent(id: Id)
      requires Valid()
      modifies this
      ensures Valid()
      ensures data == En.DeleteStudent(old(data), id)
    {
      En.DeleteStudentEffect(data, id, id);
      data := En.DeleteStudent(data, id);
    }

    /** The course form's `handleSubmit`: edit the course in place, or append one under `freshId`. */
    method SubmitCourse(f: Co.CourseForm, editingId: Option<Id>, freshId: Id)
      requires Valid()
      requires !Editing(editingId) ==> freshId !in CourseIds(data.cursos)
      modifies this
      ensures Valid()
      ensures data == old(data).(cursos := Co.SubmitCourse(old(data.cursos), f, editingId, freshId))
    {
      Co.SubmitCourseUniqueIds(data.cursos, f, editingId, freshId);
      data := data.(cursos := Co.SubmitCourse(data.cursos, f, editingId, freshId));
    }

    /** The course list's `confirmDelete`: only the course goes. */
    method DeleteCourse(id: Id)
      requires Valid()
      modifies this
      ensures Valid()
      ensures data == Co.DeleteCourse(old(data), id)
    {
      Co.DeleteCourseEffect(data, id, id);
      data := Co.DeleteCourse(data, id);
    }

    /** Either user screen's `handleSubmit`: rejected when a field is empty, else edit or append. */
    method SubmitUser(k: Us.UserKind, f: Us.UserForm, editingId: Option<Id>, freshId: Id) returns (ok: bool)
      requires Valid()
      requires !Editing(editingId) ==> freshId !in Us.UserIds(data.usuarios)
      modifies this
      ensures Valid()
      ensures ok <==> Us.UserFormOk(k, f)
      ensures ok ==> data == old(data).(usuarios := Us.SubmitUser(old(data.usuarios), k, f, editingId, freshId).value)
      ensures !ok ==> data == old(data)
    {
      var updated := Us.SubmitUser(data.usuarios, k, f, editingId, freshId);
      if updated.None? {
        return false;
      }
      Us.SubmitUserUniqueIds(data.usuarios, k, f, editingId, freshId);
      data := data.(usuarios := updated.value);
      ok := true;
    }

    /** Either user screen's `confirmDelete`. */
    method DeleteUser(id: Id)
      requires Valid()
      modifies this
      ensures Valid()
      ensures data == old(data).(usuarios := Us.DeleteUser(old(data.usuarios), id))
    {
      Us.DeleteUserEffect(data.usuarios, id, id);
      data := data.(usuarios := Us.DeleteUser(data.usuarios, id));
    }
  }
}
