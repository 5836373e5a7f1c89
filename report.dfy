/**
 * The report card (`studentReport` of `BoletaDisplay`): per subject the
 * student takes, the rounded average of each trimester, the practice and exam
 * scores in slot order, the rounded final average and the pass/fail status.
 */
module Report {
  import opened Common
  import opened Entities
  import opened Enrollments

  /** One trimester of one subject: scores in slot order and the rounded average (null when empty). */
  datatype TrimesterData = TrimesterData(practicas: seq<real>, examenes: seq<real>, promedio: Option<int>)

  /** One line of the report card. */
  datatype ReportRow = ReportRow(
    materia: string,
    t1: TrimesterData,
    t2: TrimesterData,
    t3: TrimesterData,
    finalAverage: Option<int>,
    estado: string)

  /** The smallest mark that passes. */
  const PassMark: int := 51

  // ---------------------------------------------------------------------------
  // Rounding and averages
  // ---------------------------------------------------------------------------

  /** `Math.round(x)`: the nearest integer, halves rounded up. */
  function RoundHalfUp(x: real): (r: int)
    ensures r as real - 0.5 <= x < r as real + 0.5
  {
    (x + 0.5).Floor
  }

  /** For an integer sum `s` of `n` values, `Math.round(s / n)` is `(2 s + n) div 2 n`. */
  lemma RoundOfIntegerMean(s: int, n: int)
    requires n > 0
    ensures RoundHalfUp(s as real / n as real) == (2 * s + n) / (2 * n)
  {
    var q := (2 * s + n) / (2 * n);
    var r := (2 * s + n) % (2 * n);
    assert 2 * s + n == 2 * n * q + r && 0 <= r < 2 * n;
    var y := s as real / n as real + 0.5;
    var d := (2 * n) as real;
    var num := (2 * s + n) as real;
    assert y == num / d by {
      MulDivCancel(s as real, n as real);
      MulDivCancel(num, d);
      assert (s as real / n as real) * d == 2.0 * s as real;
      assert y * d == num;
    }
    assert q as real * d <= num;
    assert num < (q + 1) as real * d;
    LeDiv(q as real, num, d);
    DivLt(num, (q + 1) as real, d);
    FloorOf(y + 0.0, q);
  }

  lemma MulDivCancel(b: real, c: real)
    requires c != 0.0
    ensures (b / c) * c == b
  {
  }

  /** `a c <= b` with `c > 0` gives `a <= b / c`. */
  lemma LeDiv(a: real, b: real, c: real)
    requires c > 0.0 && a * c <= b
    ensures a <= b / c
  {
    MulDivCancel(b, c);
    if a > b / c {
      MulStrict(b / c, a, c);
    }
  }

  /** `b < a c` with `c > 0` gives `b / c < a`. */
  lemma DivLt(b: real, a: real, c: real)
    requires c > 0.0 && b < a * c
    ensures b / c < a
  {
    MulDivCancel(b, c);
    if b / c >= a {
      MulMono(a, b / c, c);
    }
  }

  lemma MulStrict(x: real, y: real, c: real)
    requires x < y && c > 0.0
    ensures x * c < y * c
  {
    assert y * c - x * c == (y - x) * c;
  }

  lemma MulMono(x: real, y: real, c: real)
    requires x <= y && c > 0.0
    ensures x * c <= y * c
  {
    assert y * c - x * c == (y - x) * c;
  }

  /** `q <= y < q + 1` pins down how `y + 1/2` rounds. */
  lemma FloorOf(y: real, q: int)
    requires q as real <= y < q as real + 1.0
    ensures (y + 0.5 - 0.5).Floor == q
  {
  }

  /** The values of some notes, in order. */
  function Values(ns: seq<Note>): seq<real> {
    Map(ns, (n: Note) => n.valorNota)
  }

  /** `vals.length > 0 ? Math.round(sum / length) : null`. */
  function Average(vals: seq<real>): (r: Option<int>)
    ensures r.None? <==> vals == []
  {
    if |vals| > 0 then Some(RoundHalfUp(Sum(vals) / |vals| as real)) else None
  }

  /** The mean of values in [0, 100] rounds into [0, 100]. */
  lemma AverageBounds(vals: seq<real>)
    requires AllWithin(vals, 0.0, 100.0)
    ensures Average(vals).Some? ==> 0 <= Average(vals).value <= 100
  {
    if |vals| > 0 {
      SumBounds(vals);
      var n := |vals| as real;
      var m := Sum(vals) / n;
      assert m * n == Sum(vals);
      assert 0.0 <= m <= 100.0;
    }
  }

  /** The present values of some optional ones. */
  function Somes(s: seq<Option<int>>): (r: seq<int>)
    ensures |r| <= |s|
    ensures forall x :: x in r <==> Some(x) in s
  {
    if s == [] then [] else (if s[0].Some? then [s[0].value] else []) + Somes(s[1..])
  }

  /** Integers as reals. */
  function AsReals(s: seq<int>): seq<real> {
    Map(s, (x: int) => x as real)
  }

  /** `finalAverage`: the rounded mean of the trimester averages that are not null. */
  function FinalAverage(t1: Option<int>, t2: Option<int>, t3: Option<int>): Option<int> {
    Average(AsReals(Somes([t1, t2, t3])))
  }

  /** `estado`: empty without an average, else pass from `PassMark` on. */
  function Estado(finalAverage: Option<int>): (r: string)
    ensures finalAverage.None? ==> r == ""
    ensures finalAverage.Some? && finalAverage.value >= PassMark ==> r == "Aprobado"
    ensures finalAverage.Some? && finalAverage.value < PassMark ==> r == "Reprobado"
  {
    match finalAverage
    case None => ""
    case Some(v) => if v >= PassMark then "Aprobado" else "Reprobado"
  }

  /** An average that is either null or in [0, 100]. */
  predicate Within(t: Option<int>) {
    t.Some? ==> 0 <= t.value <= 100
  }

  /** The final average is null exactly when every trimester average is, and rounds into [0, 100] when they lie there. */
  lemma FinalAverageMeaning(t1: Option<int>, t2: Option<int>, t3: Option<int>)
    requires Within(t1) && Within(t2) && Within(t3)
    ensures FinalAverage(t1, t2, t3).None? <==> t1.None? && t2.None? && t3.None?
    ensures FinalAverage(t1, t2, t3).Some? ==> 0 <= FinalAverage(t1, t2, t3).value <= 100
  {
    var vs := Somes([t1, t2, t3]);
    var rs := AsReals(vs);
    if t1.Some? || t2.Some? || t3.Some? {
      var t :| t in [t1, t2, t3] && t.Some?;
      assert t.value in vs;
    }
    forall i | 0 <= i < |rs| ensures 0.0 <= rs[i] <= 100.0 {
      assert Some(vs[i]) in [t1, t2, t3];
    }
    AverageBounds(rs);
  }

  /** Worked cases: [80, 70, 90] averages to 80; a missing trimester is skipped; 50.5 rounds up to a pass. */
  lemma AverageExamples()
    ensures Average([80.0, 70.0, 90.0]) == Some(80)
    ensures FinalAverage(Some(80), None, Some(60)) == Some(70) && Estado(Some(70)) == "Aprobado"
    ensures Average([50.0, 51.0]) == Some(51) && Estado(Some(51)) == "Aprobado"
    ensures Estado(Some(50)) == "Reprobado" && Estado(None) == ""
  {
    ThreeScoresExample();
    FinalAverageExample();
    HalfRoundsUpExample();
  }

  lemma ThreeScoresExample()
    ensures Average([80.0, 70.0, 90.0]) == Some(80)
  {
    var vs := [80.0, 70.0, 90.0];
    assert vs[1..] == [70.0, 90.0] && vs[1..][1..] == [90.0];
    assert Sum(vs) == 240.0;
    assert Sum(vs) / 3.0 == 80.0;
  }

  lemma FinalAverageExample()
    ensures FinalAverage(Some(80), None, Some(60)) == Some(70)
  {
    SkipMissingExample();
    assert [80.0, 60.0][1..] == [60.0];
    assert Sum([80.0, 60.0]) == 140.0;
    assert Sum([80.0, 60.0]) / 2.0 == 70.0;
  }

  lemma SkipMissingExample()
    ensures AsReals(Somes([Some(80), None, Some(60)])) == [80.0, 60.0]
  {
    var ts := [Some(80), None, Some(60)];
    assert ts[1..] == [None, Some(60)] && ts[1..][1..] == [Some(60)];
    assert Somes([Some(60)]) == [60];
    assert Somes([None, Some(60)]) == [60];
    assert Somes(ts) == [80, 60];
    assert [80, 60][1..] == [60];
  }

  lemma HalfRoundsUpExample()
    ensures Average([50.0, 51.0]) == Some(51)
  {
    assert [50.0, 51.0][1..] == [51.0];
    assert Sum([50.0, 51.0]) == 101.0;
    assert Sum([50.0, 51.0]) / 2.0 == 50.5;
  }

  // ---------------------------------------------------------------------------
  // Sorting by slot
  // ---------------------------------------------------------------------------

  /** Ascending `numero_nota`. */
  predicate SortedBySlot(ns: seq<Note>) {
    forall i, j :: 0 <= i < j < |ns| ==> ns[i].numeroNota <= ns[j].numeroNota
  }

  /** Insert `x` into sorted `ns` after every note whose slot is not larger. */
  function InsertBySlot(x: Note, ns: seq<Note>): (r: seq<Note>)
    ensures multiset(r) == multiset(ns) + multiset{x}
  {
    if ns == [] then [x]
    else if x.numeroNota < ns[0].numeroNota then [x] + ns
    else
      assert ns == [ns[0]] + ns[1..];
      [ns[0]] + InsertBySlot(x, ns[1..])
  }

  /** Sorting the tail of a sorted sequence. */
  lemma SortedTail(ns: seq<Note>)
    requires ns != [] && SortedBySlot(ns)
    ensures SortedBySlot(ns[1..]) && forall j :: 0 <= j < |ns[1..]| ==> ns[0].numeroNota <= ns[1..][j].numeroNota
  {
    forall i, j | 0 <= i < j < |ns[1..]| ensures ns[1..][i].numeroNota <= ns[1..][j].numeroNota {
      assert ns[1..][i] == ns[i + 1] && ns[1..][j] == ns[j + 1];
    }
    forall j | 0 <= j < |ns[1..]| ensures ns[0].numeroNota <= ns[1..][j].numeroNota {
      assert ns[1..][j] == ns[j + 1];
    }
  }

  /** A note at least as small as every note of a sorted sequence can go in front. */
  lemma SortedCons(y: Note, ns: seq<Note>)
    requires SortedBySlot(ns) && forall j :: 0 <= j < |ns| ==> y.numeroNota <= ns[j].numeroNota
    ensures SortedBySlot([y] + ns)
  {
    var r := [y] + ns;
    forall i, j | 0 <= i < j < |r| ensures r[i].numeroNota <= r[j].numeroNota {
      assert r[j] == ns[j - 1];
      if i > 0 {
        assert r[i] == ns[i - 1];
      }
    }
  }

  /** Inserting keeps a sequence sorted. */
  lemma {:induction false} InsertBySlotSorted(x: Note, ns: seq<Note>)
    requires SortedBySlot(ns)
    ensures SortedBySlot(InsertBySlot(x, ns))
  {
    if ns == [] {
    } else if x.numeroNota < ns[0].numeroNota {
      forall j | 0 <= j < |ns| ensures x.numeroNota <= ns[j].numeroNota {
        if j > 0 {
          assert ns[0].numeroNota <= ns[j].numeroNota;
        }
      }
      SortedCons(x, ns);
    } else {
      SortedTail(ns);
      var rest := InsertBySlot(x, ns[1..]);
      InsertBySlotSorted(x, ns[1..]);
      forall j | 0 <= j < |rest| ensures ns[0].numeroNota <= rest[j].numeroNota {
        assert rest[j] in multiset(rest);
        if rest[j] != x {
          assert rest[j] in multiset(ns[1..]);
          var m :| 0 <= m < |ns[1..]| && ns[1..][m] == rest[j];
        }
      }
      SortedCons(ns[0], rest);
    }
  }

  /** `sort((a, b) => a.numero_nota - b.numero_nota)`: a stable insertion sort. */
  function SortBySlot(ns: seq<Note>): (r: seq<Note>)
    ensures SortedBySlot(r)
    ensures multiset(r) == multiset(ns)
  {
    if ns == [] then []
    else
      var init := ns[..|ns| - 1];
      assert ns == init + [ns[|ns| - 1]];
      InsertBySlotSorted(ns[|ns| - 1], SortBySlot(init));
      InsertBySlot(ns[|ns| - 1], SortBySlot(init))
  }

  /**
   * The sort is stable, as `Array.prototype.sort` is: the notes with any one
   * `numero_nota` keep their relative order.
   */
  lemma {:induction false} SortBySlotStable(ns: seq<Note>, k: nat)
    ensures Filter(SortBySlot(ns), (n: Note) => n.numeroNota == k) == Filter(ns, (n: Note) => n.numeroNota == k)
  {
    if ns != [] {
      var p := (n: Note) => n.numeroNota == k;
      var init, last := ns[..|ns| - 1], ns[|ns| - 1];
      assert ns == init + [last];
      SortBySlotStable(init, k);
      InsertBySlotFilter(last, SortBySlot(init), k);
      FilterConcat(init, [last], p);
      FilterCons(last, [], p);
      assert [last] + [] == [last];
    }
  }

  /** Inserting into a sorted sequence puts the note after every note with the same `numero_nota`. */
  lemma {:induction false} InsertBySlotFilter(x: Note, ns: seq<Note>, k: nat)
    requires SortedBySlot(ns)
    ensures Filter(InsertBySlot(x, ns), (n: Note) => n.numeroNota == k)
      == Filter(ns, (n: Note) => n.numeroNota == k) + (if x.numeroNota == k then [x] else [])
  {
    if ns == [] {
      FilterCons(x, [], (n: Note) => n.numeroNota == k);
    } else if x.numeroNota < ns[0].numeroNota {
      InsertInFrontFilter(x, ns, k);
    } else {
      SortedTail(ns);
      InsertBySlotFilter(x, ns[1..], k);
      InsertLaterFilter(x, ns, (n: Note) => n.numeroNota == k, if x.numeroNota == k then [x] else []);
    }
  }

  lemma InsertInFrontFilter(x: Note, ns: seq<Note>, k: nat)
    requires SortedBySlot(ns) && ns != [] && x.numeroNota < ns[0].numeroNota
    ensures Filter(InsertBySlot(x, ns), (n: Note) => n.numeroNota == k)
      == Filter(ns, (n: Note) => n.numeroNota == k) + (if x.numeroNota == k then [x] else [])
  {
    var p := (n: Note) => n.numeroNota == k;
    assert InsertBySlot(x, ns) == [x] + ns;
    FilterCons(x, ns, p);
    if x.numeroNota == k {
      forall j | 0 <= j < |ns| ensures !p(ns[j]) {
        if j > 0 {
          assert ns[0].numeroNota <= ns[j].numeroNota;
        }
      }
      FilterNone(ns, p);
    }
  }

  lemma InsertLaterFilter(x: Note, ns: seq<Note>, p: Note -> bool, e: seq<Note>)
    requires ns != [] && x.numeroNota >= ns[0].numeroNota
    requires Filter(InsertBySlot(x, ns[1..]), p) == Filter(ns[1..], p) + e
    ensures Filter(InsertBySlot(x, ns), p) == Filter(ns, p) + e
  {
    var r := InsertBySlot(x, ns);
    assert r == [ns[0]] + InsertBySlot(x, ns[1..]);
    assert r[1..] == InsertBySlot(x, ns[1..]);
    FilterSameHead(r, ns, e, p);
  }

  // ---------------------------------------------------------------------------
  // The report
  // ---------------------------------------------------------------------------

  /** `studentInscriptions.map(i => cursos.find(c => c.id_curso === i.id_curso)).filter(c => !!c)`. */
  function FoundCourses(cursos: seq<Course>, ins: seq<Enrollment>): (r: seq<Course>)
    ensures |r| <= |ins|
    ensures forall c :: c in r ==> c in cursos && exists i :: i in ins && i.idCurso == c.idCurso
  {
    if ins == [] then []
    else
      var rest := FoundCourses(cursos, ins[1..]);
      match Find(cursos, (c: Course) => c.idCurso == ins[0].idCurso)
      case Some(c) => [c] + rest
      case None => rest
  }

  /** The courses the student's enrollments point to, in enrollment order; missing ones skipped. */
  function StudentCourses(data: AppData, s: Id): seq<Course> {
    FoundCourses(data.cursos, Filter(data.inscripciones, (i: Enrollment) => i.idAlumno == s))
  }

  /** `[...new Set(studentCourses.map(c => c.materia))]`. */
  function Subjects(courses: seq<Course>): seq<string> {
    Distinct(Map(courses, (c: Course) => c.materia))
  }

  /** The ids of the student's courses of one subject. */
  function SubjectCourseIds(courses: seq<Course>, materia: string): seq<Id> {
    CourseIds(Filter(courses, (c: Course) => c.materia == materia))
  }

  /** The student's notes of one trimester in any of the given courses. */
  function RelevantNotes(notas: seq<Note>, s: Id, courseIds: seq<Id>, t: nat): seq<Note> {
    Filter(notas, (n: Note) => n.idAlumno == s && n.idCurso in courseIds && n.trimestre == t)
  }

  /** The notes of one kind, in slot order. */
  function OfKindSorted(ns: seq<Note>, k: Kind): seq<Note> {
    SortBySlot(Filter(ns, (n: Note) => n.tipoNota == k))
  }

  /** `trimestresData[t - 1]`. */
  function Trimester(notas: seq<Note>, s: Id, courseIds: seq<Id>, t: nat): TrimesterData {
    var relevant := RelevantNotes(notas, s, courseIds, t);
    TrimesterData(Values(OfKindSorted(relevant, Practica)), Values(OfKindSorted(relevant, Examen)),
                  Average(Values(relevant)))
  }

  /** The report line of one subject. */
  function Row(data: AppData, s: Id, courses: seq<Course>, materia: string): ReportRow {
    var ids := SubjectCourseIds(courses, materia);
    var t1, t2, t3 := Trimester(data.notas, s, ids, 1), Trimester(data.notas, s, ids, 2), Trimester(data.notas, s, ids, 3);
    var fin := FinalAverage(t1.promedio, t2.promedio, t3.promedio);
    ReportRow(materia, t1, t2, t3, fin, Estado(fin))
  }

  /** `studentReport`: one line per distinct subject, in order of first enrollment. */
  function StudentReport(data: AppData, s: Id): (r: seq<ReportRow>)
    ensures |r| == |Subjects(StudentCourses(data, s))|
    ensures forall i :: 0 <= i < |r| ==> r[i].materia == Subjects(StudentCourses(data, s))[i]
  {
    var courses := StudentCourses(data, s);
    Map(Subjects(courses), (m: string) => Row(data, s, courses, m))
  }

  /**
   * Each subject appears once, and a subject is listed exactly when the student
   * is enrolled in an existing course of it (course ids unique).
   */
  lemma SubjectsMeaning(data: AppData, s: Id, materia: string)
    requires NoDuplicates(CourseIds(data.cursos))
    ensures NoDuplicates(Subjects(StudentCourses(data, s)))
    ensures materia in Subjects(StudentCourses(data, s)) <==>
      exists c :: c in data.cursos && c.materia == materia && Enrollment(s, c.idCurso) in data.inscripciones
  {
    var ins := Filter(data.inscripciones, (i: Enrollment) => i.idAlumno == s);
    var courses := StudentCourses(data, s);
    var ms := Map(courses, (c: Course) => c.materia);
    if materia in Subjects(courses) {
      var k :| 0 <= k < |ms| && ms[k] == materia;
      var c := courses[k];
      var i :| i in ins && i.idCurso == c.idCurso;
      assert i == Enrollment(s, c.idCurso);
    }
    if exists c :: c in data.cursos && c.materia == materia && Enrollment(s, c.idCurso) in data.inscripciones {
      var c :| c in data.cursos && c.materia == materia && Enrollment(s, c.idCurso) in data.inscripciones;
      assert Enrollment(s, c.idCurso) in ins;
      FoundCoursesHas(data.cursos, ins, Enrollment(s, c.idCurso), c);
      var k :| 0 <= k < |courses| && courses[k] == c;
      assert ms[k] == materia;
    }
  }

  /** With unique course ids, an enrollment whose course exists contributes that course. */
  lemma {:induction false} FoundCoursesHas(cursos: seq<Course>, ins: seq<Enrollment>, e: Enrollment, c: Course)
    requires NoDuplicates(CourseIds(cursos)) && e in ins && c in cursos && c.idCurso == e.idCurso
    ensures c in FoundCourses(cursos, ins)
  {
    var p := (x: Course) => x.idCurso == ins[0].idCurso;
    if ins[0] == e {
      var f := Find(cursos, p);
      var k :| 0 <= k < |cursos| && cursos[k] == c;
      var j :| FirstIndex(cursos, p, j) && cursos[j] == f.value;
      assert CourseIds(cursos)[j] == CourseIds(cursos)[k];
    } else {
      FoundCoursesHas(cursos, ins[1..], e, c);
    }
  }

  /** A student without enrollments gets an empty report. */
  lemma NoEnrollmentsEmptyReport(data: AppData, s: Id)
    requires forall i :: 0 <= i < |data.inscripciones| ==> data.inscripciones[i].idAlumno != s
    ensures StudentReport(data, s) == []
  {
    FilterNone(data.inscripciones, (i: Enrollment) => i.idAlumno == s);
  }

  /** After a student is deleted their report is empty, although their notes remain. */
  lemma DeletedStudentEmptyReport(data: AppData, s: Id)
    ensures StudentReport(DeleteStudent(data, s), s) == []
    ensures DeleteStudent(data, s).notas == data.notas
  {
    var d := DeleteStudent(data, s);
    assert forall i :: 0 <= i < |d.inscripciones| ==> d.inscripciones[i].idAlumno != s;
    NoEnrollmentsEmptyReport(d, s);
  }

  lemma {:induction false} FoundCoursesConcat(cursos: seq<Course>, a: seq<Enrollment>, b: seq<Enrollment>)
    ensures FoundCourses(cursos, a + b) == FoundCourses(cursos, a) + FoundCourses(cursos, b)
  {
    if a == [] {
      assert a + b == b;
    } else {
      assert (a + b)[1..] == a[1..] + b;
      FoundCoursesConcat(cursos, a[1..], b);
    }
  }

  /** An enrollment pointing to a course that does not exist changes nothing in the report. */
  lemma {:induction false} MissingCourseSkipped(data: AppData, s: Id, a: seq<Enrollment>, e: Enrollment, b: seq<Enrollment>)
    requires forall k :: 0 <= k < |data.cursos| ==> data.cursos[k].idCurso != e.idCurso
    ensures StudentReport(data.(inscripciones := a + [e] + b), s) == StudentReport(data.(inscripciones := a + b), s)
  {
    var d1, d2 := data.(inscripciones := a + [e] + b), data.(inscripciones := a + b);
    MissingCourseFound(data.cursos, (i: Enrollment) => i.idAlumno == s, a, e, b);
    assert StudentCourses(d1, s) == FoundCourses(data.cursos, Filter(a + [e] + b, (i: Enrollment) => i.idAlumno == s));
    assert StudentCourses(d2, s) == FoundCourses(data.cursos, Filter(a + b, (i: Enrollment) => i.idAlumno == s));
    SameCoursesSameReport(d1, d2, s);
  }

  lemma {:induction false} MissingCourseFound(cursos: seq<Course>, p: Enrollment -> bool,
                                              a: seq<Enrollment>, e: Enrollment, b: seq<Enrollment>)
    requires forall k :: 0 <= k < |cursos| ==> cursos[k].idCurso != e.idCurso
    ensures FoundCourses(cursos, Filter(a + [e] + b, p)) == FoundCourses(cursos, Filter(a + b, p))
  {
    var fa, fe, fb := Filter(a, p), Filter([e], p), Filter(b, p);
    var ca, ce, cb := FoundCourses(cursos, fa), FoundCourses(cursos, fe), FoundCourses(cursos, fb);
    FilterConcat(a + [e], b, p);
    FilterConcat(a, [e], p);
    FilterConcat(a, b, p);
    FoundCoursesMissing(cursos, fe, e);
    FoundCoursesConcat(cursos, fa + fe, fb);
    FoundCoursesConcat(cursos, fa, fe);
    FoundCoursesConcat(cursos, fa, fb);
    assert ce == [];
    assert FoundCourses(cursos, fa + fe) == ca;
  }

  /** Enrollments that all point to one missing course resolve to no course. */
  lemma {:induction false} FoundCoursesMissing(cursos: seq<Course>, ins: seq<Enrollment>, e: Enrollment)
    requires forall k :: 0 <= k < |cursos| ==> cursos[k].idCurso != e.idCurso
    requires forall i :: 0 <= i < |ins| ==> ins[i] == e
    ensures FoundCourses(cursos, ins) == []
  {
    if ins != [] {
      FoundCoursesMissing(cursos, ins[1..], e);
    }
  }

  /** The report reads the snapshot only through the student's courses and the notes. */
  lemma SameCoursesSameReport(d1: AppData, d2: AppData, s: Id)
    requires d1.notas == d2.notas && StudentCourses(d1, s) == StudentCourses(d2, s)
    ensures StudentReport(d1, s) == StudentReport(d2, s)
  {
    var courses := StudentCourses(d1, s);
    var r1, r2 := StudentReport(d1, s), StudentReport(d2, s);
    forall i | 0 <= i < |r1| ensures r1[i] == r2[i] {
      var m := Subjects(courses)[i];
      assert r1[i] == Row(d1, s, courses, m);
      assert r2[i] == Row(d2, s, courses, m);
    }
  }

  /**
   * A trimester's lists: practices and exams are each in slot order, and
   * together they hold exactly the trimester's notes; there is an average
   * exactly when the trimester has notes.
   */
  lemma TrimesterMeaning(notas: seq<Note>, s: Id, courseIds: seq<Id>, t: nat)
    ensures var rel := RelevantNotes(notas, s, courseIds, t);
      && SortedBySlot(OfKindSorted(rel, Practica)) && SortedBySlot(OfKindSorted(rel, Examen))
      && multiset(OfKindSorted(rel, Practica)) + multiset(OfKindSorted(rel, Examen)) == multiset(rel)
      && (Trimester(notas, s, courseIds, t).promedio.None? <==> rel == [])
  {
    var rel := RelevantNotes(notas, s, courseIds, t);
    FilterSplit(rel);
  }

  /** The practices and the exams of a sequence of notes make up the whole sequence. */
  lemma FilterSplit(ns: seq<Note>)
    ensures multiset(Filter(ns, (n: Note) => n.tipoNota == Practica)) + multiset(Filter(ns, (n: Note) => n.tipoNota == Examen))
      == multiset(ns)
  {
    FilterPartition(ns, (n: Note) => n.tipoNota == Practica, (n: Note) => n.tipoNota == Examen);
  }

  /** Every average of a report line lies in [0, 100]. */
  predicate RowWithin(r: ReportRow) {
    && (r.t1.promedio.Some? ==> 0 <= r.t1.promedio.value <= 100)
    && (r.t2.promedio.Some? ==> 0 <= r.t2.promedio.value <= 100)
    && (r.t3.promedio.Some? ==> 0 <= r.t3.promedio.value <= 100)
    && (r.finalAverage.Some? ==> 0 <= r.finalAverage.value <= 100)
  }

  /** With every score in [0, 100], every average on the report is in [0, 100]. */
  lemma ReportBounds(data: AppData, s: Id)
    requires forall k :: 0 <= k < |data.notas| ==> 0.0 <= data.notas[k].valorNota <= 100.0
    ensures forall i :: 0 <= i < |StudentReport(data, s)| ==> RowWithin(StudentReport(data, s)[i])
  {
    var courses := StudentCourses(data, s);
    var rs := StudentReport(data, s);
    forall i | 0 <= i < |rs| ensures RowWithin(rs[i]) {
      RowBounds(data, s, courses, Subjects(courses)[i]);
    }
  }

  lemma RowBounds(data: AppData, s: Id, courses: seq<Course>, m: string)
    requires forall k :: 0 <= k < |data.notas| ==> 0.0 <= data.notas[k].valorNota <= 100.0
    ensures RowWithin(Row(data, s, courses, m))
  {
    var ids := SubjectCourseIds(courses, m);
    var t1, t2, t3 := Trimester(data.notas, s, ids, 1), Trimester(data.notas, s, ids, 2), Trimester(data.notas, s, ids, 3);
    TrimesterBounds(data.notas, s, ids, 1);
    TrimesterBounds(data.notas, s, ids, 2);
    TrimesterBounds(data.notas, s, ids, 3);
    FinalAverageMeaning(t1.promedio, t2.promedio, t3.promedio);
    var fin := FinalAverage(t1.promedio, t2.promedio, t3.promedio);
    assert Row(data, s, courses, m) == ReportRow(m, t1, t2, t3, fin, Estado(fin));
  }

  lemma TrimesterBounds(notas: seq<Note>, s: Id, courseIds: seq<Id>, t: nat)
    requires forall k :: 0 <= k < |notas| ==> 0.0 <= notas[k].valorNota <= 100.0
    ensures Within(Trimester(notas, s, courseIds, t).promedio)
  {
    var rel := RelevantNotes(notas, s, courseIds, t);
    var vals := Values(rel);
    forall i | 0 <= i < |vals| ensures 0.0 <= vals[i] <= 100.0 {
      assert rel[i] in notas;
    }
    AverageBounds(vals);
  }
}
