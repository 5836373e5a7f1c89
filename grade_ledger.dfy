/**
 * The grade ledger: the notes of one (student, course) pair as the grading
 * form holds them (an object keyed by `trimestre-tipo_nota-numero_nota`),
 * clamping of edited values, turning the form back into note records
 * (`handleSave`) and replacing the pair's notes in the snapshot
 * (`handleSaveGrades`).
 */
module GradeLedger {
  import opened Common
  import opened Strings
  import opened Entities
  import opened OrderedObject

  /** A grading-form input: left empty (`''`) or holding a number. */
  datatype GradeInput = Blank | Score(value: real)

  /** The form's `localGrades` object: composite key to input. */
  type LocalGrades = Entries<string, GradeInput>

  /** The composite business key of a note within its (student, course) pair. */
  datatype Slot = Slot(trimestre: nat, tipo: Kind, numero: nat)

  /** The slots the form offers: trimesters 1 to 3, slots 1 to 5 of each kind. */
  predicate ValidSlot(s: Slot) {
    1 <= s.trimestre <= 3 && 1 <= s.numero <= 5
  }

  function SlotOf(n: Note): Slot {
    Slot(n.trimestre, n.tipoNota, n.numeroNota)
  }

  // ---------------------------------------------------------------------------
  // The composite key string
  // ---------------------------------------------------------------------------

  function KindName(k: Kind): string {
    match k
    case Practica => "practica"
    case Examen => "examen"
  }

  function ParseKind(s: string): (r: Option<Kind>)
    ensures r.Some? ==> KindName(r.value) == s
    ensures forall k :: s == KindName(k) ==> r == Some(k)
  {
    if s == "practica" then Some(Practica) else if s == "examen" then Some(Examen) else None
  }

  /** `${trimestre}-${tipo_nota}-${numero_nota}`. */
  function SlotKey(s: Slot): string {
    NatToString(s.trimestre) + "-" + KindName(s.tipo) + "-" + NatToString(s.numero)
  }

  /** `key.split('-')` read back into a slot, as `handleSave` does with `Number(...)`. */
  function ParseKey(key: string): Option<Slot> {
    var parts := Split(key, '-');
    if |parts| < 3 then None
    else
      match (ParseNat(parts[0]), ParseKind(parts[1]), ParseNat(parts[2]))
      case (Some(t), Some(k), Some(n)) => Some(Slot(t, k, n))
      case _ => None
  }

  /** Building the key of a slot and splitting it on '-' gives back the slot. */
  lemma KeyRoundTrip(s: Slot)
    ensures ParseKey(SlotKey(s)) == Some(s)
  {
    var a, b, c := NatToString(s.trimestre), KindName(s.tipo), NatToString(s.numero);
    assert '-' !in a && '-' !in c by {
      assert !IsDigit('-');
    }
    SplitNoSeparator(c, '-');
    SplitAfterPiece(b, '-', c);
    SplitAfterPiece(a, '-', b + "-" + c);
    assert SlotKey(s) == a + ['-'] + (b + ['-'] + c);
    ParseNatToString(s.trimestre);
    ParseNatToString(s.numero);
  }

  /** Different slots never share a key, so the form holds at most one input per slot. */
  lemma SlotKeyInjective(s: Slot, t: Slot)
    requires SlotKey(s) == SlotKey(t)
    ensures s == t
  {
    KeyRoundTrip(s);
    KeyRoundTrip(t);
  }

  /** A key as the form builds it: the key of the slot it parses to. */
  predicate CanonicalKey(key: string) {
    ParseKey(key).Some? && SlotKey(ParseKey(key).value) == key
  }

  lemma SlotKeyCanonical(s: Slot)
    ensures CanonicalKey(SlotKey(s)) && ParseKey(SlotKey(s)) == Some(s)
  {
    KeyRoundTrip(s);
  }

  // ---------------------------------------------------------------------------
  // The grading form's state
  // ---------------------------------------------------------------------------

  /** Every key of the form is the key of one of the offered slots. */
  predicate ValidKeys(g: LocalGrades) {
    forall i :: 0 <= i < |g| ==> CanonicalKey(g[i].0) && ValidSlot(ParseKey(g[i].0).value)
  }

  /** Every number in the form lies in [0, 100]. */
  predicate Clamped(g: LocalGrades) {
    forall i :: 0 <= i < |g| ==> g[i].1.Score? ==> 0.0 <= g[i].1.value <= 100.0
  }

  /** The invariant of the grading form's `localGrades`. */
  predicate GradesOk(g: LocalGrades) {
    DistinctKeys(g) && ValidKeys(g) && Clamped(g)
  }

  /** `Math.max(0, Math.min(100, v))`. */
  function Clamp(v: real): (r: real)
    ensures 0.0 <= r <= 100.0
    ensures 0.0 <= v <= 100.0 ==> r == v
    ensures v < 0.0 ==> r == 0.0
    ensures v > 100.0 ==> r == 100.0
  {
    var m := if v < 100.0 then v else 100.0;
    if m > 0.0 then m else 0.0
  }

  /** What `handleInputChange` stores for an input: empty stays empty, a number is clamped. */
  function InputValue(raw: GradeInput): (r: GradeInput)
    ensures r.Blank? <==> raw.Blank?
    ensures r.Score? ==> 0.0 <= r.value <= 100.0
    ensures raw.Score? && 0.0 <= raw.value <= 100.0 ==> r == raw
  {
    match raw
    case Blank => Blank
    case Score(v) => Score(Clamp(v))
  }

  /** `handleInputChange(trimestre, tipo_nota, numero_nota, value)`. */
  function InputChange(g: LocalGrades, slot: Slot, raw: GradeInput): LocalGrades {
    Put(g, SlotKey(slot), InputValue(raw))
  }

  /** After an edit the slot holds the clamped value, and every other slot is as before. */
  lemma InputChangeEffect(g: LocalGrades, slot: Slot, raw: GradeInput, other: Slot)
    ensures Get(InputChange(g, slot, raw), SlotKey(slot)) == Some(InputValue(raw))
    ensures other != slot ==> Get(InputChange(g, slot, raw), SlotKey(other)) == Get(g, SlotKey(other))
  {
    PutGetSame(g, SlotKey(slot), InputValue(raw));
    if other != slot {
      if SlotKey(other) == SlotKey(slot) {
        SlotKeyInjective(other, slot);
      }
      PutGetOther(g, SlotKey(slot), InputValue(raw), SlotKey(other));
    }
  }

  /** Editing an offered slot keeps the form's invariant: keys distinct and valid, values clamped. */
  lemma InputChangeOk(g: LocalGrades, slot: Slot, raw: GradeInput)
    requires GradesOk(g) && ValidSlot(slot)
    ensures GradesOk(InputChange(g, slot, raw))
  {
    var k, v := SlotKey(slot), InputValue(raw);
    var r := Put(g, k, v);
    PutDistinct(g, k, v);
    SlotKeyCanonical(slot);
    forall i | 0 <= i < |r| ensures CanonicalKey(r[i].0) && ValidSlot(ParseKey(r[i].0).value)
      && (r[i].1.Score? ==> 0.0 <= r[i].1.value <= 100.0)
    {
      PutEntries(g, k, v, i);
      if r[i] != (k, v) {
        var j :| 0 <= j < |g| && g[j] == r[i];
      }
    }
  }

  // ---------------------------------------------------------------------------
  // Loading the form from the snapshot
  // ---------------------------------------------------------------------------

  /** `appData.notas.filter(n => n.id_alumno === s && n.id_curso === c)`. */
  function PairNotes(notas: seq<Note>, s: Id, c: Id): seq<Note> {
    Filter(notas, (n: Note) => n.idAlumno == s && n.idCurso == c)
  }

  /** The other pairs' notes: `filter(n => !(n.id_alumno === s && n.id_curso === c))`. */
  function OtherNotes(notas: seq<Note>, s: Id, c: Id): seq<Note> {
    Filter(notas, (n: Note) => !(n.idAlumno == s && n.idCurso == c))
  }

  /** What the `forEach` over `ns` leaves in the initially empty `notesMap`. */
  function Loaded(ns: seq<Note>): LocalGrades {
    if ns == [] then []
    else
      var last := ns[|ns| - 1];
      Put(Loaded(ns[..|ns| - 1]), SlotKey(SlotOf(last)), Score(last.valorNota))
  }

  /** The form's load step (the `useEffect` of `GradingModal`). */
  method LoadGrades(notas: seq<Note>, s: Id, c: Id) returns (notesMap: LocalGrades)
    ensures notesMap == Loaded(PairNotes(notas, s, c))
  {
    var studentCourseNotes := PairNotes(notas, s, c);
    notesMap := [];
    var i := 0;
    while i < |studentCourseNotes|
      invariant 0 <= i <= |studentCourseNotes|
      invariant notesMap == Loaded(studentCourseNotes[..i])
    {
      var note := studentCourseNotes[i];
      LoadedStep(studentCourseNotes, i);
      notesMap := Put(notesMap, SlotKey(SlotOf(note)), Score(note.valorNota));
      i := i + 1;
    }
    assert studentCourseNotes[..i] == studentCourseNotes;
  }

  /** One more note loaded: its slot's entry is written. */
  lemma LoadedStep(ns: seq<Note>, i: nat)
    requires i < |ns|
    ensures Loaded(ns[..i + 1]) == Put(Loaded(ns[..i]), SlotKey(SlotOf(ns[i])), Score(ns[i].valorNota))
  {
    assert ns[..i + 1][..i] == ns[..i];
  }

  /** A note is stored correctly: an offered slot and a score in [0, 100]. */
  predicate ValidNote(n: Note) {
    ValidSlot(SlotOf(n)) && 0.0 <= n.valorNota <= 100.0
  }

  /** Two notes that claim the same composite business key. */
  predicate Clash(a: Note, b: Note) {
    a.idAlumno == b.idAlumno && a.idCurso == b.idCurso && SlotOf(a) == SlotOf(b)
  }

  /** At most one note per (student, course, trimester, kind, slot). */
  predicate UniqueSlots(notas: seq<Note>) {
    forall i, j :: 0 <= i < j < |notas| ==> !Clash(notas[i], notas[j])
  }

  /** No two notes of a sequence share a slot. */
  predicate DistinctSlots(ns: seq<Note>) {
    forall i, j :: 0 <= i < j < |ns| ==> SlotOf(ns[i]) != SlotOf(ns[j])
  }

  /** The notes of one pair in a snapshot with unique keys occupy distinct slots. */
  lemma {:induction false} PairNotesDistinctSlots(notas: seq<Note>, s: Id, c: Id)
    requires UniqueSlots(notas)
    ensures DistinctSlots(PairNotes(notas, s, c))
  {
    if notas != [] {
      var p := (n: Note) => n.idAlumno == s && n.idCurso == c;
      assert UniqueSlots(notas[1..]) by {
        forall a, b | 0 <= a < b < |notas[1..]| ensures !Clash(notas[1..][a], notas[1..][b]) {
          assert notas[1..][a] == notas[a + 1] && notas[1..][b] == notas[b + 1];
        }
      }
      PairNotesDistinctSlots(notas[1..], s, c);
      var rest := PairNotes(notas[1..], s, c);
      assert PairNotes(notas, s, c) == (if p(notas[0]) then [notas[0]] else []) + rest;
      if p(notas[0]) {
        forall j | 0 <= j < |rest| ensures SlotOf(notas[0]) != SlotOf(rest[j]) {
          assert rest[j] in notas[1..];
          var m :| 0 <= m < |notas[1..]| && notas[1..][m] == rest[j];
          assert !Clash(notas[0], notas[m + 1]);
        }
      }
    }
  }

  /** The loaded form has distinct keys. */
  lemma {:induction false} LoadedDistinct(ns: seq<Note>)
    ensures DistinctKeys(Loaded(ns))
  {
    if ns != [] {
      var last := ns[|ns| - 1];
      LoadedDistinct(ns[..|ns| - 1]);
      PutDistinct(Loaded(ns[..|ns| - 1]), SlotKey(SlotOf(last)), Score(last.valorNota));
    }
  }

  /** Every key of the loaded form is the key of a note's slot; so it is canonical. */
  lemma {:induction false} LoadedKeys(ns: seq<Note>)
    ensures forall i :: 0 <= i < |Loaded(ns)| ==>
      CanonicalKey(Loaded(ns)[i].0) && exists j :: 0 <= j < |ns| && Loaded(ns)[i].0 == SlotKey(SlotOf(ns[j]))
  {
    if ns != [] {
      var init, last := ns[..|ns| - 1], ns[|ns| - 1];
      var k, v := SlotKey(SlotOf(last)), Score(last.valorNota);
      var prev := Loaded(init);
      var r := Put(prev, k, v);
      LoadedKeys(init);
      SlotKeyCanonical(SlotOf(last));
      forall i | 0 <= i < |r|
        ensures CanonicalKey(r[i].0) && exists j :: 0 <= j < |ns| && r[i].0 == SlotKey(SlotOf(ns[j]))
      {
        if Get(prev, k).Some? || i < |prev| {
          if Get(prev, k).Some? {
            assert Keys(r)[i] == Keys(prev)[i];
          }
          var j :| 0 <= j < |init| && prev[i].0 == SlotKey(SlotOf(init[j]));
          assert init[j] == ns[j];
        } else {
          assert r[i].0 == SlotKey(SlotOf(ns[|ns| - 1]));
        }
      }
    }
  }

  /** Every note's slot has an entry in the loaded form. */
  lemma LoadedCovers(ns: seq<Note>)
    ensures forall j :: 0 <= j < |ns| ==> Get(Loaded(ns), SlotKey(SlotOf(ns[j]))).Some?
  {
    forall j | 0 <= j < |ns| ensures Get(Loaded(ns), SlotKey(SlotOf(ns[j]))).Some? {
      LoadedCoversAt(ns, j);
    }
  }

  lemma {:induction false} LoadedCoversAt(ns: seq<Note>, j: nat)
    requires j < |ns|
    ensures Get(Loaded(ns), SlotKey(SlotOf(ns[j]))).Some?
  {
    if j == |ns| - 1 {
      LoadedLast(ns);
    } else {
      assert ns[..|ns| - 1][j] == ns[j];
      LoadedCoversAt(ns[..|ns| - 1], j);
      LoadedCoversStep(ns, j);
    }
  }

  lemma LoadedCoversStep(ns: seq<Note>, j: nat)
    requires j < |ns| - 1
    requires Get(Loaded(ns[..|ns| - 1]), SlotKey(SlotOf(ns[j]))).Some?
    ensures Get(Loaded(ns), SlotKey(SlotOf(ns[j]))).Some?
  {
    var last := ns[|ns| - 1];
    var k, v := SlotKey(SlotOf(last)), Score(last.valorNota);
    if SlotKey(SlotOf(ns[j])) == k {
      PutGetSame(Loaded(ns[..|ns| - 1]), k, v);
    } else {
      PutGetOther(Loaded(ns[..|ns| - 1]), k, v, SlotKey(SlotOf(ns[j])));
    }
  }

  /** When the notes occupy distinct slots, each slot of the loaded form shows its note's score. */
  lemma LoadedValues(ns: seq<Note>)
    requires DistinctSlots(ns)
    ensures forall j :: 0 <= j < |ns| ==> Get(Loaded(ns), SlotKey(SlotOf(ns[j]))) == Some(Score(ns[j].valorNota))
  {
    forall j | 0 <= j < |ns| ensures Get(Loaded(ns), SlotKey(SlotOf(ns[j]))) == Some(Score(ns[j].valorNota)) {
      LoadedValueAt(ns, j);
    }
  }

  lemma {:induction false} LoadedValueAt(ns: seq<Note>, j: nat)
    requires DistinctSlots(ns) && j < |ns|
    ensures Get(Loaded(ns), SlotKey(SlotOf(ns[j]))) == Some(Score(ns[j].valorNota))
  {
    if j == |ns| - 1 {
      LoadedLast(ns);
    } else {
      DistinctSlotsPrefix(ns, |ns| - 1);
      assert ns[..|ns| - 1][j] == ns[j];
      LoadedValueAt(ns[..|ns| - 1], j);
      LoadedValuesStep(ns, j);
    }
  }

  lemma LoadedLast(ns: seq<Note>)
    requires ns != []
    ensures Get(Loaded(ns), SlotKey(SlotOf(ns[|ns| - 1]))) == Some(Score(ns[|ns| - 1].valorNota))
  {
    var last := ns[|ns| - 1];
    PutGetSame(Loaded(ns[..|ns| - 1]), SlotKey(SlotOf(last)), Score(last.valorNota));
  }

  lemma DistinctSlotsPrefix(ns: seq<Note>, n: nat)
    requires DistinctSlots(ns) && n <= |ns|
    ensures DistinctSlots(ns[..n])
  {
    forall a, b | 0 <= a < b < n ensures SlotOf(ns[..n][a]) != SlotOf(ns[..n][b]) {
      assert ns[..n][a] == ns[a] && ns[..n][b] == ns[b];
    }
  }

  lemma LoadedValuesStep(ns: seq<Note>, j: nat)
    requires DistinctSlots(ns) && j < |ns| - 1
    requires Get(Loaded(ns[..|ns| - 1]), SlotKey(SlotOf(ns[j]))) == Some(Score(ns[j].valorNota))
    ensures Get(Loaded(ns), SlotKey(SlotOf(ns[j]))) == Some(Score(ns[j].valorNota))
  {
    var last := ns[|ns| - 1];
    var k := SlotKey(SlotOf(last));
    assert SlotOf(ns[j]) != SlotOf(last);
    if SlotKey(SlotOf(ns[j])) == k {
      SlotKeyInjective(SlotOf(ns[j]), SlotOf(last));
    }
    PutGetOther(Loaded(ns[..|ns| - 1]), k, Score(last.valorNota), SlotKey(SlotOf(ns[j])));
  }

  // ---------------------------------------------------------------------------
  // Saving the form: handleSave and handleSaveGrades
  // ---------------------------------------------------------------------------

  /** `n` is the note of student `s` in course `c` at `slot`. */
  predicate AtSlot(n: Note, s: Id, c: Id, slot: Slot) {
    n.idAlumno == s && n.idCurso == c && SlotOf(n) == slot
  }

  /** Position `i` holds the first note of the pair at `slot`. */
  predicate FirstAt(notas: seq<Note>, s: Id, c: Id, slot: Slot, i: int) {
    FirstIndex(notas, (n: Note) => AtSlot(n, s, c, slot), i)
  }

  /** `appData.notas.find(...)`: the first note of the pair at `slot`. */
  function FindNote(notas: seq<Note>, s: Id, c: Id, slot: Slot): (r: Option<Note>)
    ensures r.Some? ==> AtSlot(r.value, s, c, slot)
    ensures r.Some? ==> exists i :: FirstAt(notas, s, c, slot, i) && notas[i] == r.value
    ensures r.None? <==> forall i :: 0 <= i < |notas| ==> !AtSlot(notas[i], s, c, slot)
  {
    Find(notas, (n: Note) => AtSlot(n, s, c, slot))
  }

  /** The id a saved note gets: the existing note's `id_nota`, or the supplied fresh one. */
  function IdFor(notas: seq<Note>, s: Id, c: Id, slot: Slot, freshId: Id): Id {
    match FindNote(notas, s, c, slot)
    case Some(e) => e.idNota
    case None => freshId
  }

  /** One entry of `Object.entries(localGrades)` mapped to a note, or dropped. */
  function EntryNote(notas: seq<Note>, s: Id, c: Id, entry: (string, GradeInput), freshId: Id): (r: Option<Note>)
    ensures r.Some? <==> entry.1.Score? && ParseKey(entry.0).Some?
    ensures r.Some? ==> ParseKey(entry.0) == Some(SlotOf(r.value)) && entry.1 == Score(r.value.valorNota)
    ensures r.Some? ==> r.value.idAlumno == s && r.value.idCurso == c
    ensures r.Some? ==> r.value.idNota == IdFor(notas, s, c, SlotOf(r.value), freshId)
  {
    match entry.1
    case Blank => None
    case Score(v) =>
      match ParseKey(entry.0)
      case None => None
      case Some(slot) => Some(Note(IdFor(notas, s, c, slot, freshId), s, c, slot.trimestre, slot.tipo, slot.numero, v))
  }

  /**
   * `handleSave`: the notes the form turns into, in entry order. `freshIds[i]`
   * stands for the id `Date.now()`/`Math.random()` would mint for entry `i`.
   */
  function SaveNotes(notas: seq<Note>, s: Id, c: Id, g: LocalGrades, freshIds: seq<Id>): (r: seq<Note>)
    requires |freshIds| == |g|
    ensures |r| <= |g|
    ensures forall i :: 0 <= i < |r| ==> r[i].idAlumno == s && r[i].idCurso == c
  {
    if g == [] then []
    else
      var rest := SaveNotes(notas, s, c, g[1..], freshIds[1..]);
      match EntryNote(notas, s, c, g[0], freshIds[0])
      case None => rest
      case Some(n) => [n] + rest
  }

  /**
   * `handleSaveGrades`: replace every note of the pair named by the first new
   * note with the new notes; no new notes (or an empty id) changes nothing.
   */
  function SaveGrades(notas: seq<Note>, newGrades: seq<Note>): seq<Note> {
    if |newGrades| == 0 || newGrades[0].idAlumno == "" || newGrades[0].idCurso == "" then notas
    else OtherNotes(notas, newGrades[0].idAlumno, newGrades[0].idCurso) + newGrades
  }

  /** The form entry (index `j`) a saved note came from. */
  predicate Origin(notas: seq<Note>, s: Id, c: Id, g: LocalGrades, freshIds: seq<Id>, j: int, n: Note) {
    0 <= j < |g| && j < |freshIds| && EntryNote(notas, s, c, g[j], freshIds[j]) == Some(n)
  }

  /** `n` is what some entry of the form turns into. */
  predicate FromForm(notas: seq<Note>, s: Id, c: Id, g: LocalGrades, freshIds: seq<Id>, n: Note) {
    exists j :: 0 <= j < |g| && Origin(notas, s, c, g, freshIds, j, n)
  }

  /** Every saved note comes from an entry of the form. */
  lemma SaveNotesOrigin(notas: seq<Note>, s: Id, c: Id, g: LocalGrades, freshIds: seq<Id>)
    requires |freshIds| == |g|
    ensures forall i :: 0 <= i < |SaveNotes(notas, s, c, g, freshIds)| ==>
      FromForm(notas, s, c, g, freshIds, SaveNotes(notas, s, c, g, freshIds)[i])
  {
    var r := SaveNotes(notas, s, c, g, freshIds);
    forall i | 0 <= i < |r| ensures FromForm(notas, s, c, g, freshIds, r[i]) {
      var j := OriginAt(notas, s, c, g, freshIds, i);
    }
  }

  /** The entry saved note `i` came from. */
  lemma {:induction false} OriginAt(notas: seq<Note>, s: Id, c: Id, g: LocalGrades, freshIds: seq<Id>, i: nat)
    returns (j: nat)
    requires |freshIds| == |g| && i < |SaveNotes(notas, s, c, g, freshIds)|
    ensures Origin(notas, s, c, g, freshIds, j, SaveNotes(notas, s, c, g, freshIds)[i])
  {
    var rest := SaveNotes(notas, s, c, g[1..], freshIds[1..]);
    var e := EntryNote(notas, s, c, g[0], freshIds[0]);
    if e.Some? && i == 0 {
      j := 0;
    } else {
      var off := if e.Some? then 1 else 0;
      assert SaveNotes(notas, s, c, g, freshIds)[i] == rest[i - off];
      var k := OriginAt(notas, s, c, g[1..], freshIds[1..], i - off);
      assert g[1..][k] == g[k + 1] && freshIds[1..][k] == freshIds[k + 1];
      j := k + 1;
    }
  }

  /** Every entry that yields a note has that note among the saved ones. */
  lemma {:induction false} SaveNotesCovers(notas: seq<Note>, s: Id, c: Id, g: LocalGrades, freshIds: seq<Id>, j: nat)
    requires |freshIds| == |g| && j < |g|
    requires EntryNote(notas, s, c, g[j], freshIds[j]).Some?
    ensures EntryNote(notas, s, c, g[j], freshIds[j]).value in SaveNotes(notas, s, c, g, freshIds)
  {
    if j > 0 {
      assert g[1..][j - 1] == g[j] && freshIds[1..][j - 1] == freshIds[j];
      SaveNotesCovers(notas, s, c, g[1..], freshIds[1..], j - 1);
    }
  }

  /** Every key of the form is canonical. */
  predicate CanonicalKeys(g: LocalGrades) {
    forall i :: 0 <= i < |g| ==> CanonicalKey(g[i].0)
  }

  lemma CanonicalKeysTail(g: LocalGrades)
    requires g != [] && CanonicalKeys(g) && DistinctKeys(g)
    ensures CanonicalKeys(g[1..]) && DistinctKeys(g[1..])
    ensures forall i :: 0 <= i < |g[1..]| ==> g[1..][i].0 != g[0].0
  {
    forall i | 0 <= i < |g[1..]| ensures CanonicalKey(g[1..][i].0) && g[1..][i].0 != g[0].0 {
      assert g[1..][i] == g[i + 1];
    }
    forall a, b | 0 <= a < b < |g[1..]| ensures g[1..][a].0 != g[1..][b].0 {
      assert g[1..][a] == g[a + 1] && g[1..][b] == g[b + 1];
    }
  }

  /** A saved note's slot key is the key of the entry it came from. */
  lemma OriginKey(notas: seq<Note>, s: Id, c: Id, g: LocalGrades, freshIds: seq<Id>, j: int, n: Note)
    requires Origin(notas, s, c, g, freshIds, j, n) && CanonicalKey(g[j].0)
    ensures g[j] == (SlotKey(SlotOf(n)), Score(n.valorNota))
  {
  }

  /** Saved notes occupy distinct slots, because the form's keys are distinct. */
  lemma {:induction false} SaveNotesDistinctSlots(notas: seq<Note>, s: Id, c: Id, g: LocalGrades, freshIds: seq<Id>)
    requires |freshIds| == |g| && CanonicalKeys(g) && DistinctKeys(g)
    ensures DistinctSlots(SaveNotes(notas, s, c, g, freshIds))
  {
    if g != [] {
      var rest := SaveNotes(notas, s, c, g[1..], freshIds[1..]);
      CanonicalKeysTail(g);
      SaveNotesDistinctSlots(notas, s, c, g[1..], freshIds[1..]);
      var e := EntryNote(notas, s, c, g[0], freshIds[0]);
      if e.Some? {
        assert SaveNotes(notas, s, c, g, freshIds) == [e.value] + rest;
        SaveNotesOrigin(notas, s, c, g[1..], freshIds[1..]);
        OriginKey(notas, s, c, g, freshIds, 0, e.value);
        forall i | 0 <= i < |rest| ensures SlotOf(e.value) != SlotOf(rest[i]) {
          assert FromForm(notas, s, c, g[1..], freshIds[1..], rest[i]);
          var k :| 0 <= k < |g[1..]| && Origin(notas, s, c, g[1..], freshIds[1..], k, rest[i]);
          OriginKey(notas, s, c, g[1..], freshIds[1..], k, rest[i]);
        }
        DistinctSlotsCons(e.value, rest);
      }
    }
  }

  /** Prepending a note whose slot is new keeps the slots distinct. */
  lemma DistinctSlotsCons(n: Note, ns: seq<Note>)
    requires DistinctSlots(ns)
    requires forall i :: 0 <= i < |ns| ==> SlotOf(n) != SlotOf(ns[i])
    ensures DistinctSlots([n] + ns)
  {
    var r := [n] + ns;
    forall a, b | 0 <= a < b < |r| ensures SlotOf(r[a]) != SlotOf(r[b]) {
      assert r[b] == ns[b - 1];
      if a > 0 {
        assert r[a] == ns[a - 1];
      }
    }
  }

  /**
   * What `handleSave` produces, read against the form: each saved note holds
   * the entry of its slot, every non-empty entry is saved, slots are distinct,
   * and a note whose slot was already occupied keeps that note's `id_nota`.
   */
  lemma SaveNotesMeaning(notas: seq<Note>, s: Id, c: Id, g: LocalGrades, freshIds: seq<Id>)
    requires |freshIds| == |g| && CanonicalKeys(g) && DistinctKeys(g)
    ensures forall i :: 0 <= i < |SaveNotes(notas, s, c, g, freshIds)| ==>
      Get(g, SlotKey(SlotOf(SaveNotes(notas, s, c, g, freshIds)[i]))) ==
      Some(Score(SaveNotes(notas, s, c, g, freshIds)[i].valorNota))
    ensures forall slot :: Get(g, SlotKey(slot)).Some? && Get(g, SlotKey(slot)).value.Score? ==>
      exists i :: 0 <= i < |SaveNotes(notas, s, c, g, freshIds)|
        && SlotOf(SaveNotes(notas, s, c, g, freshIds)[i]) == slot
        && Score(SaveNotes(notas, s, c, g, freshIds)[i].valorNota) == Get(g, SlotKey(slot)).value
    ensures DistinctSlots(SaveNotes(notas, s, c, g, freshIds))
    ensures forall i :: 0 <= i < |SaveNotes(notas, s, c, g, freshIds)| ==>
      var n := SaveNotes(notas, s, c, g, freshIds)[i];
      match FindNote(notas, s, c, SlotOf(n))
      case Some(e) => n.idNota == e.idNota
      case None => n.idNota in freshIds
  {
    var r := SaveNotes(notas, s, c, g, freshIds);
    SaveNotesOrigin(notas, s, c, g, freshIds);
    SaveNotesDistinctSlots(notas, s, c, g, freshIds);
    forall i | 0 <= i < |r|
      ensures Get(g, SlotKey(SlotOf(r[i]))) == Some(Score(r[i].valorNota))
      ensures match FindNote(notas, s, c, SlotOf(r[i]))
        case Some(e) => r[i].idNota == e.idNota
        case None => r[i].idNota in freshIds
    {
      assert FromForm(notas, s, c, g, freshIds, r[i]);
      var j :| 0 <= j < |g| && Origin(notas, s, c, g, freshIds, j, r[i]);
      OriginKey(notas, s, c, g, freshIds, j, r[i]);
      GetAt(g, j);
    }
    forall slot | Get(g, SlotKey(slot)).Some? && Get(g, SlotKey(slot)).value.Score?
      ensures exists i :: 0 <= i < |r| && SlotOf(r[i]) == slot && Score(r[i].valorNota) == Get(g, SlotKey(slot)).value
    {
      var j :| 0 <= j < |g| && g[j] == (SlotKey(slot), Get(g, SlotKey(slot)).value);
      SlotKeyCanonical(slot);
      var n := EntryNote(notas, s, c, g[j], freshIds[j]).value;
      SaveNotesCovers(notas, s, c, g, freshIds, j);
      var i :| 0 <= i < |r| && r[i] == n;
    }
  }

  /** Every note of `ns` belongs to student `s` in course `c`. */
  predicate AllOfPair(ns: seq<Note>, s: Id, c: Id) {
    forall i :: 0 <= i < |ns| ==> ns[i].idAlumno == s && ns[i].idCurso == c
  }

  /**
   * `handleSaveGrades` on the snapshot: with no new notes (or an empty id) the
   * notes stay as they were; otherwise the pair's notes become exactly the new
   * ones and every other pair keeps its notes.
   */
  lemma SaveGradesEffect(notas: seq<Note>, newGrades: seq<Note>, s: Id, c: Id, s': Id, c': Id)
    requires AllOfPair(newGrades, s, c)
    ensures newGrades == [] || s == "" || c == "" ==> SaveGrades(notas, newGrades) == notas
    ensures newGrades != [] && s != "" && c != "" ==> PairNotes(SaveGrades(notas, newGrades), s, c) == newGrades
    ensures (s', c') != (s, c) ==> PairNotes(SaveGrades(notas, newGrades), s', c') == PairNotes(notas, s', c')
  {
    if newGrades != [] && s != "" && c != "" {
      var others := OtherNotes(notas, s, c);
      var p := (n: Note) => n.idAlumno == s && n.idCurso == c;
      var p' := (n: Note) => n.idAlumno == s' && n.idCurso == c';
      var notP := (n: Note) => !(n.idAlumno == s && n.idCurso == c);
      assert SaveGrades(notas, newGrades) == others + newGrades;
      FilterConcat(others, newGrades, p);
      FilterNone(others, p);
      FilterAll(newGrades, p);
      if (s', c') != (s, c) {
        FilterConcat(others, newGrades, p');
        FilterNone(newGrades, p');
        FilterFilter(notas, notP, p');
      }
    }
  }

  /** A form whose inputs are all empty saves no notes, so the snapshot keeps the pair's old notes. */
  lemma {:induction false} SaveAllBlankKeepsNotes(notas: seq<Note>, s: Id, c: Id, g: LocalGrades, freshIds: seq<Id>)
    requires |freshIds| == |g|
    requires forall i :: 0 <= i < |g| ==> g[i].1.Blank?
    ensures SaveNotes(notas, s, c, g, freshIds) == []
    ensures SaveGrades(notas, SaveNotes(notas, s, c, g, freshIds)) == notas
  {
    if g != [] {
      SaveAllBlankKeepsNotes(notas, s, c, g[1..], freshIds[1..]);
    }
  }

  /** Which entries yield a note depends on the form alone, not on the snapshot or the fresh ids. */
  lemma {:induction false} SaveNotesLength(notas: seq<Note>, notas': seq<Note>, s: Id, c: Id, g: LocalGrades,
                                           ids: seq<Id>, ids': seq<Id>)
    requires |ids| == |g| && |ids'| == |g|
    ensures |SaveNotes(notas, s, c, g, ids)| == |SaveNotes(notas', s, c, g, ids')|
  {
    if g != [] {
      SaveNotesLength(notas, notas', s, c, g[1..], ids[1..], ids'[1..]);
    }
  }

  /** Every entry that yields a note gets the same id whether saved against one snapshot or the other. */
  predicate IdsAgree(notas: seq<Note>, notas': seq<Note>, s: Id, c: Id, g: LocalGrades, ids: seq<Id>, ids': seq<Id>)
    requires |ids| == |g| && |ids'| == |g|
  {
    forall j :: 0 <= j < |g| && g[j].1.Score? && ParseKey(g[j].0).Some? ==>
      IdFor(notas', s, c, ParseKey(g[j].0).value, ids'[j]) == IdFor(notas, s, c, ParseKey(g[j].0).value, ids[j])
  }

  /** Saving a form against two snapshots that agree on the ids gives the same notes. */
  lemma {:induction false} SaveNotesSameIds(notas: seq<Note>, notas': seq<Note>, s: Id, c: Id, g: LocalGrades,
                                            ids: seq<Id>, ids': seq<Id>)
    requires |ids| == |g| && |ids'| == |g|
    requires IdsAgree(notas, notas', s, c, g, ids, ids')
    ensures SaveNotes(notas', s, c, g, ids') == SaveNotes(notas, s, c, g, ids)
  {
    if g != [] {
      assert IdsAgree(notas, notas', s, c, g[1..], ids[1..], ids'[1..]) by {
        forall j | 0 <= j < |g[1..]| && g[1..][j].1.Score? && ParseKey(g[1..][j].0).Some?
          ensures IdFor(notas', s, c, ParseKey(g[1..][j].0).value, ids'[1..][j])
            == IdFor(notas, s, c, ParseKey(g[1..][j].0).value, ids[1..][j])
        {
          assert g[1..][j] == g[j + 1] && ids[1..][j] == ids[j + 1] && ids'[1..][j] == ids'[j + 1];
        }
      }
      SaveNotesSameIds(notas, notas', s, c, g[1..], ids[1..], ids'[1..]);
    }
  }

  /** A prefix without notes of the pair at `slot` does not change what `find` returns. */
  lemma {:induction false} FindNoteSkip(a: seq<Note>, b: seq<Note>, s: Id, c: Id, slot: Slot)
    requires forall i :: 0 <= i < |a| ==> !AtSlot(a[i], s, c, slot)
    ensures FindNote(a + b, s, c, slot) == FindNote(b, s, c, slot)
  {
    if a != [] {
      assert (a + b)[1..] == a[1..] + b;
      FindNoteSkip(a[1..], b, s, c, slot);
    } else {
      assert a + b == b;
    }
  }

  /** In notes of one pair with distinct slots, `find` returns the note at the slot. */
  lemma FindNoteDistinct(ns: seq<Note>, s: Id, c: Id, i: nat)
    requires AllOfPair(ns, s, c) && DistinctSlots(ns) && i < |ns|
    ensures FindNote(ns, s, c, SlotOf(ns[i])) == Some(ns[i])
  {
    var r := FindNote(ns, s, c, SlotOf(ns[i]));
    assert AtSlot(ns[i], s, c, SlotOf(ns[i]));
    var k :| FirstAt(ns, s, c, SlotOf(ns[i]), k) && ns[k] == r.value;
  }

  /**
   * Saving the same form twice: the second save produces the same notes (every
   * note now finds itself and keeps its id) and leaves the snapshot as the
   * first save left it.
   */
  lemma SaveTwice(notas: seq<Note>, s: Id, c: Id, g: LocalGrades, ids1: seq<Id>, ids2: seq<Id>)
    requires |ids1| == |g| && |ids2| == |g| && CanonicalKeys(g) && DistinctKeys(g)
    ensures var n1 := SaveNotes(notas, s, c, g, ids1);
      var notas1 := SaveGrades(notas, n1);
      SaveGrades(notas1, SaveNotes(notas1, s, c, g, ids2)) == notas1
    ensures var n1 := SaveNotes(notas, s, c, g, ids1);
      s != "" && c != "" ==> SaveNotes(SaveGrades(notas, n1), s, c, g, ids2) == n1
  {
    var n1 := SaveNotes(notas, s, c, g, ids1);
    var notas1 := SaveGrades(notas, n1);
    var n2 := SaveNotes(notas1, s, c, g, ids2);
    SaveNotesLength(notas, notas1, s, c, g, ids1, ids2);
    if n1 == [] || s == "" || c == "" {
      if n1 != [] {
        assert n2[0].idAlumno == s && n2[0].idCurso == c;
      }
      if s != "" && c != "" {
        assert n1 == [] && n2 == [];
      }
    } else {
      var others := OtherNotes(notas, s, c);
      assert notas1 == others + n1;
      SaveNotesMeaning(notas, s, c, g, ids1);
      assert AllOfPair(n1, s, c);
      assert IdsAgree(notas, notas1, s, c, g, ids1, ids2) by {
        forall j | 0 <= j < |g| && g[j].1.Score? && ParseKey(g[j].0).Some?
          ensures IdFor(notas1, s, c, ParseKey(g[j].0).value, ids2[j]) == IdFor(notas, s, c, ParseKey(g[j].0).value, ids1[j])
        {
          var slot := ParseKey(g[j].0).value;
          var m := EntryNote(notas, s, c, g[j], ids1[j]).value;
          SaveNotesCovers(notas, s, c, g, ids1, j);
          var i :| 0 <= i < |n1| && n1[i] == m;
          FindNoteSkip(others, n1, s, c, slot);
          FindNoteDistinct(n1, s, c, i);
        }
      }
      SaveNotesSameIds(notas, notas1, s, c, g, ids1, ids2);
      var notP := (n: Note) => !(n.idAlumno == s && n.idCurso == c);
      FilterConcat(others, n1, notP);
      FilterNone(n1, notP);
      FilterFilter(notas, notP, notP);
      assert OtherNotes(notas1, s, c) == others;
    }
  }

  /** Every note of the snapshot is stored correctly. */
  predicate AllValid(notas: seq<Note>) {
    forall i :: 0 <= i < |notas| ==> ValidNote(notas[i])
  }

  /** A form that keeps its invariant saves only correctly stored notes. */
  lemma SaveNotesValid(notas: seq<Note>, s: Id, c: Id, g: LocalGrades, freshIds: seq<Id>)
    requires |freshIds| == |g| && GradesOk(g)
    ensures AllValid(SaveNotes(notas, s, c, g, freshIds))
  {
    var r := SaveNotes(notas, s, c, g, freshIds);
    SaveNotesOrigin(notas, s, c, g, freshIds);
    forall i | 0 <= i < |r| ensures ValidNote(r[i]) {
      assert FromForm(notas, s, c, g, freshIds, r[i]);
      var j :| 0 <= j < |g| && Origin(notas, s, c, g, freshIds, j, r[i]);
    }
  }

  /** Replacing a pair's notes with correctly stored ones keeps every note correctly stored. */
  lemma SaveGradesValid(notas: seq<Note>, newGrades: seq<Note>)
    requires AllValid(notas) && AllValid(newGrades)
    ensures AllValid(SaveGrades(notas, newGrades))
  {
    var r := SaveGrades(notas, newGrades);
    if r != notas {
      var others := OtherNotes(notas, newGrades[0].idAlumno, newGrades[0].idCurso);
      forall i | 0 <= i < |r| ensures ValidNote(r[i]) {
        if i < |others| {
          assert r[i] == others[i] && others[i] in notas;
        } else {
          assert r[i] == newGrades[i - |others|];
        }
      }
    }
  }

  /** Filtering keeps the composite keys unique. */
  lemma {:induction false} FilterUniqueSlots(notas: seq<Note>, p: Note -> bool)
    requires UniqueSlots(notas)
    ensures UniqueSlots(Filter(notas, p))
  {
    if notas != [] {
      var x, t := notas[0], notas[1..];
      assert notas == [x] + t;
      UniqueSlotsTail(notas);
      FilterUniqueSlots(t, p);
      FilterCons(x, t, p);
      if p(x) {
        var rest := Filter(t, p);
        forall m | 0 <= m < |rest| ensures !Clash(x, rest[m]) {
          assert rest[m] in t;
          var k :| 0 <= k < |t| && t[k] == rest[m];
          assert notas[k + 1] == t[k];
        }
        UniqueSlotsCons(x, rest);
      }
    }
  }

  lemma UniqueSlotsTail(notas: seq<Note>)
    requires UniqueSlots(notas) && notas != []
    ensures UniqueSlots(notas[1..])
  {
    forall a, b | 0 <= a < b < |notas[1..]| ensures !Clash(notas[1..][a], notas[1..][b]) {
      assert notas[1..][a] == notas[a + 1] && notas[1..][b] == notas[b + 1];
    }
  }

  lemma UniqueSlotsCons(x: Note, rest: seq<Note>)
    requires UniqueSlots(rest) && forall m :: 0 <= m < |rest| ==> !Clash(x, rest[m])
    ensures UniqueSlots([x] + rest)
  {
    var r := [x] + rest;
    forall a, b | 0 <= a < b < |r| ensures !Clash(r[a], r[b]) {
      assert r[b] == rest[b - 1];
      if a > 0 {
        assert r[a] == rest[a - 1];
      }
    }
  }

  /**
   * `handleSaveGrades` keeps the composite business key unique, given new
   * notes of one pair in distinct slots (which `handleSave` produces).
   */
  lemma SaveGradesUnique(notas: seq<Note>, newGrades: seq<Note>, s: Id, c: Id)
    requires UniqueSlots(notas) && DistinctSlots(newGrades) && AllOfPair(newGrades, s, c)
    ensures UniqueSlots(SaveGrades(notas, newGrades))
  {
    var r := SaveGrades(notas, newGrades);
    if r != notas {
      var others := OtherNotes(notas, s, c);
      FilterUniqueSlots(notas, (n: Note) => !(n.idAlumno == s && n.idCurso == c));
      assert r == others + newGrades;
      forall a, b | 0 <= a < b < |r| ensures !Clash(r[a], r[b]) {
        if b < |others| {
          assert r[a] == others[a] && r[b] == others[b];
        } else if a >= |others| {
          assert r[a] == newGrades[a - |others|] && r[b] == newGrades[b - |others|];
        } else {
          assert r[a] == others[a] && r[b] == newGrades[b - |others|];
        }
      }
    }
  }

  /** Saving a form that keeps its invariant keeps the snapshot's notes correct and their keys unique. */
  lemma SaveFormPreserves(notas: seq<Note>, s: Id, c: Id, g: LocalGrades, freshIds: seq<Id>)
    requires |freshIds| == |g| && GradesOk(g) && AllValid(notas) && UniqueSlots(notas)
    ensures AllValid(SaveGrades(notas, SaveNotes(notas, s, c, g, freshIds)))
    ensures UniqueSlots(SaveGrades(notas, SaveNotes(notas, s, c, g, freshIds)))
  {
    var n := SaveNotes(notas, s, c, g, freshIds);
    assert CanonicalKeys(g);
    SaveNotesValid(notas, s, c, g, freshIds);
    SaveNotesDistinctSlots(notas, s, c, g, freshIds);
    SaveGradesValid(notas, n);
    SaveGradesUnique(notas, n, s, c);
  }

  // ---------------------------------------------------------------------------
  // Note ids
  // ---------------------------------------------------------------------------

  /** The `id_nota` of each note, in order. */
  function NoteIds(ns: seq<Note>): seq<Id> {
    Map(ns, (n: Note) => n.idNota)
  }

  /** An id of a new note is carried in `notas` only by a note of the pair (s, c). */
  predicate IdsOnlyFromPair(notas: seq<Note>, newGrades: seq<Note>, s: Id, c: Id) {
    forall i, j :: 0 <= i < |newGrades| && 0 <= j < |notas| && newGrades[i].idNota == notas[j].idNota ==>
      notas[j].idAlumno == s && notas[j].idCurso == c
  }

  /** Where saved note `i` takes its id from: the pair's note `k` at its slot, or (k < 0) the fresh id of entry `j`. */
  lemma SavedIdSource(notas: seq<Note>, s: Id, c: Id, g: LocalGrades, freshIds: seq<Id>, i: nat)
    returns (j: nat, k: int)
    requires |freshIds| == |g| && i < |SaveNotes(notas, s, c, g, freshIds)|
    ensures Origin(notas, s, c, g, freshIds, j, SaveNotes(notas, s, c, g, freshIds)[i])
    ensures k >= 0 ==> (k < |notas| && AtSlot(notas[k], s, c, SlotOf(SaveNotes(notas, s, c, g, freshIds)[i]))
                        && SaveNotes(notas, s, c, g, freshIds)[i].idNota == notas[k].idNota)
    ensures k < 0 ==> SaveNotes(notas, s, c, g, freshIds)[i].idNota == freshIds[j]
  {
    j := OriginAt(notas, s, c, g, freshIds, i);
    var n := SaveNotes(notas, s, c, g, freshIds)[i];
    match FindNote(notas, s, c, SlotOf(n))
    case Some(e) =>
      k :| FirstAt(notas, s, c, SlotOf(n), k) && notas[k] == e;
    case None =>
      k := -1;
  }

  /**
   * With unique note ids and distinct fresh ids not yet in use, the saved notes
   * have distinct ids, and an id they share with the snapshot belongs to a note
   * of the same pair (the one at the same slot).
   */
  lemma SaveNotesIds(notas: seq<Note>, s: Id, c: Id, g: LocalGrades, freshIds: seq<Id>)
    requires |freshIds| == |g| && CanonicalKeys(g) && DistinctKeys(g)
    requires NoDuplicates(NoteIds(notas)) && NoDuplicates(freshIds)
    requires forall k :: 0 <= k < |freshIds| ==> freshIds[k] !in NoteIds(notas)
    ensures NoDuplicates(NoteIds(SaveNotes(notas, s, c, g, freshIds)))
    ensures IdsOnlyFromPair(notas, SaveNotes(notas, s, c, g, freshIds), s, c)
  {
    var r := SaveNotes(notas, s, c, g, freshIds);
    var ids := NoteIds(notas);
    SaveNotesDistinctSlots(notas, s, c, g, freshIds);
    forall a, b | 0 <= a < b < |r| ensures NoteIds(r)[a] != NoteIds(r)[b] {
      var ja, ka := SavedIdSource(notas, s, c, g, freshIds, a);
      var jb, kb := SavedIdSource(notas, s, c, g, freshIds, b);
      assert SlotOf(r[a]) != SlotOf(r[b]);
      if ka >= 0 && kb >= 0 {
        assert ids[ka] == r[a].idNota && ids[kb] == r[b].idNota;
      } else if ka < 0 && kb < 0 {
        assert ja != jb;
      } else if ka >= 0 {
        assert ids[ka] == r[a].idNota;
      } else {
        assert ids[kb] == r[b].idNota;
      }
    }
    forall i, j | 0 <= i < |r| && 0 <= j < |notas| && r[i].idNota == notas[j].idNota
      ensures notas[j].idAlumno == s && notas[j].idCurso == c
    {
      var ji, ki := SavedIdSource(notas, s, c, g, freshIds, i);
      assert ids[j] == notas[j].idNota;
      if ki >= 0 {
        assert ids[ki] == notas[ki].idNota;
      }
    }
  }

  /**
   * Replacing a pair's notes keeps note ids unique when the new ones are
   * distinct and only the pair's old notes (which are removed) carry them.
   */
  lemma SaveGradesIds(notas: seq<Note>, newGrades: seq<Note>, s: Id, c: Id)
    requires NoDuplicates(NoteIds(notas)) && NoDuplicates(NoteIds(newGrades))
    requires AllOfPair(newGrades, s, c) && IdsOnlyFromPair(notas, newGrades, s, c)
    ensures NoDuplicates(NoteIds(SaveGrades(notas, newGrades)))
  {
    var r := SaveGrades(notas, newGrades);
    if r != notas {
      var others := OtherNotes(notas, s, c);
      MapFilterNoDuplicates(notas, (n: Note) => !(n.idAlumno == s && n.idCurso == c), (n: Note) => n.idNota);
      assert r == others + newGrades;
      var oi, ni := NoteIds(others), NoteIds(newGrades);
      forall a, b | 0 <= a < b < |r| ensures NoteIds(r)[a] != NoteIds(r)[b] {
        if b < |others| {
          assert NoteIds(r)[a] == oi[a] && NoteIds(r)[b] == oi[b];
        } else if a >= |others| {
          assert NoteIds(r)[a] == ni[a - |others|] && NoteIds(r)[b] == ni[b - |others|];
        } else {
          assert r[a] == others[a] && r[b] == newGrades[b - |others|];
          assert others[a] in notas;
          var j :| 0 <= j < |notas| && notas[j] == others[a];
        }
      }
    }
  }

  /**
   * What `handleSave` hands to `handleSaveGrades`: correctly stored notes of
   * one pair in distinct slots, with distinct ids that only that pair's old
   * notes may already carry.
   */
  predicate Replacement(notas: seq<Note>, newGrades: seq<Note>) {
    newGrades != [] ==>
      var s, c := newGrades[0].idAlumno, newGrades[0].idCurso;
      && AllOfPair(newGrades, s, c) && DistinctSlots(newGrades) && AllValid(newGrades)
      && NoDuplicates(NoteIds(newGrades)) && IdsOnlyFromPair(notas, newGrades, s, c)
  }

  /** `handleSaveGrades` with such notes keeps every note valid, composite keys unique and note ids unique. */
  lemma SaveGradesKeeps(notas: seq<Note>, newGrades: seq<Note>)
    requires AllValid(notas) && UniqueSlots(notas) && NoDuplicates(NoteIds(notas))
    requires Replacement(notas, newGrades)
    ensures AllValid(SaveGrades(notas, newGrades)) && UniqueSlots(SaveGrades(notas, newGrades))
    ensures NoDuplicates(NoteIds(SaveGrades(notas, newGrades)))
  {
    if newGrades != [] {
      var s, c := newGrades[0].idAlumno, newGrades[0].idCurso;
      SaveGradesValid(notas, newGrades);
      SaveGradesUnique(notas, newGrades, s, c);
      SaveGradesIds(notas, newGrades, s, c);
    }
  }

  /** A form that keeps its invariant, saved with distinct unused fresh ids, yields such notes. */
  lemma SaveNotesReplacement(notas: seq<Note>, s: Id, c: Id, g: LocalGrades, freshIds: seq<Id>)
    requires |freshIds| == |g| && GradesOk(g)
    requires NoDuplicates(NoteIds(notas)) && NoDuplicates(freshIds)
    requires forall k :: 0 <= k < |freshIds| ==> freshIds[k] !in NoteIds(notas)
    ensures Replacement(notas, SaveNotes(notas, s, c, g, freshIds))
  {
    assert CanonicalKeys(g);
    SaveNotesValid(notas, s, c, g, freshIds);
    SaveNotesDistinctSlots(notas, s, c, g, freshIds);
    SaveNotesIds(notas, s, c, g, freshIds);
  }

  // ---------------------------------------------------------------------------
  // Opening the form and saving it unchanged
  // ---------------------------------------------------------------------------

  /** The form entry a note is shown in. */
  function EntryOf(n: Note): (string, GradeInput) {
    (SlotKey(SlotOf(n)), Score(n.valorNota))
  }

  /** The form listing `ns` one entry per note, in order. */
  function EntriesOf(ns: seq<Note>): (g: LocalGrades)
    ensures |g| == |ns| && forall i :: 0 <= i < |ns| ==> g[i] == EntryOf(ns[i])
  {
    if ns == [] then [] else EntriesOf(ns[..|ns| - 1]) + [EntryOf(ns[|ns| - 1])]
  }

  /** Notes in distinct slots load into one entry per note, in the order of the notes. */
  lemma {:induction false} LoadedInOrder(ns: seq<Note>)
    requires DistinctSlots(ns)
    ensures Loaded(ns) == EntriesOf(ns)
  {
    if ns != [] {
      var init, last := ns[..|ns| - 1], ns[|ns| - 1];
      DistinctSlotsPrefix(ns, |ns| - 1);
      LoadedInOrder(init);
      var prev := EntriesOf(init);
      forall i | 0 <= i < |prev| ensures prev[i].0 != SlotKey(SlotOf(last)) {
        assert init[i] == ns[i];
        if prev[i].0 == SlotKey(SlotOf(last)) {
          SlotKeyInjective(SlotOf(init[i]), SlotOf(last));
        }
      }
    }
  }

  /** Loading correctly stored notes in distinct slots gives a form that keeps its invariant. */
  lemma LoadedOk(ns: seq<Note>)
    requires DistinctSlots(ns) && AllValid(ns)
    ensures GradesOk(Loaded(ns))
  {
    LoadedInOrder(ns);
    var g := EntriesOf(ns);
    forall i | 0 <= i < |g| ensures CanonicalKey(g[i].0) && ValidSlot(ParseKey(g[i].0).value) {
      SlotKeyCanonical(SlotOf(ns[i]));
    }
    forall a, b | 0 <= a < b < |g| ensures g[a].0 != g[b].0 {
      if g[a].0 == g[b].0 {
        SlotKeyInjective(SlotOf(ns[a]), SlotOf(ns[b]));
      }
    }
  }

  /** Each note of `ms` is what `find` returns for its own slot. */
  predicate SelfFound(notas: seq<Note>, s: Id, c: Id, ms: seq<Note>) {
    forall i :: 0 <= i < |ms| ==> FindNote(notas, s, c, SlotOf(ms[i])) == Some(ms[i])
  }

  lemma {:induction false} SaveEntriesOf(notas: seq<Note>, s: Id, c: Id, ms: seq<Note>, ids: seq<Id>)
    requires |ids| == |ms| && AllOfPair(ms, s, c) && SelfFound(notas, s, c, ms)
    ensures SaveNotes(notas, s, c, EntriesOf(ms), ids) == ms
  {
    if ms != [] {
      EntriesOfTail(ms);
      EntryOfSaved(notas, s, c, ms[0], ids[0]);
      SelfFoundTail(notas, s, c, ms);
      SaveEntriesOf(notas, s, c, ms[1..], ids[1..]);
      assert ms == [ms[0]] + ms[1..];
    }
  }

  lemma EntriesOfTail(ms: seq<Note>)
    requires ms != []
    ensures EntriesOf(ms)[1..] == EntriesOf(ms[1..])
  {
  }

  /** A note that `find` returns for its own slot is saved back unchanged from its entry. */
  lemma EntryOfSaved(notas: seq<Note>, s: Id, c: Id, m: Note, id: Id)
    requires m.idAlumno == s && m.idCurso == c && FindNote(notas, s, c, SlotOf(m)) == Some(m)
    ensures EntryNote(notas, s, c, EntryOf(m), id) == Some(m)
  {
    SlotKeyCanonical(SlotOf(m));
  }

  lemma SelfFoundTail(notas: seq<Note>, s: Id, c: Id, ms: seq<Note>)
    requires ms != [] && AllOfPair(ms, s, c) && SelfFound(notas, s, c, ms)
    ensures AllOfPair(ms[1..], s, c) && SelfFound(notas, s, c, ms[1..])
    ensures ms[0].idAlumno == s && ms[0].idCurso == c && FindNote(notas, s, c, SlotOf(ms[0])) == Some(ms[0])
  {
    forall i | 0 <= i < |ms[1..]| ensures ms[1..][i] == ms[i + 1] {
    }
  }

  /** With unique composite keys, every note of the pair is the one `find` returns for its slot. */
  lemma PairNotesSelfFound(notas: seq<Note>, s: Id, c: Id)
    requires UniqueSlots(notas)
    ensures SelfFound(notas, s, c, PairNotes(notas, s, c))
  {
    var ms := PairNotes(notas, s, c);
    forall i | 0 <= i < |ms| ensures FindNote(notas, s, c, SlotOf(ms[i])) == Some(ms[i]) {
      var slot := SlotOf(ms[i]);
      assert ms[i] in notas;
      var i2 :| 0 <= i2 < |notas| && notas[i2] == ms[i];
      assert AtSlot(notas[i2], s, c, slot);
      var r := FindNote(notas, s, c, slot);
      var i1 :| FirstAt(notas, s, c, slot, i1) && notas[i1] == r.value;
    }
  }

  /**
   * Opening the form on a snapshot with unique composite keys and saving it
   * without edits gives back exactly the pair's notes, ids included.
   */
  lemma LoadSaveRoundTrip(notas: seq<Note>, s: Id, c: Id, ids: seq<Id>)
    requires UniqueSlots(notas)
    requires |ids| == |Loaded(PairNotes(notas, s, c))|
    ensures SaveNotes(notas, s, c, Loaded(PairNotes(notas, s, c)), ids) == PairNotes(notas, s, c)
  {
    var ms := PairNotes(notas, s, c);
    PairNotesDistinctSlots(notas, s, c);
    LoadedInOrder(ms);
    PairNotesSelfFound(notas, s, c);
    SaveEntriesOf(notas, s, c, ms, ids);
  }
}
