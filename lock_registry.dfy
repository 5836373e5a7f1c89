/**
 * The trimester lock registry: one `trimestres` record per (student,
 * trimester) says whether that trimester is open for grading. A pair without a
 * record is locked; toggling creates the record (open) or flips it.
 */
module LockRegistry {
  import opened Common
  import opened Entities

  /** `t` is the record of student `s` for trimester `n`. */
  predicate IsFor(t: TrimesterLock, s: Id, n: nat) {
    t.idAlumno == s && t.trimestre == n
  }

  /** `appData.trimestres.find(t => t.id_alumno === s && t.trimestre === n)`. */
  function FindLock(locks: seq<TrimesterLock>, s: Id, n: nat): (r: Option<TrimesterLock>)
    ensures r.Some? ==> IsFor(r.value, s, n) && r.value in locks
    ensures r.None? <==> forall i :: 0 <= i < |locks| ==> !IsFor(locks[i], s, n)
  {
    Find(locks, (t: TrimesterLock) => IsFor(t, s, n))
  }

  /** The grading form's reading: `find(...)?.desbloqueado ?? false`. */
  function IsUnlocked(locks: seq<TrimesterLock>, s: Id, n: nat): (r: bool)
    ensures (forall i :: 0 <= i < |locks| ==> !IsFor(locks[i], s, n)) ==> !r
  {
    match FindLock(locks, s, n)
    case Some(t) => t.desbloqueado
    case None => false
  }

  /** The lock table's reading: `some(t => t.id_alumno === s && t.trimestre === n && t.desbloqueado)`. */
  predicate AnyUnlocked(locks: seq<TrimesterLock>, s: Id, n: nat) {
    exists i :: 0 <= i < |locks| && IsFor(locks[i], s, n) && locks[i].desbloqueado
  }

  /** Some record already carries `id`. */
  predicate IdInUse(locks: seq<TrimesterLock>, id: Id) {
    exists i :: 0 <= i < |locks| && locks[i].idTrimestre == id
  }

  /** The registry's invariant: ids are unique and no pair has two records. */
  predicate LocksOk(locks: seq<TrimesterLock>) {
    forall i, j :: 0 <= i < j < |locks| ==>
      locks[i].idTrimestre != locks[j].idTrimestre && !IsFor(locks[j], locks[i].idAlumno, locks[i].trimestre)
  }

  /** The `map` of `handleToggle`: flip `desbloqueado` on every record with id `id`. */
  function FlipById(locks: seq<TrimesterLock>, id: Id): (r: seq<TrimesterLock>)
    ensures |r| == |locks|
    ensures forall i :: 0 <= i < |locks| ==>
      r[i] == if locks[i].idTrimestre == id then locks[i].(desbloqueado := !locks[i].desbloqueado) else locks[i]
  {
    if locks == [] then []
    else
      var t := locks[0];
      [if t.idTrimestre == id then t.(desbloqueado := !t.desbloqueado) else t] + FlipById(locks[1..], id)
  }

  /**
   * `handleToggle(s, n)`: flip the pair's record if there is one, otherwise
   * append an open record with the fresh id `freshId`.
   */
  function Toggle(locks: seq<TrimesterLock>, s: Id, n: nat, freshId: Id): seq<TrimesterLock> {
    match FindLock(locks, s, n)
    case Some(e) => FlipById(locks, e.idTrimestre)
    case None => locks + [TrimesterLock(freshId, s, n, true)]
  }

  /** Under the invariant the pair's record is the only one it has. */
  lemma OnlyRecord(locks: seq<TrimesterLock>, i: nat, j: nat)
    requires LocksOk(locks) && i < |locks| && j < |locks|
    requires IsFor(locks[j], locks[i].idAlumno, locks[i].trimestre)
    ensures i == j
  {
  }

  /** The grading form and the lock table read the same state from a registry that keeps its invariant. */
  lemma ReadingsAgree(locks: seq<TrimesterLock>, s: Id, n: nat)
    requires LocksOk(locks)
    ensures IsUnlocked(locks, s, n) <==> AnyUnlocked(locks, s, n)
  {
    var f := FindLock(locks, s, n);
    if f.Some? {
      var i :| FirstIndex(locks, (t: TrimesterLock) => IsFor(t, s, n), i) && locks[i] == f.value;
      if AnyUnlocked(locks, s, n) {
        var j :| 0 <= j < |locks| && IsFor(locks[j], s, n) && locks[j].desbloqueado;
        OnlyRecord(locks, i, j);
      }
    }
  }

  /** The index of the pair's record, when it has one. */
  lemma FoundAt(locks: seq<TrimesterLock>, s: Id, n: nat) returns (k: nat)
    requires FindLock(locks, s, n).Some?
    ensures k < |locks| && locks[k] == FindLock(locks, s, n).value
    ensures forall j :: 0 <= j < k ==> !IsFor(locks[j], s, n)
  {
    k :| FirstIndex(locks, (t: TrimesterLock) => IsFor(t, s, n), k) && locks[k] == FindLock(locks, s, n).value;
  }

  /** The pair's record sits at `k`: `find` returns it. */
  lemma FindAt(locks: seq<TrimesterLock>, s: Id, n: nat, k: nat)
    requires k < |locks| && IsFor(locks[k], s, n)
    requires forall j :: 0 <= j < k ==> !IsFor(locks[j], s, n)
    ensures FindLock(locks, s, n) == Some(locks[k])
  {
    var f := FindLock(locks, s, n);
    var k' :| FirstIndex(locks, (t: TrimesterLock) => IsFor(t, s, n), k') && locks[k'] == f.value;
  }

  /** Two registries with the same records apart from `desbloqueado`. */
  predicate SameRecords(a: seq<TrimesterLock>, b: seq<TrimesterLock>) {
    |a| == |b| && forall i :: 0 <= i < |a| ==>
      a[i].idTrimestre == b[i].idTrimestre && a[i].idAlumno == b[i].idAlumno && a[i].trimestre == b[i].trimestre
  }

  lemma SameRecordsOk(a: seq<TrimesterLock>, b: seq<TrimesterLock>)
    requires SameRecords(a, b) && LocksOk(a)
    ensures LocksOk(b)
  {
  }

  /** With an existing record, toggling flips that record and no other. */
  lemma ToggleExisting(locks: seq<TrimesterLock>, s: Id, n: nat, freshId: Id)
    requires LocksOk(locks) && FindLock(locks, s, n).Some?
    ensures SameRecords(locks, Toggle(locks, s, n, freshId))
    ensures forall i :: 0 <= i < |locks| ==>
      Toggle(locks, s, n, freshId)[i] ==
        if IsFor(locks[i], s, n) then locks[i].(desbloqueado := !locks[i].desbloqueado) else locks[i]
  {
    var k := FoundAt(locks, s, n);
    forall i | 0 <= i < |locks| ensures locks[i].idTrimestre == locks[k].idTrimestre <==> IsFor(locks[i], s, n) {
      if IsFor(locks[i], s, n) {
        OnlyRecord(locks, k, i);
      }
    }
  }

  /** Toggling a pair that has a record. */
  lemma ToggleExistingEffect(locks: seq<TrimesterLock>, s: Id, n: nat, freshId: Id)
    requires LocksOk(locks) && FindLock(locks, s, n).Some?
    ensures IsUnlocked(Toggle(locks, s, n, freshId), s, n) == !IsUnlocked(locks, s, n)
    ensures LocksOk(Toggle(locks, s, n, freshId))
  {
    var r := Toggle(locks, s, n, freshId);
    var k := FoundAt(locks, s, n);
    ToggleExisting(locks, s, n, freshId);
    FindAt(r, s, n, k);
    SameRecordsOk(locks, r);
  }

  /** Toggling a pair without a record appends an open one. */
  lemma ToggleAbsentEffect(locks: seq<TrimesterLock>, s: Id, n: nat, freshId: Id)
    requires LocksOk(locks) && !IdInUse(locks, freshId) && FindLock(locks, s, n).None?
    ensures Toggle(locks, s, n, freshId) == locks + [TrimesterLock(freshId, s, n, true)]
    ensures IsUnlocked(Toggle(locks, s, n, freshId), s, n) && !IsUnlocked(locks, s, n)
    ensures LocksOk(Toggle(locks, s, n, freshId))
  {
    var t := TrimesterLock(freshId, s, n, true);
    var r := locks + [t];
    assert Toggle(locks, s, n, freshId) == r;
    forall j | 0 <= j < |locks| ensures !IsFor(r[j], s, n) {
      assert r[j] == locks[j];
    }
    FindAt(r, s, n, |locks|);
    AppendOk(locks, t);
  }

  /** Appending a record with a new id for a pair that has none keeps the invariant. */
  lemma AppendOk(locks: seq<TrimesterLock>, t: TrimesterLock)
    requires LocksOk(locks) && !IdInUse(locks, t.idTrimestre)
    requires forall i :: 0 <= i < |locks| ==> !IsFor(locks[i], t.idAlumno, t.trimestre)
    ensures LocksOk(locks + [t])
  {
    var r := locks + [t];
    forall i, j | 0 <= i < j < |r|
      ensures r[i].idTrimestre != r[j].idTrimestre && !IsFor(r[j], r[i].idAlumno, r[i].trimestre)
    {
      assert r[i] == locks[i];
      if j < |locks| {
        assert r[j] == locks[j];
      }
    }
  }

  /**
   * Toggling flips the pair's state, keeps every other pair's record in place,
   * can only add a record of the toggled pair, and keeps the invariant.
   */
  lemma ToggleEffect(locks: seq<TrimesterLock>, s: Id, n: nat, freshId: Id)
    requires LocksOk(locks) && !IdInUse(locks, freshId)
    ensures IsUnlocked(Toggle(locks, s, n, freshId), s, n) == !IsUnlocked(locks, s, n)
    ensures |locks| <= |Toggle(locks, s, n, freshId)| <= |locks| + 1
    ensures forall i :: 0 <= i < |locks| && !IsFor(locks[i], s, n) ==> Toggle(locks, s, n, freshId)[i] == locks[i]
    ensures forall i :: |locks| <= i < |Toggle(locks, s, n, freshId)| ==> IsFor(Toggle(locks, s, n, freshId)[i], s, n)
    ensures LocksOk(Toggle(locks, s, n, freshId))
  {
    if FindLock(locks, s, n).Some? {
      ToggleExisting(locks, s, n, freshId);
      ToggleExistingEffect(locks, s, n, freshId);
    } else {
      ToggleAbsentEffect(locks, s, n, freshId);
    }
  }

  /** Toggling another pair leaves this pair's reading as it was. */
  lemma ToggleOtherReading(locks: seq<TrimesterLock>, s: Id, n: nat, freshId: Id, s': Id, n': nat)
    requires LocksOk(locks) && !IdInUse(locks, freshId) && (s', n') != (s, n)
    ensures IsUnlocked(Toggle(locks, s, n, freshId), s', n') == IsUnlocked(locks, s', n')
  {
    var r := Toggle(locks, s, n, freshId);
    ToggleEffect(locks, s, n, freshId);
    assert forall i :: 0 <= i < |r| ==> (IsFor(r[i], s', n') <==> i < |locks| && IsFor(locks[i], s', n')) by {
      forall i | 0 <= i < |r| ensures IsFor(r[i], s', n') <==> i < |locks| && IsFor(locks[i], s', n') {
        if i < |locks| && !IsFor(locks[i], s, n) {
          assert r[i] == locks[i];
        } else if i < |locks| {
          assert !IsFor(locks[i], s', n');
          if FindLock(locks, s, n).Some? {
            ToggleExisting(locks, s, n, freshId);
          }
        }
      }
    }
    if FindLock(locks, s, n').Some? || FindLock(locks, s', n').Some? {
      if FindLock(locks, s', n').Some? {
        var k := FoundAt(locks, s', n');
        assert !IsFor(locks[k], s, n);
        FindAt(r, s', n', k);
      }
    }
  }

  /**
   * A second toggle undoes the first: an existing record is restored, and a
   * pair that had none keeps a closed record, so it reads as locked again.
   */
  lemma ToggleTwice(locks: seq<TrimesterLock>, s: Id, n: nat, id1: Id, id2: Id)
    requires LocksOk(locks) && !IdInUse(locks, id1)
    ensures FindLock(locks, s, n).Some? ==> Toggle(Toggle(locks, s, n, id1), s, n, id2) == locks
    ensures FindLock(locks, s, n).None? ==>
      Toggle(Toggle(locks, s, n, id1), s, n, id2) == locks + [TrimesterLock(id1, s, n, false)]
    ensures IsUnlocked(Toggle(Toggle(locks, s, n, id1), s, n, id2), s, n) == IsUnlocked(locks, s, n)
  {
    if FindLock(locks, s, n).Some? {
      ToggleTwiceExisting(locks, s, n, id1, id2);
    } else {
      ToggleTwiceAbsent(locks, s, n, id1, id2);
      var r2 := Toggle(Toggle(locks, s, n, id1), s, n, id2);
      forall j | 0 <= j < |locks| ensures !IsFor(r2[j], s, n) {
        assert r2[j] == locks[j];
      }
      FindAt(r2, s, n, |locks|);
    }
  }

  lemma ToggleTwiceExisting(locks: seq<TrimesterLock>, s: Id, n: nat, id1: Id, id2: Id)
    requires LocksOk(locks) && FindLock(locks, s, n).Some?
    ensures Toggle(Toggle(locks, s, n, id1), s, n, id2) == locks
  {
    var r1 := Toggle(locks, s, n, id1);
    var k := FoundAt(locks, s, n);
    ToggleExisting(locks, s, n, id1);
    ToggleExistingEffect(locks, s, n, id1);
    FindAt(r1, s, n, k);
    ToggleExisting(r1, s, n, id2);
    var r2 := Toggle(r1, s, n, id2);
    assert |r2| == |locks|;
    forall i | 0 <= i < |locks| ensures r2[i] == locks[i] {
      assert IsFor(r1[i], s, n) == IsFor(locks[i], s, n);
    }
  }

  lemma ToggleTwiceAbsent(locks: seq<TrimesterLock>, s: Id, n: nat, id1: Id, id2: Id)
    requires LocksOk(locks) && !IdInUse(locks, id1) && FindLock(locks, s, n).None?
    ensures Toggle(Toggle(locks, s, n, id1), s, n, id2) == locks + [TrimesterLock(id1, s, n, false)]
  {
    ToggleAbsentEffect(locks, s, n, id1);
    ToggleLast(locks, TrimesterLock(id1, s, n, true), s, n, id2);
  }

  /** Toggling a pair whose only record is the last one flips that record. */
  lemma ToggleLast(locks: seq<TrimesterLock>, t: TrimesterLock, s: Id, n: nat, id2: Id)
    requires LocksOk(locks + [t]) && IsFor(t, s, n)
    requires forall i :: 0 <= i < |locks| ==> !IsFor(locks[i], s, n)
    ensures Toggle(locks + [t], s, n, id2) == locks + [t.(desbloqueado := !t.desbloqueado)]
  {
    var r1 := locks + [t];
    forall j | 0 <= j < |locks| ensures !IsFor(r1[j], s, n) {
      assert r1[j] == locks[j];
    }
    FindAt(r1, s, n, |locks|);
    ToggleExisting(r1, s, n, id2);
    var r2 := Toggle(r1, s, n, id2);
    assert |r2| == |locks| + 1;
    forall i | 0 <= i < |locks| ensures r2[i] == locks[i] {
      assert r1[i] == locks[i];
    }
    assert r2[|locks|] == t.(desbloqueado := !t.desbloqueado);
  }
}
