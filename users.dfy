/**
 * The user registry: creating, editing and deleting administrators
 * ('Dirección') and teachers ('Profesor') by `id_usuario`.
 */
module Users {
  import opened Common
  import opened Strings
  import opened Entities

  /** Which management screen submits the form. */
  datatype UserKind = Admin | Teacher

  /** The `rol` each screen writes. */
  function RoleName(k: UserKind): string {
    match k
    case Admin => "Direcci\U{00F3}n"
    case Teacher => "Profesor"
  }

  /** The user form's fields (`especialidad` is only shown to teachers). */
  datatype UserForm = UserForm(
    nombres: string,
    apellidos: string,
    ci: string,
    usuario: string,
    contrasena: string,
    especialidad: string)

  /** Every field the screen shows is filled in (checked before trimming). */
  predicate UserFormOk(k: UserKind, f: UserForm) {
    && f.nombres != "" && f.apellidos != "" && f.ci != "" && f.usuario != "" && f.contrasena != ""
    && (k == Teacher ==> f.especialidad != "")
  }

  /**
   * `Object.assign({}, u, newUserData)`: the form's fields written over `u`.
   * The administrators' form has no `especialidad`, so `u` keeps its own.
   */
  function MergeUser(u: User, k: UserKind, f: UserForm): (r: User)
    ensures r.idUsuario == u.idUsuario && r.rol == RoleName(k)
    ensures r.nombre == Trim(f.nombres) + " " + Trim(f.apellidos)
    ensures r.ci == Trim(f.ci) && r.usuario == Trim(f.usuario) && r.contrasena == f.contrasena
    ensures r.especialidad == if k == Teacher then Some(f.especialidad) else u.especialidad
  {
    u.(nombre := Trim(f.nombres) + " " + Trim(f.apellidos), ci := Trim(f.ci), usuario := Trim(f.usuario),
       contrasena := f.contrasena, rol := RoleName(k),
       especialidad := if k == Teacher then Some(f.especialidad) else u.especialidad)
  }

  /** The record a create appends under the fresh id. */
  function NewUser(k: UserKind, f: UserForm, id: Id): User {
    MergeUser(User(id, "", "", "", "", "", None), k, f)
  }

  /** The ids of the users, in order. */
  function UserIds(usuarios: seq<User>): seq<Id> {
    Map(usuarios, (u: User) => u.idUsuario)
  }

  /**
   * `handleSubmit` of either screen: None when a field is empty (the alert);
   * otherwise the matching record edited in place, or a new one appended
   * under `freshId`.
   */
  function SubmitUser(usuarios: seq<User>, k: UserKind, f: UserForm, editingId: Option<Id>, freshId: Id)
    : (r: Option<seq<User>>)
    ensures r.None? <==> !UserFormOk(k, f)
  {
    if !UserFormOk(k, f) then None
    else if Editing(editingId) then
      Some(Map(usuarios, (u: User) => if u.idUsuario == editingId.value then MergeUser(u, k, f) else u))
    else Some(usuarios + [NewUser(k, f, freshId)])
  }

  /**
   * An edit rewrites exactly the records with the edited id and keeps every id;
   * a create appends one record under the fresh id and changes nothing else.
   */
  lemma SubmitUserEffect(usuarios: seq<User>, k: UserKind, f: UserForm, editingId: Option<Id>, freshId: Id)
    requires UserFormOk(k, f)
    ensures var r := SubmitUser(usuarios, k, f, editingId, freshId).value;
      && (Editing(editingId) ==> |r| == |usuarios| && UserIds(r) == UserIds(usuarios))
      && (Editing(editingId) ==> forall i :: 0 <= i < |usuarios| ==>
            r[i] == if usuarios[i].idUsuario == editingId.value then MergeUser(usuarios[i], k, f) else usuarios[i])
      && (!Editing(editingId) ==> r == usuarios + [NewUser(k, f, freshId)])
  {
    var r := SubmitUser(usuarios, k, f, editingId, freshId).value;
    if Editing(editingId) {
      assert forall i :: 0 <= i < |r| ==> UserIds(r)[i] == UserIds(usuarios)[i];
    }
  }

  /** A new record of either screen: the trimmed fields, its role, and a specialty only for teachers. */
  lemma NewUserFields(k: UserKind, f: UserForm, id: Id)
    ensures NewUser(k, f, id) == User(id, Trim(f.nombres) + " " + Trim(f.apellidos), Trim(f.ci), Trim(f.usuario),
                                      f.contrasena, RoleName(k), if k == Teacher then Some(f.especialidad) else None)
  {
  }

  /** Submitting keeps the user ids unique when a create uses an unused id. */
  lemma SubmitUserUniqueIds(usuarios: seq<User>, k: UserKind, f: UserForm, editingId: Option<Id>, freshId: Id)
    requires UserFormOk(k, f) && NoDuplicates(UserIds(usuarios))
    requires !Editing(editingId) ==> freshId !in UserIds(usuarios)
    ensures NoDuplicates(UserIds(SubmitUser(usuarios, k, f, editingId, freshId).value))
  {
    SubmitUserEffect(usuarios, k, f, editingId, freshId);
    if !Editing(editingId) {
      var r := usuarios + [NewUser(k, f, freshId)];
      assert UserIds(r) == UserIds(usuarios) + [freshId] by {
        assert forall i :: 0 <= i < |usuarios| ==> r[i] == usuarios[i];
      }
    }
  }

  /** `confirmDelete` of either screen: `filter(u => u.id_usuario !== id)`. */
  function DeleteUser(usuarios: seq<User>, id: Id): seq<User> {
    Filter(usuarios, (u: User) => u.idUsuario != id)
  }

  /** After a delete no record has the id, and every record with another id is still there, in order. */
  lemma DeleteUserEffect(usuarios: seq<User>, id: Id, other: Id)
    ensures forall u :: u in DeleteUser(usuarios, id) ==> u.idUsuario != id
    ensures other != id ==>
      Filter(DeleteUser(usuarios, id), (u: User) => u.idUsuario == other)
      == Filter(usuarios, (u: User) => u.idUsuario == other)
    ensures NoDuplicates(UserIds(usuarios)) ==> NoDuplicates(UserIds(DeleteUser(usuarios, id)))
  {
    if NoDuplicates(UserIds(usuarios)) {
      MapFilterNoDuplicates(usuarios, (u: User) => u.idUsuario != id, (u: User) => u.idUsuario);
    }
    if other != id {
      FilterFilter(usuarios, (u: User) => u.idUsuario != id, (u: User) => u.idUsuario == other);
    }
  }
}
