/** The `users` table as the controller queries it: rows of id, username,
    bcrypt hash and encrypted phone. */
module Users {
  import opened Optional

  type Id = nat

  datatype User = User(id: Id, username: string, passwordHash: string, phone: string)

  type Table = seq<User>

  /** The table's UNIQUE constraint on `username`. */
  predicate UniqueNames(t: Table) {
    forall i, j :: 0 <= i < j < |t| ==> t[i].username != t[j].username
  }

  /** Ids are the table's primary key. */
  predicate UniqueIds(t: Table) {
    forall i, j :: 0 <= i < j < |t| ==> t[i].id != t[j].id
  }

  /** `SELECT ... WHERE username = $1` followed by `rows[0]`: the first row with
      exactly that (case-sensitive) username. */
  function FindByName(t: Table, name: string): (r: Option<User>)
    ensures r.Some? ==> r.value in t && r.value.username == name
    ensures r.None? <==> forall u :: u in t ==> u.username != name
    ensures forall i :: 0 <= i < |t| && t[i].username == name && UniqueNames(t) ==> r == Some(t[i])
  {
    if t == [] then None
    else if t[0].username == name then Some(t[0])
    else FindByName(t[1..], name)
  }

  /** `SELECT password FROM users WHERE id = $1` followed by `rows[0]`. */
  function FindById(t: Table, id: Id): (r: Option<User>)
    ensures r.Some? ==> r.value in t && r.value.id == id
    ensures r.None? <==> forall u :: u in t ==> u.id != id
    ensures forall i :: 0 <= i < |t| && t[i].id == id && UniqueIds(t) ==> r == Some(t[i])
  {
    if t == [] then None
    else if t[0].id == id then Some(t[0])
    else FindById(t[1..], id)
  }

  /** `UPDATE users SET password = $1 WHERE id = $2`: every row with that id
      gets the new hash; nothing else in the table moves or changes. */
  function SetPasswordHash(t: Table, id: Id, hash: string): (t': Table)
    ensures |t'| == |t|
    ensures forall i :: 0 <= i < |t| && t[i].id == id ==> t'[i] == t[i].(passwordHash := hash)
    ensures forall i :: 0 <= i < |t| && t[i].id != id ==> t'[i] == t[i]
  {
    if t == [] then []
    else [if t[0].id == id then t[0].(passwordHash := hash) else t[0]] + SetPasswordHash(t[1..], id, hash)
  }

  datatype Query =
    | SelectByName(username: string)
    | SelectById(id: Id)
    | UpdatePassword(id: Id, hash: string)

  function Exec(t: Table, q: Query): Table {
    match q
    case UpdatePassword(id, hash) => SetPasswordHash(t, id, hash)
    case _ => t
  }
}
