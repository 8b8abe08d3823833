/** The data access layer of the users resource: one statement per call
    against the cc_users table. The table is modelled as a map from id to
    row, which is what `where id = …` selects on, plus the serial counter that
    assigns the id of the next inserted row. */
module UsersService {
  import opened JsValues

  /** A row of cc_users. The password column holds the password as sent. */
  datatype User = User(
    id: int,
    name: Value,
    email: Value,
    userType: Value,
    password: Value,
    about: Value,
    website: Value)

  /** The columns a create request passes to the INSERT; about and website
      are not among them. */
  datatype NewUser = NewUser(
    name: Value,
    email: Value,
    userType: Value,
    password: Value)

  /** The columns an update request passes to the UPDATE; an undefined one is
      not part of the statement. id and user_type are not among them. */
  datatype UserChanges = UserChanges(
    name: Value,
    email: Value,
    password: Value,
    about: Value,
    website: Value)

  /** The row an INSERT of `fields` creates under the id `id`: about and
      website take their default. */
  function Created(id: int, fields: NewUser): User {
    User(id, Inserted(fields.name), Inserted(fields.email), Inserted(fields.userType),
         Inserted(fields.password), Null, Null)
  }

  /** The row an UPDATE with `changes` leaves behind: every supplied column
      takes its new value, every other column (id and user_type always)
      keeps the stored one. */
  function ApplyChanges(row: User, changes: UserChanges): (r: User)
    ensures r.id == row.id && r.userType == row.userType
    ensures Supplied(changes.name) ==> r.name == changes.name
    ensures !Supplied(changes.name) ==> r.name == row.name
    ensures Supplied(changes.email) ==> r.email == changes.email
    ensures !Supplied(changes.email) ==> r.email == row.email
    ensures Supplied(changes.password) ==> r.password == changes.password
    ensures !Supplied(changes.password) ==> r.password == row.password
    ensures Supplied(changes.about) ==> r.about == changes.about
    ensures !Supplied(changes.about) ==> r.about == row.about
    ensures Supplied(changes.website) ==> r.website == changes.website
    ensures !Supplied(changes.website) ==> r.website == row.website
  {
    row.(name := Overwrite(row.name, changes.name),
         email := Overwrite(row.email, changes.email),
         password := Overwrite(row.password, changes.password),
         about := Overwrite(row.about, changes.about),
         website := Overwrite(row.website, changes.website))
  }

  /** Applying the same changes twice is applying them once. */
  lemma ApplyChangesIdempotent(row: User, changes: UserChanges)
    ensures ApplyChanges(ApplyChanges(row, changes), changes) == ApplyChanges(row, changes)
  {
  }

  /** The cc_users table. */
  class Table {
    var rows: map<int, User>
    var nextId: int

    /** Every row is filed under its own id, and every id is below the next
        one the serial counter hands out. */
    ghost predicate Valid()
      reads this
    {
      1 <= nextId &&
      forall id | id in rows :: rows[id].id == id && 1 <= id < nextId
    }

    constructor ()
      ensures Valid() && rows == map[] && nextId == 1
    {
      rows := map[];
      nextId := 1;
    }

    /** getAllUsers: `select * from cc_users`. Every row, each once, in an
        order the engine chooses; an empty table gives an empty sequence. */
    method GetAll() returns (all: seq<User>)
      requires Valid()
      ensures |all| == |rows|
      ensures forall i | 0 <= i < |all| :: all[i].id in rows && rows[all[i].id] == all[i]
      ensures forall i, j | 0 <= i < j < |all| :: all[i].id != all[j].id
      ensures forall id | id in rows :: rows[id] in all
    {
      all := [];
      var pending := rows.Keys;
      while pending != {}
        invariant pending <= rows.Keys
        invariant |all| + |pending| == |rows|
        invariant forall i | 0 <= i < |all| :: all[i].id in rows && all[i].id !in pending && rows[all[i].id] == all[i]
        invariant forall i, j | 0 <= i < j < |all| :: all[i].id != all[j].id
        invariant forall id | id in rows && id !in pending :: rows[id] in all
        decreases pending
      {
        Inhabited(pending);
        var key :| key in pending;
        all := all + [rows[key]];
        pending := pending - {key};
      }
    }

    /** insertUser: insert the row and return it as stored, with the id the
        serial counter assigned. */
    method Insert(fields: NewUser) returns (row: User)
      requires Valid()
      modifies this
      ensures Valid()
      ensures row.id == old(nextId) && row.id !in old(rows)
      ensures row == Created(row.id, fields)
      ensures rows == old(rows)[row.id := row]
    {
      row := Created(nextId, fields);
      rows := rows[nextId := row];
      nextId := nextId + 1;
    }

    /** getById: the row whose id is `id`, or nothing when there is none. */
    method GetById(id: int) returns (found: Option<User>)
      requires Valid()
      ensures found.Some? <==> id in rows
      ensures found.Some? ==> found.value == rows[id] && found.value.id == id
    {
      if id in rows {
        found := Some(rows[id]);
      } else {
        found := None;
      }
    }

    /** deleteUser: remove the row whose id is `id`; answers the number of
        rows deleted. */
    method Delete(id: int) returns (affected: nat)
      requires Valid()
      modifies this
      ensures Valid() && nextId == old(nextId)
      ensures affected == if id in old(rows) then 1 else 0
      ensures rows == old(rows) - {id}
      ensures forall k | k in old(rows) && k != id :: k in rows && rows[k] == old(rows)[k]
    {
      affected := if id in rows then 1 else 0;
      rows := rows - {id};
    }

    /** updateUser: set the supplied columns of the row whose id is `id`;
        answers the number of rows updated. */
    method Update(id: int, changes: UserChanges) returns (affected: nat)
      requires Valid()
      modifies this
      ensures Valid() && nextId == old(nextId)
      ensures affected == if id in old(rows) then 1 else 0
      ensures rows == if id in old(rows) then old(rows)[id := ApplyChanges(old(rows)[id], changes)] else old(rows)
      ensures rows.Keys == old(rows).Keys
      ensures forall k | k in rows && k != id :: rows[k] == old(rows)[k]
    {
      if id in rows {
        rows := rows[id := ApplyChanges(rows[id], changes)];
        affected := 1;
      } else {
        affected := 0;
      }
    }
  }

  /** Insert, then get by the returned id: the same row comes back. */
  method InsertThenGet(table: Table, fields: NewUser) returns (inserted: User, fetched: Option<User>)
    requires table.Valid()
    modifies table
    ensures table.Valid()
    ensures fetched == Some(inserted)
  {
    inserted := table.Insert(fields);
    fetched := table.GetById(inserted.id);
  }
}
