/** The data access layer of the projects resource: one statement per call
    against the cc_projects table. The table is modelled as a map from id to
    row, which is what `where id = …` selects on, plus the serial counter that
    assigns the id of the next inserted row. */
module ProjectsService {
  import opened JsValues

  /** A row of cc_projects. */
  datatype Project = Project(
    id: int,
    projectType: Value,
    deadline: Value,
    deadlineFlexibility: Value,
    charityId: Value,
    details: Value)

  /** The columns a create request passes to the INSERT. */
  datatype NewProject = NewProject(
    projectType: Value,
    deadline: Value,
    deadlineFlexibility: Value,
    charityId: Value,
    details: Value)

  /** The columns an update request passes to the UPDATE; an undefined one is
      not part of the statement. id and charity_id are not among them. */
  datatype ProjectChanges = ProjectChanges(
    projectType: Value,
    deadline: Value,
    deadlineFlexibility: Value,
    details: Value)

  /** The row an INSERT of `fields` creates under the id `id`. */
  function Created(id: int, fields: NewProject): Project {
    Project(id, Inserted(fields.projectType), Inserted(fields.deadline),
            Inserted(fields.deadlineFlexibility), Inserted(fields.charityId),
            Inserted(fields.details))
  }

  /** The row an UPDATE with `changes` leaves behind: every supplied column
      takes its new value, every other column (id and charity_id always)
      keeps the stored one. */
  function ApplyChanges(row: Project, changes: ProjectChanges): (r: Project)
    ensures r.id == row.id && r.charityId == row.charityId
    ensures Supplied(changes.projectType) ==> r.projectType == changes.projectType
    ensures !Supplied(changes.projectType) ==> r.projectType == row.projectType
    ensures Supplied(changes.deadline) ==> r.deadline == changes.deadline
    ensures !Supplied(changes.deadline) ==> r.deadline == row.deadline
    ensures Supplied(changes.deadlineFlexibility) ==> r.deadlineFlexibility == changes.deadlineFlexibility
    ensures !Supplied(changes.deadlineFlexibility) ==> r.deadlineFlexibility == row.deadlineFlexibility
    ensures Supplied(changes.details) ==> r.details == changes.details
    ensures !Supplied(changes.details) ==> r.details == row.details
  {
    row.(projectType := Overwrite(row.projectType, changes.projectType),
         deadline := Overwrite(row.deadline, changes.deadline),
         deadlineFlexibility := Overwrite(row.deadlineFlexibility, changes.deadlineFlexibility),
         details := Overwrite(row.details, changes.details))
  }

  /** Applying the same changes twice is applying them once. */
  lemma ApplyChangesIdempotent(row: Project, changes: ProjectChanges)
    ensures ApplyChanges(ApplyChanges(row, changes), changes) == ApplyChanges(row, changes)
  {
  }

  /** The cc_projects table. */
  class Table {
    var rows: map<int, Project>
    var nextId: int

    /** Every row is filed under its own id, and every id is below the next
        one the serial counter hands out. */
    ghost predicate Valid()
      reads this
    {
      1 <= nextId &&
      forall id | id in rows :: rows[id].id == id && 1 <= id < nextId
    }

    constructor ()
      ensures Valid() && rows == map[] && nextId == 1
    {
      rows := map[];
      nextId := 1;
    }

    /** getAllProjects: `select * from cc_projects`. Every row, each once, in
        an order the engine chooses; an empty table gives an empty sequence. */
    method GetAll() returns (all: seq<Project>)
      requires Valid()
      ensures |all| == |rows|
      ensures forall i | 0 <= i < |all| :: all[i].id in rows && rows[all[i].id] == all[i]
      ensures forall i, j | 0 <= i < j < |all| :: all[i].id != all[j].id
      ensures forall id | id in rows :: rows[id] in all
    {
      all := [];
      var pending := rows.Keys;
      while pending != {}
        invariant pending <= rows.Keys
        invariant |all| + |pending| == |rows|
        invariant forall i | 0 <= i < |all| :: all[i].id in rows && all[i].id !in pending && rows[all[i].id] == all[i]
        invariant forall i, j | 0 <= i < j < |all| :: all[i].id != all[j].id
        invariant forall id | id in rows && id !in pending :: rows[id] in all
        decreases pending
      {
        Inhabited(pending);
        var key :| key in pending;
        all := all + [rows[key]];
        pending := pending - {key};
      }
    }

    /** insertProject: insert the row and return it as stored, with the id
        the serial counter assigned. */
    method Insert(fields: NewProject) returns (row: Project)
      requires Valid()
      modifies this
      ensures Valid()
      ensures row.id == old(nextId) && row.id !in old(rows)
      ensures row == Created(row.id, fields)
      ensures rows == old(rows)[row.id := row]
    {
      row := Created(nextId, fields);
      rows := rows[nextId := row];
      nextId := nextId + 1;
    }

    /** getById: the row whose id is `id`, or nothing when there is none. */
    method GetById(id: int) returns (found: Option<Project>)
      requires Valid()
      ensures found.Some? <==> id in rows
      ensures found.Some? ==> found.value == rows[id] && found.value.id == id
    {
      if id in rows {
        found := Some(rows[id]);
      } else {
        found := None;
      }
    }

    /** deleteProject: remove the row whose id is `id`; answers the number of
        rows deleted. */
    method Delete(id: int) returns (affected: nat)
      requires Valid()
      modifies this
      ensures Valid() && nextId == old(nextId)
      ensures affected == if id in old(rows) then 1 else 0
      ensures rows == old(rows) - {id}
      ensures forall k | k in old(rows) && k != id :: k in rows && rows[k] == old(rows)[k]
    {
      affected := if id in rows then 1 else 0;
      rows := rows - {id};
    }

    /** updateProject: set the supplied columns of the row whose id is `id`;
        answers the number of rows updated. */
    method Update(id: int, changes: ProjectChanges) returns (affected: nat)
      requires Valid()
      modifies this
      ensures Valid() && nextId == old(nextId)
      ensures affected == if id in old(rows) then 1 else 0
      ensures rows == if id in old(rows) then old(rows)[id := ApplyChanges(old(rows)[id], changes)] else old(rows)
      ensures rows.Keys == old(rows).Keys
      ensures forall k | k in rows && k != id :: rows[k] == old(rows)[k]
    {
      if id in rows {
        rows := rows[id := ApplyChanges(rows[id], changes)];
        affected := 1;
      } else {
        affected := 0;
      }
    }
  }

  /** Insert, then get by the returned id: the same row comes back. */
  method InsertThenGet(table: Table, fields: NewProject) returns (inserted: Project, fetched: Option<Project>)
    requires table.Valid()
    modifies table
    ensures table.Valid()
    ensures fetched == Some(inserted)
  {
    inserted := table.Insert(fields);
    fetched := table.GetById(inserted.id);
  }
}
