/** The request handlers of the projects resource: the collection route
    `/api/projects` (list, create) and the item route `/api/projects/:id`
    (existence guard, then get, delete or update). */
module ProjectsRouter {
  import opened JsValues
  import opened Responses
  import opened ProjectsService

  /** The fields a create request must carry, in the order they are checked. */
  const RequiredFields: seq<string> := ["project_type", "deadline", "deadline_flexibility", "charity_id"]

  /** The keys of the request body a create request reads. */
  const CreatableFields: set<string> := {"project_type", "deadline", "deadline_flexibility", "charity_id", "details"}

  /** The keys of the request body an update request reads, in the order
      `Object.values` lists them. */
  const UpdatableFields: seq<string> := ["project_type", "deadline", "deadline_flexibility", "details"]

  /** The keys of every serialized project. */
  const PublicFields: set<string> := {"id", "project_type", "deadline", "deadline_flexibility", "charity_id", "details"}

  const NotFoundMessage: string := "Project doesn't exist"

  const EmptyUpdateMessage: string :=
    "Request body must contain either 'project_type', 'deadline', 'deadline_flexibility' or 'details'"

  /** serializeProject: the public shape of a row. Exactly the six public
      fields; every value is copied as stored except details, which is passed
      through the markup sanitizer `xss` on the way out. */
  function SerializeProject(p: Project, xss: Value -> Value): (json: JsonObject)
    ensures json.Keys == PublicFields
    ensures json["id"] == Int(p.id)
    ensures json["project_type"] == p.projectType
    ensures json["deadline"] == p.deadline
    ensures json["deadline_flexibility"] == p.deadlineFlexibility
    ensures json["charity_id"] == p.charityId
    ensures json["details"] == xss(p.details)
  {
    map["id" := Int(p.id),
        "project_type" := p.projectType,
        "deadline" := p.deadline,
        "deadline_flexibility" := p.deadlineFlexibility,
        "charity_id" := p.charityId,
        "details" := xss(p.details)]
  }

  /** A serialized project names its row: two rows with the same public
      shape are the same row, up to what the sanitizer makes of details. */
  lemma SerializeProjectDeterminesRow(p: Project, q: Project, xss: Value -> Value)
    requires SerializeProject(p, xss) == SerializeProject(q, xss)
    ensures p.id == q.id && p.charityId == q.charityId && p.projectType == q.projectType
    ensures p.deadline == q.deadline && p.deadlineFlexibility == q.deadlineFlexibility
    ensures xss(p.details) == xss(q.details)
  {
  }

  /** `projects.map(serializeProject)`. */
  function SerializeAll(projects: seq<Project>, xss: Value -> Value): (items: seq<JsonObject>)
    ensures |items| == |projects|
    ensures forall i | 0 <= i < |projects| :: items[i] == SerializeProject(projects[i], xss)
  {
    seq(|projects|, i requires 0 <= i < |projects| => SerializeProject(projects[i], xss))
  }

  /** Serializing a listing that holds every row of a table, each as stored,
      gives one item per row: every row's serialization is among the items
      and every item is the serialization of some row. */
  lemma ListingCoversTable(rows: map<int, Project>, listing: seq<Project>, xss: Value -> Value)
    requires |listing| == |rows|
    requires forall i | 0 <= i < |listing| :: listing[i].id in rows && rows[listing[i].id] == listing[i]
    requires forall id | id in rows :: rows[id] in listing
    ensures |SerializeAll(listing, xss)| == |rows|
    ensures forall i | 0 <= i < |listing| ::
              exists id | id in rows :: SerializeAll(listing, xss)[i] == SerializeProject(rows[id], xss)
    ensures forall id | id in rows :: SerializeProject(rows[id], xss) in SerializeAll(listing, xss)
  {
    var items := SerializeAll(listing, xss);
    forall i | 0 <= i < |listing|
      ensures exists id | id in rows :: items[i] == SerializeProject(rows[id], xss)
    {
      var id := listing[i].id;
      assert items[i] == SerializeProject(rows[id], xss);
    }
    forall id | id in rows
      ensures SerializeProject(rows[id], xss) in items
    {
      var i :| 0 <= i < |listing| && listing[i] == rows[id];
      assert items[i] == SerializeProject(rows[id], xss);
    }
  }

  /** The object a create request inserts: the five creatable keys of the body. */
  function NewProjectFrom(body: Body): NewProject {
    NewProject(Lookup(body, "project_type"), Lookup(body, "deadline"),
               Lookup(body, "deadline_flexibility"), Lookup(body, "charity_id"),
               Lookup(body, "details"))
  }

  /** A create request inserts the creatable keys as sent, and no key outside
      them has any effect on what it inserts. */
  lemma NewProjectFromAllowList(body: Body, key: string, v: Value)
    requires key !in CreatableFields
    ensures NewProjectFrom(body[key := v]) == NewProjectFrom(body)
    ensures NewProjectFrom(body) ==
            NewProject(Lookup(body, "project_type"), Lookup(body, "deadline"),
                       Lookup(body, "deadline_flexibility"), Lookup(body, "charity_id"),
                       Lookup(body, "details"))
  {
  }

  /** The object an update request passes on: the four updatable keys. */
  function ChangesFrom(body: Body): ProjectChanges {
    ProjectChanges(Lookup(body, "project_type"), Lookup(body, "deadline"),
                   Lookup(body, "deadline_flexibility"), Lookup(body, "details"))
  }

  /** An update request passes on only the updatable keys: a key outside
      them, charity_id included, has no effect on what reaches the table. */
  lemma ChangesFromAllowList(body: Body, key: string, v: Value)
    requires key !in UpdatableFields
    ensures ChangesFrom(body[key := v]) == ChangesFrom(body)
  {
  }

  /** `Object.values(projectToUpdate).filter(Boolean).length`. */
  function NumberOfValues(changes: ProjectChanges): nat {
    CountTruthy([changes.projectType, changes.deadline, changes.deadlineFlexibility, changes.details])
  }

  /** The update gate: an update request is refused exactly when none of the
      updatable keys of its body is truthy; keys outside them, charity_id
      included, never open it. */
  lemma {:induction false} UpdateGate(body: Body)
    ensures NumberOfValues(ChangesFrom(body)) == 0 <==>
            forall i | 0 <= i < |UpdatableFields| :: !Truthy(Lookup(body, UpdatableFields[i]))
  {
    var vs := [Lookup(body, "project_type"), Lookup(body, "deadline"),
               Lookup(body, "deadline_flexibility"), Lookup(body, "details")];
    assert forall i | 0 <= i < 4 :: vs[i] == Lookup(body, UpdatableFields[i]);
  }

  /** A body carrying only charity_id and keys the route does not know is
      refused by the gate. */
  lemma OnlyUnknownKeysRefused(body: Body)
    requires forall i | 0 <= i < |UpdatableFields| :: UpdatableFields[i] !in body
    ensures NumberOfValues(ChangesFrom(body)) == 0
  {
    UpdateGate(body);
  }

  /** An update that passes the gate supplies at least one column, so the
      UPDATE it issues is never empty. */
  lemma PassedGateSuppliesAColumn(body: Body)
    requires NumberOfValues(ChangesFrom(body)) > 0
    ensures exists i | 0 <= i < |UpdatableFields| :: Supplied(Lookup(body, UpdatableFields[i]))
  {
    UpdateGate(body);
  }

  /** The verbs the item route answers. */
  datatype Verb = Get | Delete | Patch(body: Body)

  /** The handlers of both routes, over the cc_projects table `db`, with the
      markup sanitizer `xss` that serialization applies to details. */
  class Router {
    const db: Table
    const xss: Value -> Value

    constructor (db: Table, xss: Value -> Value)
      ensures this.db == db && this.xss == xss
    {
      this.db := db;
      this.xss := xss;
    }

    /** GET /api/projects: 200 and one serialized project per row. */
    method List() returns (res: Response)
      requires db.Valid()
      ensures res.status == 200 && res.body.Array?
      ensures |res.body.items| == |db.rows|
      ensures forall i | 0 <= i < |res.body.items| ::
                exists id | id in db.rows :: res.body.items[i] == SerializeProject(db.rows[id], xss)
      ensures forall id | id in db.rows :: SerializeProject(db.rows[id], xss) in res.body.items
    {
      var projects := db.GetAll();
      ListingCoversTable(db.rows, projects, xss);
      res := Response(200, Array(SerializeAll(projects, xss)));
    }

    /** POST /api/projects: check the required fields in order and answer 400
        naming the first falsy one, leaving the table as it was; otherwise
        insert the creatable fields and answer 201 with the serialized row. */
    method Create(body: Body) returns (res: Response)
      requires db.Valid()
      modifies db
      ensures db.Valid()
      ensures FirstFalsy(body, RequiredFields).Some? ==>
                && res == Response(400, Error(MissingMessage(FirstFalsy(body, RequiredFields).value)))
                && db.rows == old(db.rows) && db.nextId == old(db.nextId)
      ensures FirstFalsy(body, RequiredFields).None? ==>
                var row := Created(old(db.nextId), NewProjectFrom(body));
                && row.id !in old(db.rows)
                && db.rows == old(db.rows)[row.id := row]
                && res == Response(201, Object(SerializeProject(row, xss)))
    {
      var newProject := NewProjectFrom(body);
      var missing := FindMissing(body, RequiredFields);
      if missing.Some? {
        return Response(400, Error(MissingMessage(missing.value)));
      }
      var project := db.Insert(newProject);
      res := Response(201, Object(SerializeProject(project, xss)));
    }

    /** DELETE /api/projects/:id once the guard has passed: delete the row
        and answer 204 whatever the number of rows deleted. */
    method Remove(id: int) returns (res: Response)
      requires db.Valid()
      modifies db
      ensures db.Valid() && db.nextId == old(db.nextId)
      ensures res == Response(204, NoContent)
      ensures db.rows == old(db.rows) - {id}
    {
      var _ := db.Delete(id);
      res := Response(204, NoContent);
    }

    /** PATCH /api/projects/:id once the guard has passed: refuse a body with
        no truthy updatable field, leaving the table as it was; otherwise
        update the row with the updatable fields and answer 204. */
    method Modify(id: int, body: Body) returns (res: Response)
      requires db.Valid()
      modifies db
      ensures db.Valid() && db.nextId == old(db.nextId)
      ensures NumberOfValues(ChangesFrom(body)) == 0 ==>
                res == Response(400, Error(EmptyUpdateMessage)) && db.rows == old(db.rows)
      ensures NumberOfValues(ChangesFrom(body)) > 0 ==>
                && res == Response(204, NoContent)
                && db.rows == if id in old(db.rows)
                              then old(db.rows)[id := ApplyChanges(old(db.rows)[id], ChangesFrom(body))]
                              else old(db.rows)
    {
      var projectToUpdate := ChangesFrom(body);
      if NumberOfValues(projectToUpdate) == 0 {
        return Response(400, Error(EmptyUpdateMessage));
      }
      var _ := db.Update(id, projectToUpdate);
      res := Response(204, NoContent);
    }

    /** /api/projects/:id: the existence guard loads the row once and answers
        404 when there is none, running no handler; otherwise GET answers the
        loaded row serialized, and DELETE and PATCH run their handlers. */
    method Item(id: int, verb: Verb) returns (res: Response)
      requires db.Valid()
      modifies db
      ensures db.Valid() && db.nextId == old(db.nextId)
      ensures id !in old(db.rows) ==>
                res == Response(404, Error(NotFoundMessage)) && db.rows == old(db.rows)
      ensures id in old(db.rows) && verb.Get? ==>
                res == Response(200, Object(SerializeProject(old(db.rows)[id], xss)))
                && db.rows == old(db.rows)
      ensures id in old(db.rows) && verb.Delete? ==>
                res == Response(204, NoContent) && db.rows == old(db.rows) - {id}
      ensures id in old(db.rows) && verb.Patch? && NumberOfValues(ChangesFrom(verb.body)) == 0 ==>
                res == Response(400, Error(EmptyUpdateMessage)) && db.rows == old(db.rows)
      ensures id in old(db.rows) && verb.Patch? && NumberOfValues(ChangesFrom(verb.body)) > 0 ==>
                && res == Response(204, NoContent)
                && db.rows == old(db.rows)[id := ApplyChanges(old(db.rows)[id], ChangesFrom(verb.body))]
    {
      var found := db.GetById(id);
      if found.None? {
        return Response(404, Error(NotFoundMessage));
      }
      var loaded := found.value;
      match verb
      case Get =>
        res := Response(200, Object(SerializeProject(loaded, xss)));
      case Delete =>
        res := Remove(id);
      case Patch(body) =>
        res := Modify(id, body);
    }
  }

  /** Create a project, then GET it by the id the create response carries:
      the GET answers 200 with the very body the create answered. */
  method CreateThenGet(router: Router, body: Body) returns (created: Response, fetched: Response)
    requires router.db.Valid()
    requires FirstFalsy(body, RequiredFields).None?
    modifies router.db
    ensures created.status == 201 && fetched == Response(200, created.body)
  {
    created := router.Create(body);
    var id := created.body.fields["id"].n;
    fetched := router.Item(id, Get);
  }

  /** Delete an existing project, then list: 204, and the list holds the
      serialization of every other row and nothing else. */
  method DeleteThenList(router: Router, id: int) returns (deleted: Response, listed: Response)
    requires router.db.Valid() && id in router.db.rows
    modifies router.db
    ensures deleted == Response(204, NoContent)
    ensures listed.status == 200 && listed.body.Array?
    ensures |listed.body.items| == |old(router.db.rows)| - 1
    ensures forall k | k in old(router.db.rows) && k != id ::
              SerializeProject(old(router.db.rows)[k], router.xss) in listed.body.items
    ensures forall i | 0 <= i < |listed.body.items| ::
              exists k | k in old(router.db.rows) && k != id ::
                listed.body.items[i] == SerializeProject(old(router.db.rows)[k], router.xss)
  {
    deleted := router.Item(id, Delete);
    listed := router.List();
    forall k | k in old(router.db.rows) && k != id
      ensures SerializeProject(old(router.db.rows)[k], router.xss) in listed.body.items
    {
      assert k in router.db.rows && router.db.rows[k] == old(router.db.rows)[k];
    }
  }

  /** Update an existing project, then GET it: the row comes back with the
      supplied updatable fields merged in and every other field as before. */
  method UpdateThenGet(router: Router, id: int, body: Body) returns (updated: Response, fetched: Response)
    requires router.db.Valid() && id in router.db.rows
    requires NumberOfValues(ChangesFrom(body)) > 0
    modifies router.db
    ensures updated == Response(204, NoContent)
    ensures fetched == Response(200, Object(SerializeProject(
              ApplyChanges(old(router.db.rows)[id], ChangesFrom(body)), router.xss)))
  {
    updated := router.Item(id, Patch(body));
    fetched := router.Item(id, Get);
  }
}
