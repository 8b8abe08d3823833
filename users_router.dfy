/** The request handlers of the users resource: the collection route
    `/api/users` (list, create) and the item route `/api/users/:id`
    (existence guard, then get, delete or update). */
module UsersRouter {
  import opened JsValues
  import opened Responses
  import opened UsersService

  /** The fields a create request must carry, in the order they are checked. */
  const RequiredFields: seq<string> := ["name", "email", "user_type", "password"]

  /** The keys of the request body a create request reads. */
  const CreatableFields: set<string> := {"name", "email", "user_type", "password"}

  /** The keys of the request body an update request reads, in the order
      `Object.values` lists them. */
  const UpdatableFields: seq<string> := ["name", "email", "password", "about", "website"]

  /** The keys of every serialized user. */
  const PublicFields: set<string> := {"id", "name", "email", "user_type", "password", "about", "website"}

  const NotFoundMessage: string := "User doesn't exist"

  /** The message of a refused update. It names user_type, which an update
      cannot change, and leaves out about and website, which it can. */
  const EmptyUpdateMessage: string :=
    "Request body must contain either 'name', 'user_type', 'email' or 'password'"

  /** serializeUser: the public shape of a row. Exactly the seven public
      fields; every value, the password included, is copied as stored except
      about, which is passed through the markup sanitizer `xss` on the way out. */
  function SerializeUser(u: User, xss: Value -> Value): (json: JsonObject)
    ensures json.Keys == PublicFields
    ensures json["id"] == Int(u.id)
    ensures json["name"] == u.name
    ensures json["email"] == u.email
    ensures json["user_type"] == u.userType
    ensures json["password"] == u.password
    ensures json["about"] == xss(u.about)
    ensures json["website"] == u.website
  {
    map["id" := Int(u.id),
        "name" := u.name,
        "email" := u.email,
        "user_type" := u.userType,
        "password" := u.password,
        "about" := xss(u.about),
        "website" := u.website]
  }

  /** A serialized user names its row: two rows with the same public shape
      are the same row, up to what the sanitizer makes of about. */
  lemma SerializeUserDeterminesRow(u: User, v: User, xss: Value -> Value)
    requires SerializeUser(u, xss) == SerializeUser(v, xss)
    ensures u.id == v.id && u.name == v.name && u.email == v.email && u.userType == v.userType
    ensures u.password == v.password && u.website == v.website
    ensures xss(u.about) == xss(v.about)
  {
  }

  /** `users.map(serializeUser)`. */
  function SerializeAll(users: seq<User>, xss: Value -> Value): (items: seq<JsonObject>)
    ensures |items| == |users|
    ensures forall i | 0 <= i < |users| :: items[i] == SerializeUser(users[i], xss)
  {
    seq(|users|, i requires 0 <= i < |users| => SerializeUser(users[i], xss))
  }

  /** Serializing a listing that holds every row of a table, each as stored,
      gives one item per row: every row's serialization is among the items
      and every item is the serialization of some row. */
  lemma ListingCoversTable(rows: map<int, User>, listing: seq<User>, xss: Value -> Value)
    requires |listing| == |rows|
    requires forall i | 0 <= i < |listing| :: listing[i].id in rows && rows[listing[i].id] == listing[i]
    requires forall id | id in rows :: rows[id] in listing
    ensures |SerializeAll(listing, xss)| == |rows|
    ensures forall i | 0 <= i < |listing| ::
              exists id | id in rows :: SerializeAll(listing, xss)[i] == SerializeUser(rows[id], xss)
    ensures forall id | id in rows :: SerializeUser(rows[id], xss) in SerializeAll(listing, xss)
  {
    var items := SerializeAll(listing, xss);
    forall i | 0 <= i < |listing|
      ensures exists id | id in rows :: items[i] == SerializeUser(rows[id], xss)
    {
      var id := listing[i].id;
      assert items[i] == SerializeUser(rows[id], xss);
    }
    forall id | id in rows
      ensures SerializeUser(rows[id], xss) in items
    {
      var i :| 0 <= i < |listing| && listing[i] == rows[id];
      assert items[i] == SerializeUser(rows[id], xss);
    }
  }

  /** The object a create request inserts: the four creatable keys of the body. */
  function NewUserFrom(body: Body): NewUser {
    NewUser(Lookup(body, "name"), Lookup(body, "email"),
            Lookup(body, "user_type"), Lookup(body, "password"))
  }

  /** A create request inserts the creatable keys as sent, and no key outside
      them, about and website included, has any effect on what it inserts. */
  lemma NewUserFromAllowList(body: Body, key: string, v: Value)
    requires key !in CreatableFields
    ensures NewUserFrom(body[key := v]) == NewUserFrom(body)
    ensures NewUserFrom(body) ==
            NewUser(Lookup(body, "name"), Lookup(body, "email"),
                    Lookup(body, "user_type"), Lookup(body, "password"))
  {
  }

  /** The object an update request passes on: the five updatable keys. */
  function ChangesFrom(body: Body): UserChanges {
    UserChanges(Lookup(body, "name"), Lookup(body, "email"), Lookup(body, "password"),
                Lookup(body, "about"), Lookup(body, "website"))
  }

  /** An update request passes on only the updatable keys: a key outside
      them, user_type and id included, has no effect on what reaches the
      table. */
  lemma ChangesFromAllowList(body: Body, key: string, v: Value)
    requires key !in UpdatableFields
    ensures ChangesFrom(body[key := v]) == ChangesFrom(body)
  {
  }

  /** `Object.values(userToUpdate).filter(Boolean).length`. */
  function NumberOfValues(changes: UserChanges): nat {
    CountTruthy([changes.name, changes.email, changes.password, changes.about, changes.website])
  }

  /** The update gate: an update request is refused exactly when none of the
      updatable keys of its body is truthy; keys outside them, user_type
      included, never open it. */
  lemma {:induction false} UpdateGate(body: Body)
    ensures NumberOfValues(ChangesFrom(body)) == 0 <==>
            forall i | 0 <= i < |UpdatableFields| :: !Truthy(Lookup(body, UpdatableFields[i]))
  {
    var vs := [Lookup(body, "name"), Lookup(body, "email"), Lookup(body, "password"),
               Lookup(body, "about"), Lookup(body, "website")];
    assert forall i | 0 <= i < 5 :: vs[i] == Lookup(body, UpdatableFields[i]);
  }

  /** A body carrying only user_type is refused (with EmptyUpdateMessage,
      which asks for user_type among others), and adding user_type to any
      body changes nothing an update passes on: an update never reads it. */
  lemma UserTypeOnlyRefused(body: Body, userType: Value)
    ensures NumberOfValues(ChangesFrom(map["user_type" := userType])) == 0
    ensures ChangesFrom(body["user_type" := userType]) == ChangesFrom(body)
  {
    UpdateGate(map["user_type" := userType]);
    ChangesFromAllowList(body, "user_type", userType);
  }

  /** An update that passes the gate supplies at least one column, so the
      UPDATE it issues is never empty. */
  lemma PassedGateSuppliesAColumn(body: Body)
    requires NumberOfValues(ChangesFrom(body)) > 0
    ensures exists i | 0 <= i < |UpdatableFields| :: Supplied(Lookup(body, UpdatableFields[i]))
  {
    UpdateGate(body);
  }

  /** The verbs the item route answers. */
  datatype Verb = Get | Delete | Patch(body: Body)

  /** The handlers of both routes, over the cc_users table `db`, with the
      markup sanitizer `xss` that serialization applies to about. */
  class Router {
    const db: Table
    const xss: Value -> Value

    constructor (db: Table, xss: Value -> Value)
      ensures this.db == db && this.xss == xss
    {
      this.db := db;
      this.xss := xss;
    }

    /** GET /api/users: 200 and one serialized user per row. */
    method List() returns (res: Response)
      requires db.Valid()
      ensures res.status == 200 && res.body.Array?
      ensures |res.body.items| == |db.rows|
      ensures forall i | 0 <= i < |res.body.items| ::
                exists id | id in db.rows :: res.body.items[i] == SerializeUser(db.rows[id], xss)
      ensures forall id | id in db.rows :: SerializeUser(db.rows[id], xss) in res.body.items
    {
      var users := db.GetAll();
      ListingCoversTable(db.rows, users, xss);
      res := Response(200, Array(SerializeAll(users, xss)));
    }

    /** POST /api/users: check the required fields in order and answer 400
        naming the first falsy one, leaving the table as it was; otherwise
        insert the creatable fields and answer 201 with the serialized row. */
    method Create(body: Body) returns (res: Response)
      requires db.Valid()
      modifies db
      ensures db.Valid()
      ensures FirstFalsy(body, RequiredFields).Some? ==>
                && res == Response(400, Error(MissingMessage(FirstFalsy(body, RequiredFields).value)))
                && db.rows == old(db.rows) && db.nextId == old(db.nextId)
      ensures FirstFalsy(body, RequiredFields).None? ==>
                var row := Created(old(db.nextId), NewUserFrom(body));
                && row.id !in old(db.rows)
                && db.rows == old(db.rows)[row.id := row]
                && res == Response(201, Object(SerializeUser(row, xss)))
    {
      var newUser := NewUserFrom(body);
      var missing := FindMissing(body, RequiredFields);
      if missing.Some? {
        return Response(400, Error(MissingMessage(missing.value)));
      }
      var user := db.Insert(newUser);
      res := Response(201, Object(SerializeUser(user, xss)));
    }

    /** DELETE /api/users/:id once the guard has passed: delete the row
        and answer 204 whatever the number of rows deleted. */
    method Remove(id: int) returns (res: Response)
      requires db.Valid()
      modifies db
      ensures db.Valid() && db.nextId == old(db.nextId)
      ensures res == Response(204, NoContent)
      ensures db.rows == old(db.rows) - {id}
    {
      var _ := db.Delete(id);
      res := Response(204, NoContent);
    }

    /** PATCH /api/users/:id once the guard has passed: refuse a body with
        no truthy updatable field, leaving the table as it was; otherwise
        update the row with the updatable fields and answer 204. */
    method Modify(id: int, body: Body) returns (res: Response)
      requires db.Valid()
      modifies db
      ensures db.Valid() && db.nextId == old(db.nextId)
      ensures NumberOfValues(ChangesFrom(body)) == 0 ==>
                res == Response(400, Error(EmptyUpdateMessage)) && db.rows == old(db.rows)
      ensures NumberOfValues(ChangesFrom(body)) > 0 ==>
                && res == Response(204, NoContent)
                && db.rows == if id in old(db.rows)
                              then old(db.rows)[id := ApplyChanges(old(db.rows)[id], ChangesFrom(body))]
                              else old(db.rows)
    {
      var userToUpdate := ChangesFrom(body);
      if NumberOfValues(userToUpdate) == 0 {
        return Response(400, Error(EmptyUpdateMessage));
      }
      var _ := db.Update(id, userToUpdate);
      res := Response(204, NoContent);
    }

    /** /api/users/:id: the existence guard loads the row once and answers
        404 when there is none, running no handler; otherwise GET answers the
        loaded row serialized, and DELETE and PATCH run their handlers. */
    method Item(id: int, verb: Verb) returns (res: Response)
      requires db.Valid()
      modifies db
      ensures db.Valid() && db.nextId == old(db.nextId)
      ensures id !in old(db.rows) ==>
                res == Response(404, Error(NotFoundMessage)) && db.rows == old(db.rows)
      ensures id in old(db.rows) && verb.Get? ==>
                res == Response(200, Object(SerializeUser(old(db.rows)[id], xss)))
                && db.rows == old(db.rows)
      ensures id in old(db.rows) && verb.Delete? ==>
                res == Response(204, NoContent) && db.rows == old(db.rows) - {id}
      ensures id in old(db.rows) && verb.Patch? && NumberOfValues(ChangesFrom(verb.body)) == 0 ==>
                res == Response(400, Error(EmptyUpdateMessage)) && db.rows == old(db.rows)
      ensures id in old(db.rows) && verb.Patch? && NumberOfValues(ChangesFrom(verb.body)) > 0 ==>
                && res == Response(204, NoContent)
                && db.rows == old(db.rows)[id := ApplyChanges(old(db.rows)[id], ChangesFrom(verb.body))]
    {
      var found := db.GetById(id);
      if found.None? {
        return Response(404, Error(NotFoundMessage));
      }
      var loaded := found.value;
      match verb
      case Get =>
        res := Response(200, Object(SerializeUser(loaded, xss)));
      case Delete =>
        res := Remove(id);
      case Patch(body) =>
        res := Modify(id, body);
    }
  }

  /** Create a user, then GET it by the id the create response carries: the
      GET answers 200 with the very body the create answered. */
  method CreateThenGet(router: Router, body: Body) returns (created: Response, fetched: Response)
    requires router.db.Valid()
    requires FirstFalsy(body, RequiredFields).None?
    modifies router.db
    ensures created.status == 201 && fetched == Response(200, created.body)
  {
    created := router.Create(body);
    var id := created.body.fields["id"].n;
    fetched := router.Item(id, Get);
  }

  /** Delete an existing user, then list: 204, and the list holds the
      serialization of every other row and nothing else. */
  method DeleteThenList(router: Router, id: int) returns (deleted: Response, listed: Response)
    requires router.db.Valid() && id in router.db.rows
    modifies router.db
    ensures deleted == Response(204, NoContent)
    ensures listed.status == 200 && listed.body.Array?
    ensures |listed.body.items| == |old(router.db.rows)| - 1
    ensures forall k | k in old(router.db.rows) && k != id ::
              SerializeUser(old(router.db.rows)[k], router.xss) in listed.body.items
    ensures forall i | 0 <= i < |listed.body.items| ::
              exists k | k in old(router.db.rows) && k != id ::
                listed.body.items[i] == SerializeUser(old(router.db.rows)[k], router.xss)
  {
    deleted := router.Item(id, Delete);
    listed := router.List();
    forall k | k in old(router.db.rows) && k != id
      ensures SerializeUser(old(router.db.rows)[k], router.xss) in listed.body.items
    {
      assert k in router.db.rows && router.db.rows[k] == old(router.db.rows)[k];
    }
  }

  /** Update an existing user, then GET it: the row comes back with the
      supplied updatable fields merged in and every other field as before. */
  method UpdateThenGet(router: Router, id: int, body: Body) returns (updated: Response, fetched: Response)
    requires router.db.Valid() && id in router.db.rows
    requires NumberOfValues(ChangesFrom(body)) > 0
    modifies router.db
    ensures updated == Response(204, NoContent)
    ensures fetched == Response(200, Object(SerializeUser(
              ApplyChanges(old(router.db.rows)[id], ChangesFrom(body)), router.xss)))
  {
    updated := router.Item(id, Patch(body));
    fetched := router.Item(id, Get);
  }
}
