# CRUD contract of the users and projects resources

This project models the two resources of a small REST API, users and
projects. Each resource has two layers:

- A data access layer (`src/*/…-service.js`): one statement per call against
  the `cc_users` or `cc_projects` table. It lists all rows, inserts a row
  and returns it, gets a row by id, deletes by id and updates by id.
- A request handling layer (`src/*/…-router.js`). On create it checks the
  required fields in a fixed order and reports only the first falsy one. It
  projects the request body onto an allow-list for create and for update. It
  refuses an update whose updatable fields are all falsy. An existence guard
  answers 404 before any item handler runs. Serialization emits a fixed field
  set and passes one free-text field through a markup sanitizer.

Modules and files:

- `js_values.dfy` (`JsValues`): JavaScript values in a parsed body
  (`Undefined | Null | Str | Int | Bool`). It defines truthiness and
  `filter(Boolean).length`. It also says how the query library writes a value
  into an INSERT or an UPDATE: an undefined key is left out of the statement.
- `responses.dfy` (`Responses`): the response shape `(status, body)`, the
  error body `{ error: { message } }`, and the required-field check. The
  check is a loop method (`FindMissing`) proved against a recursive
  specification (`FirstFalsy`).
- `projects_service.dfy`, `users_service.dfy`: the row types and a `Table`
  class. Its `rows: map<int, Row>` stands for the table as `where id = …`
  selects on it. Its `nextId` stands for the serial sequence that assigns
  ids.
- `projects_router.dfy`, `users_router.dfy`: the serializers, the
  projections, the update gate and a `Router` class. The class holds the
  table and the sanitizer. `List` and `Create` are the collection handlers.
  `Item` is the existence guard followed by the GET handler, `Remove` (DELETE)
  or `Modify` (PATCH). The module-level methods `CreateThenGet`,
  `DeleteThenList` and `UpdateThenGet` chain two requests.

The markup sanitizer (the `xss` library) is a function-valued parameter of
each router. The model relies only on the fact that serialization applies
it, on every read, to `details` (projects) or `about` (users). Stored values
are never sanitized.

The refusal message of a users update, "Request body must contain either
'name', 'user_type', 'email' or 'password'" (src/users/users-router.js:86),
names `user_type`, which an update never reads. It leaves out `about` and
`website`, which an update does read. The model keeps the message as the code
writes it (`UsersRouter.UserTypeOnlyRefused`).

## Model

| member | source | states |
|---|---|---|
| `JsValues.CountTruthy` | src/projects/projects-router.js:103-104 | the count of truthy values is at most their number; it is 0 exactly when no value is truthy and full exactly when all are |
| `Responses.FirstFalsy` | src/projects/projects-router.js:46-59 | the reported field is one of the required fields and is falsy in the body; nothing is reported exactly when every required field is truthy |
| `Responses.FirstFalsyIsFirst` | src/projects/projects-router.js:46-59 | the reported field is the first falsy one in the list order: every field before it is truthy |
| `Responses.FindMissing` | src/users/users-router.js:34-42 | the loop with early return over the required fields yields exactly the first falsy field, or none |
| `ProjectsService.ApplyChanges` | src/projects/projects-service.js:24-26 | an update sets every supplied column to its new value and keeps every unsupplied one; id and charity_id never change |
| `ProjectsService.ApplyChangesIdempotent` | src/projects/projects-service.js:24-26 | repeating an update with the same fields changes nothing more |
| `ProjectsService.Table.GetAll` | src/projects/projects-service.js:2-4 | returns every row exactly once, each as stored under its id, in an unspecified order; an empty table gives an empty sequence |
| `ProjectsService.Table.Insert` | src/projects/projects-service.js:6-14 | adds exactly one row under a fresh id (the serial counter) and returns that row; undefined columns take their default; the table invariant is kept |
| `ProjectsService.Table.GetById` | src/projects/projects-service.js:16-18 | returns the row with that id when there is one and nothing otherwise |
| `ProjectsService.Table.Delete` | src/projects/projects-service.js:20-22 | removes only the row with that id and answers 1, or answers 0 and changes nothing when there is none; all other rows are unchanged |
| `ProjectsService.Table.Update` | src/projects/projects-service.js:24-26 | changes only the row with that id, by ApplyChanges, and answers 1; answers 0 and changes nothing when there is none; other rows and the set of ids are unchanged |
| `ProjectsService.InsertThenGet` | src/projects/projects-service.js:6-18 | getting by the id an insert returned yields the inserted row |
| `ProjectsRouter.SerializeProject` | src/projects/projects-router.js:11-18 | the output has exactly the keys id, project_type, deadline, deadline_flexibility, charity_id, details; all are copied as stored except details, which is the sanitizer's output |
| `ProjectsRouter.SerializeProjectDeterminesRow` | src/projects/projects-router.js:11-18 | two rows with equal serializations agree on every column, and on details up to the sanitizer |
| `ProjectsRouter.NewProjectFromAllowList` | src/projects/projects-router.js:31-44 | a create inserts project_type, deadline, deadline_flexibility, charity_id and details exactly as read from the body; a body key outside project_type, deadline, deadline_flexibility, charity_id, details has no effect on the insert |
| `ProjectsRouter.ChangesFromAllowList` | src/projects/projects-router.js:95-101 | an update passes on only project_type, deadline, deadline_flexibility and details: any other body key, charity_id included, has no effect on what reaches the table |
| `ProjectsRouter.UpdateGate` | src/projects/projects-router.js:95-111 | an update is refused exactly when none of project_type, deadline, deadline_flexibility, details is truthy in the body |
| `ProjectsRouter.OnlyUnknownKeysRefused` | src/projects/projects-router.js:103-111 | a body with only charity_id or unknown keys is refused |
| `ProjectsRouter.PassedGateSuppliesAColumn` | src/projects/projects-router.js:103-116 | an update that passes the gate supplies at least one column to the UPDATE |
| `ProjectsRouter.Router.List` | src/projects/projects-router.js:20-29 | answers 200 with one serialized project per row: every row's serialization is listed and every listed item serializes some row |
| `ProjectsRouter.Router.Create` | src/projects/projects-router.js:30-66 | answers 400 "Missing '<f>' is required" for the first falsy required field f in the order project_type, deadline, deadline_flexibility, charity_id, and leaves the table unchanged; otherwise inserts exactly the five creatable fields under a fresh id and answers 201 with the serialized row |
| `ProjectsRouter.ListingCoversTable` | src/projects/projects-router.js:24-27 | serializing a full listing of the table gives one item per row: every row's serialization is among the items and every item serializes some row |
| `ProjectsRouter.Router.Item` | src/projects/projects-router.js:68-85 | the guard answers 404 "Project doesn't exist" for a missing id and changes nothing, for every verb; GET answers 200 with the serialization of the row the guard loaded; DELETE and PATCH on an existing id have the effects of Remove and Modify |
| `ProjectsRouter.Router.Remove` | src/projects/projects-router.js:86-93 | answers 204 and removes the row with that id and only that row |
| `ProjectsRouter.Router.Modify` | src/projects/projects-router.js:94-121 | answers 400 "Request body must contain either …" and leaves the table unchanged when no updatable field is truthy; otherwise answers 204 and applies the updatable fields to that row only, never touching id or charity_id |
| `ProjectsRouter.CreateThenGet` | src/projects/projects-router.js:61-85 | a successful create answers 201, and a GET by the id in its body answers 200 with the same body |
| `ProjectsRouter.DeleteThenList` | src/projects/projects-router.js:86-93 | after deleting an existing project the list holds the serialization of every other row and nothing else |
| `ProjectsRouter.UpdateThenGet` | src/projects/projects-router.js:94-121 | after an update that passes the gate, GET answers the prior row with the supplied updatable fields merged in |
| `UsersService.ApplyChanges` | src/users/users-service.js:24-26 | an update sets every supplied column to its new value and keeps every unsupplied one; id and user_type never change |
| `UsersService.ApplyChangesIdempotent` | src/users/users-service.js:24-26 | repeating an update with the same fields changes nothing more |
| `UsersService.Table.GetAll` | src/users/users-service.js:2-4 | returns every row exactly once, each as stored under its id, in an unspecified order; an empty table gives an empty sequence |
| `UsersService.Table.Insert` | src/users/users-service.js:6-14 | adds exactly one row under a fresh id and returns it; about and website take their default; the table invariant is kept |
| `UsersService.Table.GetById` | src/users/users-service.js:16-18 | returns the row with that id when there is one and nothing otherwise |
| `UsersService.Table.Delete` | src/users/users-service.js:20-22 | removes only the row with that id and answers 1, or answers 0 and changes nothing when there is none |
| `UsersService.Table.Update` | src/users/users-service.js:24-26 | changes only the row with that id, by ApplyChanges, and answers 1; answers 0 and changes nothing when there is none; other rows and the set of ids are unchanged |
| `UsersService.InsertThenGet` | src/users/users-service.js:6-18 | getting by the id an insert returned yields the inserted row |
| `UsersRouter.SerializeUser` | src/users/users-router.js:10-18 | the output has exactly the keys id, name, email, user_type, password, about, website; the password is returned as stored and about is the sanitizer's output |
| `UsersRouter.SerializeUserDeterminesRow` | src/users/users-router.js:10-18 | two rows with equal serializations agree on every column, and on about up to the sanitizer |
| `UsersRouter.NewUserFromAllowList` | src/users/users-router.js:31-32 | a create inserts name, email, user_type and password exactly as read from the body; any other body key, about and website included, has no effect on the insert |
| `UsersRouter.ChangesFromAllowList` | src/users/users-router.js:78-79 | an update passes on only name, email, password, about and website: any other body key, user_type included, has no effect on what reaches the table |
| `UsersRouter.UpdateGate` | src/users/users-router.js:78-88 | an update is refused exactly when none of name, email, password, about, website is truthy in the body |
| `UsersRouter.UserTypeOnlyRefused` | src/users/users-router.js:78-88 | a body with only user_type is refused, although the refusal message names user_type; adding user_type to any body leaves what an update passes on unchanged |
| `UsersRouter.PassedGateSuppliesAColumn` | src/users/users-router.js:81-90 | an update that passes the gate supplies at least one column to the UPDATE |
| `UsersRouter.Router.List` | src/users/users-router.js:20-29 | answers 200 with one serialized user per row: every row's serialization is listed and every listed item serializes some row |
| `UsersRouter.Router.Create` | src/users/users-router.js:30-49 | answers 400 "Missing '<f>' is required" for the first falsy required field f in the order name, email, user_type, password, and leaves the table unchanged; otherwise inserts exactly those four fields under a fresh id and answers 201 with the serialized row |
| `UsersRouter.ListingCoversTable` | src/users/users-router.js:24-27 | serializing a full listing of the table gives one item per row: every row's serialization is among the items and every item serializes some row |
| `UsersRouter.Router.Item` | src/users/users-router.js:51-68 | the guard answers 404 "User doesn't exist" for a missing id and changes nothing, for every verb; GET answers 200 with the serialization of the row the guard loaded; DELETE and PATCH on an existing id have the effects of Remove and Modify |
| `UsersRouter.Router.Remove` | src/users/users-router.js:69-76 | answers 204 and removes the row with that id and only that row |
| `UsersRouter.Router.Modify` | src/users/users-router.js:77-95 | answers 400 with the fixed message and leaves the table unchanged when none of name, email, password, about, website is truthy; otherwise answers 204 and applies those fields to that row only, never touching id or user_type |
| `UsersRouter.CreateThenGet` | src/users/users-router.js:44-68 | a successful create answers 201, and a GET by the id in its body answers 200 with the same body |
| `UsersRouter.DeleteThenList` | src/users/users-router.js:69-76 | after deleting an existing user the list holds the serialization of every other row and nothing else |
| `UsersRouter.UpdateThenGet` | src/users/users-router.js:77-95 | after an update that passes the gate, GET answers the prior row with the supplied updatable fields merged in |

## Left out

- Process bootstrap (`src/server.js`), configuration (`src/config.js`) and the database connection: I/O and configuration.
- Express plumbing: route dispatch, JSON body parsing and `res.status/json/end`. A request body is given as a map from keys to values, and a response is a `(status, body)` value.
- Storage errors: every store call succeeds in the model. The code passes a failed statement to an error responder that is not part of this model (`.catch(next)`). Such failures include a charity_id with no user row (foreign key), a value the column type rejects, and a non-numeric path id.
- Column types and their coercions. A deadline string becomes a timestamp, and charity_id becomes an integer. The model stores and returns values exactly as sent, and a path id is an `int`.
- Column defaults: the schema is not part of this model. A column left out of an INSERT is taken to be NULL.
- The markup sanitizer's escaping rules: it is an uninterpreted parameter.
- Values a JSON body can carry beyond `undefined`, `null`, strings, integers and booleans: non-integer numbers, nested objects and arrays.
- The order of a full scan: it is left unspecified, modelled as an arbitrary choice.
- Rows inserted with explicit ids outside the service (as the tests' fixtures do). These bypass the serial sequence. In the model, every row enters through `Insert`, so every id is below `nextId`.
- `ProjectsService.Table.Update` and `UsersService.Table.Update`: an UPDATE with no supplied column is a no-op on the row in the model. The query library rejects such a statement. No router issues one (`PassedGateSuppliesAColumn`).
- The `logger.error` calls and the unused `uuid` import: no bearing on behaviour.
- Concurrent requests: each request is modelled as a single sequence of store calls.
