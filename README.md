# To-do backend: credential store and owner-scoped task registry

This project models the request handlers of a small Flask to-do backend and
proves what they do to its store. The store has two tables: users (username and
password digest) and tasks (title, optional description, completed flag and
owning user id). Each table assigns ids on insert. The handlers are:

- `register`: rejects a username that is already taken. Otherwise it hashes
  the password, which raises for an empty password, and inserts a user
  holding the digest.
- `login`: looks the user up by username, checks the password against the
  stored digest, and issues an access token carrying the user's id.
- The five task routes (list, get, create, update, delete): each acts for the
  identity the token carries. List selects the caller's tasks, and create
  stores a task owned by the caller. Get, update and delete look a task up by
  id and owner together, so a task that does not exist and a task of another
  user look the same.

Layout:

- `models.dfy` (module `Models`): the `User` and `Task` rows and the `Db`
  class. `Db` holds the two tables as maps (`users`, `tasks`) and the next id
  of each (`nextUserId`, `nextTaskId`). Its invariant `Valid()` keeps every id
  below the next one and keeps usernames unique. A commit is an assignment of
  a new table value.
- `http.dfy` (module `Http`): what a handler hands back. This is a status code
  with a JSON body (message, task view, list of task views, access token), or
  `Crash`, for an exception raised inside the handler or a handler that
  returns nothing. Neither gives a well-formed response.
- `auth.dfy` (module `Auth`): `app/auth.py`.
  - The hasher is a pair of functions (`hash`, `check`) passed in as a
    `Hasher`. `Sound(h)` is the one property the proofs assume:
    `check(hash(salt, p), p)`.
  - `Register` is a module-level method that takes `db: Db` and
    `modifies db`. It is proved against the step function `RegisterStep`.
  - `Login` is a function of the user table.
- `tasks.dfy` (module `Tasks`): `app/tasks.py`.
  - `GetTasks` and `GetTask` are functions of the task table.
  - `CreateTask`, `UpdateTask` and `DeleteTask` are module-level methods
    that take `db: Db` and `modifies db`. Each is proved against a step
    function (`CreateStep`, `UpdateStep`, `DeleteStep`)
    that gives the response and the new task table.
- `task_properties.dfy` (module `TaskProperties`) and `walkthrough.dfy`
  (module `Walkthrough`): lemmas that relate several requests.

The model follows the code as written, including two defects:

- `create_task` never produces a well-formed response:
  - With an empty title it builds the record but never adds it. It then
    refers to `task`, a name that is bound nowhere in that function, so it
    raises `NameError`. The store is unchanged.
  - With a non-empty title it adds and commits the task, then falls off the
    end of the function without a `return`.

  So every path of `CreateStep` is a `Crash`, but the store effects are exact.
  The test suite expects 201 and 400 from this route. What Flask makes of a
  raising or `None`-returning view (a 500 page) is not modelled.
- `update_task` commits the merged record before it looks at the title. A
  request with an empty title gets 400, and the empty title is stored anyway
  (`EmptyTitleUpdateIsCommitted`). So "no stored task has an empty title" is
  not an invariant (`UpdateBreaksNoEmptyTitles`).

## Model

| member | source | states |
|---|---|---|
| `Models.Db.constructor` | tests/test_app.py:12-14 | the freshly created schema: both tables empty, both id counters at 1, invariant established |
| `Auth.FindUser` | app/auth.py:32 | the username lookup finds a user exactly when some user has that username, and what it finds has it |
| `Auth.FindUserUnique` | app/auth.py:15 | with unique usernames the lookup returns the one user holding the username |
| `Auth.RegisterStep` | app/auth.py:10-23 | a missing key raises and changes nothing; a complete request gets 400 "User already exists" exactly when the username is taken, with the table unchanged; with a free username an empty password raises in the hasher and changes nothing, and a non-empty one gets 201; the table changes only with 201, by exactly one user under the next id holding `hash(salt, password)` and not the password; unique usernames and id bounds are preserved |
| `Auth.Register` | app/auth.py:10-23 | the handler's response, new user table and next id are those of `RegisterStep`; the task table is untouched; the store invariant (unique usernames, ids below the counters) is kept |
| `Auth.Login` | app/auth.py:26-38 | the only answers are 200 with a token and the one 401 "Invalid credentials"; a token is issued only for a user with that username whose stored digest checks, and carries that user's id |
| `Auth.LoginSucceedsIff` | app/auth.py:32-36 | with unique usernames, login succeeds if and only if some user has the username and the password checks against the stored digest, and then the token carries exactly that user's id |
| `Auth.LoginFailuresIdentical` | app/auth.py:32-38 | an unknown username and a known username with a wrong password get the identical 401 "Invalid credentials" |
| `Auth.RegisterThenLogin` | app/auth.py:18-36 | with a sound hasher, registering a fresh username with a non-empty password answers 201, and logging in with the same credentials then yields a token for the new user's id |
| `Auth.RegisterAllKeepsUsernamesUnique` | app/auth.py:15-21 | after any sequence of register requests usernames are still unique and ids still below the next id |
| `Tasks.View` | app/tasks.py:14-19 | the JSON rendering of a stored task carries its id, title, description and completed flag |
| `Tasks.FindOwned` | app/tasks.py:26 | the owner-scoped lookup finds a task exactly when the id exists and belongs to the owner, and then returns the stored record |
| `Tasks.OwnedViews` | app/tasks.py:13-19 | the views of an owner's tasks in an id range: every element renders a stored task of that owner, every such task is rendered, ids strictly increase |
| `Tasks.GetTasks` | app/tasks.py:9-19 | always 200 with a list; a view is in the list if and only if it renders a task of the caller (id, title, description, completed); no task twice, an empty list when the caller owns none |
| `Tasks.GetTask` | app/tasks.py:22-36 | 200 if and only if the id exists and belongs to the caller, with that task's view; otherwise exactly 404 "Task not found" |
| `Tasks.NewRecord` | app/tasks.py:45-50 | the record create builds: the given title and description (absent when the request has none), owned by the caller, completed as given or false by default |
| `Tasks.CreateStep` | app/tasks.py:39-67 | no path gives a well-formed response; a missing or empty title leaves the table unchanged; a non-empty title stores the new record under the next id |
| `Tasks.CreateTask` | app/tasks.py:39-67 | the handler's response and new task table are those of `CreateStep`; the next id advances exactly when a task was stored; users untouched; invariant kept |
| `Tasks.Merge` | app/tasks.py:80-82 | each field present in the patch takes the new value, each absent field keeps the old one, the owner never changes |
| `Tasks.UpdateStep` | app/tasks.py:70-99 | a missing or foreign id gives 404 with the table unchanged; otherwise the merged record is stored and the answer is 400 when its title is empty, 200 otherwise, both with the merged task's view |
| `Tasks.UpdateTask` | app/tasks.py:70-99 | the handler's response and new task table are those of `UpdateStep`; counters and users untouched; invariant kept |
| `Tasks.DeleteStep` | app/tasks.py:102-114 | a missing or foreign id gives 404 with the table unchanged; otherwise 200 "Task deleted", exactly that id is removed and every other entry is unchanged |
| `Tasks.DeleteTask` | app/tasks.py:102-114 | the handler's response and new task table are those of `DeleteStep`; counters and users untouched; invariant kept |
| `TaskProperties.NotFoundIndistinguishable` | app/tasks.py:26-29 | on get, update and delete a nonexistent id and an id owned by another user give the same 404 and leave the table unchanged |
| `TaskProperties.OwnersIsolated` | app/tasks.py:13 | a task of one user is absent from every other user's list, 404 for them on get, and untouched by their update and delete |
| `TaskProperties.UpdateIsPartialMerge` | app/tasks.py:74-84 | update keeps the key set, every other task, the owner, and every field the patch leaves out |
| `TaskProperties.EmptyTitleUpdateIsCommitted` | app/tasks.py:84-92 | an update to an empty title answers 400 while the merged record, with its empty title, is already stored |
| `TaskProperties.UpdateBreaksNoEmptyTitles` | tests/test_app.py:109-126 | the failing-update request from the test suite turns a table with no empty titles into one with an empty title |
| `TaskProperties.CreateAddsExactlyOne` | app/tasks.py:45-61 | a non-empty title adds exactly one task under a fresh id, owned by the caller with the given description and completed defaulting to false, and changes no existing task; any other request adds nothing |
| `TaskProperties.CreateThenGet` | app/tasks.py:26-36 | the stored task reads back for its owner with the created title, description and completed flag, appears in the owner's list, and is 404 for any other user |
| `TaskProperties.DeleteThenGet` | app/tasks.py:106-114 | after deleting one's own task, getting it is 404, and every other task reads as before for every user |
| `Walkthrough.TestUserSession` | tests/test_app.py:129-143 | on an empty store, with the suite's fixture credentials `testuser`/`testpass` and its "Task to Delete" request: register answers 201, login gives a token for user 1, create stores the task without a response, the task reads back as sent, delete answers "Task deleted", and a read afterwards gives 404 |

## Left out

- HTTP routing, request parsing and JSON serialisation. A request body is an
  object whose keys hold values of the expected JSON type. Other JSON types
  (a null title, a non-boolean `completed`) and a missing or non-JSON body are
  not modelled. Responses are status and body values.
- Token signing, expiry and header checks (`@jwt_required`,
  `create_access_token`, `get_jwt_identity`). A token is modelled only as the
  user id it carries, and the task handlers take that identity as `caller`.
  Requests without a valid token never reach a handler.
- Bcrypt and its salting. The hasher is an abstract `Hasher` supplied by the
  caller, and the random salt is a parameter. The only assumed property is
  `Sound`, as a precondition, and only where a proof needs it.
  Flask-Bcrypt raises `ValueError` for an empty password. The model keeps that
  refusal, as `Crash(EmptyPassword)` with the table unchanged (`Hashable`), and
  no other one. Flask-Bcrypt's own source is not part of this model.
- The SQLAlchemy session, transactions and the SQLite file. A commit is the
  assignment of the new table map. Database constraints declared in the models
  module are not modelled; that module is not part of this model.
- Ids come from monotonic counters. SQLite can hand out the id of a deleted
  highest row again; that reuse is not modelled.
- `Tasks.GetTasks`: lists tasks in increasing id order, but its contract
  promises no order, as the query imposes none. It takes the table's next id
  as the extent of the scan.
- `Tasks.UpdateTask`: rows are values, so aliasing of the ORM object is not
  modelled. The three in-place field assignments update a local copy of the
  record, and the commit writes it back.
- `Login` with an absent `username` or `password` key is not modelled. What
  happens then depends on the password library (`check_password_hash` with
  `None`).
- What Flask does with a `Crash` (an internal server error page).
- Concurrency and last-commit-wins races between requests.
- The app factory and configuration in `app/__init__.py`.
