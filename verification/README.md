# SimpleToDoApp core, modelled in Dafny

SimpleToDoApp is a small Flask application in which users register, log in
and keep a private list of short text tasks. Without Flask, SQLAlchemy and
werkzeug, what is left is a store of two tables and a session:

- `user`: id ↦ (username, password hash), with usernames unique;
- `task`: id ↦ (content, owning user id, creation time);
- the session: anonymous, or the id of the logged-in user.

Six request handlers change or read that store. This project models each one
as a pure function from a store to an `Outcome`, which pairs the handler's reply
with the new store. It then proves what the handlers promise about one another.

Files and modules:

- `wrappers.dfy` (`Wrappers`): `Option`.
- `password.dfy` (`Password`): `generate_password_hash` and `check_password_hash`. The hash is an ideal one: a symbolic digest over a salt and a password. Checking a guess hashes it again with the stored salt and compares the two digests.
- `store.dfy` (`Store`): the `User` and `Task` rows and the `State`. `Valid` is what every reachable store satisfies: unique usernames, every task pointing to an existing user, rows stored under their own id, and a session that names an existing user. The handlers keep it; the store does not enforce it by itself. `NextId` is the primary key SQLite gives a new row: one more than the largest key in use, or 1 when the table is empty. The module also holds `load_user`, `current_user` and the username lookup.
- `listing.dfy` (`Listing`): the query `filter_by(user_id=…).order_by(date_created)`. It is a filter over ascending primary keys followed by a stable insertion sort on the creation time.
- `app.dfy` (`App`): the handlers `Register`, `Login`, `Logout`, `AddTask` (POST /), `ListTasks` (GET /) and `DeleteTask`.
- `properties.dfy` (`Properties`): a `Step` function that serves one request, `Run` for a sequence of requests, and the lemmas that connect the handlers.

Every handler takes a `Valid` store and returns one. A request that is turned
away returns exactly the store it was given. A protected request made
without a logged-in user is turned away with `Unauthenticated`.

## Model

| member | source | states |
|---|---|---|
| Password.Generate | app.py:22-26 | the stored hash records its salt and accepts a guess exactly when the guess is the hashed password |
| Password.SaltedHashesDiffer | app.py:22-26 | hashing one password under two salts gives two different stored values, and each accepts that password |
| Store.Init | app.py:37-38 | the freshly created tables are empty, the session is anonymous, and the schema constraints hold |
| Store.NewUser | app.py:92-93 | a new user row has the given id and username, and its password check accepts exactly the registered password |
| Store.LoadUser | app.py:59-61 | the user loader finds a user exactly when that id is in the table, and in a consistent store the user it returns is the one whose id was asked for |
| Store.NextId | app.py:29 | a new row's key is not in use and is above every key in use; it is 1 for an empty table and otherwise one more than the largest key, so a freed largest key is handed out again |
| Store.CurrentUser | app.py:59-61 | a request is authenticated only when the session names a user the loader finds; in a consistent store that is the session identity itself |
| Store.FindByUsername | app.py:69 | the lookup by username finds nothing exactly when no user has that name; otherwise it returns the one user that has it |
| Listing.OwnedBelow | app.py:55 | the filter returns only tasks of the given owner, and it returns every owned row below the key bound |
| Listing.OwnedBelowCount | app.py:55 | the filter lists each owned row once |
| Listing.Insert | app.py:55 | inserting into the ordered list adds exactly that task and loses none |
| Listing.InsertSorted | app.py:55 | inserting into a list sorted by creation time keeps it sorted |
| Listing.SortByDate | app.py:55 | the ordering step is a permutation of its input and is nondecreasing in creation time |
| Listing.SortAppendLatest | app.py:55 | a task no earlier than every other task is ordered last, and the others keep their order |
| Listing.TasksOf | app.py:55 | a user's list holds exactly that user's tasks, each once and none of anyone else's, in nondecreasing creation time |
| Listing.OwnedBelowAfterInsert | app.py:44-55 | a task inserted under the key SQLite assigns extends its owner's rows, in key order, by exactly that task |
| Listing.ListAfterInsert | app.py:44-55 | a task inserted under the key SQLite assigns, no earlier than its owner's other tasks, appears at the end of that owner's list |
| App.Register | app.py:79-99 | a mismatched confirmation is rejected first, and a taken username next; both leave the store unchanged. Otherwise exactly one user is added under a fresh id, with that username and a hash that accepts only the given password, and the session becomes that user |
| App.Login | app.py:63-76 | login succeeds exactly when a user with that name exists and the password checks; then only the session changes, to that user. On failure nothing changes |
| App.Logout | app.py:102-106 | an anonymous request is rejected; otherwise the session becomes anonymous and the tables are untouched |
| App.AddTask | app.py:40-52 | an anonymous request is rejected; otherwise exactly one task is added under a fresh id, owned by the logged-in user and stamped with the clock reading, and every other row is unchanged |
| App.ListTasks | app.py:40-56 | an anonymous request is rejected; otherwise the reply lists exactly the logged-in user's tasks in nondecreasing creation time, and the store is unchanged |
| App.DeleteTask | app.py:108-116 | an anonymous request is rejected; a missing id gives NotFound and someone else's task gives Forbidden, both changing nothing; otherwise exactly that task is removed and every other row and the session stay the same |
| Properties.Step | app.py:40-116 | every request keeps the schema constraints; a rejected request changes nothing; stored tasks and users are never rewritten and users are never removed |
| Properties.Run | app.py:17-32 | every sequence of requests keeps the store consistent and keeps every existing user row |
| Properties.ReachableConsistent | app.py:19-31 | in every store reachable from the freshly created tables, usernames are unique and every task's owner exists |
| Properties.StepIsolation | app.py:40-116 | no request changes the tasks of any user other than the logged-in one |
| Properties.StepKeepsOthersList | app.py:55 | no request changes what another user's task list shows |
| Properties.RegisterThenLogin | app.py:63-99 | registering with a new name succeeds, and after logging out exactly the registered password logs that user back in |
| Properties.RegisterTwice | app.py:89-90 | once a username has registered, registering it again is rejected as taken and changes nothing, whatever the password |
| Properties.AddThenList | app.py:43-56 | when the clock does not run backwards, a newly added task is listed last, after the owner's earlier tasks in their old order |
| Properties.AddThenDelete | app.py:43-116 | deleting the task just added restores the store exactly, including the key the next task will get |
| Properties.DeletedIdReused | app.py:43-116 | after the newest task is deleted, the next task added takes over its id, so a stale delete link for the old task removes the new one |
| Properties.LogoutClosesSession | app.py:102-116 | after logout, logging out again, adding, listing and deleting are all rejected as unauthenticated and change nothing |

## Left out

- Flask routing, form parsing, `render_template`, redirects and status codes are not modelled. Each handler's visible result is a `Reply` variant instead. The GET views of the login and register pages only render a form, so they are left out too.
- SQLAlchemy persistence and `db.create_all` are left out. So is the failed commit that the bare `except` on lines 47-52 turns into status 400, because storage failure is outside the model. Every commit is taken to succeed.
- werkzeug's hash internals are not modelled. The digest is a free symbolic term, so the model's hash has no collisions. It does not model one-wayness, meaning that the password cannot be recovered from the stored value.
- The random salt of `generate_password_hash` and the clock `datetime.utcnow` are not modelled. Both are parameters of the handlers instead: `salt` and `now`.
- `String(100)` and `String(200)` column lengths are not enforced, because SQLite does not enforce them. Empty usernames and empty task contents are accepted, as in the code.
- Listing.TasksOf: `order_by(Task.date_created)` leaves the order of equal timestamps unspecified. The model's stable sort breaks ties by id, and the contract promises only a nondecreasing creation time.
- Properties.AddThenList: when the new task's timestamp equals an earlier task's, it is listed last only because of the model's id tie-break. SQL leaves that order open, so in the program the promise holds only when the clock strictly advances.
- Listing.ListAfterInsert: the tie case (a timestamp equal to an earlier task's) follows the model's id tie-break, which SQL leaves unspecified.
- Listing.SortAppendLatest: the tie case follows the model's stable sort. `order_by` promises no order among equal timestamps.
- Concurrency is not modelled. This includes a second registration of the same name racing past the username check to the unique constraint. Requests are served one at a time.
- Session cookie signing, `SECRET_KEY` and `app.run` are not modelled.
- Password change, account deletion with cascade to the user's tasks, validation of task text, and a typed storage error are not modelled. None of them is in `app.py`.
