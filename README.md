# Study planner tables, modelled in Dafny

The study planner lets people register and log in. They can build "routines"
out of shared "subjects", each with a description and an estimated study
time, and then view, edit and delete their routines. Its request handlers
work on four database tables: users, routines, subjects, and the
routine–subject join table. This project models those tables and the table
logic of the handlers. It proves the rules that logic keeps and the answer
each request gets.

- `tables.dfy` (module `Tables`): the rows, the password-hash stand-in, SQLite's
  choice of a new row id, the invariants of the tables and the
  `filter_by(...).first()` lookups.
- `store.dfy` (module `App`): class `Store` holds the four tables as maps from
  primary key to row. It has one method per handler: register, login, planner
  POST, plan, the edit form and its POST, and delete. Each handler is one
  atomic transition and returns the response the handler sends.
- `scenarios.dfy` (module `Scenarios`): properties of chains of requests,
  proved from the handlers' contracts alone.

`Store.Valid()` is the invariant every handler keeps:
- usernames are unique;
- subject names are unique, because subjects are only ever created by find-or-create;
- no (routine, subject) pair is linked twice;
- every link joins an existing routine and an existing subject;
- all ids are positive.

A `.first()` query therefore has at most one match. The model returns that
match, so the order of a scan without `ORDER BY` never matters.

The handlers' inputs are explicit parameters:
- form fields are `Option<string>`, and a field is "blank" when it is missing
  or empty, as Python's `not` treats it;
- the user id that `session["user_id"]` holds is an `int` for handlers behind
  the login gate and an `Option<int>` for delete, which has no gate;
- the bcrypt salt is a parameter.

Error paths the code leaves to the framework are modelled:
- a missing routine title breaks the `NOT NULL` column, so the request ends in
  a 500 and every table is left as it was;
- delete without a session user ends in a 500;
- `get_or_404` answers 404;
- an id in the URL or the query string that the sqlite3 driver cannot bind
  (outside the signed 64-bit range) makes the lookup raise `OverflowError`, so
  plan, edit and delete answer 500 and change nothing.

## Model

| member | source | states |
|---|---|---|
| `Tables.Hash` | app.py:108 | the stored digest verifies the registering password and no other password |
| `Tables.NewRowId` | app.py:23 | a new primary key is one more than the largest id in the table, or 1 in an empty table, so it never collides with an existing row |
| `Tables.UserNamed` | app.py:84 | the username lookup returns the one user with that name, or nothing exactly when no user has it |
| `Tables.SubjectNamed` | app.py:132 | the subject lookup by name returns the one subject with that name, or nothing exactly when none has it |
| `Tables.LinkBetween` | app.py:138-141 | the link lookup returns the one link joining that routine and subject, or nothing exactly when there is none |
| `Tables.Redescribed` | app.py:177-180 | after the edit form's description fields are applied, the subjects have the same ids, names and minutes, and only a linked subject whose field was sent gets that text as its description |
| `Tables.RedescribedOneMore` | app.py:177-180 | handling one more linked subject in the description loop rewrites only that subject's row |
| `Tables.FirstIndex` | app.py:131-136 | gives the position of a name's first occurrence among the processed names, which is the pair whose description a new subject takes |
| `Tables.FirstIndexAppend` | app.py:131 | processing one more pair leaves earlier first occurrences unchanged, and a new name first occurs at the new pair |
| `App.FoundOrCreatedStep` | app.py:132-136 | one find-or-create keeps every earlier subject and reuses an existing subject unchanged; a subject is created only for a name no subject had, with the description of that name's first pair |
| `App.LinkedByNameStep` | app.py:138-149 | one link-if-absent keeps every earlier link; afterwards the new routine is linked to a subject exactly when that subject's name has been processed |
| `App.Store.constructor` | app.py:61-62 | a new database has four empty tables and satisfies the invariant |
| `App.Store.Register` | app.py:99-113 | a blank field, a confirmation that differs from the password, or a taken username gives a 400 apology with the code's message and changes nothing; otherwise exactly one user with the hashed password is added under a new id, the session holds that id, and the answer is a redirect to `/` |
| `App.Store.Login` | app.py:78-88 | a session user exists exactly when both fields are non-blank and some user has that name and a password that verifies; that user is the session user and the answer is a redirect; otherwise the answer is a 403 with "missing fields" or "invalid username and/or password" and no session |
| `App.Store.AttachSubject` | app.py:185-195 | finds the subject by name or creates it with the given description, then adds a link to the routine only when that link is absent; users and routines are unchanged and the invariant is kept |
| `App.Store.CreateRoutine` | app.py:119-151 | without a title the answer is a 500 and nothing changes; otherwise the answer redirects to the plan of one new routine owned by the caller, the caller's routine list gains exactly that routine, only the first min(#names, #descriptions) pairs are processed, and subjects and links change as the two step lemmas describe |
| `App.Store.AttachPairs` | app.py:128-149 | the loop over `zip(subjects, descriptions)`: after it, every processed name has a subject and the new routine is linked exactly to the subjects named |
| `App.Store.AttachPair` | app.py:131-149 | one turn of the planner loop carries both facts about subjects and links over to one more pair |
| `App.Store.ShowPlan` | app.py:159-165 | a missing id or id 0 gives a 400; an id outside SQLite's signed 64-bit range makes the lookup raise, giving a 500; otherwise the plan page is shown exactly when the routine exists and the caller owns it, and every other case is a 403 |
| `App.Store.EditForm` | app.py:170-172 | an id outside SQLite's signed 64-bit range gives a 500; otherwise the edit form is shown exactly when the routine exists and the caller owns it, and every other case is a 403 |
| `App.Store.DescribeLinkedSubjects` | app.py:177-180 | the loop over the routine's links sets the description of each linked subject whose field was sent, and changes nothing else |
| `App.Store.EditRoutine` | app.py:170-199 | an id outside SQLite's signed 64-bit range gives a 500 and changes nothing; a missing or foreign routine gives a 403 and changes nothing; a missing title gives a 500 and changes nothing; otherwise the routine is retitled, its linked subjects are redescribed (these are shared, so other routines see the change), and a non-blank new subject name is found or created and linked if it is not linked yet |
| `App.Store.DeleteRoutine` | app.py:207-221 | id 0 gives a 400, an id outside SQLite's signed 64-bit range a 500, a missing routine a 404, no session user a 500, and another user's routine a 403, each with nothing changed; otherwise the routine and exactly its links are removed, and users, subjects, other routines and other links stay as they were |
| `Scenarios.DeleteUndoesLinks` | app.py:215-219 | deleting every link of a routine created after a given link table gives back exactly that table |
| `Scenarios.RegisterThenLogin` | app.py:80-112 | after a successful registration, logging in with the same name and password succeeds and names the new account |
| `Scenarios.NewRoutineIsPrivate` | app.py:124-164 | a freshly created routine's plan page is shown to its owner, and every other user gets a 403, as long as the new routine's id fits SQLite's signed 64-bit range |
| `Scenarios.CreateThenDelete` | app.py:124-219 | as long as the new routine's id fits SQLite's signed 64-bit range, creating a routine and then deleting it as its owner gives back the users, routines and links as they were; every old subject is kept unchanged, and every name of the first min(#names, #descriptions) pairs still has a subject afterwards, so subjects created along the way remain |

## Left out

- Flask routing, `render_template`, `redirect`/`url_for`, `flash`, the cache headers added after each request, and the GET pages of login, register and planner. A response is modelled as a value: a redirect target, an apology message and code, a template name, or an HTTP error code.
- The session store and `logout`. Session contents are explicit parameters and results.
- `helpers.apology` and `login_required` are not part of this model. An apology is the `Apology` response. A handler behind the login gate simply receives the session's user id, so the gate's redirect to the login page is not modelled.
- bcrypt. It is an ideal hash that accepts exactly the password it was made from, and the random salt is a parameter. bcrypt's truncation of passwords after 72 bytes is not modelled, nor the error passlib raises for a password holding a NUL byte or one that is too long, which would turn a registration or a login into a 500.
- SQLAlchemy sessions and commit timing. Each handler is one atomic step, and requests are handled one at a time; concurrent requests, which `app.run(debug=True)` serves on threads (app.py:236), are not modelled. Unique subject names rest on that: no database constraint backs them, so two planner POSTs racing on a new name could both insert it. Usernames and links are backed by unique constraints, so a racing insert there would end in a 500 instead. The planner commits after every insert, but no modelled input can make its loop fail halfway.
- SQLite details: once the largest row id, 2^63-1, is taken, SQLite picks a random unused id; the model's new id is always the largest id plus one and is not bounded by that limit. `Scenarios.NewRoutineIsPrivate` and `Scenarios.CreateThenDelete` therefore start from a routine table whose new id still fits the signed 64-bit range. Foreign keys are not enforced by SQLite by default, so a routine's owner is stored as given and is never checked against the user table.
- `Subject.estimated_study_minutes` is never set by any handler; new subjects have none.
- The `StudyLog` table and its date default, which no handler uses; the `index` page; the `progress` and `profile` stubs.
- App.Store.CreateRoutine: the ids of the subjects and links it creates are stated only as fresh, not as the exact row ids SQLite would give them.
