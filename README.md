# User directory: a Dafny model of the Flask/MongoDB auth service

The service keeps user documents in one MongoDB collection, `user`, and serves
eight handlers over it: signup, signin, list all, get by id, delete, update
profile, change password and change username. Signup, signin, delete and
the three updates test the request fields that must not be empty; list all
and get by id test no field. Every handler queries the collection. List all
returns the documents themselves, as a JSON array, with no branch. The other
seven branch on the answer, possibly write, and answer in one of three ways:
success with a confirmation string or a profile, an "Unsuccessful" answer with
a reason string such as "Username Already Exists!" or "User Does Not Exists!",
or the 404 answer of `not_found()` when validation fails.

The model, module by module:

- `Users` (users.dfy): the `User` document, the collection as a map from `Id`
  to `User`, the `Response` datatype for the three kinds of answer, the reason
  strings, and the `find_one` lookups by username and by email.
- `Auth` (auth.dfy): `auth_signup` and `auth_signin` as functions of the
  collection, and lemmas about them: signin succeeds exactly on matching
  credentials, signup then signin succeeds, signup keeps usernames and emails
  unique.
- `Management` (management.dfy): `get_all_users`, `get_user_by_id`,
  `delete_user`, `update_user`, `update_password` and `update_username` as
  functions of the collection. Lemmas say which fields each patch writes, that
  a deleted id is unknown afterwards, that renaming to one's own name is
  refused, and that the profile update can give two documents the same email.
- `Sessions` (sessions.dfy): a run of calls served one at a time against the
  collection and its id allocator. Across every run usernames stay unique.
  Emails stay unique in every run without a profile update. A deleted id is
  never live again.
- `Directory` (directory.dfy): the class `UserDirectory` holding the
  collection (`users`) and the allocator (`nextId`). Its five writing handlers
  are methods that read and then change `users` step by step, through
  `InsertOne`, `UpdateOne` and `DeleteOne`. Each method is proved to give the
  answer and the new collection of the matching function, and to keep the
  class invariant: ids below `nextId`, no two documents with one username. The
  three read-only handlers are the `Auth` and `Management` functions applied to
  `users`. `AnnScenario` is a walk-through against the class: register Ann,
  refuse a second "ann", sign her in with the right and with a wrong password,
  delete her, and find her gone.

Modelling choices:

- The request time (`datetime.now().strftime(...)`) is the string parameter
  `now` of every handler that records a time.
- `ObjectId(uid)` is the abstract `Parser`, a function from the id string to
  `Option<Id>`. `None` stands for the conversion raising, which lands in the
  handler's `except` branch ("User Does Not Exists!").
- `insert_one` hands out `nextId` and increments it, so an id is never handed
  out twice. Only that freshness, and the increasing order, is relied upon.
- Which document `find_one` returns when several match its filter is not
  fixed by the store. The model chooses the least matching id. While
  usernames are unique, which is proved invariant, the choice never matters
  for usernames; for emails only whether a match exists is used.
- A request field is "filled" when it is a non-empty string. This is Python's
  truthiness for `str`.

Notes on the source's behaviour:

- An empty required field gives the 404 `not_found()` answer (app.py:124,
  195, 322, 387, 447, 520), not an "Unsuccessful" reason.
- Email uniqueness is not an invariant. `update_user` sets the email without
  looking it up (app.py:357-366). `Management.UpdateUserCanDuplicateEmail`
  proves that it can give a document another document's email.
- The profile sent back by signin and by get-by-id never includes the password.
  Get-by-id echoes the id string as given. `get_all_users` returns every
  document, passwords included.
- No handler has a distinct answer for a store failure. Store errors inside
  the `try` blocks (app.py:235-278, 286-319, 342-384, 404-444, 464-517) read
  as "User Does Not Exists!"; elsewhere they escape the handler.
- `update_username` refuses a name that any document holds, the caller's own
  document included.

## Model

| member | source | states |
|---|---|---|
| `Users.FindByUsername` | app.py:69 | `find_one({"username": ...})`: none exactly when no document holds the name; otherwise a live id holding it, the least such id |
| `Users.FindByEmail` | app.py:149 | `find_one({"email": ...})`: none exactly when no document holds the email; otherwise a live id holding it, the least such id |
| `Users.FindByUniqueUsername` | app.py:69 | while usernames are unique, the username lookup finds the one document holding the name |
| `Auth.Signup` | app.py:129-195 | an empty full name, username, email, password or role (image may be empty) gives the 404 answer and no write; a taken username gives "Username Already Exists!" and no write, even if the email is taken too; otherwise a taken email gives "Email Already Exists!" and no write; success (201) exactly when filled and both are free, and then one document is added under the new id, holding the six given values, `created == now` and `updated == "default"`, with every other document unchanged |
| `Auth.Signin` | app.py:60-124 | empty username or password gives the 404 answer; an unknown username gives "Username Incorrect!"; a known one gives success or "Password Incorrect!" and nothing else; success (200) only with a document holding that username and exactly that password, returning its profile without the password; "Username Incorrect!" exactly when no document holds the username; "Password Incorrect!" only when such a document holds a different password; the "Something Wrong!" branch is never taken |
| `Auth.SigninSucceedsIffCredentialsMatch` | app.py:67-112 | while usernames are unique: signin succeeds if and only if both fields are filled and some document holds that username and that password; the profile returned is that document's |
| `Auth.SigninWrongPassword` | app.py:83-91 | while usernames are unique, a known username with another password gives "Password Incorrect!" |
| `Auth.SignupKeepsUsernamesUnique` | app.py:146-183 | signup never makes two documents share a username |
| `Auth.SignupKeepsEmailsUnique` | app.py:149-183 | signup never makes two documents share an email |
| `Auth.SignupThenSignin` | app.py:60-195 | right after a successful signup, signin with the same username and password succeeds, returning the new profile, whatever else the collection holds |
| `Management.GetAllUsers` | app.py:223-229 | the pairs returned are exactly the live ids with their documents, passwords included |
| `Management.GetUserById` | app.py:234-278 | success (200) exactly when the id string converts to a live id, returning that document's profile without password and the id string as given; otherwise "User Does Not Exists!", for an unknown id and for a failed conversion alike |
| `Management.DeleteUser` | app.py:283-322 | an empty id gives the 404 answer; an id that fails to convert or names no document gives "User Does Not Exists!" and no write; otherwise success (202) and exactly that document is removed, the others unchanged |
| `Management.UpdateUser` | app.py:327-387 | an empty id, full name, email or role (image may be empty) gives the 404 answer; an unknown or malformed id gives "User Does Not Exists!" and no write; otherwise success (201), the same ids live, only that document changed, and in it only full name, email, role, image and `updated`; username, password and `created` kept |
| `Management.UpdatePassword` | app.py:392-447 | empty id or password gives the 404 answer; unknown or malformed id gives "User Does Not Exists!" and no write; otherwise success (201), and only that document's password and `updated` change |
| `Management.UpdateUsername` | app.py:452-520 | empty id or username gives the 404 answer; an unknown or malformed id gives "User Does Not Exists!" first; then a username held by any document gives "Username Already Exists!"; no write on either; success (201) exactly when the id is live and the name free, and then only that document's username and `updated` change |
| `Management.DeleteThenLookupFails` | app.py:235-319 | after a successful delete, get-by-id and a second delete with any id string for the same document both answer "User Does Not Exists!" |
| `Management.RenameToOwnUsernameRefused` | app.py:479-490 | renaming a user to the username it already holds gives "Username Already Exists!" and no write |
| `Management.PatchKeepsIdentity` | app.py:341-499 | after a successful profile update, password change or username change, get-by-id on the same id string still finds the document, with the same `created` and `updated == now` |
| `Management.UpdateUserCanDuplicateEmail` | app.py:357-366 | for any two distinct documents, updating one with the other's email leaves a collection without unique emails |
| `Management.DeleteKeepsUniqueness` | app.py:299-301 | delete keeps usernames unique and emails unique |
| `Management.UpdateUserKeepsUsernamesUnique` | app.py:357-366 | the profile update keeps usernames unique |
| `Management.UpdatePasswordKeepsUniqueness` | app.py:420-426 | the password change keeps usernames unique and emails unique |
| `Management.UpdateUsernameKeepsUniqueness` | app.py:479-499 | the username change keeps usernames unique and emails unique |
| `Sessions.Serve` | app.py:129-520 | after any one call the live ids are still below the allocator; it advances exactly when a signup adds a document; the only id a call can add is the one a signup allocates |
| `Sessions.Run` | app.py:129-520 | after any run of calls the live ids are below the allocator, the allocator has not gone back, and every id added is one not handed out before |
| `Sessions.ServeKeepsUsernamesUnique` | app.py:146-183 | every single call keeps usernames unique |
| `Sessions.RunKeepsUsernamesUnique` | app.py:146-160 | across any run of calls served one at a time, no two live documents share a username |
| `Sessions.ServeKeepsEmailsUnique` | app.py:149-171 | every call but the profile update keeps emails unique |
| `Sessions.RunWithoutProfileUpdateKeepsEmailsUnique` | app.py:149-171 | a run with no profile update keeps emails unique |
| `Sessions.DeletedIdStaysDeleted` | app.py:174-183 | an id handed out before and no longer live never becomes live again |
| `Directory.UserDirectory.constructor` | app.py:28 | the directory starts on an empty collection, with the invariant holding |
| `Directory.UserDirectory.Open` | app.py:28 | the directory opens an existing collection and allocator as they are, given every live id is below the allocator and no two documents share a username |
| `Directory.UserDirectory.InsertOne` | app.py:174-183 | `insert_one`: given the next id is not live, the document is stored under it, which is then used up; no live document is overwritten |
| `Directory.UserDirectory.UpdateOne` | app.py:357-366 | `update_one`: the document with the id is replaced by its patched version; nothing happens when the id is not live |
| `Directory.UserDirectory.DeleteOne` | app.py:301 | `delete_one`: the document with the id is removed, the rest unchanged |
| `Directory.UserDirectory.Signup` | app.py:129-195 | answer and new collection are those of `Auth.Signup` on the old collection with the next id; the allocator advances only on success; the invariant is kept |
| `Directory.UserDirectory.DeleteUser` | app.py:283-322 | answer and new collection are those of `Management.DeleteUser`; the allocator is unchanged; the invariant is kept |
| `Directory.UserDirectory.UpdateUser` | app.py:327-387 | answer and new collection are those of `Management.UpdateUser`; the invariant is kept |
| `Directory.UserDirectory.UpdatePassword` | app.py:392-447 | answer and new collection are those of `Management.UpdatePassword`; the invariant is kept |
| `Directory.UserDirectory.UpdateUsername` | app.py:452-520 | answer and new collection are those of `Management.UpdateUsername`; the invariant is kept |

## Left out

- Flask plumbing (app.py:12-14, 42-44, 524-533): routing, reading `request.json`, `jsonify` framing, the CORS header, `hello_world`, the `'url'` field of the 404 answer, and the `request.method` tests, which always hold on their routes. The `Response` datatype stands in for the framing.
- Request values that are not strings: every field is a string here. In the source the field reads (app.py:63-64, 132-137, 330-334, 395-396, 455-456) are plain dictionary lookups, so a JSON `null`, `0`, `false` or `[]` is falsy and gets the same 404 answer as an empty string; a truthy non-string `_id` makes `ObjectId(_id)` raise inside the `try`, giving "User Does Not Exists!"; a truthy scalar signup field that is not a string (a number such as `"password": 5`, or `true`) is stored as it is and signup answers 201. An object-valued `username` or `email` (such as `{"$ne": ""}`) is not matched as a value: the lookups at app.py:69, 146, 149 and 479 put it into the `find_one` filter, where MongoDB reads it as a query operator, so signup can refuse it as taken, signin can match whichever document the operator selects, and the username change can refuse it as held by the caller's own document. Query operators are not modelled. Only a missing key raises before validation (a `KeyError`, HTTP 500); that too is request parsing and is not modelled.
- Directory.UserDirectory.constructor and Directory.UserDirectory.Open: the class invariant `Valid()` includes username uniqueness, so the class describes a service started on an empty collection or opened on one without a username clash. A collection that already holds two documents with one username (as concurrent signups can leave it) is described by the `Auth` and `Management` functions and by `Sessions.Serve`, which take any collection, but not by the class.
- Configuration and connections (app.py:15-32): environment variables, `PyMongo`, and the unused `MongoClient`. These are I/O.
- The clock (app.py:140-141, 337-338, 399-400, 459-460): the formatted time is the parameter `now`.
- How `ObjectId` parses a string, and how ids are really generated: bson library code. Parsing is the abstract `Parser`; generation is the counter `nextId`.
- `bson.json_util.dumps` in `get_all_users` (app.py:228): serialisation. `Management.GetAllUsers` returns the set of records and says nothing about their order.
- The `'$oid' in _id` choice in the `update_one` filters (app.py:358, 421, 494): the preceding `find_one` has already converted `_id`, so only the plain conversion is modelled.
- Store failures: an exception raised by the store inside a `try` block reads as "User Does Not Exists!" in the source, and outside one it escapes the handler. The model's store never fails.
- Concurrency: two requests interleaving their check and their write can create duplicate usernames. The model serves calls one at a time, and its uniqueness results hold only for such sequential runs.
