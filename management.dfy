/** The user-management handlers: list all, get by id, delete, update profile,
    change password and change username, as functions of the collection. */
module Management {
  import opened Users

  /** `get_all_users`: every live document with its id, password included,
      and nothing else. */
  function GetAllUsers(t: Table): (r: set<(Id, User)>)
    ensures forall id, u :: (id, u) in r <==> id in t && t[id] == u
  {
    set id | id in t :: (id, t[id])
  }

  /** `get_user_by_id`: a failed id conversion (the `except` branch) and an id
      with no document both answer "User Does Not Exists!"; there is no
      validation step. */
  function GetUserById(t: Table, parse: Parser, uid: string): (r: Response<IdProfile>)
    ensures r.Success? <==> Addresses(t, parse, uid)
    ensures r.Success? ==> r.code == 200 && r.data.id == uid && r.data.profile == ProfileOf(t[parse(uid).value])
    ensures !r.Success? ==> r == Unsuccessful(UserDoesNotExist)
  {
    match parse(uid)
    case None => Unsuccessful(UserDoesNotExist)
    case Some(id) =>
      if id !in t then Unsuccessful(UserDoesNotExist)
      else Success(200, IdProfile(uid, ProfileOf(t[id])))
  }

  /** `delete_user`: validate, look the id up, remove that one document. */
  function DeleteUser(t: Table, parse: Parser, uid: string): (r: Step<string>)
    ensures !Filled(uid) ==> r == Step(NotFound, t)
    ensures Filled(uid) && !Addresses(t, parse, uid) ==> r == Step(Unsuccessful(UserDoesNotExist), t)
    ensures r.response.Success? <==> Filled(uid) && Addresses(t, parse, uid)
    ensures r.response.Success? ==>
      && r.response == Success(202, DeleteSuccessful)
      && r.table.Keys == t.Keys - {parse(uid).value}
      && forall id :: id in r.table ==> r.table[id] == t[id]
  {
    if Filled(uid) then
      match parse(uid)
      case None => Step(Unsuccessful(UserDoesNotExist), t)
      case Some(id) =>
        if id !in t then Step(Unsuccessful(UserDoesNotExist), t)
        else Step(Success(202, DeleteSuccessful), t - {id})
    else
      Step(NotFound, t)
  }

  /** The fields the profile update refuses to see empty; `image` is not among them. */
  predicate UpdateFilled(uid: string, fullName: string, email: string, role: string) {
    Filled(uid) && Filled(fullName) && Filled(email) && Filled(role)
  }

  /** `update_user`: validate, look the id up, and set the full name, email,
      role, image and update time of that document. The new email is not
      checked against the other documents. */
  function UpdateUser(t: Table, parse: Parser, uid: string, fullName: string, email: string,
                      role: string, image: string, now: string): (r: Step<string>)
    ensures !UpdateFilled(uid, fullName, email, role) ==> r == Step(NotFound, t)
    ensures UpdateFilled(uid, fullName, email, role) && !Addresses(t, parse, uid) ==>
      r == Step(Unsuccessful(UserDoesNotExist), t)
    ensures r.response.Success? <==> UpdateFilled(uid, fullName, email, role) && Addresses(t, parse, uid)
    ensures r.response.Success? ==>
      var id := parse(uid).value;
      && r.response == Success(201, UpdateSuccessful)
      && OnlyPatched(t, r.table, id)
      && r.table[id].fullName == fullName && r.table[id].email == email
      && r.table[id].role == role && r.table[id].image == image && r.table[id].updated == now
      && r.table[id].username == t[id].username && r.table[id].password == t[id].password
      && r.table[id].created == t[id].created
  {
    if UpdateFilled(uid, fullName, email, role) then
      match parse(uid)
      case None => Step(Unsuccessful(UserDoesNotExist), t)
      case Some(id) =>
        if id !in t then Step(Unsuccessful(UserDoesNotExist), t)
        else
          var user := t[id];
          Step(Success(201, UpdateSuccessful),
               t[id := user.(fullName := fullName, email := email, role := role, image := image, updated := now)])
    else
      Step(NotFound, t)
  }

  /** `update_password`: validate, look the id up, and set the password and
      update time of that document. */
  function UpdatePassword(t: Table, parse: Parser, uid: string, password: string, now: string): (r: Step<string>)
    ensures !(Filled(uid) && Filled(password)) ==> r == Step(NotFound, t)
    ensures Filled(uid) && Filled(password) && !Addresses(t, parse, uid) ==>
      r == Step(Unsuccessful(UserDoesNotExist), t)
    ensures r.response.Success? <==> Filled(uid) && Filled(password) && Addresses(t, parse, uid)
    ensures r.response.Success? ==>
      var id := parse(uid).value;
      && r.response == Success(201, PasswordUpdateSuccessful)
      && OnlyPatched(t, r.table, id)
      && r.table[id] == t[id].(password := password, updated := now)
  {
    if Filled(uid) && Filled(password) then
      match parse(uid)
      case None => Step(Unsuccessful(UserDoesNotExist), t)
      case Some(id) =>
        if id !in t then Step(Unsuccessful(UserDoesNotExist), t)
        else Step(Success(201, PasswordUpdateSuccessful), t[id := t[id].(password := password, updated := now)])
    else
      Step(NotFound, t)
  }

  /** `update_username`: validate, look the id up, then look the new username
      up; any document holding it, the caller's own included, refuses the
      change. Otherwise set the username and update time of that document. */
  function UpdateUsername(t: Table, parse: Parser, uid: string, username: string, now: string): (r: Step<string>)
    ensures !(Filled(uid) && Filled(username)) ==> r == Step(NotFound, t)
    ensures Filled(uid) && Filled(username) && !Addresses(t, parse, uid) ==>
      r == Step(Unsuccessful(UserDoesNotExist), t)
    ensures Filled(uid) && Filled(username) && Addresses(t, parse, uid) && UsernameTaken(t, username) ==>
      r == Step(Unsuccessful(UsernameAlreadyExists), t)
    ensures r.response.Success? <==>
      Filled(uid) && Filled(username) && Addresses(t, parse, uid) && !UsernameTaken(t, username)
    ensures r.response.Success? ==>
      var id := parse(uid).value;
      && r.response == Success(201, UsernameUpdateSuccessful)
      && OnlyPatched(t, r.table, id)
      && r.table[id] == t[id].(username := username, updated := now)
  {
    if Filled(uid) && Filled(username) then
      match parse(uid)
      case None => Step(Unsuccessful(UserDoesNotExist), t)
      case Some(id) =>
        if id !in t then Step(Unsuccessful(UserDoesNotExist), t)
        else
          var checkUsername := FindByUsername(t, username);
          if checkUsername.Some? then Step(Unsuccessful(UsernameAlreadyExists), t)
          else Step(Success(201, UsernameUpdateSuccessful), t[id := t[id].(username := username, updated := now)])
    else
      Step(NotFound, t)
  }

  /** Once a delete has succeeded, every id string that names the same
      document, the one given included, is unknown to get-by-id and to a
      second delete. */
  lemma DeleteThenLookupFails(t: Table, parse: Parser, uid: string, again: string)
    requires DeleteUser(t, parse, uid).response.Success?
    requires parse(again) == parse(uid) && Filled(again)
    ensures GetUserById(DeleteUser(t, parse, uid).table, parse, again) == Unsuccessful(UserDoesNotExist)
    ensures DeleteUser(DeleteUser(t, parse, uid).table, parse, again).response == Unsuccessful(UserDoesNotExist)
  {
  }

  /** Renaming a user to the username it already holds is refused. */
  lemma RenameToOwnUsernameRefused(t: Table, parse: Parser, uid: string, now: string)
    requires Filled(uid) && Addresses(t, parse, uid) && Filled(t[parse(uid).value].username)
    ensures UpdateUsername(t, parse, uid, t[parse(uid).value].username, now)
      == Step(Unsuccessful(UsernameAlreadyExists), t)
  {
  }

  /** After a successful profile update, password change or username change,
      get-by-id on the same id string still finds the document, with the same
      creation time and the new update time. */
  lemma PatchKeepsIdentity(t: Table, parse: Parser, uid: string, fullName: string, email: string,
                           role: string, image: string, password: string, username: string, now: string)
    ensures var r := UpdateUser(t, parse, uid, fullName, email, role, image, now);
      r.response.Success? ==> KeepsIdentity(t, r.table, parse, uid, now)
    ensures var r := UpdatePassword(t, parse, uid, password, now);
      r.response.Success? ==> KeepsIdentity(t, r.table, parse, uid, now)
    ensures var r := UpdateUsername(t, parse, uid, username, now);
      r.response.Success? ==> KeepsIdentity(t, r.table, parse, uid, now)
  {
  }

  /** `uid` names a document of `t` that get-by-id still finds in `t2`, created
      at the same time and last updated at `now`. */
  predicate KeepsIdentity(t: Table, t2: Table, parse: Parser, uid: string, now: string) {
    && Addresses(t, parse, uid)
    && GetUserById(t2, parse, uid).Success?
    && GetUserById(t2, parse, uid).data.id == uid
    && GetUserById(t2, parse, uid).data.profile.created == t[parse(uid).value].created
    && GetUserById(t2, parse, uid).data.profile.updated == now
  }

  /** The profile update can give a document the email of another one: from a
      table with unique emails, it yields a table without. */
  lemma UpdateUserCanDuplicateEmail(t: Table, parse: Parser, uid: string, other: Id,
                                    fullName: string, role: string, image: string, now: string)
    requires other in t && UpdateFilled(uid, fullName, t[other].email, role)
    requires Addresses(t, parse, uid) && other != parse(uid).value
    ensures !UniqueEmails(UpdateUser(t, parse, uid, fullName, t[other].email, role, image, now).table)
  {
  }

  /** Delete removes a document and writes nothing else, so neither kind of
      uniqueness can be lost. */
  lemma DeleteKeepsUniqueness(t: Table, parse: Parser, uid: string)
    ensures UniqueUsernames(t) ==> UniqueUsernames(DeleteUser(t, parse, uid).table)
    ensures UniqueEmails(t) ==> UniqueEmails(DeleteUser(t, parse, uid).table)
  {
  }

  /** The profile update does not write usernames. */
  lemma UpdateUserKeepsUsernamesUnique(t: Table, parse: Parser, uid: string, fullName: string, email: string,
                                       role: string, image: string, now: string)
    ensures UniqueUsernames(t) ==> UniqueUsernames(UpdateUser(t, parse, uid, fullName, email, role, image, now).table)
  {
  }

  /** The password change writes neither usernames nor emails. */
  lemma UpdatePasswordKeepsUniqueness(t: Table, parse: Parser, uid: string, password: string, now: string)
    ensures UniqueUsernames(t) ==> UniqueUsernames(UpdatePassword(t, parse, uid, password, now).table)
    ensures UniqueEmails(t) ==> UniqueEmails(UpdatePassword(t, parse, uid, password, now).table)
  {
  }

  /** The username change refuses every name already held, so it cannot make
      two documents share one; it writes no email. */
  lemma UpdateUsernameKeepsUniqueness(t: Table, parse: Parser, uid: string, username: string, now: string)
    ensures UniqueUsernames(t) ==> UniqueUsernames(UpdateUsername(t, parse, uid, username, now).table)
    ensures UniqueEmails(t) ==> UniqueEmails(UpdateUsername(t, parse, uid, username, now).table)
  {
  }
}
