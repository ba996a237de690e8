/** The service as the source runs it: one shared `user` collection that the
    five writing handlers read and then change in place, step by step. */
module Directory {
  import opened Users
  import Auth
  import Management
  import Sessions

  class UserDirectory {
    /** The live documents of the collection. */
    var users: Table
    /** The next id the store hands out on insertion. */
    var nextId: Id
    /** How the store converts an id string (`ObjectId(uid)`). */
    const parse: Parser

    /** Every live id was handed out, and no two live documents share a username. */
    ghost predicate Valid()
      reads this
    {
      Sessions.Allocated(Sessions.Store(users, nextId)) && UniqueUsernames(users)
    }

    constructor (parse: Parser)
      ensures Valid() && users == map[] && nextId == 0 && this.parse == parse
    {
      users := map[];
      nextId := 0;
      this.parse := parse;
    }

    /** The directory over an existing collection `t` whose allocator stands at `next`. */
    constructor Open(parse: Parser, t: Table, next: Id)
      requires forall id :: id in t ==> id < next
      requires UniqueUsernames(t)
      ensures Valid() && users == t && nextId == next && this.parse == parse
    {
      users := t;
      nextId := next;
      this.parse := parse;
    }

    /** `insert_one`: store `u` under a new id. */
    method InsertOne(u: User) returns (id: Id)
      requires nextId !in users
      modifies this
      ensures id == old(nextId) && nextId == old(nextId) + 1
      ensures users == old(users)[id := u]
    {
      id := nextId;
      nextId := nextId + 1;
      users := users[id := u];
    }

    /** `update_one` with the whole patched document: nothing happens when no
        document has the id. */
    method UpdateOne(id: Id, u: User)
      modifies this`users
      ensures users == if id in old(users) then old(users)[id := u] else old(users)
    {
      if id in users {
        users := users[id := u];
      }
    }

    /** `delete_one`: remove the document with the id, if any. */
    method DeleteOne(id: Id)
      modifies this`users
      ensures users == old(users) - {id}
    {
      users := users - {id};
    }

    method Signup(fullName: string, username: string, email: string, password: string,
                  role: string, image: string, now: string) returns (r: Response<string>)
      requires Valid()
      modifies this
      ensures Valid()
      ensures Step(r, users) == Auth.Signup(old(users), old(nextId), fullName, username, email, password, role, image, now)
      ensures Sessions.Store(users, nextId) ==
        Sessions.Serve(parse, old(Sessions.Store(users, nextId)), Sessions.SignupCall(fullName, username, email, password, role, image, now))
    {
      if Auth.SignupFilled(fullName, username, email, password, role) {
        var checkUsername := FindByUsername(users, username);
        var checkEmail := FindByEmail(users, email);
        if checkUsername.Some? {
          r := Unsuccessful(UsernameAlreadyExists);
        } else if checkEmail.Some? {
          r := Unsuccessful(EmailAlreadyExists);
        } else {
          var _ := InsertOne(User(fullName, username, email, password, role, image, now, NeverUpdated));
          r := Success(201, RegistrationSuccessful);
        }
      } else {
        r := NotFound;
      }
    }

    method DeleteUser(uid: string) returns (r: Response<string>)
      requires Valid()
      modifies this
      ensures Valid()
      ensures Step(r, users) == Management.DeleteUser(old(users), parse, uid)
      ensures Sessions.Store(users, nextId) ==
        Sessions.Serve(parse, old(Sessions.Store(users, nextId)), Sessions.DeleteUserCall(uid))
    {
      if Filled(uid) {
        match parse(uid)
        case None =>
          r := Unsuccessful(UserDoesNotExist);
        case Some(id) =>
          if id !in users {
            r := Unsuccessful(UserDoesNotExist);
          } else {
            DeleteOne(id);
            r := Success(202, DeleteSuccessful);
          }
      } else {
        r := NotFound;
      }
    }

    method UpdateUser(uid: string, fullName: string, email: string, role: string,
                      image: string, now: string) returns (r: Response<string>)
      requires Valid()
      modifies this
      ensures Valid()
      ensures Step(r, users) == Management.UpdateUser(old(users), parse, uid, fullName, email, role, image, now)
      ensures Sessions.Store(users, nextId) ==
        Sessions.Serve(parse, old(Sessions.Store(users, nextId)), Sessions.UpdateUserCall(uid, fullName, email, role, image, now))
    {
      if Management.UpdateFilled(uid, fullName, email, role) {
        match parse(uid)
        case None =>
          r := Unsuccessful(UserDoesNotExist);
        case Some(id) =>
          if id !in users {
            r := Unsuccessful(UserDoesNotExist);
          } else {
            var user := users[id];
            UpdateOne(id, user.(fullName := fullName, email := email, role := role, image := image, updated := now));
            r := Success(201, UpdateSuccessful);
          }
      } else {
        r := NotFound;
      }
    }

    method UpdatePassword(uid: string, password: string, now: string) returns (r: Response<string>)
      requires Valid()
      modifies this
      ensures Valid()
      ensures Step(r, users) == Management.UpdatePassword(old(users), parse, uid, password, now)
      ensures Sessions.Store(users, nextId) ==
        Sessions.Serve(parse, old(Sessions.Store(users, nextId)), Sessions.UpdatePasswordCall(uid, password, now))
    {
      if Filled(uid) && Filled(password) {
        match parse(uid)
        case None =>
          r := Unsuccessful(UserDoesNotExist);
        case Some(id) =>
          if id !in users {
            r := Unsuccessful(UserDoesNotExist);
          } else {
            var user := users[id];
            UpdateOne(id, user.(password := password, updated := now));
            r := Success(201, PasswordUpdateSuccessful);
          }
      } else {
        r := NotFound;
      }
    }

    method UpdateUsername(uid: string, username: string, now: string) returns (r: Response<string>)
      requires Valid()
      modifies this
      ensures Valid()
      ensures Step(r, users) == Management.UpdateUsername(old(users), parse, uid, username, now)
      ensures Sessions.Store(users, nextId) ==
        Sessions.Serve(parse, old(Sessions.Store(users, nextId)), Sessions.UpdateUsernameCall(uid, username, now))
    {
      if Filled(uid) && Filled(username) {
        match parse(uid)
        case None =>
          r := Unsuccessful(UserDoesNotExist);
        case Some(id) =>
          if id !in users {
            r := Unsuccessful(UserDoesNotExist);
          } else {
            var checkUsername := FindByUsername(users, username);
            if checkUsername.Some? {
              r := Unsuccessful(UsernameAlreadyExists);
            } else {
              var user := users[id];
              UpdateOne(id, user.(username := username, updated := now));
              r := Success(201, UsernameUpdateSuccessful);
            }
          }
      } else {
        r := NotFound;
      }
    }
  }

  /** A walk-through: register Ann, refuse a second "ann",
      sign her in with the right and with a wrong password, delete her, and
      find her gone. */
  method AnnScenario(parse: Parser, annId: string)
    requires Filled(annId) && parse(annId) == Some(0)
  {
    var d := new UserDirectory(parse);
    var r1 := d.Signup("Ann Lee", "ann", "ann@x.com", "pw1", "user", "img.png", "2024-01-01 10:00:00");
    assert r1 == Success(201, RegistrationSuccessful);
    assert d.users[0].username == "ann";
    var r2 := d.Signup("Ann2", "ann", "ann2@x.com", "pw2", "user", "img2.png", "2024-01-01 10:05:00");
    assert r2 == Unsuccessful(UsernameAlreadyExists);
    Auth.SigninSucceedsIffCredentialsMatch(d.users, "ann", "pw1");
    var s1 := Auth.Signin(d.users, "ann", "pw1");
    assert s1.Success? && s1.data.email == "ann@x.com";
    Auth.SigninWrongPassword(d.users, 0, "wrong");
    assert Auth.Signin(d.users, "ann", "wrong") == Unsuccessful(PasswordIncorrect);
    var r3 := d.DeleteUser(annId);
    assert r3 == Success(202, DeleteSuccessful);
    assert Management.GetUserById(d.users, parse, annId) == Unsuccessful(UserDoesNotExist);
  }
}
