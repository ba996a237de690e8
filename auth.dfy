/** The two auth handlers: signup (`auth_signup`) and signin (`auth_signin`),
    as functions of the collection, and what they promise together. */
module Auth {
  import opened Users

  /** The fields signup refuses to see empty; `image` is not among them. */
  predicate SignupFilled(fullName: string, username: string, email: string, password: string, role: string) {
    Filled(fullName) && Filled(username) && Filled(email) && Filled(password) && Filled(role)
  }

  /** `auth_signup`: validate, look the username and the email up, and insert the
      new document under `newId`, the id the store allocates for it. Both lookups
      are made before either is tested; the username answer is tested first. */
  function Signup(t: Table, newId: Id, fullName: string, username: string, email: string,
                  password: string, role: string, image: string, now: string): (r: Step<string>)
    requires newId !in t
    ensures !SignupFilled(fullName, username, email, password, role) ==> r == Step(NotFound, t)
    ensures SignupFilled(fullName, username, email, password, role) && UsernameTaken(t, username) ==>
      r == Step(Unsuccessful(UsernameAlreadyExists), t)
    ensures SignupFilled(fullName, username, email, password, role) && !UsernameTaken(t, username) && EmailTaken(t, email) ==>
      r == Step(Unsuccessful(EmailAlreadyExists), t)
    ensures r.response.Success? <==>
      SignupFilled(fullName, username, email, password, role) && !UsernameTaken(t, username) && !EmailTaken(t, email)
    ensures r.response.Success? ==>
      && r.response == Success(201, RegistrationSuccessful)
      && r.table.Keys == t.Keys + {newId}
      && (forall id :: id in t ==> r.table[id] == t[id])
      && r.table[newId] == User(fullName, username, email, password, role, image, now, NeverUpdated)
      && (forall id :: id in t ==> t[id].username != username && t[id].email != email)
  {
    if SignupFilled(fullName, username, email, password, role) then
      var checkUsername := FindByUsername(t, username);
      var checkEmail := FindByEmail(t, email);
      if checkUsername.Some? then
        Step(Unsuccessful(UsernameAlreadyExists), t)
      else if checkEmail.Some? then
        Step(Unsuccessful(EmailAlreadyExists), t)
      else
        Step(Success(201, RegistrationSuccessful),
             t[newId := User(fullName, username, email, password, role, image, now, NeverUpdated)])
    else
      Step(NotFound, t)
  }

  /** `auth_signin`: validate, look the username up, and compare the stored
      password with the given one by plain equality. The third branch of the
      source, taken when the password is neither different nor equal, cannot
      be reached. */
  function Signin(t: Table, username: string, password: string): (r: Response<Profile>)
    ensures !(Filled(username) && Filled(password)) ==> r == NotFound
    ensures Filled(username) && Filled(password) && !UsernameTaken(t, username) ==>
      r == Unsuccessful(UsernameIncorrect)
    ensures r == Unsuccessful(UsernameIncorrect) ==> !UsernameTaken(t, username)
    ensures Filled(username) && Filled(password) && UsernameTaken(t, username) ==>
      r.Success? || r == Unsuccessful(PasswordIncorrect)
    ensures r.Success? ==>
      r.code == 200 &&
      exists id :: id in t && t[id].username == username && t[id].password == password && r.data == ProfileOf(t[id])
    ensures r.Unsuccessful? && r.reason == PasswordIncorrect ==>
      exists id :: id in t && t[id].username == username && t[id].password != password
    ensures r != Unsuccessful(SomethingWrong)
  {
    if Filled(username) && Filled(password) then
      match FindByUsername(t, username)
      case None => Unsuccessful(UsernameIncorrect)
      case Some(id) =>
        var checkUser := t[id];
        if checkUser.password != password then
          Unsuccessful(PasswordIncorrect)
        else if checkUser.password == password then
          Success(200, ProfileOf(checkUser))
        else
          assert false; Unsuccessful(SomethingWrong)
    else
      NotFound
  }

  /** While usernames are unique, signin succeeds exactly when both fields are
      given and some document holds that username and exactly that password,
      and the profile it returns is that document's. */
  lemma SigninSucceedsIffCredentialsMatch(t: Table, username: string, password: string)
    requires UniqueUsernames(t)
    ensures Signin(t, username, password).Success? <==>
      Filled(username) && Filled(password) &&
      exists id :: id in t && t[id].username == username && t[id].password == password
    ensures forall id :: (id in t && t[id].username == username && t[id].password == password &&
                          Filled(username) && Filled(password)) ==>
      Signin(t, username, password) == Success(200, ProfileOf(t[id]))
  {
  }

  /** While usernames are unique, a filled signin on a known username with
      any other password answers "Password Incorrect!". */
  lemma SigninWrongPassword(t: Table, id: Id, password: string)
    requires UniqueUsernames(t) && id in t
    requires Filled(t[id].username) && Filled(password) && t[id].password != password
    ensures Signin(t, t[id].username, password) == Unsuccessful(PasswordIncorrect)
  {
  }

  /** Signup adds a document only under a username no document holds. */
  lemma SignupKeepsUsernamesUnique(t: Table, newId: Id, fullName: string, username: string, email: string,
                                   password: string, role: string, image: string, now: string)
    requires newId !in t
    ensures UniqueUsernames(t) ==> UniqueUsernames(Signup(t, newId, fullName, username, email, password, role, image, now).table)
  {
  }

  /** Signup adds a document only under an email no document holds. */
  lemma SignupKeepsEmailsUnique(t: Table, newId: Id, fullName: string, username: string, email: string,
                                password: string, role: string, image: string, now: string)
    requires newId !in t
    ensures UniqueEmails(t) ==> UniqueEmails(Signup(t, newId, fullName, username, email, password, role, image, now).table)
  {
  }

  /** Right after a successful signup, signin with the same username and
      password succeeds and returns the new document's profile, whatever the
      rest of the collection holds. */
  lemma SignupThenSignin(t: Table, newId: Id, fullName: string, username: string, email: string,
                         password: string, role: string, image: string, now: string)
    requires newId !in t
    requires Signup(t, newId, fullName, username, email, password, role, image, now).response.Success?
    ensures Signin(Signup(t, newId, fullName, username, email, password, role, image, now).table, username, password)
      == Success(200, Profile(fullName, username, email, role, image, now, NeverUpdated))
  {
  }
}
