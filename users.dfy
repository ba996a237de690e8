/** The `user` collection of the directory: its documents, the responses the
    handlers send back, and the lookups (`find_one`) the handlers make on it. */
module Users {

  datatype Option<+T> = None | Some(value: T)

  /** A document id, allocated by the store on insertion; only identity and the
      allocation order matter here. */
  type Id = nat

  /** One stored user document. */
  datatype User = User(
    fullName: string,
    username: string,
    email: string,
    password: string,
    role: string,
    image: string,
    created: string,
    updated: string)

  /** The collection: every live document under its id. */
  type Table = map<Id, User>

  /** Conversion of a client-supplied id string to a document id (`ObjectId(uid)`):
      `None` where the conversion raises. */
  type Parser = string -> Option<Id>

  /** What signin and get-by-id send back of a user: every field but the password. */
  datatype Profile = Profile(
    fullName: string,
    username: string,
    email: string,
    role: string,
    image: string,
    created: string,
    updated: string)

  /** The get-by-id payload: the id string the caller gave, echoed, and the profile. */
  datatype IdProfile = IdProfile(id: string, profile: Profile)

  /** The three kinds of answer every handler but list all gives:
      `Success` ("message": "Success") with its status code and data,
      `Unsuccessful` ("message": "Unsuccessful", status 200) with a reason
      (the unreachable "Something Wrong!" answer of signin would be 204),
      `NotFound` the 404 answer of `not_found()`, given when validation fails. */
  datatype Response<+T> =
    | Success(code: nat, data: T)
    | Unsuccessful(reason: string)
    | NotFound

  /** The answer of a handler that may write, together with the collection afterwards. */
  datatype Step<+T> = Step(response: Response<T>, table: Table)

  const UsernameAlreadyExists := "Username Already Exists!"
  const EmailAlreadyExists := "Email Already Exists!"
  const UsernameIncorrect := "Username Incorrect!"
  const PasswordIncorrect := "Password Incorrect!"
  const SomethingWrong := "Something Wrong!"
  const UserDoesNotExist := "User Does Not Exists!"
  const RegistrationSuccessful := "User Registration Successfully!"
  const DeleteSuccessful := "User Delete Successfully!"
  const UpdateSuccessful := "User Update Successfully!"
  const PasswordUpdateSuccessful := "Password Update Successfully!"
  const UsernameUpdateSuccessful := "Username Update Successfully!"

  /** The `updated` value of a document no patch has touched yet. */
  const NeverUpdated := "default"

  /** Truthiness of a request string: only the empty string is false. */
  predicate Filled(s: string) {
    |s| > 0
  }

  /** The document as handlers send it back: every field but the password. */
  function ProfileOf(u: User): (p: Profile) {
    Profile(u.fullName, u.username, u.email, u.role, u.image, u.created, u.updated)
  }

  predicate UsernameTaken(t: Table, name: string) {
    exists id :: id in t && t[id].username == name
  }

  predicate EmailTaken(t: Table, email: string) {
    exists id :: id in t && t[id].email == email
  }

  /** `uid` parses and names a live document. */
  predicate Addresses(t: Table, parse: Parser, uid: string) {
    parse(uid).Some? && parse(uid).value in t
  }

  /** No two live documents share a username. */
  predicate UniqueUsernames(t: Table) {
    forall i, j :: i in t && j in t && t[i].username == t[j].username ==> i == j
  }

  /** No two live documents share an email. */
  predicate UniqueEmails(t: Table) {
    forall i, j :: i in t && j in t && t[i].email == t[j].email ==> i == j
  }

  /** `t2` holds the same ids as `t`, and every document but `id` is unchanged. */
  predicate OnlyPatched(t: Table, t2: Table, id: Id) {
    t2.Keys == t.Keys && forall k :: k in t && k != id ==> t2[k] == t[k]
  }

  lemma {:induction false} LeastExists(ids: set<Id>)
    requires ids != {}
    ensures exists m :: m in ids && IsLeast(m, ids)
    decreases ids
  {
    var x :| x in ids;
    var rest := ids - {x};
    if rest == {} {
      assert IsLeast(x, ids) by {
        forall j | j in ids ensures x <= j {
          assert j !in rest;
        }
      }
    } else {
      LeastExists(rest);
      var m :| m in rest && IsLeast(m, rest);
      var least := if x < m then x else m;
      assert IsLeast(least, ids) by {
        forall j | j in ids ensures least <= j {
          if j != x {
            assert j in rest;
          }
        }
      }
    }
  }

  predicate IsLeast(m: Id, ids: set<Id>) {
    forall j :: j in ids ==> m <= j
  }

  /** The smallest id of a non-empty set. */
  function Least(ids: set<Id>): (m: Id)
    requires ids != {}
    ensures m in ids && forall j :: j in ids ==> m <= j
  {
    LeastExists(ids);
    var m :| m in ids && IsLeast(m, ids);
    m
  }

  /** `find_one({"username": name})`. The store fixes no order among several
      matches; the model picks the least matching id. */
  function FindByUsername(t: Table, name: string): (r: Option<Id>)
    ensures r.None? <==> !UsernameTaken(t, name)
    ensures r.Some? ==> r.value in t && t[r.value].username == name
    ensures r.Some? ==> forall j :: j in t && t[j].username == name ==> r.value <= j
  {
    var ids := set id | id in t && t[id].username == name;
    assert forall id :: id in t && t[id].username == name ==> id in ids;
    if ids == {} then None else Some(Least(ids))
  }

  /** `find_one({"email": email})`, chosen in the same order. */
  function FindByEmail(t: Table, email: string): (r: Option<Id>)
    ensures r.None? <==> !EmailTaken(t, email)
    ensures r.Some? ==> r.value in t && t[r.value].email == email
    ensures r.Some? ==> forall j :: j in t && t[j].email == email ==> r.value <= j
  {
    var ids := set id | id in t && t[id].email == email;
    assert forall id :: id in t && t[id].email == email ==> id in ids;
    if ids == {} then None else Some(Least(ids))
  }

  /** While usernames are unique, the username lookup finds the one document
      that holds the name. */
  lemma FindByUniqueUsername(t: Table, id: Id)
    requires UniqueUsernames(t) && id in t
    ensures FindByUsername(t, t[id].username) == Some(id)
  {
  }
}
