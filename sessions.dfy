/** Sequences of handler calls, run one at a time against the collection, and
    what holds across every such run. */
module Sessions {
  import opened Users
  import Auth
  import Management

  /** One request to one of the eight handlers, with the time it is served at
      where the handler records one. */
  datatype Call =
    | SignupCall(fullName: string, username: string, email: string, password: string,
                 role: string, image: string, now: string)
    | SigninCall(username: string, password: string)
    | GetAllUsersCall
    | GetUserByIdCall(uid: string)
    | DeleteUserCall(uid: string)
    | UpdateUserCall(uid: string, fullName: string, email: string, role: string, image: string, now: string)
    | UpdatePasswordCall(uid: string, password: string, now: string)
    | UpdateUsernameCall(uid: string, username: string, now: string)

  /** The collection together with the store's id allocator: the next id to hand out. */
  datatype Store = Store(users: Table, nextId: Id)

  /** Every live id was handed out before `nextId`. */
  predicate Allocated(s: Store) {
    forall id :: id in s.users ==> id < s.nextId
  }

  /** The store after serving one call. Signup takes the next id; the three
      queries leave the store as it was. */
  function Serve(parse: Parser, s: Store, c: Call): (s2: Store)
    requires Allocated(s)
    ensures Allocated(s2)
    ensures s2.nextId == if c.SignupCall? && s2.users != s.users then s.nextId + 1 else s.nextId
    ensures forall id :: id in s2.users && id !in s.users ==> c.SignupCall? && id == s.nextId
  {
    match c
    case SignupCall(fullName, username, email, password, role, image, now) =>
      var r := Auth.Signup(s.users, s.nextId, fullName, username, email, password, role, image, now);
      if r.response.Success? then Store(r.table, s.nextId + 1) else s
    case SigninCall(_, _) => s
    case GetAllUsersCall => s
    case GetUserByIdCall(_) => s
    case DeleteUserCall(uid) =>
      Store(Management.DeleteUser(s.users, parse, uid).table, s.nextId)
    case UpdateUserCall(uid, fullName, email, role, image, now) =>
      Store(Management.UpdateUser(s.users, parse, uid, fullName, email, role, image, now).table, s.nextId)
    case UpdatePasswordCall(uid, password, now) =>
      Store(Management.UpdatePassword(s.users, parse, uid, password, now).table, s.nextId)
    case UpdateUsernameCall(uid, username, now) =>
      Store(Management.UpdateUsername(s.users, parse, uid, username, now).table, s.nextId)
  }

  /** The store after serving `calls` in order. */
  function Run(parse: Parser, s: Store, calls: seq<Call>): (s2: Store)
    requires Allocated(s)
    ensures Allocated(s2) && s.nextId <= s2.nextId
    ensures forall id :: id in s2.users && id !in s.users ==> s.nextId <= id
    decreases |calls|
  {
    if calls == [] then s else Run(parse, Serve(parse, s, calls[0]), calls[1..])
  }

  /** Every single call keeps usernames unique. */
  lemma ServeKeepsUsernamesUnique(parse: Parser, s: Store, c: Call)
    requires Allocated(s) && UniqueUsernames(s.users)
    ensures UniqueUsernames(Serve(parse, s, c).users)
  {
  }

  /** Across any run of calls served one at a time, no two live documents
      share a username. */
  lemma {:induction false} RunKeepsUsernamesUnique(parse: Parser, s: Store, calls: seq<Call>)
    requires Allocated(s) && UniqueUsernames(s.users)
    ensures UniqueUsernames(Run(parse, s, calls).users)
    decreases |calls|
  {
    if calls != [] {
      ServeKeepsUsernamesUnique(parse, s, calls[0]);
      RunKeepsUsernamesUnique(parse, Serve(parse, s, calls[0]), calls[1..]);
    }
  }

  /** Every call but the profile update keeps emails unique. */
  lemma ServeKeepsEmailsUnique(parse: Parser, s: Store, c: Call)
    requires Allocated(s) && UniqueEmails(s.users)
    requires !c.UpdateUserCall?
    ensures UniqueEmails(Serve(parse, s, c).users)
  {
  }

  /** A run with no profile update keeps emails unique; the profile update is
      the one call that does not (Management.UpdateUserCanDuplicateEmail). */
  lemma {:induction false} RunWithoutProfileUpdateKeepsEmailsUnique(parse: Parser, s: Store, calls: seq<Call>)
    requires Allocated(s) && UniqueEmails(s.users)
    requires forall i :: 0 <= i < |calls| ==> !calls[i].UpdateUserCall?
    ensures UniqueEmails(Run(parse, s, calls).users)
    decreases |calls|
  {
    if calls != [] {
      ServeKeepsEmailsUnique(parse, s, calls[0]);
      RunWithoutProfileUpdateKeepsEmailsUnique(parse, Serve(parse, s, calls[0]), calls[1..]);
    }
  }

  /** An id that is not live but was handed out before, namely a deleted one,
      never becomes live again: the store never hands it out a second time. */
  lemma DeletedIdStaysDeleted(parse: Parser, s: Store, calls: seq<Call>, id: Id)
    requires Allocated(s) && id < s.nextId && id !in s.users
    ensures id !in Run(parse, s, calls).users
  {
  }
}
