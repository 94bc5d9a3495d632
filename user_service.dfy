/**
 * The user service: registration with a duplicate-username guard. The
 * password encoder is a parameter, since hashing is not part of this model.
 */
module UserService {
  import opened Entities
  import opened Persistence

  const RegisteredMessage: string := "User registered successfully"

  /** The user `registerUser` builds: the requested username and email, the encoded password. */
  function NewUser(id: int, request: RegistrationRequest, encodedPassword: string): User
  {
    User(Some(id), request.username, encodedPassword, request.email)
  }

  function AfterRegister(t: Tables, request: RegistrationRequest, encodedPassword: string): Tables
  {
    t.(users := t.users[t.nextId := NewUser(t.nextId, request, encodedPassword)], nextId := t.nextId + 1)
  }

  /** Inserting a user under a new key with a free username keeps usernames unique. */
  lemma InsertKeepsUsernamesUnique(users: map<int, User>, k: int, u: User)
    requires UsernamesUnique(users)
    requires k !in users && !UsernameTaken(users, u.username)
    ensures UsernamesUnique(users[k := u])
  {
  }

  /**
   * Registering a free username adds exactly one user, carrying the request's
   * username and email and the encoded password; earlier users stay as they
   * were, usernames stay unique, and the name is taken from then on.
   */
  lemma RegisterAddsOneUser(t: Tables, request: RegistrationRequest, encodedPassword: string)
    requires Consistent(t)
    requires !UsernameTaken(t.users, request.username)
    ensures var t' := AfterRegister(t, request, encodedPassword);
      && Consistent(t')
      && |t'.users| == |t.users| + 1
      && t.nextId !in t.users
      && t'.users.Keys == t.users.Keys + {t.nextId}
      && (forall k :: k in t.users ==> t'.users[k] == t.users[k])
      && t'.users[t.nextId].username == request.username
      && t'.users[t.nextId].email == request.email
      && t'.users[t.nextId].password == encodedPassword
      && UsernameTaken(t'.users, request.username)
      && t'.workouts == t.workouts && t'.links == t.links
  {
    var k := t.nextId;
    var u := NewUser(k, request, encodedPassword);
    var users' := t.users[k := u];
    assert k !in t.users;
    assert users'.Keys == t.users.Keys + {k};
    assert |users'.Keys| == |t.users.Keys| + 1;
    InsertKeepsUsernamesUnique(t.users, k, u);
    assert users'[k].username == request.username;
  }

  /**
   * `registerUser`: a taken username fails and changes nothing; otherwise one
   * user is inserted and the confirmation text returned.
   */
  method RegisterUser(db: Store, request: RegistrationRequest, encode: string -> string) returns (r: Result<string>)
    requires db.Valid()
    modifies db
    ensures db.Valid()
    ensures UsernameTaken(old(db.users), request.username) ==>
      r == Err(UsernameAlreadyTaken) && db.State() == old(db.State())
    ensures !UsernameTaken(old(db.users), request.username) ==>
      r == Ok(RegisteredMessage) && db.State() == AfterRegister(old(db.State()), request, encode(request.password))
  {
    if UsernameTaken(db.users, request.username) {
      return Err(UsernameAlreadyTaken);
    }
    var encodedPassword := encode(request.password);
    RegisterAddsOneUser(db.State(), request, encodedPassword);
    db.users := db.users[db.nextId := NewUser(db.nextId, request, encodedPassword)];
    db.nextId := db.nextId + 1;
    r := Ok(RegisteredMessage);
  }
}
