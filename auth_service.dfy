/** Signup and login. The password encoder, the token generator and the
    authentication manager are collaborators whose internals are not modelled:
    they are passed in as functions. */
module AuthService {
  import opened Wrappers
  import opened Model
  import opened Repositories

  /** `userRepository.existsByEmail`. */
  predicate ExistsByEmail(users: map<UserId, User>, email: string): (b: bool)
    ensures b <==> email in (set u | u in users.Values :: u.email)
  {
    exists id :: id in users && users[id].email == email
  }

  /** `userRepository.findByEmail`; emails are unique, so the row is too. */
  function FindByEmail(users: map<UserId, User>, email: string): (r: Option<User>)
    requires UniqueEmails(users)
    ensures r.Some? <==> ExistsByEmail(users, email)
    ensures forall id :: id in users && users[id].email == email ==> r == Some(users[id])
  {
    if exists id :: id in users && users[id].email == email then
      var id :| id in users && users[id].email == email;
      Some(users[id])
    else
      None
  }

  /** `signup`: a registered email is refused and nothing is saved; otherwise a
      new user with the encoded password (never the plaintext) is saved and the
      response carries its id, email, name and the token generated for
      (email, id). The email is registered afterwards. */
  method Signup(db: Database, encode: string -> string,
                generateToken: (string, UserId) -> string,
                email: string, password: string, name: string)
    returns (r: Result<AuthResponse, Error>)
    requires db.Valid()
    modifies db`users, db`nextUserId
    ensures db.Valid()
    ensures ExistsByEmail(old(db.users), email) ==> r == Err(EmailAlreadyExists)
    ensures r.Ok? <==> !ExistsByEmail(old(db.users), email)
    ensures r.Err? ==> db.users == old(db.users) && db.nextUserId == old(db.nextUserId)
    ensures r.Ok? ==> var id := old(db.nextUserId);
            && id !in old(db.users)
            && db.users == old(db.users)[id := User(id, email, encode(password), name)]
            && r.value == AuthResponse(generateToken(email, id), id, email, name)
    ensures r.Ok? ==> ExistsByEmail(db.users, email)
  {
    if ExistsByEmail(db.users, email) {
      return Err(EmailAlreadyExists);
    }
    var user := db.InsertUser(email, encode(password), name);
    assert db.users[user.id].email == email;
    var token := generateToken(user.email, user.id);
    r := Ok(AuthResponse(token, user.id, user.email, user.name));
  }

  /** `login`: the authentication manager rules first; then the user is looked
      up by email ("User not found" if absent) and a token is generated for it. */
  function Login(db: Database, authenticate: (string, string) -> bool,
                 generateToken: (string, UserId) -> string, email: string, password: string)
    : (r: Result<AuthResponse, Error>)
    reads db
    requires db.Valid()
    ensures !authenticate(email, password) ==> r == Err(BadCredentials)
    ensures authenticate(email, password) && !ExistsByEmail(db.users, email) ==> r == Err(UserNotFound)
    ensures r.Ok? <==> authenticate(email, password) && ExistsByEmail(db.users, email)
    ensures forall id :: id in db.users && db.users[id].email == email && r.Ok? ==>
              r.value == AuthResponse(generateToken(email, id), id, email, db.users[id].name)
  {
    if !authenticate(email, password) then Err(BadCredentials)
    else
      match FindByEmail(db.users, email)
      case None => Err(UserNotFound)
      case Some(user) => Ok(AuthResponse(generateToken(user.email, user.id), user.id, user.email, user.name))
  }

  /** An authentication manager that checks the password against the stored
      hash of the user with that email, through the encoder's `matches`. */
  function StoredPasswordCheck(users: map<UserId, User>, matches: (string, string) -> bool)
    : (string, string) -> bool
  {
    (email: string, password: string) =>
      exists id :: id in users && users[id].email == email && matches(password, users[id].passwordHash)
  }

  /** With that authentication manager, login never reaches "User not found",
      and it succeeds exactly when the password matches the stored hash. */
  lemma LoginChecksStoredHash(db: Database, matches: (string, string) -> bool,
                              generateToken: (string, UserId) -> string,
                              email: string, password: string)
    requires db.Valid()
    ensures var r := Login(db, StoredPasswordCheck(db.users, matches), generateToken, email, password);
            && r != Err(UserNotFound)
            && (r.Ok? <==> exists id :: id in db.users && db.users[id].email == email
                                        && matches(password, db.users[id].passwordHash))
  {
  }
}
