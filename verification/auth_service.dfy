/** Registration, login and the in-memory session map of the authentication service. Hashing
    a password and checking one against its hash are foreign (bcrypt): they enter as the
    functions `hash` and `matches`. Each new token comes from the caller, standing for the
    random UUID the program draws. */
module AuthService {
  import opened Wrappers
  import opened Errors
  import opened Tables
  import opened Text

  /** A row of `users`; timestamps are left out. */
  datatype User = User(username: string, email: string, passwordHash: string)

  /** The users table and the session map from token to user id. */
  datatype Auth = Auth(users: Table<User>, tokens: map<string, int>)

  /** What register and login hand back: the user's id and row, and the session token. */
  datatype Session = Session(userId: int, user: User, token: string)

  /** The code a registration must quote. */
  const RegistrationCode: string := "FERME2024"

  /** The username and email rules, in the program's order; lengths are UTF-8 byte counts. */
  function ValidateProfileData(username: string, email: string): (r: Option<AppError>)
    ensures r.None? <==> 3 <= Utf8Len(username) <= 50 && '@' in email && Utf8Len(email) <= 255
    ensures Utf8Len(username) < 3 ==> r == Some(ValidationError("username", TooShort))
    ensures Utf8Len(username) > 50 ==> r == Some(ValidationError("username", TooLong))
    ensures 3 <= Utf8Len(username) <= 50 && '@' !in email ==> r == Some(ValidationError("email", Invalid))
    ensures 3 <= Utf8Len(username) <= 50 && '@' in email && Utf8Len(email) > 255 ==> r == Some(ValidationError("email", TooLong))
  {
    if Utf8Len(username) < 3 then Some(ValidationError("username", TooShort))
    else if Utf8Len(username) > 50 then Some(ValidationError("username", TooLong))
    else if '@' !in email then Some(ValidationError("email", Invalid))
    else if Utf8Len(email) > 255 then Some(ValidationError("email", TooLong))
    else None
  }

  /** The password rule, shared by registration and password change. */
  function CheckPassword(field: string, password: string): (r: Option<AppError>)
    ensures r.None? <==> 6 <= Utf8Len(password) <= 255
    ensures Utf8Len(password) < 6 ==> r == Some(ValidationError(field, TooShort))
    ensures Utf8Len(password) > 255 ==> r == Some(ValidationError(field, TooLong))
  {
    if Utf8Len(password) < 6 then Some(ValidationError(field, TooShort))
    else if Utf8Len(password) > 255 then Some(ValidationError(field, TooLong))
    else None
  }

  /** `validate_user_data`: the profile rules, then the password rule. */
  function ValidateUserData(username: string, email: string, password: string): (r: Option<AppError>)
    ensures ValidateProfileData(username, email).Some? ==> r == ValidateProfileData(username, email)
    ensures ValidateProfileData(username, email).None? ==> r == CheckPassword("password", password)
  {
    if ValidateProfileData(username, email).Some? then ValidateProfileData(username, email)
    else CheckPassword("password", password)
  }

  /** Registration data is valid exactly when the profile part is and the password is 6 to
      255 bytes long. */
  lemma UserDataIsProfileAndPassword(username: string, email: string, password: string)
    ensures ValidateUserData(username, email, password).None? <==>
      && 3 <= Utf8Len(username) <= 50 && '@' in email && Utf8Len(email) <= 255
      && 6 <= Utf8Len(password) <= 255
  {
  }

  /** `user_exists`: some user has the username or the email. */
  predicate Taken(users: Table<User>, username: string, email: string) {
    exists id :: id in users.rows && (users.rows[id].username == username || users.rows[id].email == email)
  }

  /** `generate_token`: the token now names the user; every other session is kept. */
  function GenerateToken(a: Auth, userId: int, token: string): (r: Auth)
    ensures r.users == a.users
    ensures token in r.tokens && r.tokens[token] == userId
    ensures forall t :: t in a.tokens && t != token ==> t in r.tokens && r.tokens[t] == a.tokens[t]
    ensures r.tokens.Keys == a.tokens.Keys + {token}
  {
    a.(tokens := a.tokens[token := userId])
  }

  /** A fresh token adds exactly one session. */
  lemma FreshTokenAddsOneSession(a: Auth, userId: int, token: string)
    requires token !in a.tokens
    ensures |GenerateToken(a, userId, token).tokens| == |a.tokens| + 1
  {
    assert GenerateToken(a, userId, token).tokens.Keys == a.tokens.Keys + {token};
  }

  /** `register`: the code first, then an existing username or email, then the field rules;
      on success the user is stored with the hash of the password and a session opened. */
  function Register(a: Auth, username: string, email: string, password: string, code: string,
                    hash: string -> string, token: string): (r: Result<(Auth, Session), AppError>)
    ensures code != RegistrationCode ==> r == Failure(ValidationError("registration_code", Mismatch))
    ensures code == RegistrationCode && Taken(a.users, username, email) ==> r == Failure(ValidationError("user", Duplicate))
    ensures code == RegistrationCode && !Taken(a.users, username, email) && ValidateUserData(username, email, password).Some? ==>
      r == Failure(ValidateUserData(username, email, password).value)
    ensures r.Success? <==>
      code == RegistrationCode && !Taken(a.users, username, email) && ValidateUserData(username, email, password).None?
    ensures r.Success? ==>
      && var (a', s) := r.value;
      && s.userId == a.users.next && s.token == token
      && s.user == User(username, email, hash(password))
      && a'.users.rows == a.users.rows[s.userId := s.user] && a'.users.next == a.users.next + 1
      && a'.tokens == a.tokens[token := s.userId]
  {
    if code != RegistrationCode then Failure(ValidationError("registration_code", Mismatch))
    else if Taken(a.users, username, email) then Failure(ValidationError("user", Duplicate))
    else match ValidateUserData(username, email, password)
      case Some(e) => Failure(e)
      case None =>
        var user := User(username, email, hash(password));
        var (users, id) := a.users.Insert(user);
        Success((GenerateToken(a.(users := users), id, token), Session(id, user, token)))
  }

  /** `get_user_by_username`: the first row, in rowid order, with that username. */
  function FindByUsername(users: Table<User>, username: string): (r: Option<(int, User)>)
    ensures r.Some? ==> r.value.0 in users.rows && users.rows[r.value.0] == r.value.1 && r.value.1.username == username
    ensures r.Some? && users.Valid() ==> forall id :: id in users.rows && id < r.value.0 ==> users.rows[id].username != username
    ensures users.Valid() ==> (r.None? <==> forall id :: id in users.rows ==> users.rows[id].username != username)
  {
    var found := Where(users, (u: User) => u.username == username);
    if |found| == 0 then None else Some(found[0])
  }

  /** `login`: an unknown username or a password that does not match its hash is the same
      credentials error; otherwise a session is opened for the user found. */
  function Login(a: Auth, username: string, password: string, matches: (string, string) -> bool,
                 token: string): (r: Result<(Auth, Session), AppError>)
    ensures r.Success? <==>
      FindByUsername(a.users, username).Some? && matches(password, FindByUsername(a.users, username).value.1.passwordHash)
    ensures r.Failure? ==> r.error == ValidationError("credentials", Mismatch)
    ensures r.Success? ==>
      && var (a', s) := r.value;
      && s.userId in a.users.rows && a.users.rows[s.userId] == s.user && s.user.username == username
      && s.token == token
      && a' == a.(tokens := a.tokens[token := s.userId])
  {
    match FindByUsername(a.users, username)
    case None => Failure(ValidationError("credentials", Mismatch))
    case Some((id, user)) =>
      if matches(password, user.passwordHash) then Success((GenerateToken(a, id, token), Session(id, user, token)))
      else Failure(ValidationError("credentials", Mismatch))
  }

  /** `logout`: the token no longer names anyone; an unknown token is no error. */
  function Logout(a: Auth, token: string): (r: Auth)
    ensures r.users == a.users
    ensures token !in r.tokens
    ensures forall t :: t != token ==> (t in r.tokens <==> t in a.tokens)
    ensures forall t :: t in r.tokens ==> r.tokens[t] == a.tokens[t]
  {
    a.(tokens := a.tokens - {token})
  }

  /** `verify_token`: the user the token names, when both exist. */
  function VerifyToken(a: Auth, token: string): (r: Option<(int, User)>)
    ensures r.Some? <==> token in a.tokens && a.tokens[token] in a.users.rows
    ensures r.Some? ==> r.value == (a.tokens[token], a.users.rows[a.tokens[token]])
  {
    if token in a.tokens && a.tokens[token] in a.users.rows then Some((a.tokens[token], a.users.rows[a.tokens[token]]))
    else None
  }

  /** The token a registration returns identifies the new user. */
  lemma RegisterThenVerify(a: Auth, username: string, email: string, password: string, code: string,
                           hash: string -> string, token: string)
    requires Register(a, username, email, password, code, hash, token).Success?
    ensures var (a', s) := Register(a, username, email, password, code, hash, token).value;
      VerifyToken(a', token) == Some((s.userId, s.user))
  {
  }

  /** The token a login returns identifies the user who logged in. */
  lemma LoginThenVerify(a: Auth, username: string, password: string, matches: (string, string) -> bool, token: string)
    requires Login(a, username, password, matches, token).Success?
    ensures var (a', s) := Login(a, username, password, matches, token).value;
      VerifyToken(a', token) == Some((s.userId, s.user)) && s.user.username == username
  {
  }

  /** After logout the token identifies nobody, and every other token answers as before. */
  lemma LogoutThenVerify(a: Auth, token: string, other: string)
    requires other != token
    ensures VerifyToken(Logout(a, token), token).None?
    ensures VerifyToken(Logout(a, token), other) == VerifyToken(a, other)
  {
  }

  /** Logging out twice is logging out once. */
  lemma LogoutIdempotent(a: Auth, token: string)
    ensures Logout(Logout(a, token), token) == Logout(a, token)
  {
    assert Logout(Logout(a, token), token).tokens == Logout(a, token).tokens;
  }

  /** `update_profile`: the profile rules, then `NotFound` for an unknown user; the password
      hash is kept. */
  function UpdateProfile(a: Auth, userId: int, username: string, email: string): (r: Result<Auth, AppError>)
    ensures ValidateProfileData(username, email).Some? ==> r == Failure(ValidateProfileData(username, email).value)
    ensures ValidateProfileData(username, email).None? && userId !in a.users.rows ==> r == Failure(NotFound(UserEntity, userId))
    ensures r.Success? <==> ValidateProfileData(username, email).None? && userId in a.users.rows
    ensures r.Success? ==>
      && r.value.tokens == a.tokens && r.value.users.next == a.users.next
      && r.value.users.rows == a.users.rows[userId := User(username, email, a.users.rows[userId].passwordHash)]
  {
    match ValidateProfileData(username, email)
    case Some(e) => Failure(e)
    case None =>
      if userId !in a.users.rows then Failure(NotFound(UserEntity, userId))
      else Success(a.(users := a.users.Put(userId, a.users.rows[userId].(username := username, email := email))))
  }

  /** `update_password`: the new password's length first, then `NotFound`, then the current
      password must match the stored hash; only the hash changes. */
  function UpdatePassword(a: Auth, userId: int, current: string, newPassword: string,
                          matches: (string, string) -> bool, hash: string -> string): (r: Result<Auth, AppError>)
    ensures CheckPassword("new_password", newPassword).Some? ==> r == Failure(CheckPassword("new_password", newPassword).value)
    ensures CheckPassword("new_password", newPassword).None? && userId !in a.users.rows ==> r == Failure(NotFound(UserEntity, userId))
    ensures CheckPassword("new_password", newPassword).None? && userId in a.users.rows && !matches(current, a.users.rows[userId].passwordHash) ==>
      r == Failure(ValidationError("current_password", Mismatch))
    ensures r.Success? <==>
      CheckPassword("new_password", newPassword).None? && userId in a.users.rows && matches(current, a.users.rows[userId].passwordHash)
    ensures r.Success? ==>
      && r.value.tokens == a.tokens && r.value.users.next == a.users.next
      && r.value.users.rows == a.users.rows[userId := a.users.rows[userId].(passwordHash := hash(newPassword))]
  {
    match CheckPassword("new_password", newPassword)
    case Some(e) => Failure(e)
    case None =>
      if userId !in a.users.rows then Failure(NotFound(UserEntity, userId))
      else
        var user := a.users.rows[userId];
        if !matches(current, user.passwordHash) then Failure(ValidationError("current_password", Mismatch))
        else Success(a.(users := a.users.Put(userId, user.(passwordHash := hash(newPassword)))))
  }

  /** Rewriting a user without renaming it keeps it the first user of its name. */
  /** After a profile update the lookup by the new name finds the updated user, with the new
      name and email and the old password hash, unless a user with a lower id already bears
      that name; the sessions are untouched. */
  lemma UpdateProfileThenFind(a: Auth, userId: int, username: string, email: string)
    requires a.users.Valid()
    requires UpdateProfile(a, userId, username, email).Success?
    requires forall id :: id in a.users.rows && id < userId ==> a.users.rows[id].username != username
    ensures var a' := UpdateProfile(a, userId, username, email).value;
      && FindByUsername(a'.users, username) == Some((userId, User(username, email, a.users.rows[userId].passwordHash)))
      && a'.tokens == a.tokens
  {
    var users' := UpdateProfile(a, userId, username, email).value.users;
    assert users'.Valid() && userId in users'.rows && users'.rows[userId].username == username;
    var f := FindByUsername(users', username);
    assert f.Some?;
    assert f.value.0 == userId;
  }

  lemma FindAfterPut(users: Table<User>, id: int, user: User)
    requires users.Valid() && id in users.rows && user.username == users.rows[id].username
    requires FindByUsername(users, user.username) == Some((id, users.rows[id]))
    ensures FindByUsername(users.Put(id, user), user.username) == Some((id, user))
  {
    var users' := users.Put(id, user);
    assert users'.Valid() && id in users'.rows && users'.rows[id].username == user.username;
    var f := FindByUsername(users', user.username);
    assert f.Some?;
    assert f.value.0 == id;
  }

  /** A changed password is the one a login then accepts, for a username that stays the
      first of its name. */
  lemma UpdatePasswordThenLogin(a: Auth, userId: int, current: string, newPassword: string,
                                matches: (string, string) -> bool, hash: string -> string, token: string)
    requires a.users.Valid()
    requires UpdatePassword(a, userId, current, newPassword, matches, hash).Success?
    requires FindByUsername(a.users, a.users.rows[userId].username) == Some((userId, a.users.rows[userId]))
    requires matches(newPassword, hash(newPassword))
    ensures var a' := UpdatePassword(a, userId, current, newPassword, matches, hash).value;
      Login(a', a.users.rows[userId].username, newPassword, matches, token).Success?
  {
    var user := a.users.rows[userId].(passwordHash := hash(newPassword));
    FindAfterPut(a.users, userId, user);
    assert UpdatePassword(a, userId, current, newPassword, matches, hash).value.users == a.users.Put(userId, user);
  }
}
