/**
 * The pure parts of the signup, login and logout handlers: the order of the
 * signup checks, the login query and the token a login issues.
 */
module AuthRoutes {
  import opened Wrappers
  import opened JsValue
  import opened JsString
  import opened Hex
  import opened DocumentStore
  import opened UserModel

  const RequiredMessage := "Username and password are required"
  const UsernameLengthMessage := "Username must be 3-20 characters"
  const PasswordLengthMessage := "Password must be at least 6 characters"
  const DuplicateMessage := "Username already exists"
  const SignupSuccessMessage := "Account created successfully"
  const SignupErrorMessage := "An error occurred during signup"
  const InvalidCredentialsMessage := "Invalid username or password"
  const LoginSuccessMessage := "Login successful"
  const LoginErrorMessage := "An error occurred during login"
  const LogoutMessage := "Logged out successfully"

  /** The route's username check, on the value as sent (before any trimming). */
  predicate UsernameLengthOk(username: Json) {
    username.Str? && UsernameMinLength <= Utf16Length(username.s) <= UsernameMaxLength
  }

  predicate PasswordLengthOk(password: Json) {
    password.Str? && Utf16Length(password.s) >= PasswordMinLength
  }

  /** The message of the first signup check that fails, in the route's order: presence, username
      type and length, password type and length. None when all pass. */
  function SignupInputError(username: Json, password: Json): (r: Option<string>)
    ensures r.None? <==> UsernameLengthOk(username) && PasswordLengthOk(password)
    ensures r == Some(RequiredMessage) <==> !Truthy(username) || !Truthy(password)
    ensures r == Some(UsernameLengthMessage) <==> Truthy(username) && Truthy(password) && !UsernameLengthOk(username)
    ensures r == Some(PasswordLengthMessage) <==>
      Truthy(username) && Truthy(password) && UsernameLengthOk(username) && !PasswordLengthOk(password)
    ensures r.Some? ==> r.value in {RequiredMessage, UsernameLengthMessage, PasswordLengthMessage}
  {
    if !Truthy(username) || !Truthy(password) then Some(RequiredMessage)
    else if !UsernameLengthOk(username) then Some(UsernameLengthMessage)
    else if !PasswordLengthOk(password) then Some(PasswordLengthMessage)
    else None
  }

  /** A username with a leading space passes the route's length check (measured before trimming)
      and then fails the schema, whose length limits apply to the trimmed value. */
  lemma PaddedUsernameFailsOnSave(id: Id, now: int)
    ensures SignupInputError(Str(" ab"), Str("secret")).None?
    ensures !CanInsertUser([], NewUser(id, " ab", "secret", now))
  {
    ExampleLengths();
    TrimPaddedName();
  }

  /** The UTF-16 lengths of the strings in the example above. */
  lemma ExampleLengths()
    ensures Utf16Length(" ab") == 3 && Utf16Length("ab") == 2 && Utf16Length("secret") == 6
  {
    Utf16LengthOfBmp(" ab");
    Utf16LengthOfBmp("ab");
    Utf16LengthOfBmp("secret");
  }

  /** The username of the example above trims to two characters. */
  lemma TrimPaddedName()
    ensures Trim(" ab") == "ab"
  {
    var p := " ab";
    assert p[0] == ' ' && IsWhiteSpace(p[0]) && p[1..] == "ab";
    var q := "ab";
    assert !IsWhiteSpace(q[0]) && !IsWhiteSpace(q[|q| - 1]);
    assert TrimStart(p) == TrimStart(q) == q;
  }

  /** Both filter values of a user document. */
  predicate MatchesCredentials(u: User, usernameFilter: Filter, passwordFilter: Filter, re: RegexEngine) {
    Matches(usernameFilter, u.username, re) && Matches(passwordFilter, u.password, re)
  }

  /** `User.findOne({username, password})`: the first user in natural order that satisfies both
      filter values, or None when no user does. */
  function FindLoginUser(users: seq<User>, usernameFilter: Filter, passwordFilter: Filter, re: RegexEngine): (r: Option<nat>)
    ensures r.Some? ==> r.value < |users| && MatchesCredentials(users[r.value], usernameFilter, passwordFilter, re)
    ensures r.Some? ==> forall j :: 0 <= j < r.value ==> !MatchesCredentials(users[j], usernameFilter, passwordFilter, re)
    ensures r.None? <==> forall j :: 0 <= j < |users| ==> !MatchesCredentials(users[j], usernameFilter, passwordFilter, re)
  {
    FirstIndex(users, (u: User) => MatchesCredentials(u, usernameFilter, passwordFilter, re))
  }

  /** Every stored password is non-empty, so a password value of {"$gt": ""} or {"$ne": ""} logs
      in as whichever user holds the given username, without knowing the password. */
  lemma {:induction false} LoginWithoutPassword(users: seq<User>, bound: Id, j: nat, re: RegexEngine)
    requires UsersValid(users, bound) && j < |users|
    ensures FindLoginUser(users, Lit(users[j].username), Gt(""), re) == Some(j)
    ensures FindLoginUser(users, Lit(users[j].username), Ne(""), re) == Some(j)
  {
    EmptyBoundMatchesNonEmpty(users[j].password, re);
    assert users[j].password != "";
    var gt := FindLoginUser(users, Lit(users[j].username), Gt(""), re);
    var ne := FindLoginUser(users, Lit(users[j].username), Ne(""), re);
    assert MatchesCredentials(users[j], Lit(users[j].username), Gt(""), re);
    assert MatchesCredentials(users[j], Lit(users[j].username), Ne(""), re);
    assert gt.Some? && ne.Some?;
    assert !(gt.value < j || j < gt.value);
    assert !(ne.value < j || j < ne.value);
  }

  /** {"$gt": ""} for both fields logs in as the first user of the collection. */
  lemma {:induction false} LoginAsFirstUser(users: seq<User>, bound: Id, re: RegexEngine)
    requires UsersValid(users, bound) && users != []
    ensures FindLoginUser(users, Gt(""), Gt(""), re) == Some(0)
  {
    EmptyBoundMatchesNonEmpty(users[0].username, re);
    EmptyBoundMatchesNonEmpty(users[0].password, re);
    assert MatchesCredentials(users[0], Gt(""), Gt(""), re);
  }

  /** `crypto.randomBytes(32).toString('hex')`: 64 lowercase hexadecimal characters from which the
      32 bytes can be read back. */
  function LoginToken(random: seq<Byte>): (token: string)
    requires |random| == 32
    ensures |token| == 64
    ensures forall i :: 0 <= i < |token| ==> IsLowerHexDigit(token[i])
    ensures HexDecode(token) == Some(random)
  {
    DecodeEncode(random);
    HexEncode(random)
  }
}
