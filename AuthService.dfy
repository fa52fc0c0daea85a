/** `AuthViewModel` (viewmodels/authViewModel.js): credential checks,
    signup (check, then insert) and login (one lookup by username and digest). */
module AuthService {
  import opened Common
  import opened Strings
  import opened UserStore

  const UsernameEmpty := "Username cannot be empty"
  const PasswordRequired := "Password is required"
  const PasswordTooShort := "Password must be at least 3 characters long"
  const CheckFailed := "Failed to check username"
  const UsernameTaken := "Username already exists. Please log in instead."
  const CreateFailed := "Failed to create user"
  const CredentialsRequired := "Username and password are required"
  const LoginFailed := "Login failed"
  const InvalidCredentials := "Invalid username or password"

  /** JavaScript truthiness of an optional string: present and not empty. */
  predicate Truthy(s: Option<string>) {
    s.Some? && s.value != ""
  }

  /** `!username || username.trim().length === 0` */
  predicate BlankUsername(username: Option<string>) {
    !Truthy(username) || |Trim(username.value)| == 0
  }

  /** `password && password.length < 3`; the length is counted in characters. */
  predicate ShortPassword(password: Option<string>) {
    Truthy(password) && |password.value| < 3
  }

  function Count(b: bool): nat {
    if b then 1 else 0
  }

  /** `validateCredentials`: the failed checks, in the order the code makes
      them. */
  function ValidateCredentials(username: Option<string>, password: Option<string>): (errors: seq<string>)
    ensures UsernameEmpty in errors <==> BlankUsername(username)
    ensures PasswordRequired in errors <==> !Truthy(password)
    ensures PasswordTooShort in errors <==> ShortPassword(password)
    ensures |errors| == Count(BlankUsername(username)) + Count(!Truthy(password)) + Count(ShortPassword(password))
    ensures |errors| <= 2
    ensures UsernameEmpty in errors ==> errors[0] == UsernameEmpty
    ensures errors == [] <==> !BlankUsername(username) && Truthy(password) && |password.value| >= 3
  {
    (if BlankUsername(username) then [UsernameEmpty] else [])
    + (if !Truthy(password) then [PasswordRequired] else [])
    + (if ShortPassword(password) then [PasswordTooShort] else [])
  }

  /** Signup reports only the first failed check: a blank username wins over
      any password problem, and a missing password over a short one. */
  lemma FirstErrorReported(username: Option<string>, password: Option<string>)
    requires ValidateCredentials(username, password) != []
    ensures var e := ValidateCredentials(username, password)[0];
      e == if BlankUsername(username) then UsernameEmpty
           else if !Truthy(password) then PasswordRequired
           else PasswordTooShort
  {
  }

  /** Injectivity of the digest, which only `LoginRejectsWrongPassword` needs
      (SHA-256 collisions are not modelled). */
  ghost predicate Injective(hash: string -> string) {
    forall a, b :: hash(a) == hash(b) ==> a == b
  }

  class AuthViewModel {
    const userModel: UserModel
    /** `hashPassword`: the SHA-256 hex digest, a deterministic function whose
        internals are not modelled. */
    const hashPassword: string -> string

    constructor (userModel: UserModel, hashPassword: string -> string)
      ensures this.userModel == userModel && this.hashPassword == hashPassword
    {
      this.userModel := userModel;
      this.hashPassword := hashPassword;
    }

    /** `signup`: validate; look the trimmed username up; insert it with the
        digest when it is free; return the public identity `{ id, username }`. */
    method Signup(username: Option<string>, password: Option<string>, fault: Fault) returns (r: Result<PublicUser>)
      requires userModel.Valid()
      modifies userModel
      ensures userModel.Valid()
      ensures ValidateCredentials(username, password) != [] ==>
        r == Err(ValidateCredentials(username, password)[0]) && unchanged(userModel)
      ensures ValidateCredentials(username, password) == [] && !Answers(fault, 0) ==>
        r == Err(CheckFailed) && unchanged(userModel)
      ensures ValidateCredentials(username, password) == [] && Answers(fault, 0)
              && old(userModel.FindByUsername(Trim(username.value))) != [] ==>
        r == Err(UsernameTaken) && unchanged(userModel)
      ensures ValidateCredentials(username, password) == [] && Answers(fault, 0)
              && old(userModel.FindByUsername(Trim(username.value))) == [] && !Answers(fault, 1) ==>
        r == Err(CreateFailed) && unchanged(userModel)
      ensures ValidateCredentials(username, password) == [] && Answers(fault, 0)
              && old(userModel.FindByUsername(Trim(username.value))) == [] && Answers(fault, 1) ==>
        var name := Trim(username.value);
        && userModel.users == old(userModel.users) + [UserRow(old(userModel.nextId), name, hashPassword(password.value))]
        && userModel.nextId == old(userModel.nextId) + 1
        && r == Ok(PublicUser(old(userModel.nextId), name))
      ensures UniqueUsernames(old(userModel.users)) ==> UniqueUsernames(userModel.users)
    {
      var errors := ValidateCredentials(username, password);
      if |errors| > 0 {
        return Err(errors[0]);
      }
      var cleanUsername := Trim(username.value);
      var passwordHash := hashPassword(password.value);
      if !Answers(fault, 0) {
        return Err(CheckFailed);
      }
      var results := userModel.FindByUsername(cleanUsername);
      if |results| > 0 {
        return Err(UsernameTaken);
      }
      if !Answers(fault, 1) {
        return Err(CreateFailed);
      }
      var insertId := userModel.CreateUser(cleanUsername, passwordHash);
      r := Ok(PublicUser(insertId, cleanUsername));
    }

    /** `login`: both fields must be present (no length check); the trimmed
        username and the digest of the password are looked up together, and
        an absent user and a wrong password give the same message. */
    method Login(username: Option<string>, password: Option<string>, fault: Fault) returns (r: Result<PublicUser>)
      ensures !Truthy(username) || !Truthy(password) ==> r == Err(CredentialsRequired)
      ensures Truthy(username) && Truthy(password) && !Answers(fault, 0) ==> r == Err(LoginFailed)
      ensures Truthy(username) && Truthy(password) && Answers(fault, 0) ==>
        var found := userModel.FindByCredentials(Trim(username.value), hashPassword(password.value));
        r == if found == [] then Err(InvalidCredentials) else Ok(found[0])
      ensures r.Ok? ==> exists u :: u in userModel.users && u.username == Trim(username.value)
                                   && u.passwordHash == hashPassword(password.value) && Public(u) == r.value
    {
      if !Truthy(username) || !Truthy(password) {
        return Err(CredentialsRequired);
      }
      var cleanUsername := Trim(username.value);
      var passwordHash := hashPassword(password.value);
      if !Answers(fault, 0) {
        return Err(LoginFailed);
      }
      var results := userModel.FindByCredentials(cleanUsername, passwordHash);
      if |results| == 0 {
        return Err(InvalidCredentials);
      }
      SelectSound(userModel.users, ByCredentials(cleanUsername, passwordHash), results[0]);
      r := Ok(results[0]);
    }
  }

  /** Logging in right after a successful signup with the same username and
      password yields the user the signup created. */
  method SignupThenLogin(auth: AuthViewModel, username: Option<string>, password: Option<string>)
    returns (created: Result<PublicUser>, loggedIn: Result<PublicUser>)
    requires auth.userModel.Valid()
    modifies auth.userModel
    ensures created.Ok? ==> loggedIn == created
  {
    created := auth.Signup(username, password, NoFault);
    if created.Ok? {
      var name := Trim(username.value);
      var row := UserRow(created.value.id, name, auth.hashPassword(password.value));
      CredentialsOfAppended(old(auth.userModel.users), row);
    }
    loggedIn := auth.Login(username, password, NoFault);
  }

  /** With an injective digest and unique usernames, a login for a stored
      user with any other password than the stored one fails with the
      generic message. */
  method LoginRejectsWrongPassword(auth: AuthViewModel, k: int, password: string, attempt: string)
    returns (r: Result<PublicUser>)
    requires Injective(auth.hashPassword)
    requires UniqueUsernames(auth.userModel.users)
    requires 0 <= k < |auth.userModel.users|
    requires auth.userModel.users[k].passwordHash == auth.hashPassword(password)
    requires Trim(auth.userModel.users[k].username) == auth.userModel.users[k].username != ""
    requires attempt != password && attempt != ""
    ensures r == Err(InvalidCredentials)
  {
    var name := auth.userModel.users[k].username;
    WrongPasswordMatchesNothing(auth.userModel.users, auth.hashPassword, k, password, attempt);
    r := auth.Login(Some(name), Some(attempt), NoFault);
  }
}
