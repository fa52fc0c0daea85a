/** The authentication route table (routes/authRoutes.js): signup and login
    map the view-model's message to a status code and, on success, write the
    user into the session; `/me` reads the session back; logout destroys it. */
module AuthRoutes {
  import opened Common
  import opened Strings
  import opened UserStore
  import opened AuthService
  import opened Http

  const UserCreated := "User created successfully"
  const LoginSuccessful := "Login successful"
  const LogoutSuccessful := "Logout successful"
  const LogoutFailed := "Logout failed"

  /** POST /signup: a taken username is a conflict (409); every other failure,
      store failures included, answers 400; success answers 201. */
  function SignupResponse(r: Result<PublicUser>): (res: Response)
    ensures r.Ok? <==> res.status == 201
    ensures r.Ok? ==> res.body == UserBody(UserCreated, r.value)
    ensures r.Err? ==> res.body == ErrorBody(r.error)
                       && (res.status == 409 <==> r.error == UsernameTaken)
                       && (res.status == 400 <==> r.error != UsernameTaken)
  {
    match r
    case Ok(user) => Response(201, UserBody(UserCreated, user))
    case Err(e) => Response(if e == UsernameTaken then 409 else 400, ErrorBody(e))
  }

  /** POST /login: wrong credentials answer 401; every other failure, store
      failures included, answers 400; success answers 200. */
  function LoginResponse(r: Result<PublicUser>): (res: Response)
    ensures r.Ok? <==> res.status == 200
    ensures r.Ok? ==> res.body == UserBody(LoginSuccessful, r.value)
    ensures r.Err? ==> res.body == ErrorBody(r.error)
                       && (res.status == 401 <==> r.error == InvalidCredentials)
                       && (res.status == 400 <==> r.error != InvalidCredentials)
  {
    match r
    case Ok(user) => Response(200, UserBody(LoginSuccessful, user))
    case Err(e) => Response(if e == InvalidCredentials then 401 else 400, ErrorBody(e))
  }

  /** GET /me, behind `requireAuth`: exactly the session's id and username. */
  function Me(userId: Option<int>, username: Option<string>): (res: Response)
    ensures !Authenticated(userId) ==> res == Response(401, ErrorBody(AuthenticationRequired))
    ensures Authenticated(userId) ==> res == Response(200, MeBody(userId, username))
  {
    match RequireAuth(userId)
    case Some(denied) => denied
    case None => Response(200, MeBody(userId, username))
  }

  /** POST /logout: `req.session.destroy`. `destroyed` says whether the session
      store managed it; when it did not, the stored session stays as it was. */
  method Logout(session: Session, destroyed: bool) returns (res: Response)
    modifies session
    ensures destroyed ==>
      session.userId == None && session.username == None && res == Response(200, MessageBody(LogoutSuccessful))
    ensures !destroyed ==> unchanged(session) && res == Response(500, ErrorBody(LogoutFailed))
  {
    if !destroyed {
      return Response(500, ErrorBody(LogoutFailed));
    }
    session.userId := None;
    session.username := None;
    res := Response(200, MessageBody(LogoutSuccessful));
  }

  /** The router built around one `AuthViewModel`. */
  class AuthRouter {
    const authViewModel: AuthViewModel

    constructor (authViewModel: AuthViewModel)
      ensures this.authViewModel == authViewModel
    {
      this.authViewModel := authViewModel;
    }

    /** POST /signup with body `{ username, password }`; logs the new user in. */
    method Signup(session: Session, username: Option<string>, password: Option<string>, fault: Fault)
      returns (res: Response)
      requires authViewModel.userModel.Valid()
      modifies session, authViewModel.userModel
      ensures authViewModel.userModel.Valid()
      ensures res.status in {201, 400, 409}
      ensures res.status == 409 <==>
        ValidateCredentials(username, password) == [] && Answers(fault, 0)
        && old(authViewModel.userModel.FindByUsername(Trim(username.value))) != []
      ensures res.status == 201 <==>
        ValidateCredentials(username, password) == [] && Answers(fault, 0) && Answers(fault, 1)
        && old(authViewModel.userModel.FindByUsername(Trim(username.value))) == []
      ensures res.status == 201 ==>
        var user := PublicUser(old(authViewModel.userModel.nextId), Trim(username.value));
        && res.body == UserBody(UserCreated, user)
        && authViewModel.userModel.users
             == old(authViewModel.userModel.users) + [UserRow(user.id, user.username, authViewModel.hashPassword(password.value))]
        && session.userId == Some(user.id) && session.username == Some(user.username)
      ensures res.status != 201 ==> unchanged(session) && unchanged(authViewModel.userModel)
    {
      var r := authViewModel.Signup(username, password, fault);
      if r.Err? {
        return SignupResponse(r);
      }
      session.userId := Some(r.value.id);
      session.username := Some(r.value.username);
      res := SignupResponse(r);
    }

    /** POST /login with body `{ username, password }`; logs the user in. */
    method Login(session: Session, username: Option<string>, password: Option<string>, fault: Fault)
      returns (res: Response)
      modifies session
      ensures res.status in {200, 400, 401}
      ensures res.status == 401 <==>
        Truthy(username) && Truthy(password) && Answers(fault, 0)
        && authViewModel.userModel.FindByCredentials(Trim(username.value), authViewModel.hashPassword(password.value)) == []
      ensures res.status == 200 <==>
        Truthy(username) && Truthy(password) && Answers(fault, 0)
        && authViewModel.userModel.FindByCredentials(Trim(username.value), authViewModel.hashPassword(password.value)) != []
      ensures res.status == 200 ==>
        && Truthy(username) && Truthy(password)
        && var found := authViewModel.userModel.FindByCredentials(Trim(username.value), authViewModel.hashPassword(password.value));
        && found != []
        && res.body == UserBody(LoginSuccessful, found[0])
        && session.userId == Some(found[0].id) && session.username == Some(found[0].username)
      ensures res.status != 200 ==> unchanged(session)
    {
      var r := authViewModel.Login(username, password, fault);
      if r.Err? {
        return LoginResponse(r);
      }
      session.userId := Some(r.value.id);
      session.username := Some(r.value.username);
      res := LoginResponse(r);
    }
  }
}
