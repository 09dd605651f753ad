/**
 * The gRPC handlers (pkg/server/grpc.go): each trims white space from both
 * ends of the request's username and password, hands them to its service,
 * and turns a service error into the status the client receives, using
 * `status.FromError`.
 */
module Server {

  import opened Wrappers
  import opened Errors
  import opened Models
  import Text
  import Bcrypt
  import Stores
  import Jwt
  import Validators
  import Services

  datatype CreateUserRequest = CreateUserRequest(username: string, password: string)
  datatype CreateUserResponse = CreateUserResponse(success: bool)
  datatype AuthenticateRequest = AuthenticateRequest(username: string, password: string)
  datatype AuthenticateResponse = AuthenticateResponse(token: string)

  /** A handler's answer: a response with a nil error, or no response and
      the status of the error. */
  datatype Reply<T> = Ok(response: T) | Rejected(status: Status)

  /** The user a handler passes on: both fields trimmed. */
  function Trimmed(username: string, password: string): User
  {
    User(username := Text.TrimSpace(username), password := Text.TrimSpace(password))
  }

  /** The status every authentication failure reaches the client with. */
  const AuthenticationFailedStatus := Status(Unauthenticated, "authentication failed")

  /** `AuthServer`: the registration and the authentication services. */
  class AuthServer {
    const userService: Services.UserService
    const authService: Services.JwtAuthService

    /** `NewAuthServer`. */
    constructor (userService: Services.UserService, authService: Services.JwtAuthService)
      ensures this.userService == userService && this.authService == authService
    {
      this.userService := userService;
      this.authService := authService;
    }

    /**
     * `CreateUser`: registers the trimmed request.  The call succeeds, with
     * `success` set, exactly when the registration does, and then the table
     * is the registration's and the insert log has grown by the one row of
     * the trimmed username and its hash; otherwise nothing in the store
     * changes and the client receives the status of the registration's
     * error.
     */
    method CreateUser(req: CreateUserRequest, w: Services.World) returns (reply: Reply<CreateUserResponse>)
      modifies userService.userStore.querier
      ensures var r := Services.Register(old(userService.userStore.querier.table), userService.userStore.querier.driver,
                                         userService.validator,
                                         userService.hashCost, Trimmed(req.username, req.password), w);
        && (reply.Ok? <==> r.err.None?)
        && (reply.Ok? ==> reply.response.success)
        && (reply.Rejected? ==> reply.status == StatusOf(r.err.value))
        && userService.userStore.querier.table == r.table
      ensures reply.Rejected? ==> unchanged(userService.userStore.querier)
      ensures reply.Ok? ==>
        var request := Trimmed(req.username, req.password);
        userService.userStore.querier.inserted == old(userService.userStore.querier.inserted)
          + [Stores.Row(request.username, w.bcrypt.generate(request.password, userService.hashCost).hash)]
    {
      var err := userService.Create(User(username := Text.TrimSpace(req.username),
                                         password := Text.TrimSpace(req.password)), w);
      if err.Some? {
        return Rejected(StatusOf(err.value));
      }
      return Ok(CreateUserResponse(success := true));
    }

    /**
     * `Authenticate`: authenticates the trimmed credentials.  A success
     * carries the service's non-empty token for the stored user; an unknown
     * user and a wrong password are both answered Unauthenticated,
     * "authentication failed"; a lookup fault, a comparison error and a
     * signing failure are answered Unknown with the service error's text.
     */
    function Authenticate(req: AuthenticateRequest, w: Services.World): (r: Reply<AuthenticateResponse>)
      reads authService.userStore.querier
      ensures var username, password := Text.TrimSpace(req.username), Text.TrimSpace(req.password);
        var table := authService.userStore.querier.table;
        && (r.Ok? ==>
              && w.getFault.None? && username in table
              && w.bcrypt.compare(table[username], password) == Bcrypt.Match
              && r.response.token == authService.Authenticate(username, password, w).0
              && r.response.token != "")
        && (r == Rejected(AuthenticationFailedStatus) <==>
              && w.getFault.None?
              && (username !in table || w.bcrypt.compare(table[username], password) == Bcrypt.Mismatch))
        && (r.Rejected? && r.status.code != Unauthenticated ==> r.status.code == Unknown)
      ensures var username, password := Text.TrimSpace(req.username), Text.TrimSpace(req.password);
        var table := authService.userStore.querier.table;
        w.getFault.None? && username in table && w.bcrypt.compare(table[username], password) == Bcrypt.Match ==>
          var g := authService.jwtGenerator.Generate(User(username, table[username]), w.jose, w.clock);
          g.1.None? ==> r == Ok(AuthenticateResponse(g.0))
      ensures var username, password := Text.TrimSpace(req.username), Text.TrimSpace(req.password);
        var table := authService.userStore.querier.table;
        var a := authService.Authenticate(username, password, w);
        (|| w.getFault.Some?
         || (username in table && w.bcrypt.compare(table[username], password).CompareFailed?)
         || (username in table && w.bcrypt.compare(table[username], password) == Bcrypt.Match
             && authService.jwtGenerator.Generate(User(username, table[username]), w.jose, w.clock).1.Some?)) ==>
          a.1.Some? && r == Rejected(Status(Unknown, Message(a.1.value)))
    {
      var (token, err) := authService.Authenticate(Text.TrimSpace(req.username), Text.TrimSpace(req.password), w);
      if err.Some? then Rejected(StatusOf(err.value))
      else Ok(AuthenticateResponse(token := token))
    }
  }

  /**
   * The status a registration error reaches the client with: AlreadyExists,
   * naming the user, exactly when the request was valid and the lookup found
   * the username; Unknown with the error's text in every other case, a
   * refused request included; never InvalidArgument.  No error along the
   * way hides a status under a wrapper, so the answer does not depend on
   * whether `status.FromError` unwraps.
   */
  lemma RegistrationStatus(
    table: Stores.Table, driver: Stores.Driver, validator: Validators.UserValidator, hashCost: int, request: User, w: Services.World)
    ensures var r := Services.Register(table, driver, validator, hashCost, request, w);
      r.err.Some? ==>
        && NoBuriedStatus(r.err.value)
        && (StatusOf(r.err.value).code == AlreadyExists <==>
              validator.Validate(w.unicode, UserValue(request)).None? && w.getFault.None? && request.username in table)
        && (StatusOf(r.err.value).code == AlreadyExists ==>
              StatusOf(r.err.value).message == "a username " + request.username + " already exists")
        && (StatusOf(r.err.value).code != AlreadyExists ==>
              StatusOf(r.err.value) == Status(Unknown, Message(r.err.value)))
  {
    var r := Services.Register(table, driver, validator, hashCost, request, w);
    var refusal := validator.Validate(w.unicode, UserValue(request));
    if r.err.Some? && refusal.Some? {
      Services.InvalidRequestReported(table, driver, validator, hashCost, request, w);
      assert r.err.value == Wrap("validation error", refusal.value);
      assert refusal.value.UserValidation?;
    }
  }

  /** No authentication error hides a status under a wrapper either. */
  lemma AuthenticationStatusNotBuried(s: Services.JwtAuthService, username: string, password: string, w: Services.World)
    ensures var r := s.Authenticate(username, password, w);
      r.1.Some? ==> NoBuriedStatus(r.1.value) && StatusOf(r.1.value).code in {Unauthenticated, Unknown}
  {
    var r := s.Authenticate(username, password, w);
    if r.1.Some? && !r.1.value.AuthenticationFailed? {
      var stored := s.userStore.Get(username, w.getFault);
      if stored.Present? && w.bcrypt.compare(stored.user.password, password).Match? {
        var generated := s.jwtGenerator.Generate(stored.user, w.jose, w.clock);
        assert r.1.value == Wrap("error generating the token", generated.1.value);
      }
    }
  }

  /** White space around either credential changes nothing: a padded
      request is answered exactly as the bare one. */
  lemma PaddedCredentialsAuthenticateAlike(
    server: AuthServer, username: string, password: string, a: string, b: string, c: string, d: string,
    w: Services.World)
    requires Text.AllSpace(a) && Text.AllSpace(b) && Text.AllSpace(c) && Text.AllSpace(d)
    ensures server.Authenticate(AuthenticateRequest(a + username + b, c + password + d), w)
         == server.Authenticate(AuthenticateRequest(username, password), w)
  {
    Text.TrimSpaceAbsorbsPadding(a, username, b);
    Text.TrimSpaceAbsorbsPadding(c, password, d);
  }

  /** A padded registration request registers the same user as the bare
      one. */
  lemma PaddedCredentialsRegisterAlike(username: string, password: string, a: string, b: string, c: string, d: string)
    requires Text.AllSpace(a) && Text.AllSpace(b) && Text.AllSpace(c) && Text.AllSpace(d)
    ensures Trimmed(a + username + b, c + password + d) == Trimmed(username, password)
  {
    Text.TrimSpaceAbsorbsPadding(a, username, b);
    Text.TrimSpaceAbsorbsPadding(c, password, d);
  }

  /** A client cannot tell an unknown username from a wrong password. */
  lemma UnknownUserLooksLikeWrongPassword(
    server: AuthServer, unknown: string, known: string, p1: string, p2: string, w: Services.World)
    requires w.getFault.None?
    requires Text.TrimSpace(unknown) !in server.authService.userStore.querier.table
    requires Text.TrimSpace(known) in server.authService.userStore.querier.table
    requires w.bcrypt.compare(server.authService.userStore.querier.table[Text.TrimSpace(known)], Text.TrimSpace(p2))
             == Bcrypt.Mismatch
    ensures server.Authenticate(AuthenticateRequest(unknown, p1), w)
         == server.Authenticate(AuthenticateRequest(known, p2), w)
         == Rejected(AuthenticationFailedStatus)
  {
  }

  /**
   * The integration scenario, on a server whose two services share one
   * store: registering a new valid user succeeds; registering the same
   * username again is answered AlreadyExists naming the user; the
   * registered password then authenticates with a non-empty token, and a
   * password bcrypt reports as a mismatch is answered Unauthenticated.
   */
  method Scenario(server: AuthServer, username: string, password: string, wrong: string, w: Services.World)
    returns (created: Reply<CreateUserResponse>, again: Reply<CreateUserResponse>,
             signedIn: Reply<AuthenticateResponse>, refused: Reply<AuthenticateResponse>)
    requires server.userService.userStore == server.authService.userStore
    requires Bcrypt.Sound(w.bcrypt) && w.getFault.None? && w.createFault.None?
    requires forall m, s, k :: w.jose.sign(m, s, k).Signed?
    requires Text.TrimSpace(username) !in server.userService.userStore.querier.table
    requires server.userService.validator.Validate(w.unicode, UserValue(Trimmed(username, password))).None?
    requires w.bcrypt.generate(Text.TrimSpace(password), server.userService.hashCost).Hashed?
    requires w.bcrypt.compare(w.bcrypt.generate(Text.TrimSpace(password), server.userService.hashCost).hash,
                              Text.TrimSpace(wrong)) == Bcrypt.Mismatch
    modifies server.userService.userStore.querier
    ensures created == Ok(CreateUserResponse(true))
    ensures again == Rejected(Status(AlreadyExists, "a username " + Text.TrimSpace(username) + " already exists"))
    ensures signedIn.Ok? && signedIn.response.token != ""
    ensures refused == Rejected(AuthenticationFailedStatus)
  {
    var request := Trimmed(username, password);
    created := server.CreateUser(CreateUserRequest(username, password), w);
    ghost var hash := w.bcrypt.generate(request.password, server.userService.hashCost).hash;
    assert server.userService.userStore.querier.table[request.username] == hash;

    again := server.CreateUser(CreateUserRequest(username, password), w);
    assert Services.Register(server.userService.userStore.querier.table, server.userService.userStore.querier.driver,
                             server.userService.validator,
                             server.userService.hashCost, request, w).err
        == Some(UsernameAlreadyExist(request.username));

    signedIn := server.Authenticate(AuthenticateRequest(username, password), w);
    refused := server.Authenticate(AuthenticateRequest(username, wrong), w);
  }

}
