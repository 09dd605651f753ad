/**
 * The registration service (pkg/services/userService.go) and the
 * authentication service (pkg/services/authService.go).  Registration
 * validates the request, looks the username up, rejects a duplicate,
 * hashes the password and inserts the user; authentication looks the user
 * up, compares the password with the stored hash and has a token
 * generated.  Each stage that fails ends the call with its own error.
 */
module Services {

  import opened Wrappers
  import opened Errors
  import opened Models
  import Password
  import Validators
  import Bcrypt
  import Stores
  import Jwt

  /**
   * What a call depends on beyond the pipeline's own state: the Unicode
   * tables, the bcrypt library, the JOSE library, the clock, and the
   * database failures (if any) of the call's lookup and insert.
   */
  datatype World = World(
    unicode: Password.UnicodeTables,
    bcrypt: Bcrypt.Hasher,
    jose: Jwt.Jose,
    clock: Jwt.Clock,
    getFault: Option<string>,
    createFault: Option<string>)

  /** The outcome of a registration: the error, if any, and the users table
      afterwards. */
  datatype Registration = Registration(err: Option<Error>, table: Stores.Table)

  /**
   * `userService.Create` on a users table.  It succeeds exactly when the
   * request is valid, the lookup works and finds no such user, hashing
   * works and gives a non-empty hash, and the insert works; then the table gains the username mapped
   * to the hash of the password and nothing else changes.  Every failure
   * leaves the table as it was, and each stage reports its own error: a
   * validation failure as "validation error: ...", a lookup failure as
   * "error getting user from store: ...", an existing user as
   * `UsernameAlreadyExistErr`, a hashing failure as "error during password
   * hashing: ..." and an insert failure as "error creating the user: ...".
   */
  function Register(
    table: Stores.Table, driver: Stores.Driver, validator: Validators.UserValidator, hashCost: int, request: User, w: World)
    : (r: Registration)
    ensures r.err.Some? ==> r.table == table
    ensures r.err.None? <==>
      && validator.Validate(w.unicode, UserValue(request)).None?
      && w.getFault.None? && request.username !in table
      && w.bcrypt.generate(request.password, hashCost).Hashed?
      && w.bcrypt.generate(request.password, hashCost).hash != ""
      && w.createFault.None?
    ensures r.err.None? ==>
      r.table == table[request.username := w.bcrypt.generate(request.password, hashCost).hash]
  {
    match validator.Validate(w.unicode, UserValue(request))
    case Some(e) => Registration(Some(Wrap("validation error", e)), table)
    case None =>
      match Stores.Fetch(table, request.username, w.getFault)
      case LookupFailed(e) => Registration(Some(Wrap("error getting user from store", e)), table)
      case Present(_) => Registration(Some(UsernameAlreadyExist(request.username)), table)
      case Absent =>
        match w.bcrypt.generate(request.password, hashCost)
        case HashFailed(reason) =>
          Registration(Some(Wrap("error during password hashing", Failure(reason))), table)
        case Hashed(hash) =>
          match Stores.TranslateCreate(request.username,
                                       Stores.Insert(table, Stores.Row(request.username, hash), w.createFault, driver))
          case Some(err) => Registration(Some(Wrap("error creating the user", err)), table)
          case None => Registration(None, table[request.username := hash])
  }

  /** `userService`: the store, the request validator and the bcrypt
      cost. */
  class UserService {
    const userStore: Stores.UserStore
    const validator: Validators.UserValidator
    const hashCost: int

    /** `NewUserService`. */
    constructor (userStore: Stores.UserStore, validator: Validators.UserValidator, hashCost: int)
      ensures this.userStore == userStore && this.validator == validator && this.hashCost == hashCost
    {
      this.userStore := userStore;
      this.validator := validator;
      this.hashCost := hashCost;
    }

    /**
     * `userService.Create`: the registration steps in order, each ending
     * the call on failure.  The error and the new table are those of
     * `Register`; a failure changes nothing in the store, and a success
     * inserts exactly one row, the username with its hash.
     */
    method Create(request: User, w: World) returns (err: Option<Error>)
      modifies userStore.querier
      ensures err == Register(old(userStore.querier.table), userStore.querier.driver, validator, hashCost, request, w).err
      ensures userStore.querier.table == Register(old(userStore.querier.table), userStore.querier.driver, validator, hashCost, request, w).table
      ensures err.Some? ==> unchanged(userStore.querier)
      ensures err.None? ==>
        userStore.querier.inserted == old(userStore.querier.inserted)
          + [Stores.Row(request.username, w.bcrypt.generate(request.password, hashCost).hash)]
    {
      var invalid := validator.Validate(w.unicode, UserValue(request));
      if invalid.Some? {
        return Some(Wrap("validation error", invalid.value));
      }

      var u := userStore.Get(request.username, w.getFault);
      if u.LookupFailed? {
        return Some(Wrap("error getting user from store", u.err));
      }
      if u.Present? {
        return Some(UsernameAlreadyExist(request.username));
      }

      var hashing := w.bcrypt.generate(request.password, hashCost);
      if hashing.HashFailed? {
        return Some(Wrap("error during password hashing", Failure(hashing.reason)));
      }
      var user := User(username := request.username, password := hashing.hash);

      var createErr := userStore.Create(user, w.createFault);
      if createErr.Some? {
        return Some(Wrap("error creating the user", createErr.value));
      }
      return None;
    }
  }

  /** `JwtAuthService`: the store and the token generator. */
  class JwtAuthService {
    const userStore: Stores.UserStore
    const jwtGenerator: Jwt.Generator

    /** `NewJwtAuthService`. */
    constructor (userStore: Stores.UserStore, jwtGenerator: Jwt.Generator)
      ensures this.userStore == userStore && this.jwtGenerator == jwtGenerator
    {
      this.userStore := userStore;
      this.jwtGenerator := jwtGenerator;
    }

    /**
     * `JwtAuthService.Authenticate`: look the user up, compare the password
     * with the stored hash, generate a token.  An unknown user and a wrong
     * password give the same authentication-failed error; every failure
     * returns an empty token; a success returns the generator's token for
     * the stored user.
     */
    function Authenticate(username: string, password: string, w: World): (r: (string, Option<Error>))
      reads userStore.querier
      ensures r.1.Some? ==> r.0 == ""
      ensures r.1 == Some(AuthenticationFailed) <==>
        && w.getFault.None?
        && (username !in userStore.querier.table
            || w.bcrypt.compare(userStore.querier.table[username], password) == Bcrypt.Mismatch)
      ensures r.1.None? ==>
        && w.getFault.None? && username in userStore.querier.table
        && w.bcrypt.compare(userStore.querier.table[username], password) == Bcrypt.Match
        && r.0 == jwtGenerator.Generate(User(username, userStore.querier.table[username]), w.jose, w.clock).0
        && r.0 != ""
      ensures w.getFault.None? && username in userStore.querier.table
              && w.bcrypt.compare(userStore.querier.table[username], password) == Bcrypt.Match ==>
        var g := jwtGenerator.Generate(User(username, userStore.querier.table[username]), w.jose, w.clock);
        && (g.1.None? ==> r == (g.0, None))
        && (g.1.Some? ==> r == ("", Some(Wrap("error generating the token", g.1.value))))
    {
      match userStore.Get(username, w.getFault)
      case LookupFailed(e) => ("", Some(Wrap("error getting user " + username + " from store", e)))
      case Absent => ("", Some(AuthenticationFailed))
      case Present(u) =>
        match w.bcrypt.compare(u.password, password)
        case Mismatch => ("", Some(AuthenticationFailed))
        case CompareFailed(reason) => ("", Some(Wrap("error comparing password", Failure(reason))))
        case Match =>
          var (token, err) := jwtGenerator.Generate(u, w.jose, w.clock);
          if err.Some? then ("", Some(Wrap("error generating the token", err.value)))
          else (token, None)
    }
  }

  /** A request the validator refuses is refused with the validator's
      error wrapped as "validation error". */
  lemma InvalidRequestReported(
    table: Stores.Table, driver: Stores.Driver, validator: Validators.UserValidator, hashCost: int, request: User, w: World)
    requires validator.Validate(w.unicode, UserValue(request)).Some?
    ensures var refusal := validator.Validate(w.unicode, UserValue(request)).value;
      var r := Register(table, driver, validator, hashCost, request, w);
      r.err == Some(Wrap("validation error", refusal))
  {
  }

  /** A failed lookup is reported as "error getting user from store: "
      followed by the store's message, which names the user. */
  lemma RegistrationLookupFailureReported(
    table: Stores.Table, driver: Stores.Driver, validator: Validators.UserValidator, hashCost: int, request: User, w: World)
    requires validator.Validate(w.unicode, UserValue(request)).None? && w.getFault.Some?
    ensures var r := Register(table, driver, validator, hashCost, request, w);
      r.err.Some? && Message(r.err.value)
        == "error getting user from store" + ": " + ("error getting the user " + request.username + ": " + w.getFault.value)
  {
  }

  /** A valid request for a username already in the table is refused as
      `UsernameAlreadyExistErr` for that username. */
  lemma ExistingUsernameReported(
    table: Stores.Table, driver: Stores.Driver, validator: Validators.UserValidator, hashCost: int, request: User, w: World)
    requires validator.Validate(w.unicode, UserValue(request)).None? && w.getFault.None?
    requires request.username in table
    ensures Register(table, driver, validator, hashCost, request, w).err == Some(UsernameAlreadyExist(request.username))
  {
  }

  /** A hashing failure is reported as "error during password hashing: "
      followed by bcrypt's reason. */
  lemma HashingFailureReported(
    table: Stores.Table, driver: Stores.Driver, validator: Validators.UserValidator, hashCost: int, request: User, w: World)
    requires validator.Validate(w.unicode, UserValue(request)).None? && w.getFault.None?
    requires request.username !in table && w.bcrypt.generate(request.password, hashCost).HashFailed?
    ensures var r := Register(table, driver, validator, hashCost, request, w);
      r.err.Some? && Message(r.err.value)
        == "error during password hashing" + ": " + w.bcrypt.generate(request.password, hashCost).reason
  {
  }

  /** An insert failure, a conflicting insert included, is reported as
      "error creating the user: " followed by the store's message, which
      names the user; it is never reported as an existing user. */
  lemma InsertFailureReported(
    table: Stores.Table, driver: Stores.Driver, validator: Validators.UserValidator, hashCost: int, request: User, w: World)
    requires validator.Validate(w.unicode, UserValue(request)).None? && w.getFault.None?
    requires request.username !in table && w.bcrypt.generate(request.password, hashCost).Hashed?
    requires w.createFault.Some?
    ensures var r := Register(table, driver, validator, hashCost, request, w);
      && r.err.Some? && !r.err.value.UsernameAlreadyExist?
      && Message(r.err.value)
         == "error creating the user" + ": " + ("error creating the user " + request.username + ": " + w.createFault.value)
  {
    var inner := Wrap("error creating the user " + request.username, Failure(w.createFault.value));
    assert Register(table, driver, validator, hashCost, request, w).err == Some(Wrap("error creating the user", inner));
    assert Message(inner) == "error creating the user " + request.username + ": " + w.createFault.value;
  }

  /** A hash the store's non-empty constraint refuses (bcrypt never gives
      one; a `Hasher` that does) fails the insert with the database's
      message, and the table is left as it was. */
  lemma EmptyHashRefused(
    table: Stores.Table, driver: Stores.Driver, validator: Validators.UserValidator, hashCost: int, request: User, w: World)
    requires validator.Validate(w.unicode, UserValue(request)).None? && w.getFault.None? && w.createFault.None?
    requires request.username !in table && w.bcrypt.generate(request.password, hashCost) == Bcrypt.Hashed("")
    ensures var r := Register(table, driver, validator, hashCost, request, w);
      && r.table == table
      && r.err == Some(Wrap("error creating the user",
                            Wrap("error creating the user " + request.username, Failure(driver.emptyText))))
  {
  }

  /** A failed lookup is reported as "error getting user <u> from store: "
      followed by the store's message. */
  lemma AuthenticationLookupFailureReported(s: JwtAuthService, username: string, password: string, w: World)
    requires w.getFault.Some?
    ensures var r := s.Authenticate(username, password, w);
      r.1.Some? && Message(r.1.value)
        == "error getting user " + username + " from store" + ": "
           + ("error getting the user " + username + ": " + w.getFault.value)
  {
  }

  /** A comparison error other than a mismatch (a malformed hash, say) is
      reported as "error comparing password: " and bcrypt's reason, not as
      an authentication failure. */
  lemma ComparisonFailureReported(s: JwtAuthService, username: string, password: string, w: World)
    requires w.getFault.None? && username in s.userStore.querier.table
    requires w.bcrypt.compare(s.userStore.querier.table[username], password).CompareFailed?
    ensures var r := s.Authenticate(username, password, w);
      r.1.Some? && Message(r.1.value)
        == "error comparing password" + ": " + w.bcrypt.compare(s.userStore.querier.table[username], password).reason
  {
  }

  /** A signing failure is reported as "error generating the token: " and
      the generator's message. */
  lemma SigningFailureReported(s: JwtAuthService, username: string, password: string, w: World)
    requires w.getFault.None? && username in s.userStore.querier.table
    requires w.bcrypt.compare(s.userStore.querier.table[username], password).Match?
    requires s.jwtGenerator.Generate(User(username, s.userStore.querier.table[username]), w.jose, w.clock).1.Some?
    ensures var r := s.Authenticate(username, password, w);
      var generated := s.jwtGenerator.Generate(User(username, s.userStore.querier.table[username]), w.jose, w.clock);
      r.1.Some? && Message(r.1.value) == "error generating the token" + ": " + Message(generated.1.value)
  {
  }

  /** A request refused by the validator is refused without reading the
      store: the outcome is the same whatever the table holds, and the
      table is left as it was. */
  lemma InvalidRequestIgnoresStore(
    t1: Stores.Table, t2: Stores.Table, driver: Stores.Driver, validator: Validators.UserValidator, hashCost: int, request: User, w: World)
    requires validator.Validate(w.unicode, UserValue(request)).Some?
    ensures Register(t1, driver, validator, hashCost, request, w).err == Register(t2, driver, validator, hashCost, request, w).err
    ensures Register(t1, driver, validator, hashCost, request, w).table == t1
  {
  }

  /** Every stored username and hash is non-empty. */
  ghost predicate WellFormed(table: Stores.Table)
  {
    forall name :: name in table ==> name != "" && table[name] != ""
  }

  /**
   * With a sound bcrypt, registration keeps the table well formed, never
   * stores a plaintext password, never changes an existing entry, and the
   * stored hash compares as a match with the registered password.
   */
  lemma RegistrationStoresSoundHash(
    table: Stores.Table, driver: Stores.Driver, validator: Validators.UserValidator, hashCost: int, request: User, w: World)
    requires Bcrypt.Sound(w.bcrypt) && WellFormed(table)
    ensures var r := Register(table, driver, validator, hashCost, request, w);
      && WellFormed(r.table)
      && (forall name :: name in table ==> name in r.table && r.table[name] == table[name])
      && (r.err.None? ==>
            && r.table[request.username] != request.password
            && w.bcrypt.compare(r.table[request.username], request.password) == Bcrypt.Match)
  {
    var r := Register(table, driver, validator, hashCost, request, w);
    if r.err.None? {
      var hashing := w.bcrypt.generate(request.password, hashCost);
      assert hashing.Hashed?;
      assert request.username != "" by {
        assert Validators.MissingFields(request) == [];
      }
    }
  }

  /**
   * A second valid registration of a username, with the lookup working,
   * is refused as already existing and leaves the first registration's
   * hash in place.
   */
  lemma SecondRegistrationRejected(
    table: Stores.Table, driver: Stores.Driver, validator: Validators.UserValidator, hashCost: int,
    first: User, second: User, w1: World, w2: World)
    requires Register(table, driver, validator, hashCost, first, w1).err.None?
    requires second.username == first.username
    requires validator.Validate(w2.unicode, UserValue(second)).None? && w2.getFault.None?
    ensures var t1 := Register(table, driver, validator, hashCost, first, w1).table;
      && Register(t1, driver, validator, hashCost, second, w2).err == Some(UsernameAlreadyExist(first.username))
      && Register(t1, driver, validator, hashCost, second, w2).table == t1
  {
  }

  /** An unknown user and a known user with a wrong password get the very
      same answer. */
  lemma UnknownUserLooksLikeWrongPassword(
    s: JwtAuthService, unknown: string, known: string, p1: string, p2: string, w: World)
    requires w.getFault.None?
    requires unknown !in s.userStore.querier.table && known in s.userStore.querier.table
    requires w.bcrypt.compare(s.userStore.querier.table[known], p2) == Bcrypt.Mismatch
    ensures s.Authenticate(unknown, p1, w) == s.Authenticate(known, p2, w) == ("", Some(AuthenticationFailed))
  {
  }

  /** A call that fails before the token stage does not depend on the
      signer or the clock: the generator is not consulted. */
  lemma FailureBeforeSigningIgnoresGenerator(
    s: JwtAuthService, username: string, password: string, w: World, jose: Jwt.Jose, clock: Jwt.Clock)
    requires
      || w.getFault.Some?
      || username !in s.userStore.querier.table
      || w.bcrypt.compare(s.userStore.querier.table[username], password) != Bcrypt.Match
    ensures s.Authenticate(username, password, w) == s.Authenticate(username, password, w.(jose := jose, clock := clock))
    ensures s.Authenticate(username, password, w).1.Some?
  {
  }

  /**
   * The round trip of the integration scenario: once a user is registered
   * with a sound bcrypt, authenticating with the same password (the lookup
   * working and the signer signing) yields a non-empty token, while a
   * password bcrypt reports as a mismatch is refused as an authentication
   * failure.
   */
  lemma RegisteredUserAuthenticates(
    s: JwtAuthService, table: Stores.Table, driver: Stores.Driver, validator: Validators.UserValidator, hashCost: int,
    request: User, w: World, other: string)
    requires Bcrypt.Sound(w.bcrypt) && w.getFault.None?
    requires Register(table, driver, validator, hashCost, request, w).err.None?
    requires s.userStore.querier.table == Register(table, driver, validator, hashCost, request, w).table
    requires var stored := User(request.username, s.userStore.querier.table[request.username]);
      s.jwtGenerator.Generate(stored, w.jose, w.clock).1.None?
    requires w.bcrypt.compare(s.userStore.querier.table[request.username], other) == Bcrypt.Mismatch
    ensures s.Authenticate(request.username, request.password, w).1.None?
    ensures s.Authenticate(request.username, request.password, w).0 != ""
    ensures s.Authenticate(request.username, other, w) == ("", Some(AuthenticationFailed))
  {
    var hashing := w.bcrypt.generate(request.password, hashCost);
    assert hashing.Hashed?;
    assert s.userStore.querier.table[request.username] == hashing.hash;
  }

}
