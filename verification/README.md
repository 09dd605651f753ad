# A Dafny model of the yanndr/auth credential pipeline

yanndr/auth is a small gRPC authentication service written in Go. A client
registers a username and password (`CreateUser`) and later exchanges them for
a signed JSON Web Token (`Authenticate`). This project models that pipeline
end to end and proves properties about it:

- the gRPC handlers trim the credentials and turn service errors into status
  codes (`Server`);
- the registration and authentication services run their stages in order:
  validate, look up, reject a duplicate, hash, insert; or look up, compare,
  sign (`Services`);
- the user validator and the password policy (`Validators`, `Password`);
- the SQLite/PostgreSQL user store adapters over the users table (`Stores`);
- the token generator (`Jwt`);
- the error values with their messages and gRPC statuses (`Errors`).

What lies outside the repository is passed in as a parameter, never
implemented. This covers the Unicode category tables, bcrypt, the JOSE signer
and the wall clock. It also covers database failures: each call's lookup and
insert can fail, and that failure is an `Option<string>` argument. For each
call these are bundled in `Services.World`.

Files: `wrappers.dfy` (Option), `errors.dfy`, `text.dfy` (Go's
`strings.Join`, `%v` for ints, `unicode.IsSpace`, `strings.TrimSpace`),
`models.dfy`, `password.dfy`, `bcrypt.dfy`, `validators.dfy`, `stores.dfy`,
`jwt.dfy`, `services.dfy`, `server.dfy`.

Where the code and its tests disagree, the model follows the code:

- `pkg/errors/error.go:18` words the AlreadyExists status "a username NAME
  already exists". The tests expect "username NAME already exists".
- `pkg/validators/validators.go:9-19` declares its own `ValidationErr`. That
  type has no `GRPCStatus` method, and `userService.Create` wraps it with `%w`.
  So a refused registration reaches the client as code Unknown, not as
  InvalidArgument. The status-bearing `errors.ValidationErr` is modelled
  (`Errors.NewValidationErr`) but the pipeline never produces it.
- `authService.go:41,47` call `AuthenticationFailErr(username)`, but
  `error.go:21` declares only the plain error value `AutenticationFailErr`.
  The model has one authentication-failed error, "authentication failed",
  with status Unauthenticated. This matches `grpc_test.go:139`.
- `authService.go:53` calls `Generate` on a `TokenGenerator`, but `jwt.go`
  declares `Generator.GenerateJWT`. Both are the one generator here:
  `Jwt.Generator.Generate` is the value and `GenerateJWT` the method.
- `validators.go` imports `auth/pkg/model`, while the user type lives in
  `pkg/models/user.go`. The model uses the latter.

The password policy's counting loop (`password.go:34-46`) and its five checks
(`password.go:48-65`) are the methods `Password.CountRunes` and
`Password.PasswordValidator.Complaints`. `Validate` calls both, in the order of
the Go function. Each piece is proved on its own, which keeps the proofs small.

## Model

| member | source | states |
|---|---|---|
| Errors.StatusOf | pkg/server/grpc.go:63-68 | The code alone identifies the failure: AlreadyExists iff the error is the already-exists error, Unauthenticated iff it is the authentication failure, InvalidArgument iff it is `errors.ValidationErr`. Any other error is Unknown, described by its own text. |
| Errors.Message | pkg/errors/error.go:13-30 | A `%w` wrapper's text opens with its context and ": ". A validation error's text opens with "validation error: ". |
| Errors.WrapperText | pkg/stores/sqlite.go:34 | A `%w` wrapper's text is exactly as long as its context, ": " and its cause's text, and ends with the cause's text. |
| Errors.UnwrappedTextIsTail | pkg/stores/sqlite.go:33-34 | If `errors.Is` reaches an error by unwrapping, that error's text is the tail of the outer error's text, so every wrapper keeps its cause's text at its end. |
| Errors.GrpcStatus | pkg/errors/error.go:17-33 | A status exists exactly for the already-exists error, the authentication failure and `ValidationErr`. Each has its own code, never Unknown. A validation error's status text is its own text without the "validation error: " prefix. |
| Errors.NewValidationErr | pkg/errors/error.go:23-37 | The wrapper reads "validation error: " followed by the cause's text. A client receives InvalidArgument described by the cause's text alone. |
| Errors.UsernameAlreadyExistReport | pkg/errors/error.go:9-19 | The already-exists error names the user in its text ("the entity with username:NAME already exist") and in its status (AlreadyExists, "a username NAME already exists"). |
| Errors.AuthenticationFailedReport | pkg/errors/error.go:21 | The authentication failure's text is "authentication failed", and its status is Unauthenticated with that text. |
| Text.TrimSpaceIsSlice | pkg/server/grpc.go:59-60 | `strings.TrimSpace(s)` is a slice of `s` with only white space before and after it, and it neither starts nor ends with white space. |
| Text.TrimSpaceIdempotent | pkg/server/grpc.go:59-60 | Trimming twice gives the same as trimming once. |
| Text.TrimSpaceAbsorbsPadding | pkg/server/grpc.go:79-80 | Surrounding `s` with white space never changes what it trims to. |
| Password.CountsByCategory | pkg/validators/password.go:34-46 | The loop's length is the rune count. Each counter equals the number of runes that pass its own `switch` case and fail the earlier ones. That count is defined independently of the loop. |
| Password.CountsPartitionLength | pkg/validators/password.go:34-46 | The four class counters are non-negative. Together with the runes no case counts, they add up to the length. |
| Password.CountsGrow | pkg/validators/password.go:34-46 | Appending runes never decreases any counter. |
| Password.CountRunes | pkg/validators/password.go:33-46 | The counting loop ends with exactly the counters of `Counts` for the password. |
| Password.PasswordValidator.Complaints | pkg/validators/password.go:48-65 | The five checks produce exactly the reasons of the failed minimums, in report order. |
| Password.PasswordValidator.Validate | pkg/validators/password.go:28-72 | Returns exactly `Verdict`: a non-string is refused, and a string is accepted iff it meets every minimum. |
| Password.PasswordValidator.Verdict | pkg/validators/password.go:28-70 | A non-string is refused with "input value must be a string". A string is accepted iff its counts meet all five minimums. Otherwise the error is "password validation error: " followed by the reasons joined by ", ". |
| Password.PasswordValidator.ReasonsInOrder | pkg/validators/password.go:50-65 | The reasons are those of the failed length, numeric, upper, lower and special checks, in that order. |
| Password.PasswordValidator.UnmetInOrder | pkg/validators/password.go:50-65 | The reported rules are the failed rules, in the order of the checks. |
| Password.PasswordValidator.UnmetExactlyTheFailedRules | pkg/validators/password.go:50-69 | A rule is reported iff its minimum is not met. There is no reason, and so no error, iff every minimum is met. |
| Password.PasswordValidator.ReportedInOrder | pkg/validators/password.go:50-65 | Reported rules follow the check order strictly, so none is reported twice. At most five reasons are reported, one per failed rule. |
| Password.PasswordValidator.ReasonTextsDistinct | pkg/validators/password.go:51-64 | Different rules give different reason texts, whatever the minimums. |
| Password.NewPasswordValidator | pkg/validators/password.go:18-26 | The built validator accepts a tally iff it meets the configured minimums, with `MinUpperCase` for upper case and `MinLowerCase` for lower case. |
| Password.ZeroPolicyAcceptsEveryString | pkg/validators/password_test.go:20 | With all minimums zero, every string is accepted, the empty one included. |
| Password.ExtensionKeepsAcceptance | pkg/validators/password.go:50-65 | Only minimums are checked, so appending runes to an accepted password keeps it accepted. |
| Password.StrongPasswordAccepted | pkg/validators/password_test.go:31 | With Go's ASCII classes, "pAssw@rd5" meets length 8, one number, one upper case and one special rune. |
| Password.PasswordWithoutSpecialRefused | pkg/validators/password_test.go:32 | "pAssword5" is refused with exactly "password validation error: must containt at least 1 sepcial characters". |
| Validators.MissingFields | pkg/models/user.go:3-7 | A `required` field is reported missing iff it is empty. No field is missing iff both are non-empty. |
| Validators.StructCheck | pkg/validators/validators.go:35-38 | The struct check passes iff both required fields are non-empty. |
| Validators.UserValidator.Validate | pkg/validators/validators.go:30-45 | Every refusal is the validator's `ValidationErr` and reads "validation error: " plus the cause. A non-user is refused with "the input value is not a model.User". A value is accepted iff it is a user with both fields present whose password the policy accepts. A complete user's refusal carries the policy's own error. |
| Validators.MissingFieldIgnoresPolicy | pkg/validators/validators.go:35-38 | A user with a missing field is refused by the struct check whatever the password policy. |
| Validators.UserValidatorExamples | pkg/validators/validators_test.go:18-24 | Under a 4-rune policy, "yann"/"password" is accepted. "yann"/"a", users with missing fields and a non-user value are refused. |
| Stores.Select | internal/store/pg/users.sql.go:35-40 | `GetUser` returns the row when the username is in the table and `sql.ErrNoRows` when it is not. A database fault is returned as it is. |
| Stores.TranslateGet | pkg/stores/sqlite.go:29-41 | No user iff the query error is (or wraps) `sql.ErrNoRows`. The user is returned iff a row was found, with the row's hash as password. Other errors read "error getting the user NAME: " plus the cause, and still match the cause under `errors.Is`. |
| Stores.TranslateCreate | pkg/stores/sqlite.go:20-27 | Fails iff the insert fails, with "error creating the user NAME: " plus the cause, which still matches under `errors.Is`. |
| Stores.Fetch | pkg/stores/pg.go:29-42 | With a working database, no user iff the username is absent, and the stored user when present. A fault gives an error that names the user and the fault. |
| Stores.Querier.GetUser | internal/store/pg/users.sql.go:35-40 | The query reads the current table. |
| Stores.Insert | pkg/stores/sqlite_test.go:57-61 | The insert is accepted iff there is no fault, the username and the hash are both non-empty and the username is new. Otherwise it fails with the fault, the non-empty constraint's message or the unique constraint's message, in that order. |
| Stores.Querier.CreateUser | internal/store/pg/users.sql.go:26-28 | Its error is the one `Insert` gives, so a fault, an empty username or hash, or a duplicate username fails and changes nothing. Otherwise the table gains the row and the insert log grows by it. |
| Stores.UserStore.constructor | pkg/stores/sqlite.go:16-18 | The adapter stores the querier it is given. |
| Stores.UserStore.Get | pkg/stores/sqlite.go:29-41 | The adapter's lookup is `Fetch` on the querier's current table. |
| Stores.UserStore.Create | pkg/stores/sqlite.go:20-27 | Succeeds iff there is no fault, the username and the password hash are non-empty and the username is new. Then the table maps the username to the given hash. A failure leaves the store unchanged and wraps the insert's error with the username. |
| Stores.CreateThenGet | pkg/stores/sqlite_test.go:83-97 | A user written by `Create` is what `Get` returns. |
| Stores.CreateLeavesOthers | pkg/stores/sqlite.go:20-27 | Writing one user leaves every other username's lookup unchanged. |
| Jwt.Generator.Generate | pkg/jwt/jwt.go:33-51 | On success the token is non-empty, and it is the signing string of the user's claims, a ".", and the signer's signature of that string. On failure the token is empty and the error reads "error creating the token: " plus the signer's reason. Signing fails iff the signer refuses the claims' signing string. |
| Jwt.Generator.GenerateJWT | pkg/jwt/jwt.go:33-51 | Filling the claims key by key and signing gives the same token and error as `Generate`. |
| Jwt.Generator.ClaimsFor | pkg/jwt/jwt.go:36-43 | The claims are exactly the six keys: authorized true, the user as subject, the generator's issuer and audience. `exp` and `iat` are the whole Unix seconds, rounded down, of the first reading plus the lifetime and of the second reading. |
| Jwt.NewGenerator | pkg/jwt/jwt.go:23-31 | Copies the method, key, issuer and audience. Within the int64 range, the lifetime in nanoseconds is the configured minutes times 60·10⁹. |
| Jwt.ClaimsFromConfig | pkg/jwt/jwt.go:38-41 | The claims are exactly the six keys. They mark the token authorized, name the user as subject, and carry the configured issuer and audience. |
| Jwt.ExpiryIsLifetimeAfterIssue | pkg/jwt/jwt.go:42-43 | When both clock readings agree and the lifetime in nanoseconds fits in int64, `exp` is `iat` plus 60 seconds for each configured minute. |
| Jwt.OversizedLifetimeWraps | pkg/jwt/jwt.go:27 | One minute beyond the int64 range, the lifetime wraps to a negative duration. |
| Services.Register | pkg/services/userService.go:31-60 | Registration succeeds iff the request is valid, the lookup works and finds nobody, hashing works and gives a non-empty hash, and the insert works. On success the table gains exactly username ↦ hash. Every failure leaves the table unchanged. |
| Services.UserService.constructor | pkg/services/userService.go:23-29 | The service stores the user store, the validator and the bcrypt cost it is given. |
| Services.JwtAuthService.constructor | pkg/services/authService.go:27-33 | The service stores the user store and the token generator it is given. |
| Services.UserService.Create | pkg/services/userService.go:31-60 | The method's error and new table are those of `Register`. A failure changes nothing in the store. A success inserts exactly one row: the username with the hash. |
| Services.JwtAuthService.Authenticate | pkg/services/authService.go:35-58 | Every error comes with an empty token. The authentication-failed error occurs iff the lookup works and the user is unknown or bcrypt reports a mismatch. A success means the user is stored and the password matches, and it returns the generator's non-empty token for the stored user. Once the password matches, the result is the generator's token, or its error wrapped as "error generating the token". |
| Services.InvalidRequestReported | pkg/services/userService.go:32-35 | A refused request is reported as the validator's error wrapped as "validation error". |
| Services.RegistrationLookupFailureReported | pkg/services/userService.go:37-40 | A failed lookup is reported as "error getting user from store: error getting the user NAME: " plus the fault. |
| Services.ExistingUsernameReported | pkg/services/userService.go:41-43 | A valid request for a stored username is refused as the already-exists error for that name. |
| Services.HashingFailureReported | pkg/services/userService.go:45-48 | A hashing failure is reported as "error during password hashing: " plus bcrypt's reason. |
| Services.EmptyHashRefused | pkg/services/userService.go:54-57 | A hash the store's non-empty constraint refuses fails the registration with the database's message wrapped twice, and the table is unchanged. |
| Services.InsertFailureReported | pkg/services/userService.go:54-57 | An insert failure is reported as "error creating the user: error creating the user NAME: " plus the fault, never as an existing user. |
| Services.AuthenticationLookupFailureReported | pkg/services/authService.go:36-39 | A failed lookup is reported as "error getting user NAME from store: " plus the store's message. |
| Services.ComparisonFailureReported | pkg/services/authService.go:44-51 | A bcrypt error other than a mismatch is reported as "error comparing password: " plus its reason, not as an authentication failure. |
| Services.SigningFailureReported | pkg/services/authService.go:53-56 | A signing failure is reported as "error generating the token: " plus the generator's message. |
| Services.InvalidRequestIgnoresStore | pkg/services/userService.go:32-35 | A refused request gives the same error whatever the table holds, and leaves the table unchanged. |
| Services.RegistrationStoresSoundHash | pkg/services/userService.go:45-54 | If bcrypt is sound, registration keeps every stored name and hash non-empty and never changes an existing entry. The stored hash is never the plaintext password, and it compares as a match with that password. |
| Services.SecondRegistrationRejected | pkg/services/userService.go:37-43 | A second valid registration of the same username, with the lookup working, is refused as already existing and keeps the first hash. |
| Services.UnknownUserLooksLikeWrongPassword | pkg/services/authService.go:40-48 | An unknown user and a wrong password get the very same answer. |
| Services.FailureBeforeSigningIgnoresGenerator | pkg/services/authService.go:36-51 | A call that fails before signing does not depend on the signer or the clock, and is an error. |
| Services.RegisteredUserAuthenticates | pkg/tests/integrations/server_test.go:104-130 | After a registration with sound bcrypt, while the lookup works and the generator signs the stored user's token, the same password gets a non-empty token. A password bcrypt reports as a mismatch gets the authentication failure. |
| Server.AuthServer.CreateUser | pkg/server/grpc.go:56-72 | Registers the trimmed credentials. The reply succeeds with `success` set iff the registration does. Then the table is the registration's, and the insert log has grown by the trimmed username with its hash. Otherwise the client receives the error's status and the store is unchanged. |
| Server.AuthServer.constructor | pkg/server/grpc.go:47-53 | The server stores the registration service and the authentication service it is given. |
| Server.AuthServer.Authenticate | pkg/server/grpc.go:75-93 | A success carries the service's non-empty token for the trimmed user, whose password matches. The answer is Unauthenticated, "authentication failed", iff the lookup works and the user is unknown or bcrypt reports a mismatch. When every stage works the reply carries the generator's token. A lookup fault, a comparison error or a signing failure is answered Unknown with the service error's text. Every other failure is Unknown. |
| Server.RegistrationStatus | pkg/server/grpc.go:63-68 | A registration error reaches the client as AlreadyExists naming the user iff the request was valid and the lookup found the username. Every other case is Unknown with the error's text, a refused request included. No status is hidden under a wrapper. |
| Server.AuthenticationStatusNotBuried | pkg/server/grpc.go:82-88 | An authentication error's status is Unauthenticated or Unknown, and no status is hidden under a wrapper. |
| Server.PaddedCredentialsAuthenticateAlike | pkg/server/grpc.go:77-81 | White space around either credential gives the same answer as the bare credentials. |
| Server.PaddedCredentialsRegisterAlike | pkg/server/grpc.go:58-61 | A padded registration request registers the same user as the bare one. |
| Server.UnknownUserLooksLikeWrongPassword | pkg/server/grpc.go:75-93 | At the RPC level, an unknown username and a wrong password both get Unauthenticated, "authentication failed". |
| Server.Scenario | pkg/tests/integrations/server_test.go:90-142 | Uses a server whose two services share one store. A new valid user registers. A second registration under that name gets AlreadyExists naming the user. The password then signs in with a non-empty token, and a mismatching password gets Unauthenticated. |

## Left out

- Logging (zap), metrics and the `context.Context` of every call are not modelled. A cancelled context or a lost connection shows up only as the database fault the model takes as a parameter.
- TLS setup, `NewGrpcServer`, service bootstrap, configuration loading, database opening and migrations are not modelled. They are process setup, not behaviour of the pipeline.
- bcrypt's algorithm, salt and cost handling are not modelled. The library is a pair of functions, and `Bcrypt.Sound` states the guarantees the services rely on.
- The JOSE encoding and signature algorithms are not modelled. The signer is a pair of functions. `jwt.GetSigningMethod` with an unknown name gives a nil method, and Go then panics; the model leaves that case to the signer.
- The wall clock is two readings passed in. The model does not assume the second reading is not before the first.
- go-playground's validator is modelled only for the two `required` tags of `models.User`, with the text it gives for a missing required field. Its other tags are not modelled.
- The Unicode category tables (`unicode.IsNumber`, `IsUpper`, `IsPunct`, `IsSymbol`, `IsLetter`) are parameters. Their contents are fixed only for ASCII, in `Password.ClassifiesAsciiLikeGo`.
- Concurrency is not modelled. Two registrations racing between lookup and insert can both pass the lookup. The model has one call at a time, so the store's duplicate-key error is reached only through the insert fault parameter. Either way it is reported as Unknown, not AlreadyExists.
- The database schema is not part of this model. The store tests expect an insert with an empty username or password hash to fail, so `Insert` refuses both, as a unique username column refuses a duplicate. The messages of these two refusals are the querier's `Driver` texts, not the drivers' actual wording.
- The `PasswordHash` field of `models.User` is never read by the pipeline and is not modelled.
- `status.FromError` is modelled as reading only the error's own `GRPCStatus`. grpc-go versions that also search wrapped errors give the same answer here, because `Server.RegistrationStatus` and `Server.AuthenticationStatusNotBuried` prove that no wrapped error carries a status.
- Password counters and minimums are unbounded integers. Go's 64-bit counters cannot overflow for any string that fits in memory, and the minimums are only compared.
- The clients in `cmd/client` and the older services under `internal/` and `pkg/services/user.go` are not part of this model.
