/**
 * Plain data shared by the pipeline: the user record (pkg/models/user.go),
 * the dynamically typed value a validator receives (Go's `any`), and the
 * password and token sections of the configuration (pkg/config).
 */
module Models {

  /** models.User.  On a request `password` is the plaintext; on a stored
      record it is the password hash.  The record's `PasswordHash` field is
      never read or written by the pipeline and is not modelled. */
  datatype User = User(username: string, password: string)

  /** A value of Go's `any` type as the validators see it: a string, a
      user, or a value of some other dynamic type. */
  datatype Value = StringValue(s: string) | UserValue(user: User) | OtherValue

  /** config.Password: the minimum counts a password must reach. */
  datatype PasswordConfig = PasswordConfig(
    minLength: int,
    minNumeric: int,
    minUpperCase: int,
    minLowerCase: int,
    minSpecial: int)

  /** Go's `int64`. */
  type Int64 = x: int | -0x8000_0000_0000_0000 <= x < 0x8000_0000_0000_0000

  /** config.Token: signing method name, key, issuer, audience and token
      lifetime in minutes. */
  datatype TokenConfig = TokenConfig(
    signingMethod: string,
    signedKey: string,
    audience: string,
    issuer: string,
    expDuration: Int64)

}
