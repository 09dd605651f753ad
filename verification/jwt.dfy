/**
 * The token generator (pkg/jwt/jwt.go): it builds the claims of a JSON Web
 * Token for a user and has the JOSE library (github.com/dgrijalva/jwt-go)
 * sign them.  The library and the wall clock are outside this model: a
 * `Jose` value stands for the library and a `Clock` for the two readings of
 * `time.Now` the generator makes.
 */
module Jwt {

  import opened Wrappers
  import opened Errors
  import opened Models

  /** A claim value: a boolean, a string or a number. */
  datatype ClaimValue = Flag(flag: bool) | Text(text: string) | Number(number: int)

  /** `jwt.MapClaims`. */
  type Claims = map<string, ClaimValue>

  /** The outcome of `SigningMethod.Sign`. */
  datatype Signature = Signed(signature: string) | SignFailed(reason: string)

  /**
   * The JOSE library.  `signingString(method, claims)` is the token's
   * first two parts, the encoded header and payload, for the signing method
   * named `method`; `sign(method, signingString, key)` signs them with the
   * key.
   */
  datatype Jose = Jose(
    signingString: (string, Claims) -> string,
    sign: (string, string, string) -> Signature)

  /** The two readings of `time.Now`, in nanoseconds since the Unix epoch:
      `first` is read for the expiry, `second` for the issue time. */
  datatype Clock = Clock(first: int, second: int)

  const NanosPerSecond: int := 1_000_000_000
  const NanosPerMinute: int := 60 * NanosPerSecond

  /** The largest lifetime, in minutes, whose nanosecond count fits in a
      `time.Duration` (an int64). */
  const MaxMinutes: int := 153_722_867

  /** Go's int64 multiplication result: the exact value wrapped into the
      int64 range. */
  function Wrap64(n: int): (r: Int64)
    ensures -0x8000_0000_0000_0000 <= n < 0x8000_0000_0000_0000 ==> r == n
  {
    (n + 0x8000_0000_0000_0000) % 0x1_0000_0000_0000_0000 - 0x8000_0000_0000_0000
  }

  /** `generator`: the signing method's name, the signing key, the issuer,
      the audience and the token lifetime in nanoseconds. */
  datatype Generator = Generator(
    signingMethod: string,
    signedString: string,
    issuer: string,
    audience: string,
    expDuration: Int64)
  {

    /** The claims of a token for `user`: authorized, the subject, issuer
        and audience, the expiry (first reading plus the lifetime) and the
        issue time (second reading), both in whole Unix seconds rounded
        down, as `Time.Unix` gives them. */
    function ClaimsFor(user: User, clock: Clock): (c: Claims)
      ensures c.Keys == {"authorized", "sub", "iss", "aud", "exp", "iat"}
      ensures c["authorized"] == Flag(true) && c["sub"] == Text(user.username)
      ensures c["iss"] == Text(issuer) && c["aud"] == Text(audience)
      ensures c["exp"].Number? && c["iat"].Number?
      ensures c["exp"].number * NanosPerSecond <= clock.first + expDuration < (c["exp"].number + 1) * NanosPerSecond
      ensures c["iat"].number * NanosPerSecond <= clock.second < (c["iat"].number + 1) * NanosPerSecond
    {
      map[
        "authorized" := Flag(true),
        "sub" := Text(user.username),
        "iss" := Text(issuer),
        "aud" := Text(audience),
        "exp" := Number((clock.first + expDuration) / NanosPerSecond),
        "iat" := Number(clock.second / NanosPerSecond)]
    }

    /**
     * The outcome of `GenerateJWT`: the signing string and its signature
     * joined by ".", or, when signing fails, an empty token and an error
     * "error creating the token: " followed by the library's reason.
     */
    function Generate(user: User, jose: Jose, clock: Clock): (r: (string, Option<Error>))
      ensures r.1.None? ==> r.0 != ""
      ensures r.1.Some? ==> r.0 == ""
      ensures r.1.None? <==> jose.sign(signingMethod, jose.signingString(signingMethod, ClaimsFor(user, clock)), signedString).Signed?
      ensures r.1.None? ==>
                var signing := jose.signingString(signingMethod, ClaimsFor(user, clock));
                r.0 == signing + "." + jose.sign(signingMethod, signing, signedString).signature
      ensures r.1.Some? ==>
                Message(r.1.value) == "error creating the token: "
                  + jose.sign(signingMethod, jose.signingString(signingMethod, ClaimsFor(user, clock)), signedString).reason
    {
      var signing := jose.signingString(signingMethod, ClaimsFor(user, clock));
      match jose.sign(signingMethod, signing, signedString)
      case Signed(signature) => (signing + "." + signature, None)
      case SignFailed(reason) => ("", Some(Wrap("error creating the token", Failure(reason))))
    }

    /** `generator.GenerateJWT`: fills the claims map one key at a time,
        then signs it. */
    method GenerateJWT(user: User, jose: Jose, clock: Clock) returns (token: string, err: Option<Error>)
      ensures (token, err) == Generate(user, jose, clock)
    {
      var claims: Claims := map[];
      claims := claims["authorized" := Flag(true)];
      claims := claims["sub" := Text(user.username)];
      claims := claims["iss" := Text(issuer)];
      claims := claims["aud" := Text(audience)];
      claims := claims["exp" := Number((clock.first + expDuration) / NanosPerSecond)];
      claims := claims["iat" := Number(clock.second / NanosPerSecond)];
      assert claims == ClaimsFor(user, clock);

      var signing := jose.signingString(signingMethod, claims);
      var signature := jose.sign(signingMethod, signing, signedString);
      if signature.SignFailed? {
        return "", Some(Wrap("error creating the token", Failure(signature.reason)));
      }
      return signing + "." + signature.signature, None;
    }
  }

  /** `NewGenerator`: copies the method name, key, issuer and audience, and
      turns the lifetime in minutes into nanoseconds with int64
      arithmetic. */
  function NewGenerator(cfg: TokenConfig): (g: Generator)
    ensures g.signingMethod == cfg.signingMethod && g.signedString == cfg.signedKey
    ensures g.issuer == cfg.issuer && g.audience == cfg.audience
    ensures -MaxMinutes <= cfg.expDuration <= MaxMinutes ==> g.expDuration == cfg.expDuration * NanosPerMinute
  {
    Generator(
      signingMethod := cfg.signingMethod,
      signedString := cfg.signedKey,
      expDuration := Wrap64(NanosPerMinute * cfg.expDuration),
      issuer := cfg.issuer,
      audience := cfg.audience)
  }

  /** The claims name the user as subject and carry the configured issuer
      and audience, and nothing but the six documented keys. */
  lemma ClaimsFromConfig(cfg: TokenConfig, user: User, clock: Clock)
    ensures var c := NewGenerator(cfg).ClaimsFor(user, clock);
      && c.Keys == {"authorized", "sub", "iss", "aud", "exp", "iat"}
      && c["authorized"] == Flag(true)
      && c["sub"] == Text(user.username)
      && c["iss"] == Text(cfg.issuer) && c["aud"] == Text(cfg.audience)
  {
  }

  /** Shifting a time by whole seconds shifts its Unix second by as many. */
  lemma {:induction false} UnixShift(t: int, k: int)
    ensures (t + k * NanosPerSecond) / NanosPerSecond == t / NanosPerSecond + k
  {
    var q, r := t / NanosPerSecond, t % NanosPerSecond;
    assert t == q * NanosPerSecond + r && 0 <= r < NanosPerSecond;
    assert t + k * NanosPerSecond == (q + k) * NanosPerSecond + r;
  }

  /** When both clock readings agree, a token from a generator configured
      for `m` minutes (within the int64 range) expires exactly `60 * m`
      seconds after it is issued. */
  lemma ExpiryIsLifetimeAfterIssue(cfg: TokenConfig, user: User, clock: Clock)
    requires clock.first == clock.second
    requires -MaxMinutes <= cfg.expDuration <= MaxMinutes
    ensures var c := NewGenerator(cfg).ClaimsFor(user, clock);
      c["exp"].number == c["iat"].number + 60 * cfg.expDuration
  {
    UnixShift(clock.second, 60 * cfg.expDuration);
  }

  /** A lifetime one minute beyond the int64 range wraps to a negative
      duration, so its tokens are issued already expired. */
  lemma OversizedLifetimeWraps(cfg: TokenConfig)
    requires cfg.expDuration == MaxMinutes + 1
    ensures NewGenerator(cfg).expDuration < 0
  {
  }

}
