/**
 * The registration request validator (pkg/validators/validators.go): the
 * value must be a models.User, both of its `required` fields must be
 * present, and its password must pass the password policy.  Every refusal
 * is the validator's own `ValidationErr` around the cause.
 */
module Validators {

  import opened Wrappers
  import opened Errors
  import opened Models
  import Text
  import Password

  /** The text go-playground's validator gives a `required` field that is
      missing from a models.User. */
  function RequiredFieldText(field: string): string
  {
    "Key: 'User." + field + "' Error:Field validation for '" + field + "' failed on the 'required' tag"
  }

  /** The `required` fields of models.User that are missing, in declaration
      order; a string field is missing when it is empty. */
  function MissingFields(user: User): (fields: seq<string>)
    ensures "Username" in fields <==> user.username == ""
    ensures "Password" in fields <==> user.password == ""
    ensures fields == [] <==> user.username != "" && user.password != ""
  {
    (if user.username == "" then ["Username"] else []) + (if user.password == "" then ["Password"] else [])
  }

  /**
   * go-playground's `validate.Struct(user)` restricted to the two
   * `validate:"required"` tags of models.User: no error when both fields
   * are present, otherwise one error whose text lists every missing field,
   * one per line.
   */
  function StructCheck(user: User): (r: Option<Error>)
    ensures r.None? <==> user.username != "" && user.password != ""
    ensures r.Some? ==> r.value.Failure?
  {
    var missing := MissingFields(user);
    if missing == [] then None
    else Some(Failure(Text.Join(seq(|missing|, i requires 0 <= i < |missing| => RequiredFieldText(missing[i])), "\n")))
  }

  /** `UserValidator`: the password policy it applies (the struct validator
      is go-playground's, modelled by `StructCheck`). */
  datatype UserValidator = UserValidator(passwordValidator: Password.PasswordValidator)
  {

    /**
     * `UserValidator.Validate`.  A value that is not a user is refused
     * with "the input value is not a model.User"; a user with a missing
     * field is refused whatever the policy; a complete user is accepted
     * exactly when the policy accepts its password, and refused with the
     * policy's own error otherwise.  Every refusal is a `ValidationErr`
     * reading "validation error: " and its cause.
     */
    function Validate(u: Password.UnicodeTables, value: Value): (r: Option<Error>)
      ensures r.Some? ==> r.value.UserValidation? && Message(r.value) == "validation error: " + Message(r.value.err)
      ensures !value.UserValue? ==> r == Some(UserValidation(Failure("the input value is not a model.User")))
      ensures r.None? <==>
        && value.UserValue? && value.user.username != "" && value.user.password != ""
        && passwordValidator.Verdict(u, StringValue(value.user.password)).None?
      ensures value.UserValue? && value.user.username != "" && value.user.password != "" && r.Some? ==>
                Some(r.value.err) == passwordValidator.Verdict(u, StringValue(value.user.password))
    {
      match value
      case UserValue(user) =>
        if StructCheck(user).Some? then Some(UserValidation(StructCheck(user).value))
        else (
          match passwordValidator.Verdict(u, StringValue(user.password))
          case Some(err) => Some(UserValidation(err))
          case None => None)
      case _ => Some(UserValidation(Failure("the input value is not a model.User")))
    }
  }

  /** A user with a missing field is refused before the password policy is
      consulted: the outcome is the same under any policy, and it names the
      missing fields. */
  lemma MissingFieldIgnoresPolicy(
    v: UserValidator, other: Password.PasswordValidator, u: Password.UnicodeTables, user: User)
    requires user.username == "" || user.password == ""
    ensures v.Validate(u, UserValue(user)) == UserValidator(other).Validate(u, UserValue(user))
    ensures v.Validate(u, UserValue(user)) == Some(UserValidation(StructCheck(user).value))
  {
  }

  /** Under a policy of at least 4 runes: "yann" with "password" is
      accepted; "yann" with "a", users with a missing field, and the string
      "username" are refused. */
  lemma UserValidatorExamples(u: Password.UnicodeTables)
    ensures var v := UserValidator(Password.PasswordValidator(4, 0, 0, 0, 0));
      && v.Validate(u, UserValue(User("yann", "password"))) == None
      && v.Validate(u, UserValue(User("yann", "a"))).Some?
      && v.Validate(u, UserValue(User("", "password"))).Some?
      && v.Validate(u, UserValue(User("yann", ""))).Some?
      && v.Validate(u, UserValue(User("", ""))).Some?
      && v.Validate(u, StringValue("username")).Some?
  {
    var p := Password.PasswordValidator(4, 0, 0, 0, 0);
    Password.CountsByCategory(u, "password");
    Password.CountsPartitionLength(u, "password");
    assert p.Meets(Password.Counts(u, "password"));
    Password.CountsByCategory(u, "a");
    assert !p.Meets(Password.Counts(u, "a"));
  }

}
