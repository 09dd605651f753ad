/**
 * The error values that flow through the credential pipeline, their
 * messages (Go's `Error()`), and the gRPC status a handler derives from
 * them (`status.FromError`).  Models pkg/errors/error.go, the
 * `ValidationErr` of pkg/validators/validators.go, database/sql's
 * `ErrNoRows` sentinel and the `fmt.Errorf("...: %w", err)` wrapping used
 * at every stage.
 */
module Errors {

  import opened Wrappers

  /** The gRPC status codes the handlers can produce for a failed call. */
  datatype Code = Unknown | InvalidArgument | AlreadyExists | Unauthenticated

  /** A gRPC status: a code and a human-readable description. */
  datatype Status = Status(code: Code, message: string)

  datatype Error =
      /** An error that carries only text: `fmt.Errorf` without `%w`, or an
          error of a foreign library (database driver, bcrypt, signer). */
    | Failure(text: string)
      /** database/sql's sentinel `sql.ErrNoRows`. */
    | NoRows
      /** `fmt.Errorf(context + ": %w", cause)`. */
    | Wrap(context: string, cause: Error)
      /** errors.UsernameAlreadyExistErr{Name}. */
    | UsernameAlreadyExist(name: string)
      /** The authentication-failed error, shared by "unknown user" and
          "wrong password". */
    | AuthenticationFailed
      /** errors.ValidationErr{err}: carries a gRPC status. */
    | Validation(err: Error)
      /** validators.ValidationErr{err}: the user validator's own wrapper,
          which has no gRPC status. */
    | UserValidation(err: Error)

  /** `Error()`: the text of an error.  A wrapper's text opens with its
      own context and ": ", a validation error's with "validation error: "
      (what follows is the wrapped text: see `WrapperText`). */
  function Message(e: Error): (m: string)
    ensures e.Wrap? ==> |e.context| + 2 <= |m| && m[..|e.context| + 2] == e.context + ": "
    ensures e.Validation? || e.UserValidation? ==> 18 <= |m| && m[..18] == "validation error: "
  {
    match e
    case Failure(text) => text
    case NoRows => "sql: no rows in result set"
    case Wrap(context, cause) => context + ": " + Message(cause)
    case UsernameAlreadyExist(name) => "the entity with username:" + name + " already exist"
    case AuthenticationFailed => "authentication failed"
    case Validation(err) => "validation error: " + Message(err)
    case UserValidation(err) => "validation error: " + Message(err)
  }

  /** `errors.Is(e, target)`: `target` is `e` or is reached by unwrapping
      `%w` wrappers (neither ValidationErr type has an Unwrap method). */
  predicate Is(e: Error, target: Error)
  {
    e == target || (e.Wrap? && Is(e.cause, target))
  }

  /** A wrapper's text is exactly its context, ": " and the wrapped text:
      it is as long as those three, and the wrapped text is its tail. */
  lemma WrapperText(context: string, cause: Error)
    ensures var m, inner := Message(Wrap(context, cause)), Message(cause);
      && |m| == |context| + 2 + |inner|
      && m[|m| - |inner|..] == inner
  {
    var m, inner := Message(Wrap(context, cause)), Message(cause);
    assert m == context + ": " + inner;
  }

  /** Unwrapping never loses text: the text of an error that `errors.Is`
      reaches is the tail of the outer error's text. */
  lemma {:induction false} UnwrappedTextIsTail(e: Error, target: Error)
    requires Is(e, target)
    ensures |Message(target)| <= |Message(e)|
    ensures Message(e)[|Message(e)| - |Message(target)|..] == Message(target)
  {
    if e != target {
      UnwrappedTextIsTail(e.cause, target);
      WrapperText(e.context, e.cause);
      TailOfTail(Message(e), Message(e.cause), Message(target));
    }
  }

  /** A tail of a tail of `a` is a tail of `a`. */
  lemma TailOfTail(a: string, b: string, c: string)
    requires |b| <= |a| && a[|a| - |b|..] == b
    requires |c| <= |b| && b[|b| - |c|..] == c
    ensures |c| <= |a| && a[|a| - |c|..] == c
  {
    forall i | 0 <= i < |c|
      ensures a[|a| - |c| + i] == c[i]
    {
      assert b[|b| - |c| + i] == c[i];
      assert a[|a| - |b| + (|b| - |c| + i)] == b[|b| - |c| + i];
    }
  }

  /** The `GRPCStatus()` method, for the error types that declare one.
      Each of the three kinds has its own code, none of them Unknown; a
      validation error's status is its text without the "validation
      error: " prefix. */
  function GrpcStatus(e: Error): (r: Option<Status>)
    ensures r.Some? <==> e.UsernameAlreadyExist? || e.AuthenticationFailed? || e.Validation?
    ensures r.Some? ==>
      && (r.value.code == AlreadyExists <==> e.UsernameAlreadyExist?)
      && (r.value.code == Unauthenticated <==> e.AuthenticationFailed?)
      && (r.value.code == InvalidArgument <==> e.Validation?)
    ensures e.Validation? ==> Message(e) == "validation error: " + r.value.message
  {
    match e
    case UsernameAlreadyExist(name) =>
      Some(Status(AlreadyExists, "a username " + name + " already exists"))
    case AuthenticationFailed => Some(Status(Unauthenticated, "authentication failed"))
    case Validation(err) => Some(Status(InvalidArgument, Message(err)))
    case _ => None
  }

  /**
   * `status.FromError(e)` for a non-nil error: the error's own status when
   * it declares one, otherwise code Unknown with the error's text.  The
   * code alone tells a caller which kind of failure happened.
   */
  function StatusOf(e: Error): (s: Status)
    ensures s.code == AlreadyExists <==> e.UsernameAlreadyExist?
    ensures s.code == Unauthenticated <==> e.AuthenticationFailed?
    ensures s.code == InvalidArgument <==> e.Validation?
    ensures s.code == Unknown ==> s.message == Message(e)
  {
    match GrpcStatus(e)
    case Some(s) => s
    case None => Status(Unknown, Message(e))
  }

  /** `errors.NewValidationErr`: wraps exactly `err`; the result reads
      "validation error: " followed by `err`'s text, and reaches a client as
      InvalidArgument described by `err`'s text alone. */
  function NewValidationErr(err: Error): (v: Error)
    ensures Message(v) == "validation error: " + Message(err)
    ensures StatusOf(v) == Status(InvalidArgument, Message(err))
  {
    Validation(err)
  }

  /** The already-exists error names the user both in its text and in the
      status a client receives. */
  lemma UsernameAlreadyExistReport(name: string)
    ensures Message(UsernameAlreadyExist(name)) == "the entity with username:" + name + " already exist"
    ensures StatusOf(UsernameAlreadyExist(name)) == Status(AlreadyExists, "a username " + name + " already exists")
  {
  }

  /** The authentication failure reads "authentication failed", and a
      client receives it as Unauthenticated with the same words. */
  lemma AuthenticationFailedReport()
    ensures Message(AuthenticationFailed) == "authentication failed"
    ensures StatusOf(AuthenticationFailed) == Status(Unauthenticated, Message(AuthenticationFailed))
  {
  }

  /** No status is found below a `%w` wrapper: every error wrapped along the
      chain is one without a `GRPCStatus` method.  For such an error the
      status is the same whether or not `status.FromError` searches the
      wrapped chain. */
  predicate NoBuriedStatus(e: Error)
  {
    match e
    case Wrap(_, cause) => GrpcStatus(cause).None? && NoBuriedStatus(cause)
    case _ => true
  }

}
