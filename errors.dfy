/**
 * The exceptions the service raises, with the messages it gives them. The
 * controller advice turns a constraint violation of the method arguments and
 * an illegal argument into an HTTP 400 body carrying the message; it has no
 * handler for a failed validation, for the entity's own constraints broken at
 * commit (which arrive wrapped by the transaction manager) or for a
 * data-integrity violation, which therefore reach the framework's default
 * error handling.
 */
module Errors {
  import opened Constraints
  import opened Entity

  datatype ServiceError =
    /** `jakarta.validation.ConstraintViolationException` from method validation: an argument broke a constraint. */
    | ConstraintViolation(violations: set<Violation>)
    /**
     * The entity broke one of its own constraints when it was written at commit:
     * Hibernate's pre-insert or pre-update validation throws, and the commit
     * wraps that exception in a `TransactionSystemException`.
     */
    | CommitFailed(violations: set<Violation>)
    /** `jakarta.validation.ValidationException`: a validator itself threw. */
    | ValidationFailed
    /** `IllegalArgumentException` with its message. */
    | IllegalArgument(message: string)
    /** `DataIntegrityViolationException`: the `users_email_key` unique constraint rejected a write. */
    | DataIntegrityViolation

  function Digit(d: nat): (c: char)
    requires d < 10
    ensures IsAsciiDigit(c) && c as int - '0' as int == d
  {
    (d + '0' as int) as char
  }

  /** The text an id takes inside a message: here the decimal digits of the key. */
  function IdText(id: Id): (s: string)
    ensures |s| >= 1
    ensures forall i :: 0 <= i < |s| ==> IsAsciiDigit(s[i])
  {
    if id < 10 then [Digit(id)] else IdText(id / 10) + [Digit(id % 10)]
  }

  /** The number a string of ASCII digits denotes. */
  function DigitsValue(s: string): (n: nat)
    requires forall i :: 0 <= i < |s| ==> IsAsciiDigit(s[i])
  {
    if s == [] then 0
    else
      assert IsAsciiDigit(s[|s| - 1]);
      DigitsValue(s[..|s| - 1]) * 10 + (s[|s| - 1] as int - '0' as int)
  }

  /** The id can be read back from its text. */
  lemma {:induction false} IdTextRoundTrip(id: Id)
    ensures DigitsValue(IdText(id)) == id
  {
    if id >= 10 {
      IdTextRoundTrip(id / 10);
      var s := IdText(id);
      assert s[..|s| - 1] == IdText(id / 10);
    }
  }

  /** The not-found message of an update: the id's text between fixed words, from which the id can be read back. */
  function UserNotFound(id: Id): (msg: string)
    ensures |msg| > 25 && msg[..14] == "User with id '" && msg[|msg| - 11..] == "' not found"
    ensures forall i :: 14 <= i < |msg| - 11 ==> IsAsciiDigit(msg[i])
    ensures DigitsValue(msg[14..|msg| - 11]) == id
  {
    IdTextRoundTrip(id);
    var m := "User with id '" + IdText(id) + "' not found";
    assert m[14..|m| - 11] == IdText(id);
    m
  }

  /** The conflict message of an update: the email between fixed words. */
  function EmailAlreadyExists(email: string): (msg: string)
    ensures |msg| == |email| + 30
    ensures msg[..16] == "User with email " && msg[|msg| - 14..] == " already exist"
    ensures msg[16..|msg| - 14] == email
  {
    "User with email " + email + " already exist"
  }

  const FromAfterTo: string := "From date is after to date"

  /** The messages `PageRequest.of` gives its two argument checks. */
  const PageIndexNegative: string := "Page index must not be less than zero"
  const PageSizeTooSmall: string := "Page size must not be less than one"

  /** A not-found message names exactly one id. */
  lemma NotFoundMessageNamesTheId(a: Id, b: Id)
    requires UserNotFound(a) == UserNotFound(b)
    ensures a == b
  {
    var m := UserNotFound(a);
    assert IdText(a) == m[14..|m| - 11];
    assert IdText(b) == m[14..|m| - 11];
    IdTextRoundTrip(a);
    IdTextRoundTrip(b);
  }

  /** An email-conflict message names exactly one address. */
  lemma EmailMessageNamesTheEmail(a: string, b: string)
    requires EmailAlreadyExists(a) == EmailAlreadyExists(b)
    ensures a == b
  {
    var m := EmailAlreadyExists(a);
    assert a == m[16..|m| - 14];
    assert b == m[16..|m| - 14];
  }

  /** The two lookup failures of an update can be told apart by their message. */
  lemma NotFoundAndConflictDiffer(id: Id, email: string)
    ensures UserNotFound(id) != EmailAlreadyExists(email)
  {
    assert UserNotFound(id)[10] == 'i';
    assert EmailAlreadyExists(email)[10] == 'e';
  }
}
