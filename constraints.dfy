/**
 * The Bean Validation constraints the entity and the DTOs use, one function
 * per annotation. A constraint on a `null` value is satisfied, except
 * `@NotNull`; each function returns the violations it finds, so that a
 * validation collects every violated constraint at once.
 */
module Constraints {
  import opened Wrappers
  import opened Dates
  import EighteenPlus

  /** One reported violation: the property path and the constraint's message. */
  datatype Violation = Violation(path: string, message: string)

  /**
   * The result of validating one object or one method call: the set of
   * violations (empty when valid), or `Aborted` when a validator threw,
   * which Hibernate Validator turns into a `ValidationException`.
   */
  datatype Validation = Checked(violations: set<Violation>) | Aborted

  function Join(a: Validation, b: Validation): (v: Validation)
    ensures v.Aborted? <==> a.Aborted? || b.Aborted?
    ensures v.Checked? ==> v.violations == a.violations + b.violations
  {
    if a.Aborted? || b.Aborted? then Aborted else Checked(a.violations + b.violations)
  }

  /** The property path of `name` below `prefix` (`createUser.createUserDto` and `email` give `createUser.createUserDto.email`). */
  function Path(prefix: string, name: string): (p: string) {
    if prefix == "" then name else prefix + "." + name
  }

  /** The validator's configuration: the minimum age and the `@Email` grammar, which is not modelled. */
  datatype Config = Config(minimalUserAge: int, isEmail: string -> bool)

  const MustNotBeNull: string := "must not be null"
  const NotWellFormedEmail: string := "must be a well-formed email address"
  const NameLength: string := "length must be between 1 and 100"
  const AddressLength: string := "length must be between 0 and 200"
  const MustBePast: string := "must be a past date"
  const AtMost500: string := "must be less than or equal to 500"

  /** `@NotNull(message = m)`. */
  function NotNull<T>(v: Option<T>, path: string, message: string): (r: set<Violation>)
    ensures r == {} <==> v.Some?
  {
    if v.None? then {Violation(path, message)} else {}
  }

  /** `@Email`: a present value must be a well-formed address. */
  function EmailCheck(v: Option<string>, isEmail: string -> bool, path: string): (r: set<Violation>)
    ensures r == {} <==> (v.Some? ==> isEmail(v.value))
  {
    if v.Some? && !isEmail(v.value) then {Violation(path, NotWellFormedEmail)} else {}
  }

  predicate LengthBetween(s: string, min: int, max: int) {
    min <= |s| <= max
  }

  /** `@Length(min, max)`. */
  function LengthCheck(v: Option<string>, min: int, max: int, path: string, message: string): (r: set<Violation>)
    ensures r == {} <==> (v.Some? ==> LengthBetween(v.value, min, max))
  {
    if v.Some? && !LengthBetween(v.value, min, max) then {Violation(path, message)} else {}
  }

  /** Java's `\d` without the UNICODE_CHARACTER_CLASS flag: an ASCII digit. */
  predicate IsAsciiDigit(c: char) {
    '0' <= c <= '9'
  }

  /** The whole string matches `\d{8,18}`. */
  predicate MatchesPhonePattern(p: string) {
    8 <= |p| <= 18 && forall i :: 0 <= i < |p| ==> IsAsciiDigit(p[i])
  }

  /** `@Pattern(regexp = "\\d{8,18}", message = m)`. */
  function PatternCheck(v: Option<string>, path: string, message: string): (r: set<Violation>)
    ensures r == {} <==> (v.Some? ==> MatchesPhonePattern(v.value))
  {
    if v.Some? && !MatchesPhonePattern(v.value) then {Violation(path, message)} else {}
  }

  /** `@Past`: a present date lies strictly before today. */
  function PastCheck(v: Option<LocalDate>, today: LocalDate, path: string): (r: set<Violation>)
    ensures r == {} <==> (v.Some? ==> IsBefore(v.value, today))
  {
    if v.Some? && !IsBefore(v.value, today) then {Violation(path, MustBePast)} else {}
  }

  /** `@EighteenPlusConstraint`, whose validator may throw. */
  function AgeCheck(v: Option<LocalDate>, now: LocalDate, minimalUserAge: int, path: string): (r: Validation)
    ensures r.Aborted? <==> EighteenPlus.IsValid(v, now, minimalUserAge) == EighteenPlus.Throws
    ensures r == Checked({}) <==> EighteenPlus.IsValid(v, now, minimalUserAge) == EighteenPlus.Valid
  {
    match EighteenPlus.IsValid(v, now, minimalUserAge)
    case Valid => Checked({})
    case Invalid => Checked({Violation(path, EighteenPlus.Message)})
    case Throws => Aborted
  }

  /** `@Max(500)` on an `Integer`. */
  function MaxCheck(v: Option<int>, max: int, path: string, message: string): (r: set<Violation>)
    ensures r == {} <==> (v.Some? ==> v.value <= max)
  {
    if v.Some? && v.value > max then {Violation(path, message)} else {}
  }

  /** The same phone strings are rejected by the entity's and the DTOs' pattern: all six rejected inputs of the entity test. */
  lemma PhonePatternExamples()
    ensures MatchesPhonePattern("38087943243")
    ensures !MatchesPhonePattern("7777777")
    ensures !MatchesPhonePattern("1922222222222222222")
    ensures !MatchesPhonePattern("1922222ASd2222")
    ensures !MatchesPhonePattern("19222 2222222")
    ensures !MatchesPhonePattern("19222_2222222")
    ensures !MatchesPhonePattern("19222+2222222")
  {
    assert !IsAsciiDigit("1922222ASd2222"[7]);
    assert !IsAsciiDigit("19222 2222222"[5]);
    assert !IsAsciiDigit("19222_2222222"[5]);
    assert !IsAsciiDigit("19222+2222222"[5]);
  }
}
