/**
 * The `User` entity: one row of the `users` table. Every field is a Java
 * reference and may be `null`; the annotations decide which values are
 * acceptable, and the persistence layer checks them before every insert and
 * update.
 */
module Entity {
  import opened Wrappers
  import opened Dates
  import opened Constraints

  /** The primary key. A UUID in the system; only its identity matters here. */
  type Id = nat

  datatype User = User(
    id: Option<Id>,
    email: Option<string>,
    firstName: Option<string>,
    lastName: Option<string>,
    birthDate: Option<LocalDate>,
    address: Option<string>,
    phoneNumber: Option<string>)

  const EmailRequired: string := "User must have email"
  const FirstNameRequired: string := "User must have first name"
  const LastNameRequired: string := "User must have last name"
  const BirthDateRequired: string := "User must have birth date"
  const PhoneMessage: string := "Phone number must be between 8 and 18 digits"

  /** The part of the constraints that does not depend on the clock: what every stored row keeps. */
  predicate IsStorable(u: User, isEmail: string -> bool) {
    && u.email.Some? && isEmail(u.email.value)
    && u.firstName.Some? && LengthBetween(u.firstName.value, 1, 100)
    && u.lastName.Some? && LengthBetween(u.lastName.value, 1, 100)
    && u.birthDate.Some?
    && (u.address.Some? ==> |u.address.value| <= 200)
    && (u.phoneNumber.Some? ==> MatchesPhonePattern(u.phoneNumber.value))
  }

  /** Every constraint of the entity holds on `today`. */
  predicate IsValidUser(u: User, isEmail: string -> bool, today: LocalDate) {
    IsStorable(u, isEmail) && IsBefore(u.birthDate.value, today)
  }

  /** `validator.validate(user)`: every violated constraint of the entity, each with its own message. */
  function Violations(u: User, isEmail: string -> bool, today: LocalDate): (vs: set<Violation>)
    ensures vs == {} <==> IsValidUser(u, isEmail, today)
  {
    NotNull(u.email, "email", EmailRequired) + EmailCheck(u.email, isEmail, "email")
    + NotNull(u.firstName, "firstName", FirstNameRequired) + LengthCheck(u.firstName, 1, 100, "firstName", NameLength)
    + NotNull(u.lastName, "lastName", LastNameRequired) + LengthCheck(u.lastName, 1, 100, "lastName", NameLength)
    + NotNull(u.birthDate, "birthDate", BirthDateRequired) + PastCheck(u.birthDate, today, "birthDate")
    + LengthCheck(u.address, 0, 200, "address", AddressLength)
    + PatternCheck(u.phoneNumber, "phoneNumber", PhoneMessage)
  }

  /** Each broken rule is reported with its field and message, whatever else is wrong. */
  lemma EveryBrokenRuleReported(u: User, isEmail: string -> bool, today: LocalDate)
    ensures u.email.None? ==> Violation("email", EmailRequired) in Violations(u, isEmail, today)
    ensures u.email.Some? && !isEmail(u.email.value) ==> Violation("email", NotWellFormedEmail) in Violations(u, isEmail, today)
    ensures u.firstName.None? ==> Violation("firstName", FirstNameRequired) in Violations(u, isEmail, today)
    ensures u.firstName.Some? && !LengthBetween(u.firstName.value, 1, 100) ==> Violation("firstName", NameLength) in Violations(u, isEmail, today)
    ensures u.lastName.None? ==> Violation("lastName", LastNameRequired) in Violations(u, isEmail, today)
    ensures u.lastName.Some? && !LengthBetween(u.lastName.value, 1, 100) ==> Violation("lastName", NameLength) in Violations(u, isEmail, today)
    ensures u.birthDate.None? ==> Violation("birthDate", BirthDateRequired) in Violations(u, isEmail, today)
    ensures u.birthDate.Some? && !IsBefore(u.birthDate.value, today) ==> Violation("birthDate", MustBePast) in Violations(u, isEmail, today)
    ensures u.address.Some? && |u.address.value| > 200 ==> Violation("address", AddressLength) in Violations(u, isEmail, today)
    ensures u.phoneNumber.Some? && !MatchesPhonePattern(u.phoneNumber.value) ==> Violation("phoneNumber", PhoneMessage) in Violations(u, isEmail, today)
  {
  }

  /** Every reported violation is one of the broken rules: nothing spurious is reported. */
  lemma OnlyBrokenRulesReported(u: User, isEmail: string -> bool, today: LocalDate)
    ensures forall x :: x in Violations(u, isEmail, today) ==>
      || (x == Violation("email", EmailRequired) && u.email.None?)
      || (x == Violation("email", NotWellFormedEmail) && u.email.Some? && !isEmail(u.email.value))
      || (x == Violation("firstName", FirstNameRequired) && u.firstName.None?)
      || (x == Violation("firstName", NameLength) && u.firstName.Some? && !LengthBetween(u.firstName.value, 1, 100))
      || (x == Violation("lastName", LastNameRequired) && u.lastName.None?)
      || (x == Violation("lastName", NameLength) && u.lastName.Some? && !LengthBetween(u.lastName.value, 1, 100))
      || (x == Violation("birthDate", BirthDateRequired) && u.birthDate.None?)
      || (x == Violation("birthDate", MustBePast) && u.birthDate.Some? && !IsBefore(u.birthDate.value, today))
      || (x == Violation("address", AddressLength) && u.address.Some? && |u.address.value| > 200)
      || (x == Violation("phoneNumber", PhoneMessage) && u.phoneNumber.Some? && !MatchesPhonePattern(u.phoneNumber.value))
  {
  }

  /** The user built in the entity test: valid on any day after 2000-01-01 when its email is accepted by `isEmail`. */
  function SampleUser(id: Id): (u: User)
    ensures u.id == Some(id)
  {
    User(Some(id), Some("email@gmail.com"), Some("f"), Some("l"), Some(Date(2000, 1, 1)),
         Some("Ukraine, Lviv"), Some("38087943243"))
  }

  lemma SampleUserIsValid(id: Id, isEmail: string -> bool, today: LocalDate)
    requires isEmail("email@gmail.com")
    requires IsBefore(Date(2000, 1, 1), today)
    ensures Violations(SampleUser(id), isEmail, today) == {}
  {
    PhonePatternExamples();
  }

  /** Names of length 0 and 101 are rejected, lengths 1 and 100 accepted; a null address is fine. */
  lemma NameAndAddressBounds(id: Id, isEmail: string -> bool, today: LocalDate)
    requires isEmail("email@gmail.com")
    requires IsBefore(Date(2000, 1, 1), today)
    ensures Violations(SampleUser(id).(firstName := Some("")), isEmail, today) == {Violation("firstName", NameLength)}
    ensures Violations(SampleUser(id).(lastName := Some(seq(101, _ => 'l'))), isEmail, today) == {Violation("lastName", NameLength)}
    ensures Violations(SampleUser(id).(firstName := Some(seq(100, _ => 'f'))), isEmail, today) == {}
    ensures Violations(SampleUser(id).(address := None, phoneNumber := None), isEmail, today) == {}
    ensures Violations(SampleUser(id).(address := Some(seq(201, _ => 'a'))), isEmail, today) == {Violation("address", AddressLength)}
  {
    PhonePatternExamples();
  }

  /** A null email, a null birth date and a birth date in year 999999999 are each reported with their own message. */
  lemma NullFieldsAndFutureDate(id: Id, isEmail: string -> bool, today: LocalDate)
    requires today.year < MaxYear
    ensures Violation("email", EmailRequired) in Violations(SampleUser(id).(email := None), isEmail, today)
    ensures Violation("birthDate", MustBePast) in Violations(SampleUser(id).(birthDate := Some(Date(MaxYear, 12, 28))), isEmail, today)
    ensures Violation("birthDate", BirthDateRequired) in Violations(SampleUser(id).(birthDate := None), isEmail, today)
  {
  }
}
