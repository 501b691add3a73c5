/**
 * The request and response shapes of the user API. `CreateUserDto` requires
 * every field except address and phone; in `UpdateUserDto` every field may be
 * `null`, meaning "leave unchanged"; `GetUserDto` mirrors a stored user.
 */
module Dtos {
  import opened Wrappers
  import opened Dates
  import opened Constraints
  import opened Entity
  import EighteenPlus

  datatype CreateUserDto = CreateUserDto(
    email: Option<string>,
    firstName: Option<string>,
    lastName: Option<string>,
    birthDate: Option<LocalDate>,
    address: Option<string>,
    phoneNumber: Option<string>)

  datatype UpdateUserDto = UpdateUserDto(
    email: Option<string>,
    firstName: Option<string>,
    lastName: Option<string>,
    birthDate: Option<LocalDate>,
    address: Option<string>,
    phoneNumber: Option<string>)

  datatype GetUserDto = GetUserDto(
    id: Option<Id>,
    email: Option<string>,
    firstName: Option<string>,
    lastName: Option<string>,
    birthDate: Option<LocalDate>,
    address: Option<string>,
    phoneNumber: Option<string>)

  const FullNameRequired: string := "User must have full name"
  const DtoPhoneMessage: string := "Phone number must be between 8 and 18 digits and contain only digits"

  /** What a valid create request looks like, field by field. */
  predicate IsValidCreate(dto: CreateUserDto, cfg: Config, now: LocalDate) {
    && dto.email.Some? && cfg.isEmail(dto.email.value)
    && dto.firstName.Some? && LengthBetween(dto.firstName.value, 1, 100)
    && dto.lastName.Some? && LengthBetween(dto.lastName.value, 1, 100)
    && dto.birthDate.Some?
    && EighteenPlus.IsValid(dto.birthDate, now, cfg.minimalUserAge) == EighteenPlus.Valid
    && (dto.address.Some? ==> |dto.address.value| <= 200)
    && (dto.phoneNumber.Some? ==> MatchesPhonePattern(dto.phoneNumber.value))
  }

  /** Cascaded validation of a `CreateUserDto` whose properties sit below `prefix`. */
  function CreateViolations(dto: CreateUserDto, prefix: string, cfg: Config, now: LocalDate): (v: Validation)
    ensures v == Checked({}) <==> IsValidCreate(dto, cfg, now)
    ensures v.Aborted? <==> EighteenPlus.IsValid(dto.birthDate, now, cfg.minimalUserAge) == EighteenPlus.Throws
  {
    var fields :=
      NotNull(dto.email, Path(prefix, "email"), EmailRequired)
      + EmailCheck(dto.email, cfg.isEmail, Path(prefix, "email"))
      + NotNull(dto.firstName, Path(prefix, "firstName"), FullNameRequired)
      + LengthCheck(dto.firstName, 1, 100, Path(prefix, "firstName"), NameLength)
      + NotNull(dto.lastName, Path(prefix, "lastName"), FullNameRequired)
      + LengthCheck(dto.lastName, 1, 100, Path(prefix, "lastName"), NameLength)
      + NotNull(dto.birthDate, Path(prefix, "birthDate"), BirthDateRequired)
      + LengthCheck(dto.address, 0, 200, Path(prefix, "address"), AddressLength)
      + PatternCheck(dto.phoneNumber, Path(prefix, "phoneNumber"), DtoPhoneMessage);
    Join(Checked(fields), AgeCheck(dto.birthDate, now, cfg.minimalUserAge, Path(prefix, "birthDate")))
  }

  /** Each broken rule of a create request is reported at its property path with its message, whatever else is wrong. */
  lemma CreateEveryBrokenRuleReported(dto: CreateUserDto, prefix: string, cfg: Config, now: LocalDate)
    ensures var v := CreateViolations(dto, prefix, cfg, now);
      v.Checked? ==>
        && (dto.email.None? ==> Violation(Path(prefix, "email"), EmailRequired) in v.violations)
        && (dto.email.Some? && !cfg.isEmail(dto.email.value) ==> Violation(Path(prefix, "email"), NotWellFormedEmail) in v.violations)
        && (dto.firstName.None? ==> Violation(Path(prefix, "firstName"), FullNameRequired) in v.violations)
        && (dto.firstName.Some? && !LengthBetween(dto.firstName.value, 1, 100) ==> Violation(Path(prefix, "firstName"), NameLength) in v.violations)
        && (dto.lastName.None? ==> Violation(Path(prefix, "lastName"), FullNameRequired) in v.violations)
        && (dto.lastName.Some? && !LengthBetween(dto.lastName.value, 1, 100) ==> Violation(Path(prefix, "lastName"), NameLength) in v.violations)
        && (dto.birthDate.None? ==> Violation(Path(prefix, "birthDate"), BirthDateRequired) in v.violations)
        && (EighteenPlus.IsValid(dto.birthDate, now, cfg.minimalUserAge) == EighteenPlus.Invalid ==> Violation(Path(prefix, "birthDate"), EighteenPlus.Message) in v.violations)
        && (dto.address.Some? && |dto.address.value| > 200 ==> Violation(Path(prefix, "address"), AddressLength) in v.violations)
        && (dto.phoneNumber.Some? && !MatchesPhonePattern(dto.phoneNumber.value) ==> Violation(Path(prefix, "phoneNumber"), DtoPhoneMessage) in v.violations)
  {
  }

  /** Every violation a create request reports is one of its broken rules. */
  lemma CreateOnlyBrokenRulesReported(dto: CreateUserDto, prefix: string, cfg: Config, now: LocalDate)
    ensures var v := CreateViolations(dto, prefix, cfg, now);
      v.Checked? ==> forall x :: x in v.violations ==>
        || (x == Violation(Path(prefix, "email"), EmailRequired) && dto.email.None?)
        || (x == Violation(Path(prefix, "email"), NotWellFormedEmail) && dto.email.Some? && !cfg.isEmail(dto.email.value))
        || (x == Violation(Path(prefix, "firstName"), FullNameRequired) && dto.firstName.None?)
        || (x == Violation(Path(prefix, "firstName"), NameLength) && dto.firstName.Some? && !LengthBetween(dto.firstName.value, 1, 100))
        || (x == Violation(Path(prefix, "lastName"), FullNameRequired) && dto.lastName.None?)
        || (x == Violation(Path(prefix, "lastName"), NameLength) && dto.lastName.Some? && !LengthBetween(dto.lastName.value, 1, 100))
        || (x == Violation(Path(prefix, "birthDate"), BirthDateRequired) && dto.birthDate.None?)
        || (x == Violation(Path(prefix, "birthDate"), EighteenPlus.Message) && EighteenPlus.IsValid(dto.birthDate, now, cfg.minimalUserAge) == EighteenPlus.Invalid)
        || (x == Violation(Path(prefix, "address"), AddressLength) && dto.address.Some? && |dto.address.value| > 200)
        || (x == Violation(Path(prefix, "phoneNumber"), DtoPhoneMessage) && dto.phoneNumber.Some? && !MatchesPhonePattern(dto.phoneNumber.value))
  {
  }

  /** What a valid update request looks like: every present field is acceptable. */
  predicate IsValidUpdate(dto: UpdateUserDto, cfg: Config, now: LocalDate) {
    && (dto.email.Some? ==> cfg.isEmail(dto.email.value))
    && (dto.firstName.Some? ==> LengthBetween(dto.firstName.value, 1, 100))
    && (dto.lastName.Some? ==> LengthBetween(dto.lastName.value, 1, 100))
    && EighteenPlus.IsValid(dto.birthDate, now, cfg.minimalUserAge) == EighteenPlus.Valid
    && (dto.address.Some? ==> |dto.address.value| <= 200)
    && (dto.phoneNumber.Some? ==> MatchesPhonePattern(dto.phoneNumber.value))
  }

  /** The property paths of the fields of `dto` that are not `null`. */
  function PresentPaths(dto: UpdateUserDto, prefix: string): (paths: set<string>) {
    (if dto.email.Some? then {Path(prefix, "email")} else {})
    + (if dto.firstName.Some? then {Path(prefix, "firstName")} else {})
    + (if dto.lastName.Some? then {Path(prefix, "lastName")} else {})
    + (if dto.birthDate.Some? then {Path(prefix, "birthDate")} else {})
    + (if dto.address.Some? then {Path(prefix, "address")} else {})
    + (if dto.phoneNumber.Some? then {Path(prefix, "phoneNumber")} else {})
  }

  /** Cascaded validation of an `UpdateUserDto`; a `null` field is never a violation. */
  function UpdateViolations(dto: UpdateUserDto, prefix: string, cfg: Config, now: LocalDate): (v: Validation)
    ensures v == Checked({}) <==> IsValidUpdate(dto, cfg, now)
    ensures v.Aborted? ==> dto.birthDate.Some?
    ensures v.Checked? ==> forall x :: x in v.violations ==> x.path in PresentPaths(dto, prefix)
  {
    var fields :=
      EmailCheck(dto.email, cfg.isEmail, Path(prefix, "email"))
      + LengthCheck(dto.firstName, 1, 100, Path(prefix, "firstName"), NameLength)
      + LengthCheck(dto.lastName, 1, 100, Path(prefix, "lastName"), NameLength)
      + LengthCheck(dto.address, 0, 200, Path(prefix, "address"), AddressLength)
      + PatternCheck(dto.phoneNumber, Path(prefix, "phoneNumber"), DtoPhoneMessage);
    Join(Checked(fields), AgeCheck(dto.birthDate, now, cfg.minimalUserAge, Path(prefix, "birthDate")))
  }

  /** Each broken rule of an update request is reported at its property path with its message, whatever else is wrong. */
  lemma UpdateEveryBrokenRuleReported(dto: UpdateUserDto, prefix: string, cfg: Config, now: LocalDate)
    ensures var v := UpdateViolations(dto, prefix, cfg, now);
      v.Checked? ==>
        && (dto.email.Some? && !cfg.isEmail(dto.email.value) ==> Violation(Path(prefix, "email"), NotWellFormedEmail) in v.violations)
        && (dto.firstName.Some? && !LengthBetween(dto.firstName.value, 1, 100) ==> Violation(Path(prefix, "firstName"), NameLength) in v.violations)
        && (dto.lastName.Some? && !LengthBetween(dto.lastName.value, 1, 100) ==> Violation(Path(prefix, "lastName"), NameLength) in v.violations)
        && (EighteenPlus.IsValid(dto.birthDate, now, cfg.minimalUserAge) == EighteenPlus.Invalid ==> Violation(Path(prefix, "birthDate"), EighteenPlus.Message) in v.violations)
        && (dto.address.Some? && |dto.address.value| > 200 ==> Violation(Path(prefix, "address"), AddressLength) in v.violations)
        && (dto.phoneNumber.Some? && !MatchesPhonePattern(dto.phoneNumber.value) ==> Violation(Path(prefix, "phoneNumber"), DtoPhoneMessage) in v.violations)
  {
  }

  /** Every violation an update request reports is one of the broken rules of a present field. */
  lemma UpdateOnlyBrokenRulesReported(dto: UpdateUserDto, prefix: string, cfg: Config, now: LocalDate)
    ensures var v := UpdateViolations(dto, prefix, cfg, now);
      v.Checked? ==> forall x :: x in v.violations ==>
        || (x == Violation(Path(prefix, "email"), NotWellFormedEmail) && dto.email.Some? && !cfg.isEmail(dto.email.value))
        || (x == Violation(Path(prefix, "firstName"), NameLength) && dto.firstName.Some? && !LengthBetween(dto.firstName.value, 1, 100))
        || (x == Violation(Path(prefix, "lastName"), NameLength) && dto.lastName.Some? && !LengthBetween(dto.lastName.value, 1, 100))
        || (x == Violation(Path(prefix, "birthDate"), EighteenPlus.Message) && EighteenPlus.IsValid(dto.birthDate, now, cfg.minimalUserAge) == EighteenPlus.Invalid)
        || (x == Violation(Path(prefix, "address"), AddressLength) && dto.address.Some? && |dto.address.value| > 200)
        || (x == Violation(Path(prefix, "phoneNumber"), DtoPhoneMessage) && dto.phoneNumber.Some? && !MatchesPhonePattern(dto.phoneNumber.value))
  {
  }

  /** An update that sets nothing is valid. */
  lemma EmptyUpdateIsValid(prefix: string, cfg: Config, now: LocalDate)
    ensures UpdateViolations(UpdateUserDto(None, None, None, None, None, None), prefix, cfg, now) == Checked({})
  {
  }

  /** The create request of the service test that breaks six rules at once: all six are reported, nothing else. */
  lemma InvalidCreateReportsAll(cfg: Config)
    requires cfg.minimalUserAge == 18 && !cfg.isEmail("emailgmail.com")
    ensures
      var p := "createUser.createUserDto";
      var dto := CreateUserDto(Some("emailgmail.com"), Some(seq(101, _ => 'f')), None, Some(Date(2020, 1, 1)),
                               Some(seq(201, _ => 'a')), Some("380123123131234234242"));
      CreateViolations(dto, p, cfg, Date(2024, 1, 1)) == Checked({
        Violation(Path(p, "birthDate"), EighteenPlus.Message),
        Violation(Path(p, "email"), NotWellFormedEmail),
        Violation(Path(p, "phoneNumber"), DtoPhoneMessage),
        Violation(Path(p, "lastName"), FullNameRequired),
        Violation(Path(p, "firstName"), NameLength),
        Violation(Path(p, "address"), AddressLength)})
  {
  }

  /** The update request of the service test that breaks six rules at once; the empty last name is a length violation. */
  lemma InvalidUpdateReportsAll(cfg: Config)
    requires cfg.minimalUserAge == 18 && !cfg.isEmail("emailgmail.com")
    ensures
      var p := "updateUser.updateUserDto";
      var dto := UpdateUserDto(Some("emailgmail.com"), Some(seq(101, _ => 'f')), Some(""), Some(Date(2020, 1, 1)),
                               Some(seq(201, _ => 'a')), Some("380123123131234234242"));
      UpdateViolations(dto, p, cfg, Date(2024, 1, 1)) == Checked({
        Violation(Path(p, "birthDate"), EighteenPlus.Message),
        Violation(Path(p, "email"), NotWellFormedEmail),
        Violation(Path(p, "phoneNumber"), DtoPhoneMessage),
        Violation(Path(p, "lastName"), NameLength),
        Violation(Path(p, "firstName"), NameLength),
        Violation(Path(p, "address"), AddressLength)})
  {
  }
}
