/**
 * `UserServiceImpl`: the four operations of the user API. Each call first
 * has its arguments validated (`@NotNull`, `@Valid`, `@Max`), then runs in
 * one transaction against the `users` table: a failure leaves the table as
 * it was. The outcome of every operation is given by a function of the
 * table and the arguments (`CreateOutcome`, `UpdateOutcome`,
 * `DeleteOutcome`, `FindAllOutcome`); the `UserService` class performs it
 * step by step on its store, and the lemmas state what the outcomes promise.
 */
module Service {
  import opened Wrappers
  import opened Dates
  import opened Constraints
  import opened Entity
  import opened Dtos
  import opened Errors
  import opened Repository

  // ---------------------------------------------------------------------------
  // Argument validation

  /** How a failed argument validation surfaces: the collected violations, or the exception of a validator that threw. */
  function Rejection(v: Validation): (e: Option<ServiceError>)
    ensures e.None? <==> v == Checked({})
    ensures v.Aborted? ==> e == Some(ValidationFailed)
    ensures v.Checked? && v.violations != {} ==> e == Some(ConstraintViolation(v.violations))
  {
    match v
    case Aborted => Some(ValidationFailed)
    case Checked(vs) => if vs == {} then None else Some(ConstraintViolation(vs))
  }

  const CreateDtoPath: string := "createUser.createUserDto"
  const UpdateIdPath: string := "updateUser.id"
  const UpdateDtoPath: string := "updateUser.updateUserDto"
  const DeleteIdPath: string := "deleteUser.id"
  const FromPath: string := "findAllByBirthDateRange.from"
  const ToPath: string := "findAllByBirthDateRange.to"
  const PageIndexPath: string := "findAllByBirthDateRange.pageIndex"
  const PageSizePath: string := "findAllByBirthDateRange.pageSize"

  /** `createUser(@Valid @NotNull CreateUserDto createUserDto)`. */
  function CreateParams(dto: Option<CreateUserDto>, cfg: Config, now: LocalDate): (v: Validation)
    ensures v == Checked({}) <==> dto.Some? && IsValidCreate(dto.value, cfg, now)
  {
    Join(Checked(NotNull(dto, CreateDtoPath, MustNotBeNull)),
         if dto.Some? then CreateViolations(dto.value, CreateDtoPath, cfg, now) else Checked({}))
  }

  /** `updateUser(@NotNull UUID id, @Valid @NotNull UpdateUserDto updateUserDto)`. */
  function UpdateParams(id: Option<Id>, dto: Option<UpdateUserDto>, cfg: Config, now: LocalDate): (v: Validation)
    ensures v == Checked({}) <==> id.Some? && dto.Some? && IsValidUpdate(dto.value, cfg, now)
  {
    Join(Checked(NotNull(id, UpdateIdPath, MustNotBeNull) + NotNull(dto, UpdateDtoPath, MustNotBeNull)),
         if dto.Some? then UpdateViolations(dto.value, UpdateDtoPath, cfg, now) else Checked({}))
  }

  /** `findAllByBirthDateRange(@NotNull from, @NotNull to, @NotNull pageIndex, @NotNull @Max(500) pageSize)`. */
  function FindAllParams(from: Option<LocalDate>, to: Option<LocalDate>, pageIndex: Option<int>, pageSize: Option<int>): (vs: set<Violation>)
    ensures vs == {} <==> from.Some? && to.Some? && pageIndex.Some? && pageSize.Some? && pageSize.value <= 500
    ensures pageSize.Some? && pageSize.value > 500 ==> Violation(PageSizePath, AtMost500) in vs
  {
    NotNull(from, FromPath, MustNotBeNull) + NotNull(to, ToPath, MustNotBeNull)
    + NotNull(pageIndex, PageIndexPath, MustNotBeNull)
    + NotNull(pageSize, PageSizePath, MustNotBeNull) + MaxCheck(pageSize, 500, PageSizePath, AtMost500)
  }

  // ---------------------------------------------------------------------------
  // Mapping between the entity and the DTOs

  /** `modelMapper.map(createUserDto, User.class)`: the six fields copied, no id yet. */
  function ToEntity(dto: CreateUserDto): (u: User)
    ensures u.id.None?
  {
    User(None, dto.email, dto.firstName, dto.lastName, dto.birthDate, dto.address, dto.phoneNumber)
  }

  /** `modelMapper.map(user, GetUserDto.class)`. */
  function ToView(u: User): (v: GetUserDto)
    ensures v.id == u.id
  {
    GetUserDto(u.id, u.email, u.firstName, u.lastName, u.birthDate, u.address, u.phoneNumber)
  }

  /** The user a view shows. */
  function FromView(v: GetUserDto): (u: User) {
    User(v.id, v.email, v.firstName, v.lastName, v.birthDate, v.address, v.phoneNumber)
  }

  /** A view carries every field of the user: nothing is lost in the mapping. */
  lemma ViewRoundTrip(u: User)
    ensures FromView(ToView(u)) == u
    ensures forall w :: ToView(w) == ToView(u) ==> w == u
  {
  }

  /** The setter chain of `updateUser`: each non-null field of `dto` replaces the user's. */
  function Merge(u: User, dto: UpdateUserDto): (m: User)
    ensures m.id == u.id
    ensures dto == UpdateUserDto(None, None, None, None, None, None) ==> m == u
  {
    u.(email := if dto.email.Some? then dto.email else u.email,
       firstName := if dto.firstName.Some? then dto.firstName else u.firstName,
       lastName := if dto.lastName.Some? then dto.lastName else u.lastName,
       birthDate := if dto.birthDate.Some? then dto.birthDate else u.birthDate,
       address := if dto.address.Some? then dto.address else u.address,
       phoneNumber := if dto.phoneNumber.Some? then dto.phoneNumber else u.phoneNumber)
  }

  /** Field by field, the merge keeps what the request leaves `null` and takes what it sets; the id is never touched. */
  lemma MergeTakesPresentFields(u: User, dto: UpdateUserDto)
    ensures var m := Merge(u, dto);
      && m.id == u.id
      && (dto.email.None? ==> m.email == u.email) && (dto.email.Some? ==> m.email == dto.email)
      && (dto.firstName.None? ==> m.firstName == u.firstName) && (dto.firstName.Some? ==> m.firstName == dto.firstName)
      && (dto.lastName.None? ==> m.lastName == u.lastName) && (dto.lastName.Some? ==> m.lastName == dto.lastName)
      && (dto.birthDate.None? ==> m.birthDate == u.birthDate) && (dto.birthDate.Some? ==> m.birthDate == dto.birthDate)
      && (dto.address.None? ==> m.address == u.address) && (dto.address.Some? ==> m.address == dto.address)
      && (dto.phoneNumber.None? ==> m.phoneNumber == u.phoneNumber) && (dto.phoneNumber.Some? ==> m.phoneNumber == dto.phoneNumber)
  {
  }

  /** Applying the same request twice is applying it once, and a request that sets nothing changes nothing. */
  lemma MergeIsIdempotent(u: User, dto: UpdateUserDto)
    ensures Merge(Merge(u, dto), dto) == Merge(u, dto)
    ensures Merge(u, UpdateUserDto(None, None, None, None, None, None)) == u
  {
  }

  // ---------------------------------------------------------------------------
  // The operations, as functions of the table

  /** `createUser`: validate the request, map it to an entity and save it; the result is the new id. */
  function CreateOutcome(t: Table, dto: Option<CreateUserDto>, cfg: Config, today: LocalDate): (out: (Result<Id, ServiceError>, Table))
    ensures out.0.Err? ==> out.1 == t
    ensures out.0.Ok? ==> out.0.value !in t && out.1.Keys == t.Keys + {out.0.value}
    ensures forall j :: j in t ==> j in out.1 && out.1[j] == t[j]
  {
    var rejected := Rejection(CreateParams(dto, cfg, today));
    if rejected.Some? then (Err(rejected.value), t)
    else
      var (saved, t') := InsertOutcome(t, ToEntity(dto.value), today, cfg.isEmail);
      if saved.Ok? then (Ok(saved.value.id.value), t') else (Err(saved.error), t')
  }

  /**
   * `updateUser`: validate the arguments, load the row, refuse an email that
   * any stored user already has, merge the request into the row and let the
   * commit write it back.
   */
  function UpdateOutcome(t: Table, id: Option<Id>, dto: Option<UpdateUserDto>, cfg: Config, today: LocalDate): (out: (Result<(), ServiceError>, Table))
    ensures out.0.Err? ==> out.1 == t
    ensures out.0.Ok? ==> id.Some? && id.value in t
    ensures out.1.Keys == t.Keys
    ensures forall j :: j in t && (id.None? || j != id.value) ==> out.1[j] == t[j]
  {
    var rejected := Rejection(UpdateParams(id, dto, cfg, today));
    if rejected.Some? then (Err(rejected.value), t)
    else
      var k, d := id.value, dto.value;
      if k !in t then (Err(IllegalArgument(UserNotFound(k))), t)
      else
        var existing := if d.email.Some? then FindByEmail(t, d.email.value) else None;
        if existing.Some? then (Err(IllegalArgument(EmailAlreadyExists(existing.value.email.value))), t)
        else FlushOutcome(t, k, Merge(t[k], d), today, cfg.isEmail)
  }

  /** `deleteUser`: validate the id, then delete whatever row has it. */
  function DeleteOutcome(t: Table, id: Option<Id>): (out: (Result<(), ServiceError>, Table))
    ensures out.0.Err? <==> id.None?
    ensures out.0.Err? ==> out.1 == t
    ensures out.0.Ok? ==> out.1.Keys == t.Keys - {id.value}
    ensures forall j :: j in out.1 ==> j in t && out.1[j] == t[j]
  {
    var violations := NotNull(id, DeleteIdPath, MustNotBeNull);
    if violations != {} then (Err(ConstraintViolation(violations)), t)
    else (Ok(()), t - {id.value})
  }

  /**
   * `findAllByBirthDateRange`: validate the arguments, refuse a range that
   * ends before it starts, build the page request and map the rows of the
   * page to views.
   */
  function FindAllOutcome(t: Table, from: Option<LocalDate>, to: Option<LocalDate>, pageIndex: Option<int>, pageSize: Option<int>): (r: Result<seq<GetUserDto>, ServiceError>)
    ensures r.Ok? ==> from.Some? && to.Some? && !IsAfter(from.value, to.value)
    ensures r.Ok? ==> pageIndex.Some? && pageIndex.value >= 0 && pageSize.Some? && 1 <= pageSize.value <= 500
    ensures r.Ok? ==> |r.value| <= pageSize.value
  {
    var violations := FindAllParams(from, to, pageIndex, pageSize);
    if violations != {} then Err(ConstraintViolation(violations))
    else if IsAfter(from.value, to.value) then Err(IllegalArgument(FromAfterTo))
    else if pageIndex.value < 0 then Err(IllegalArgument(PageIndexNegative))
    else if pageSize.value < 1 then Err(IllegalArgument(PageSizeTooSmall))
    else
      var rows := GetAllByBirthDateRange(t, from.value, to.value, pageIndex.value, pageSize.value);
      Ok(seq(|rows|, i requires 0 <= i < |rows| => ToView(rows[i])))
  }

  // ---------------------------------------------------------------------------
  // The service object

  class UserService {
    const store: UserStore
    const cfg: Config

    ghost predicate Valid()
      reads this, store
    {
      store.Valid() && store.isEmail == cfg.isEmail
    }

    constructor (store: UserStore, minimalUserAge: int)
      requires store.Valid()
      ensures Valid()
      ensures this.store == store && cfg == Config(minimalUserAge, store.isEmail)
    {
      this.store := store;
      cfg := Config(minimalUserAge, store.isEmail);
    }

    method CreateUser(dto: Option<CreateUserDto>, today: LocalDate) returns (r: Result<Id, ServiceError>)
      requires Valid()
      modifies store
      ensures Valid()
      ensures (r, store.table) == CreateOutcome(old(store.table), dto, cfg, today)
    {
      var rejected := Rejection(CreateParams(dto, cfg, today));
      if rejected.Some? {
        return Err(rejected.value);
      }
      var user := ToEntity(dto.value);
      var saved := store.Save(user, today);
      if saved.Err? {
        return Err(saved.error);
      }
      r := Ok(saved.value.id.value);
    }

    method UpdateUser(id: Option<Id>, dto: Option<UpdateUserDto>, today: LocalDate) returns (r: Result<(), ServiceError>)
      requires Valid()
      modifies store
      ensures Valid()
      ensures (r, store.table) == UpdateOutcome(old(store.table), id, dto, cfg, today)
    {
      var rejected := Rejection(UpdateParams(id, dto, cfg, today));
      if rejected.Some? {
        return Err(rejected.value);
      }
      var k, d := id.value, dto.value;
      if k !in store.table {
        return Err(IllegalArgument(UserNotFound(k)));
      }
      var user := store.table[k];
      if d.email.Some? {
        var existing := FindByEmail(store.table, d.email.value);
        if existing.Some? {
          return Err(IllegalArgument(EmailAlreadyExists(existing.value.email.value)));
        }
        user := user.(email := d.email);
      }
      if d.firstName.Some? {
        user := user.(firstName := d.firstName);
      }
      if d.lastName.Some? {
        user := user.(lastName := d.lastName);
      }
      if d.birthDate.Some? {
        user := user.(birthDate := d.birthDate);
      }
      if d.address.Some? {
        user := user.(address := d.address);
      }
      if d.phoneNumber.Some? {
        user := user.(phoneNumber := d.phoneNumber);
      }
      assert user == Merge(store.table[k], d);
      r := store.Flush(k, user, today);
    }

    method DeleteUser(id: Option<Id>) returns (r: Result<(), ServiceError>)
      requires Valid()
      modifies store
      ensures Valid()
      ensures (r, store.table) == DeleteOutcome(old(store.table), id)
    {
      var violations := NotNull(id, DeleteIdPath, MustNotBeNull);
      if violations != {} {
        return Err(ConstraintViolation(violations));
      }
      store.DeleteById(id.value);
      r := Ok(());
    }

    method FindAllByBirthDateRange(from: Option<LocalDate>, to: Option<LocalDate>, pageIndex: Option<int>, pageSize: Option<int>)
      returns (r: Result<seq<GetUserDto>, ServiceError>)
      requires Valid()
      ensures r == FindAllOutcome(store.table, from, to, pageIndex, pageSize)
    {
      var violations := FindAllParams(from, to, pageIndex, pageSize);
      if violations != {} {
        return Err(ConstraintViolation(violations));
      }
      if IsAfter(from.value, to.value) {
        return Err(IllegalArgument(FromAfterTo));
      }
      if pageIndex.value < 0 {
        return Err(IllegalArgument(PageIndexNegative));
      }
      if pageSize.value < 1 {
        return Err(IllegalArgument(PageSizeTooSmall));
      }
      var rows := GetAllByBirthDateRange(store.table, from.value, to.value, pageIndex.value, pageSize.value);
      r := Ok(seq(|rows|, i requires 0 <= i < |rows| => ToView(rows[i])));
    }
  }
}
