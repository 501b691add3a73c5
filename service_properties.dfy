/**
 * What the four operations of the user service promise: the table stays
 * valid, a failure changes nothing, each success changes exactly the rows it
 * names, and each failure carries the message its cause calls for.
 */
module ServiceProperties {
  import opened Wrappers
  import opened Dates
  import opened Constraints
  import opened Entity
  import opened Dtos
  import opened Errors
  import opened Repository
  import opened Service
  import EighteenPlus

  // ---------------------------------------------------------------------------
  // createUser

  /**
   * A create either stores one new row, under a key no row had, holding
   * exactly the fields of the request, or fails and changes nothing. It
   * succeeds exactly when the request and the entity are valid and the email
   * is free.
   */
  lemma CreateStoresTheRequest(t: Table, dto: Option<CreateUserDto>, cfg: Config, today: LocalDate)
    requires IsTableValid(t, cfg.isEmail)
    ensures var (r, t') := CreateOutcome(t, dto, cfg, today);
      && IsTableValid(t', cfg.isEmail)
      && (r.Err? ==> t' == t)
      && (r.Ok? ==> && r.value !in t
                    && t'.Keys == t.Keys + {r.value}
                    && (forall k :: k in t ==> t'[k] == t[k])
                    && var d := dto.value;
                       ToView(t'[r.value]) == GetUserDto(Some(r.value), d.email, d.firstName, d.lastName, d.birthDate, d.address, d.phoneNumber))
      && (r.Ok? <==> && dto.Some? && IsValidCreate(dto.value, cfg, today)
                     && IsValidUser(ToEntity(dto.value), cfg.isEmail, today)
                     && forall k :: k in t ==> t[k].email != dto.value.email)
      && (dto.Some? && IsValidCreate(dto.value, cfg, today) ==>
            && (!IsValidUser(ToEntity(dto.value), cfg.isEmail, today) ==>
                  r == Err(CommitFailed(Violations(ToEntity(dto.value), cfg.isEmail, today))))
            && (IsValidUser(ToEntity(dto.value), cfg.isEmail, today) && r.Err? ==> r == Err(DataIntegrityViolation)))
  {
    if Rejection(CreateParams(dto, cfg, today)).None? {
      var u := ToEntity(dto.value);
      InsertAddsOneRow(t, u, today, cfg.isEmail);
      var (saved, t') := InsertOutcome(t, u, today, cfg.isEmail);
      assert saved.Ok? ==> t'[saved.value.id.value] == u.(id := saved.value.id);
    }
  }

  /** The returned id is the one under which the new user can be found by its email. */
  lemma CreatedUserIsFoundByEmail(t: Table, dto: Option<CreateUserDto>, cfg: Config, today: LocalDate)
    requires IsTableValid(t, cfg.isEmail)
    ensures var (r, t') := CreateOutcome(t, dto, cfg, today);
      r.Ok? ==> r.value in t' && FindByEmail(t', dto.value.email.value) == Some(t'[r.value])
  {
    CreateStoresTheRequest(t, dto, cfg, today);
    var (r, t') := CreateOutcome(t, dto, cfg, today);
    if r.Ok? {
      FindByEmailFindsTheOwner(t', r.value);
    }
  }

  /** With a minimum age of at least one year, a valid create request is a valid entity: the age rule implies `@Past`. */
  lemma ValidRequestIsValidEntity(dto: CreateUserDto, cfg: Config, today: LocalDate)
    requires IsValidCreate(dto, cfg, today) && cfg.minimalUserAge >= 1
    ensures IsValidUser(ToEntity(dto), cfg.isEmail, today)
  {
    EighteenPlus.ValidImpliesPast(dto.birthDate.value, today, cfg.minimalUserAge);
  }

  /** Then a valid request fails only on an email some stored user already has. */
  lemma ValidCreateFailsOnlyOnTakenEmail(t: Table, dto: CreateUserDto, cfg: Config, today: LocalDate)
    requires IsTableValid(t, cfg.isEmail)
    requires IsValidCreate(dto, cfg, today) && cfg.minimalUserAge >= 1
    ensures var (r, t') := CreateOutcome(t, Some(dto), cfg, today);
      && (r.Ok? <==> forall k :: k in t ==> t[k].email != dto.email)
      && (r.Err? ==> r.error == DataIntegrityViolation)
  {
    ValidRequestIsValidEntity(dto, cfg, today);
    CreateStoresTheRequest(t, Some(dto), cfg, today);
  }

  // ---------------------------------------------------------------------------
  // Null arguments

  /** A `null` where `@NotNull` stands is refused before the table is touched, with the parameter's path. */
  lemma NullArgumentsRejected(t: Table, cfg: Config, today: LocalDate, id: Option<Id>, dto: Option<UpdateUserDto>,
                              from: Option<LocalDate>, to: Option<LocalDate>, pageIndex: Option<int>, pageSize: Option<int>)
    ensures CreateOutcome(t, None, cfg, today) == (Err(ConstraintViolation({Violation(CreateDtoPath, MustNotBeNull)})), t)
    ensures UpdateOutcome(t, None, None, cfg, today)
         == (Err(ConstraintViolation({Violation(UpdateIdPath, MustNotBeNull), Violation(UpdateDtoPath, MustNotBeNull)})), t)
    ensures DeleteOutcome(t, None) == (Err(ConstraintViolation({Violation(DeleteIdPath, MustNotBeNull)})), t)
    ensures var r := FindAllOutcome(t, from, to, pageIndex, pageSize);
      from.None? || to.None? || pageIndex.None? || pageSize.None? ==>
        && r.Err? && r.error.ConstraintViolation?
        && (from.None? ==> Violation(FromPath, MustNotBeNull) in r.error.violations)
        && (to.None? ==> Violation(ToPath, MustNotBeNull) in r.error.violations)
        && (pageIndex.None? ==> Violation(PageIndexPath, MustNotBeNull) in r.error.violations)
        && (pageSize.None? ==> Violation(PageSizePath, MustNotBeNull) in r.error.violations)
    ensures id.None? || dto.None? ==> var (r, t') := UpdateOutcome(t, id, dto, cfg, today); r.Err? && t' == t
    ensures var (r, t') := UpdateOutcome(t, id, dto, cfg, today);
      (id.None? || dto.None?) && (dto.None? || UpdateViolations(dto.value, UpdateDtoPath, cfg, today).Checked?) ==>
        && r.Err? && r.error.ConstraintViolation? && t' == t
        && (id.None? ==> Violation(UpdateIdPath, MustNotBeNull) in r.error.violations)
        && (dto.None? ==> Violation(UpdateDtoPath, MustNotBeNull) in r.error.violations)
  {
    assert CreateParams(None, cfg, today) == Checked({Violation(CreateDtoPath, MustNotBeNull)});
    assert UpdateParams(None, None, cfg, today) == Checked({Violation(UpdateIdPath, MustNotBeNull), Violation(UpdateDtoPath, MustNotBeNull)});
  }

  // ---------------------------------------------------------------------------
  // updateUser

  /** An unknown id is reported with its message, and nothing changes. */
  lemma UpdateUnknownId(t: Table, k: Id, dto: UpdateUserDto, cfg: Config, today: LocalDate)
    requires IsValidUpdate(dto, cfg, today) && k !in t
    ensures UpdateOutcome(t, Some(k), Some(dto), cfg, today) == (Err(IllegalArgument(UserNotFound(k))), t)
  {
  }

  /** A new email that any stored user has is refused with its message, and nothing changes. */
  lemma UpdateEmailTaken(t: Table, k: Id, dto: UpdateUserDto, cfg: Config, today: LocalDate)
    requires IsValidUpdate(dto, cfg, today) && k in t
    requires dto.email.Some? && exists j :: j in t && t[j].email == dto.email
    ensures UpdateOutcome(t, Some(k), Some(dto), cfg, today) == (Err(IllegalArgument(EmailAlreadyExists(dto.email.value))), t)
  {
    var found := FindByEmail(t, dto.email.value);
    assert found.Some?;
  }

  /** The conflict check does not exclude the target: re-sending the user's own email fails. */
  lemma SelfEmailRejected(t: Table, k: Id, dto: UpdateUserDto, cfg: Config, today: LocalDate)
    requires IsValidUpdate(dto, cfg, today) && k in t
    requires dto.email.Some? && t[k].email == dto.email
    ensures UpdateOutcome(t, Some(k), Some(dto), cfg, today).0 == Err(IllegalArgument(EmailAlreadyExists(dto.email.value)))
  {
    UpdateEmailTaken(t, k, dto, cfg, today);
  }

  /**
   * Past the checks, an update writes back the merge of the request into the
   * row, and no other row; or, when the merged row breaks a constraint of the
   * entity, it fails and changes nothing.
   */
  lemma UpdateWritesTheMerge(t: Table, k: Id, dto: UpdateUserDto, cfg: Config, today: LocalDate)
    requires IsTableValid(t, cfg.isEmail)
    requires IsValidUpdate(dto, cfg, today) && k in t
    requires dto.email.Some? ==> forall j :: j in t ==> t[j].email != dto.email
    ensures var (r, t') := UpdateOutcome(t, Some(k), Some(dto), cfg, today);
      var m := Merge(t[k], dto);
      && (r.Ok? ==> t' == t[k := m])
      && (r.Err? ==> t' == t && r.error == CommitFailed(Violations(m, cfg.isEmail, today)))
      && (r.Ok? <==> m == t[k] || IsValidUser(m, cfg.isEmail, today))
  {
    var m := Merge(t[k], dto);
    assert (dto.email.Some? ==> FindByEmail(t, dto.email.value).None?);
    FlushWritesOneRow(t, k, m, today, cfg.isEmail);
  }

  /** With a minimum age of at least one year, a valid request merged into a valid row whose birth date is past gives a valid row. */
  lemma MergedRecordIsValid(u: User, dto: UpdateUserDto, cfg: Config, today: LocalDate)
    requires IsStorable(u, cfg.isEmail) && IsBefore(u.birthDate.value, today)
    requires IsValidUpdate(dto, cfg, today) && cfg.minimalUserAge >= 1
    ensures IsValidUser(Merge(u, dto), cfg.isEmail, today)
  {
    if dto.birthDate.Some? {
      EighteenPlus.ValidImpliesPast(dto.birthDate.value, today, cfg.minimalUserAge);
    }
  }

  /** Hence such an update with a free email succeeds. */
  lemma ValidUpdateSucceeds(t: Table, k: Id, dto: UpdateUserDto, cfg: Config, today: LocalDate)
    requires IsTableValid(t, cfg.isEmail)
    requires IsValidUpdate(dto, cfg, today) && cfg.minimalUserAge >= 1 && k in t
    requires IsBefore(t[k].birthDate.value, today)
    requires dto.email.Some? ==> forall j :: j in t ==> t[j].email != dto.email
    ensures UpdateOutcome(t, Some(k), Some(dto), cfg, today) == (Ok(()), t[k := Merge(t[k], dto)])
  {
    MergedRecordIsValid(t[k], dto, cfg, today);
    UpdateWritesTheMerge(t, k, dto, cfg, today);
  }

  /** An update that sets nothing succeeds and changes nothing. */
  lemma EmptyUpdateChangesNothing(t: Table, k: Id, cfg: Config, today: LocalDate)
    requires k in t
    ensures UpdateOutcome(t, Some(k), Some(UpdateUserDto(None, None, None, None, None, None)), cfg, today) == (Ok(()), t)
  {
    MergeIsIdempotent(t[k], UpdateUserDto(None, None, None, None, None, None));
  }

  /** An invalid request is refused before the row is looked up: the outcome does not depend on the table. */
  lemma InvalidUpdateRejectedBeforeLookup(t1: Table, t2: Table, id: Option<Id>, dto: Option<UpdateUserDto>, cfg: Config, today: LocalDate)
    requires dto.Some? && !IsValidUpdate(dto.value, cfg, today)
    ensures UpdateOutcome(t1, id, dto, cfg, today).0 == UpdateOutcome(t2, id, dto, cfg, today).0
    ensures UpdateOutcome(t1, id, dto, cfg, today).0.Err?
    ensures UpdateOutcome(t1, id, dto, cfg, today).1 == t1
  {
  }

  /** The unique constraint never fires on an update: the service's own email check comes first. */
  lemma UpdateNeverHitsUniqueConstraint(t: Table, id: Option<Id>, dto: Option<UpdateUserDto>, cfg: Config, today: LocalDate)
    requires IsTableValid(t, cfg.isEmail)
    ensures UpdateOutcome(t, id, dto, cfg, today).0 != Err(DataIntegrityViolation)
  {
    var rejected := Rejection(UpdateParams(id, dto, cfg, today));
    if rejected.None? && id.value in t {
      var k, d := id.value, dto.value;
      if d.email.None? || FindByEmail(t, d.email.value).None? {
        MergeKeepsEmailsUnique(t, k, d, today, cfg.isEmail);
      }
    }
  }

  /** Once the service's check has passed, no other row holds the merged row's email. */
  lemma MergeKeepsEmailsUnique(t: Table, k: Id, d: UpdateUserDto, today: LocalDate, isEmail: string -> bool)
    requires IsTableValid(t, isEmail) && k in t
    requires d.email.Some? ==> FindByEmail(t, d.email.value).None?
    ensures FlushOutcome(t, k, Merge(t[k], d), today, isEmail).0 != Err(DataIntegrityViolation)
  {
    var m := Merge(t[k], d);
    if d.email.Some? {
      assert forall j :: j in t ==> t[j].email != d.email;
    } else {
      assert m.email == t[k].email;
    }
    assert !exists j :: j in t && j != k && t[j].email == m.email;
  }

  // ---------------------------------------------------------------------------
  // deleteUser

  /** A delete removes the row if there is one and nothing else; deleting twice is deleting once. */
  lemma DeleteIsIdempotent(t: Table, id: Id)
    ensures DeleteOutcome(t, Some(id)) == (Ok(()), t - {id})
    ensures var t' := DeleteOutcome(t, Some(id)).1;
      && id !in t'
      && (forall k :: k in t && k != id ==> k in t' && t'[k] == t[k])
      && DeleteOutcome(t', Some(id)) == (Ok(()), t')
  {
    var t' := t - {id};
    assert t' - {id} == t';
  }

  // ---------------------------------------------------------------------------
  // The table invariant and all-or-nothing failure

  /** A create keeps the table valid, and a failed one leaves it as it was. */
  lemma CreateKeepsTableValid(t: Table, dto: Option<CreateUserDto>, cfg: Config, today: LocalDate)
    requires IsTableValid(t, cfg.isEmail)
    ensures var (r, t') := CreateOutcome(t, dto, cfg, today); IsTableValid(t', cfg.isEmail) && (r.Err? ==> t' == t)
  {
    CreateStoresTheRequest(t, dto, cfg, today);
  }

  /** An update keeps the table valid, and a failed one leaves it as it was. */
  lemma UpdateKeepsTableValid(t: Table, id: Option<Id>, dto: Option<UpdateUserDto>, cfg: Config, today: LocalDate)
    requires IsTableValid(t, cfg.isEmail)
    ensures var (r, t') := UpdateOutcome(t, id, dto, cfg, today); IsTableValid(t', cfg.isEmail) && (r.Err? ==> t' == t)
  {
    if id.Some? && dto.Some? && id.value in t {
      var k := id.value;
      FlushWritesOneRow(t, k, Merge(t[k], dto.value), today, cfg.isEmail);
    }
  }

  /** A delete keeps the table valid, and a failed one leaves it as it was. */
  lemma DeleteKeepsTableValid(t: Table, id: Option<Id>, isEmail: string -> bool)
    requires IsTableValid(t, isEmail)
    ensures var (r, t') := DeleteOutcome(t, id); IsTableValid(t', isEmail) && (r.Err? ==> t' == t)
  {
  }

  // ---------------------------------------------------------------------------
  // findAllByBirthDateRange

  /** A range that ends before it starts is refused, whatever the table holds. */
  lemma ReversedRangeRejected(t: Table, from: LocalDate, to: LocalDate, pageIndex: int, pageSize: int)
    requires pageSize <= 500 && IsAfter(from, to)
    ensures FindAllOutcome(t, Some(from), Some(to), Some(pageIndex), Some(pageSize)) == Err(IllegalArgument(FromAfterTo))
  {
  }

  /**
   * The query succeeds exactly when the arguments are present, the range is
   * not reversed (a single day is allowed) and the page request is
   * well-formed; it then lists at most `pageSize` users, each a stored user
   * born inside the range, shown field for field.
   */
  lemma FindAllListsStoredUsersInRange(t: Table, from: LocalDate, to: LocalDate, pageIndex: int, pageSize: int)
    ensures var r := FindAllOutcome(t, Some(from), Some(to), Some(pageIndex), Some(pageSize));
      && (r.Ok? <==> !IsAfter(from, to) && pageIndex >= 0 && 1 <= pageSize <= 500)
      && (r.Ok? ==> && |r.value| <= pageSize
                    && forall v :: v in r.value ==> FromView(v) in t.Values && BornBetween(FromView(v), from, to))
  {
    var r := FindAllOutcome(t, Some(from), Some(to), Some(pageIndex), Some(pageSize));
    if r.Ok? {
      var rows := GetAllByBirthDateRange(t, from, to, pageIndex, pageSize);
      forall v | v in r.value
        ensures FromView(v) in t.Values && BornBetween(FromView(v), from, to)
      {
        var i :| 0 <= i < |r.value| && r.value[i] == v;
        ViewRoundTrip(rows[i]);
        assert rows[i] in rows;
      }
    }
  }

  /**
   * Paging loses no one: every stored user born inside the range is listed on
   * some page. This holds for the model's fixed ascending-key order; the query
   * itself promises no order across calls.
   */
  lemma EveryUserInRangeIsListed(t: Table, from: LocalDate, to: LocalDate, pageSize: int, k: Id)
    requires !IsAfter(from, to) && 1 <= pageSize <= 500
    requires k in t && BornBetween(t[k], from, to)
    ensures exists pageIndex: nat :: var r := FindAllOutcome(t, Some(from), Some(to), Some(pageIndex), Some(pageSize));
      r.Ok? && ToView(t[k]) in r.value
  {
    EveryMatchIsOnSomePage(t, from, to, pageSize, k);
    var q: nat :| t[k] in GetAllByBirthDateRange(t, from, to, q, pageSize);
    PageIsShown(t, from, to, q, pageSize, t[k]);
  }

  /** Each user on page `q` of the query is shown on the service's page `q`. */
  lemma PageIsShown(t: Table, from: LocalDate, to: LocalDate, q: nat, pageSize: int, u: User)
    requires !IsAfter(from, to) && 1 <= pageSize <= 500
    requires u in GetAllByBirthDateRange(t, from, to, q, pageSize)
    ensures var r := FindAllOutcome(t, Some(from), Some(to), Some(q), Some(pageSize)); r.Ok? && ToView(u) in r.value
  {
    assert FindAllParams(Some(from), Some(to), Some(q), Some(pageSize)) == {};
    var rows := GetAllByBirthDateRange(t, from, to, q, pageSize);
    var i :| 0 <= i < |rows| && rows[i] == u;
    var r := FindAllOutcome(t, Some(from), Some(to), Some(q), Some(pageSize));
    assert r == Ok(seq(|rows|, j requires 0 <= j < |rows| => ToView(rows[j])));
    assert r.value[i] == ToView(u);
  }
}
