# User management service: a Dafny model

This project models the core of a small user-management backend. It covers:

- the `User` entity and its field constraints;
- the two request shapes `CreateUserDto` and `UpdateUserDto`, with their constraints;
- the minimum-age rule `EighteenPlusValidator`;
- the two queries of `UserRepository`;
- the four operations of `UserServiceImpl`: `createUser`, `updateUser`, `deleteUser` and `findAllByBirthDateRange`.

The `users` table is a `map<Id, User>`. A Java `null` is `Option.None`. An exception is a `Result.Err` that carries a `ServiceError`:

- `ConstraintViolation` holds the set of violations found by method validation of the arguments;
- `CommitFailed` holds the violations of the entity's own constraints, found when the row is written at commit; the transaction manager wraps that exception;
- `ValidationFailed` stands for a validator that threw;
- `IllegalArgument` holds the exception's message;
- `DataIntegrityViolation` is the unique constraint on `email`.

Each operation is given twice:

- as a pure function of the table and its arguments (`Service.CreateOutcome`, `Service.UpdateOutcome`, `Service.DeleteOutcome`, `Service.FindAllOutcome`);
- as a method of the `Service.UserService` class, which changes the table held by its `Repository.UserStore` step by step.

Each method's postcondition ties its result and the new table to the outcome function. The lemmas in `ServiceProperties`, `Repository`, `Dtos`, `Entity` and `EighteenPlus` state what the outcomes promise.

Files, in dependency order:

- `wrappers.dfy`: `Option`, `Result`.
- `dates.dfy`: `LocalDate` and its order.
- `eighteen_plus.dfy`: the age rule.
- `constraints.dfy`: one function per Bean Validation annotation.
- `user.dfy`: the entity.
- `dtos.dfy`: the request and response shapes.
- `errors.dfy`: the exceptions and their messages.
- `repository.dfy`: the table, the queries, the writes the persistence layer performs, and the `UserStore` class.
- `service.dfy`: argument validation, the mappings, the outcomes, and the `UserService` class.
- `service_properties.dfy`: the properties of the four operations.

Behaviour worth knowing, all of it as the code has it:

- **Argument validation comes first.** The arguments are validated before the method body runs. Every violation is collected at once, with paths such as `createUser.createUserDto.email`.
- **The age rule can throw.** It compares `now.minusYears(birth.getYear()).getYear()` with the minimum. That call throws when the year difference leaves the `LocalDate` range, so validation then aborts.
- **Month and day are ignored.** The age rule looks at the two years only.
- **The entity is validated when it is written.** This happens on insert, and on the flush of a changed row. The unique email constraint is enforced at the same moment. Both happen when the transaction commits, so a broken entity constraint reaches the caller wrapped by the commit; the model reports it as `CommitFailed`, apart from the `ConstraintViolation` of method validation.
- **`updateUser` refuses an email that any stored user already has.** This includes the user being updated (`UserServiceImpl.java:54`). A reader might expect only another user's email to count as a conflict; the code checks every stored user, the target included. The model follows the code: see `ServiceProperties.SelfEmailRejected`.
- **`deleteUser` is silent.** It does nothing for an unknown id.
- **`findAllByBirthDateRange` checks in a fixed order.** It first refuses a reversed range. `PageRequest.of` then refuses a negative page index or a page size below one. Finally the query returns the page.

## Model

| member | source | states |
|---|---|---|
| Dates.Trichotomy | src/main/java/org/example/clearsolutionstest/service/impl/UserServiceImpl.java:102 | two dates are ordered one way, equal, or ordered the other way, and never both before and after; `isAfter` is the strict order |
| Dates.IsAfter | src/main/java/org/example/clearsolutionstest/service/impl/UserServiceImpl.java:102 | `from.isAfter(to)` holds exactly when `from` is neither before nor equal to `to`, so a one-day range is accepted |
| EighteenPlus.YearsBetween | src/main/java/org/example/clearsolutionstest/validator/EighteenPlusValidator.java:25 | `minusYears` yields the year difference exactly when it lies in the `LocalDate` year range, and nothing (the call throws) otherwise |
| EighteenPlus.IsValid | src/main/java/org/example/clearsolutionstest/validator/EighteenPlusValidator.java:25 | a null date is valid; the validator can only throw on a present date |
| EighteenPlus.ValidIffYearGap | src/main/java/org/example/clearsolutionstest/validator/EighteenPlusValidator.java:25 | while the difference is representable, a present date passes exactly when `now.year - birth.year >= minimalUserAge`, and it never throws |
| EighteenPlus.MonthAndDayIgnored | src/main/java/org/example/clearsolutionstest/validator/EighteenPlusValidator.java:25 | dates with the same years get the same verdict, whatever their months and days |
| EighteenPlus.Boundary | src/main/java/org/example/clearsolutionstest/validator/EighteenPlusValidator.java:25 | a birth year exactly `minimalUserAge` before the current year passes; one year later fails |
| EighteenPlus.MonotoneInBirthYear | src/main/java/org/example/clearsolutionstest/validator/EighteenPlusValidator.java:25 | if a birth year passes, every earlier one passes, as long as the difference stays representable |
| EighteenPlus.EarliestBirthYearThrows | src/main/java/org/example/clearsolutionstest/validator/EighteenPlusValidator.java:25 | at the edge of the year range monotonicity breaks: year 2000 passes, year -999999999 makes the validator throw |
| EighteenPlus.ValidImpliesPast | src/main/java/org/example/clearsolutionstest/validator/EighteenPlusValidator.java:25 | with a minimum of one year or more, a passing birth date lies strictly before today |
| EighteenPlus.ZeroMinimumAdmitsFutureDate | src/main/java/org/example/clearsolutionstest/validator/EighteenPlusValidator.java:25 | with a minimum of zero, a date later in the current year passes although it is in the future |
| EighteenPlus.UnderageExample | src/test/java/org/example/clearsolutionstest/service/impl/UserServiceImplTest.java:111-117 | born 2020-01-01, checked on 2024-01-01 against 18: invalid |
| Constraints.NotNull | src/main/java/org/example/clearsolutionstest/entity/User.java:55 | `@NotNull` reports nothing exactly when the value is present |
| Constraints.EmailCheck | src/main/java/org/example/clearsolutionstest/entity/User.java:54 | `@Email` reports nothing exactly when the value is null or well-formed |
| Constraints.LengthCheck | src/main/java/org/example/clearsolutionstest/entity/User.java:63 | `@Length(min, max)` reports nothing exactly when the value is null or its length is within the bounds |
| Constraints.PatternCheck | src/main/java/org/example/clearsolutionstest/entity/User.java:92 | `@Pattern("\d{8,18}")` reports nothing exactly when the value is null or 8 to 18 ASCII digits |
| Constraints.PastCheck | src/main/java/org/example/clearsolutionstest/entity/User.java:82 | `@Past` reports nothing exactly when the value is null or strictly before today |
| Constraints.AgeCheck | src/main/java/org/example/clearsolutionstest/dto/CreateUserDto.java:37 | `@EighteenPlusConstraint` aborts validation exactly when the validator throws, and reports nothing exactly when it passes |
| Constraints.MaxCheck | src/main/java/org/example/clearsolutionstest/service/UserService.java:25 | `@Max(500)` reports nothing exactly when the value is null or at most 500 |
| Constraints.PhonePatternExamples | src/test/java/org/example/clearsolutionstest/entity/UserTest.java:168-191 | the sample phone matches; all six rejected phone strings of the entity test fail the pattern |
| Entity.Violations | src/main/java/org/example/clearsolutionstest/entity/User.java:54-93 | the entity's violations are empty exactly when every field constraint holds on that day |
| Entity.EveryBrokenRuleReported | src/main/java/org/example/clearsolutionstest/entity/User.java:54-93 | each broken rule is reported with its own path and message, whatever else is wrong |
| Entity.OnlyBrokenRulesReported | src/main/java/org/example/clearsolutionstest/entity/User.java:54-93 | every reported violation belongs to a rule the user actually breaks, with that rule's path and message |
| Entity.SampleUserIsValid | src/test/java/org/example/clearsolutionstest/entity/UserTest.java:32-50 | the test's sample user has no violations |
| Entity.NameAndAddressBounds | src/test/java/org/example/clearsolutionstest/entity/UserTest.java:84-166 | names of length 0 and 101 are rejected, lengths 1 and 100 accepted; a null address is fine, one of 201 characters is rejected; each with exactly its own violation |
| Entity.NullFieldsAndFutureDate | src/test/java/org/example/clearsolutionstest/entity/UserTest.java:123-151 | a null email, a null birth date and a future birth date are each reported with their own message |
| Dtos.CreateViolations | src/main/java/org/example/clearsolutionstest/dto/CreateUserDto.java:23-46 | a create request has no violations exactly when email, names and birth date are present and valid and the optional fields are valid; validation aborts exactly when the age rule throws |
| Dtos.UpdateViolations | src/main/java/org/example/clearsolutionstest/dto/UpdateUserDto.java:22-45 | an update request has no violations exactly when every present field is valid; violations only ever name present fields |
| Dtos.CreateEveryBrokenRuleReported | src/main/java/org/example/clearsolutionstest/dto/CreateUserDto.java:23-46 | unless validation aborts, each broken rule of a create request (null or malformed email, null or wrong-length name, null or underage birth date, long address, bad phone) is reported at its property path with its message |
| Dtos.CreateOnlyBrokenRulesReported | src/main/java/org/example/clearsolutionstest/dto/CreateUserDto.java:23-46 | every violation a create request reports belongs to a rule it actually breaks |
| Dtos.UpdateEveryBrokenRuleReported | src/main/java/org/example/clearsolutionstest/dto/UpdateUserDto.java:22-45 | unless validation aborts, each broken rule of a present field of an update request is reported at its property path with its message |
| Dtos.UpdateOnlyBrokenRulesReported | src/main/java/org/example/clearsolutionstest/dto/UpdateUserDto.java:22-45 | every violation an update request reports belongs to a rule that one of its present fields breaks |
| Dtos.EmptyUpdateIsValid | src/main/java/org/example/clearsolutionstest/dto/UpdateUserDto.java:22-45 | a request with every field null has no violations |
| Dtos.InvalidCreateReportsAll | src/test/java/org/example/clearsolutionstest/service/impl/UserServiceImplTest.java:104-131 | the test's create request that breaks six rules gets exactly those six violations |
| Dtos.InvalidUpdateReportsAll | src/test/java/org/example/clearsolutionstest/service/impl/UserServiceImplTest.java:262-294 | the test's update request that breaks six rules gets exactly those six violations |
| Errors.IdText | src/main/java/org/example/clearsolutionstest/service/impl/UserServiceImpl.java:47 | the text of an id is a non-empty string of digits |
| Errors.IdTextRoundTrip | src/main/java/org/example/clearsolutionstest/service/impl/UserServiceImpl.java:47 | the id can be read back from its text |
| Errors.UserNotFound | src/main/java/org/example/clearsolutionstest/service/impl/UserServiceImpl.java:47 | the not-found message is `User with id '<id>' not found`, and the id can be read back from the digits between the quotes |
| Errors.EmailAlreadyExists | src/main/java/org/example/clearsolutionstest/service/impl/UserServiceImpl.java:55 | the conflict message is `User with email <email> already exist`, with the email between the fixed words |
| Errors.NotFoundMessageNamesTheId | src/main/java/org/example/clearsolutionstest/service/impl/UserServiceImpl.java:47 | two not-found messages are equal only for the same id |
| Errors.EmailMessageNamesTheEmail | src/main/java/org/example/clearsolutionstest/service/impl/UserServiceImpl.java:55 | two conflict messages are equal only for the same email |
| Errors.NotFoundAndConflictDiffer | src/main/java/org/example/clearsolutionstest/service/impl/UserServiceImpl.java:47 | a not-found message is never a conflict message |
| Repository.UniqueEmails | src/main/java/org/example/clearsolutionstest/entity/User.java:28-34 | the `users_email_key` constraint: two rows with the same email are the same row; the empty table satisfies it |
| Repository.IsTableValid | src/main/java/org/example/clearsolutionstest/entity/User.java:28-56 | a valid table keeps each row under its own id, emails unique and every stored email present and well formed; the empty table is valid |
| Repository.SortedIds | src/main/java/org/example/clearsolutionstest/repository/UserRepository.java:19 | lists exactly the keys of the set, in strictly ascending order |
| Repository.FreshId | src/main/java/org/example/clearsolutionstest/entity/User.java:44-47 | the generated key is not used by any row |
| Repository.FindByEmail | src/main/java/org/example/clearsolutionstest/repository/UserRepository.java:22-23 | a found user is stored and has the email; nothing is found exactly when no stored user has it |
| Repository.FindByEmailFindsTheOwner | src/test/java/org/example/clearsolutionstest/repository/UserRepositoryTest.java:61-85 | under the unique constraint, the user found by an email is the one stored with it |
| Repository.BornBetween | src/main/java/org/example/clearsolutionstest/repository/UserRepository.java:19 | a user matches the where clause only with a non-null birth date, and no one matches a range whose start is after its end |
| Repository.MatchingIds | src/main/java/org/example/clearsolutionstest/repository/UserRepository.java:19 | a key is listed exactly when its user's birth date is in `[from, to]`, both ends included; keys are ascending |
| Repository.Page | src/main/java/org/example/clearsolutionstest/repository/UserRepository.java:20 | a page holds at most `pageSize` elements, the ones from offset `pageIndex * pageSize` on |
| Repository.GetAllByBirthDateRange | src/main/java/org/example/clearsolutionstest/repository/UserRepository.java:19-20 | at most `pageSize` users, each stored and born inside `[from, to]` |
| Repository.PageHoldsElement | src/main/java/org/example/clearsolutionstest/repository/UserRepository.java:20 | the element at offset `q * pageSize + pos` is at position `pos` of page `q` |
| Repository.EveryMatchIsOnSomePage | src/main/java/org/example/clearsolutionstest/repository/UserRepository.java:19-20 | every stored user born inside the range is on some page, given the model's fixed ascending-key order |
| Repository.EmptyTableGivesEmptyPage | src/test/java/org/example/clearsolutionstest/repository/UserRepositoryTest.java:50-59 | an empty table gives an empty page |
| Repository.RangeQueryExample | src/test/java/org/example/clearsolutionstest/repository/UserRepositoryTest.java:24-48 | of users born in January, February, March, May and June 2000, the range [Feb 1, May 1] selects exactly the middle three |
| Repository.MiddleThree | src/test/java/org/example/clearsolutionstest/repository/UserRepositoryTest.java:24-48 | for any five rows of which exactly keys 2, 3 and 4 match, the query yields those three |
| Repository.InsertOutcome | src/main/java/org/example/clearsolutionstest/service/impl/UserServiceImpl.java:37 | a successful save returns the user with a generated id; the result is `CommitFailed` with the entity's violations exactly when the entity is invalid, and a valid entity can only fail with `DataIntegrityViolation` |
| Repository.InsertAddsOneRow | src/main/java/org/example/clearsolutionstest/entity/User.java:28-34 | an insert adds one row under a new key with the given fields, or fails and changes nothing; it succeeds exactly when the entity is valid and its email is free; an invalid entity gives `CommitFailed` with its violations, a valid one on a taken email `DataIntegrityViolation`; the table stays valid |
| Repository.FlushOutcome | src/main/java/org/example/clearsolutionstest/service/impl/UserServiceImpl.java:25 | the commit keeps the key set, changes no row but the managed one, writes that row as given on success, and changes nothing on failure |
| Repository.FlushWritesOneRow | src/main/java/org/example/clearsolutionstest/service/impl/UserServiceImpl.java:25 | the commit writes back the one changed row or nothing; an unchanged row is never validated; the table stays valid |
| Repository.UserStore.Save | src/main/java/org/example/clearsolutionstest/service/impl/UserServiceImpl.java:37 | `save` performs the insert outcome on the table and keeps it valid |
| Repository.UserStore.Flush | src/main/java/org/example/clearsolutionstest/service/impl/UserServiceImpl.java:25 | the commit of a managed row performs the flush outcome and keeps the table valid |
| Repository.UserStore.DeleteById | src/main/java/org/example/clearsolutionstest/service/impl/UserServiceImpl.java:93 | the table afterwards is the old one without that key |
| Service.Rejection | src/main/java/org/example/clearsolutionstest/service/UserService.java:15 | a call is refused exactly when argument validation found something: with the violations, or with the validator's exception |
| Service.CreateParams | src/main/java/org/example/clearsolutionstest/service/UserService.java:18 | the create arguments pass exactly when the request is present and valid |
| Service.UpdateParams | src/main/java/org/example/clearsolutionstest/service/UserService.java:20 | the update arguments pass exactly when id and request are present and the request is valid |
| Service.FindAllParams | src/main/java/org/example/clearsolutionstest/service/UserService.java:24-25 | the query arguments pass exactly when all four are present and the page size is at most 500; a page size above 500 is reported at its path with `must be less than or equal to 500` |
| Service.ToEntity | src/main/java/org/example/clearsolutionstest/service/impl/UserServiceImpl.java:36 | the mapped entity has no id yet |
| Service.ToView | src/main/java/org/example/clearsolutionstest/service/impl/UserServiceImpl.java:108 | the view carries the user's id |
| Service.ViewRoundTrip | src/main/java/org/example/clearsolutionstest/service/impl/UserServiceImpl.java:107-109 | the view of a user carries every field: distinct users have distinct views, and the user can be read back |
| Service.Merge | src/main/java/org/example/clearsolutionstest/service/impl/UserServiceImpl.java:62-86 | the setter chain never changes the id, and a request with every field null leaves the user as it was |
| Service.MergeTakesPresentFields | src/main/java/org/example/clearsolutionstest/service/impl/UserServiceImpl.java:59-86 | the merge takes every non-null field of the request and keeps every other field and the id |
| Service.MergeIsIdempotent | src/main/java/org/example/clearsolutionstest/service/impl/UserServiceImpl.java:62-86 | merging a request twice equals merging it once; merging an all-null request changes nothing |
| Service.CreateOutcome | src/main/java/org/example/clearsolutionstest/service/impl/UserServiceImpl.java:34-40 | a failed create changes nothing; a successful one returns a key not used before, adds exactly that key and leaves every existing row as it was |
| Service.UpdateOutcome | src/main/java/org/example/clearsolutionstest/service/impl/UserServiceImpl.java:44-88 | a failed update changes nothing; a successful one names a stored id; the key set is kept and no row other than the target changes |
| Service.DeleteOutcome | src/main/java/org/example/clearsolutionstest/service/impl/UserServiceImpl.java:91-96 | a delete fails exactly when the id is null, and then changes nothing; otherwise the key set loses exactly that id and the other rows are unchanged |
| Service.FindAllOutcome | src/main/java/org/example/clearsolutionstest/service/impl/UserServiceImpl.java:99-112 | a query succeeds only with all four arguments present, `from` not after `to`, a page index of at least 0 and a page size from 1 to 500, and then returns at most `pageSize` users |
| Service.UserService.CreateUser | src/main/java/org/example/clearsolutionstest/service/impl/UserServiceImpl.java:34-40 | performs the create outcome on the store and keeps it valid |
| Service.UserService.UpdateUser | src/main/java/org/example/clearsolutionstest/service/impl/UserServiceImpl.java:44-88 | the lookup, the email check and the conditional setter chain perform the update outcome on the store and keep it valid |
| Service.UserService.DeleteUser | src/main/java/org/example/clearsolutionstest/service/impl/UserServiceImpl.java:91-96 | performs the delete outcome on the store and keeps it valid |
| Service.UserService.FindAllByBirthDateRange | src/main/java/org/example/clearsolutionstest/service/impl/UserServiceImpl.java:99-112 | returns the query outcome and changes nothing |
| ServiceProperties.CreateStoresTheRequest | src/main/java/org/example/clearsolutionstest/service/impl/UserServiceImpl.java:34-40 | a create stores one new row under a key no row had, holding exactly the request's six fields, and returns that key; or it fails and changes nothing. It succeeds exactly when the request and the entity are valid and no stored user has the email. Past argument validation, an invalid entity gives `CommitFailed` with its violations and a taken email `DataIntegrityViolation` |
| ServiceProperties.CreatedUserIsFoundByEmail | src/main/java/org/example/clearsolutionstest/service/impl/UserServiceImpl.java:37 | after a successful create, looking up its email finds the row under the returned key |
| ServiceProperties.ValidRequestIsValidEntity | src/main/java/org/example/clearsolutionstest/dto/CreateUserDto.java:35-38 | with a minimum age of one year or more, a valid create request maps to a valid entity |
| ServiceProperties.ValidCreateFailsOnlyOnTakenEmail | src/main/java/org/example/clearsolutionstest/entity/User.java:28-34 | then a valid request fails only when the email is taken, and with the unique-constraint error |
| ServiceProperties.NullArgumentsRejected | src/main/java/org/example/clearsolutionstest/service/UserService.java:18-25 | null arguments of create, update and delete are refused with their parameter paths and "must not be null", and the table is unchanged (for update: a lone null id or request is named by its path whenever the request, if present, can be validated; when its age rule throws, validation aborts without paths); a query with any null argument is refused with a constraint violation that names every null parameter's path with "must not be null" |
| ServiceProperties.UpdateUnknownId | src/main/java/org/example/clearsolutionstest/service/impl/UserServiceImpl.java:46-51 | an unknown id fails with `User with id '<id>' not found` and changes nothing |
| ServiceProperties.UpdateEmailTaken | src/main/java/org/example/clearsolutionstest/service/impl/UserServiceImpl.java:52-58 | a new email that some stored user has fails with `User with email <email> already exist` and changes nothing |
| ServiceProperties.SelfEmailRejected | src/main/java/org/example/clearsolutionstest/service/impl/UserServiceImpl.java:54 | re-sending the user's own email fails with the conflict message |
| ServiceProperties.UpdateWritesTheMerge | src/main/java/org/example/clearsolutionstest/service/impl/UserServiceImpl.java:59-86 | past the checks, an update writes the merge into that row and no other row; or it fails with the merged row's violations as `CommitFailed` and changes nothing. It succeeds exactly when the merged row is unchanged or valid |
| ServiceProperties.MergedRecordIsValid | src/main/java/org/example/clearsolutionstest/service/impl/UserServiceImpl.java:62-86 | with a minimum age of one year or more, a valid request merged into a valid row with a past birth date gives a valid row |
| ServiceProperties.ValidUpdateSucceeds | src/main/java/org/example/clearsolutionstest/service/impl/UserServiceImpl.java:44-88 | then an update with a free email succeeds and writes exactly the merge |
| ServiceProperties.EmptyUpdateChangesNothing | src/test/java/org/example/clearsolutionstest/service/impl/UserServiceImplTest.java:198-214 | an all-null request on a stored id succeeds and changes nothing |
| ServiceProperties.InvalidUpdateRejectedBeforeLookup | src/test/java/org/example/clearsolutionstest/service/impl/UserServiceImplTest.java:262-294 | an invalid request fails, changes nothing, and fails the same way whatever the table holds |
| ServiceProperties.UpdateNeverHitsUniqueConstraint | src/main/java/org/example/clearsolutionstest/service/impl/UserServiceImpl.java:52-58 | on a valid table an update never fails on the unique constraint, because the service's own check comes first |
| ServiceProperties.MergeKeepsEmailsUnique | src/main/java/org/example/clearsolutionstest/entity/User.java:28-34 | once the email check has passed, writing back the merge cannot break the unique constraint |
| ServiceProperties.DeleteIsIdempotent | src/main/java/org/example/clearsolutionstest/service/impl/UserServiceImpl.java:91-96 | a delete removes that key and keeps every other row; deleting twice equals deleting once |
| ServiceProperties.CreateKeepsTableValid | src/main/java/org/example/clearsolutionstest/entity/User.java:28-34 | a create keeps keys, unique emails and field constraints; a failed create changes nothing |
| ServiceProperties.UpdateKeepsTableValid | src/main/java/org/example/clearsolutionstest/entity/User.java:28-34 | an update keeps keys, unique emails and field constraints; a failed update changes nothing |
| ServiceProperties.DeleteKeepsTableValid | src/main/java/org/example/clearsolutionstest/service/impl/UserServiceImpl.java:91-96 | a delete keeps the table valid; a refused delete changes nothing |
| ServiceProperties.ReversedRangeRejected | src/main/java/org/example/clearsolutionstest/service/impl/UserServiceImpl.java:102-106 | `from` after `to` fails with `From date is after to date`, whatever the table holds |
| ServiceProperties.FindAllListsStoredUsersInRange | src/main/java/org/example/clearsolutionstest/service/impl/UserServiceImpl.java:99-112 | the query succeeds exactly when the range is not reversed (a single day is allowed), the index is non-negative and the size is between 1 and 500. It then lists at most `pageSize` views, each of a stored user born inside the range |
| ServiceProperties.EveryUserInRangeIsListed | src/main/java/org/example/clearsolutionstest/service/impl/UserServiceImpl.java:107-109 | every stored user born inside the range appears on some page of the service's result, given the model's fixed ascending-key order |
| ServiceProperties.PageIsShown | src/main/java/org/example/clearsolutionstest/service/impl/UserServiceImpl.java:107-109 | each user on a page of the query is shown on the same page of the service's result |

## Left out

- The HTTP layer is not modelled: `UserController`, the exception handler (which turns `ConstraintViolation` and `IllegalArgument` into a 400 body carrying the message, and has no handler for `ValidationFailed`, `CommitFailed` or `DataIntegrityViolation`), HATEOAS links and Swagger annotations.
- Logging is not modelled.
- Transactions are modelled only as all-or-nothing. Concurrency and races between requests on the unique constraint are not modelled.
- The clock is a parameter `today`, one per call. The age rule reads a UTC clock, while `@Past` uses the JVM's zone. Where these two days differ around midnight, the model does not capture the difference.
- `minimalUserAge` is a parameter.
- The `@Email` grammar belongs to Hibernate Validator and is not part of this model. It is an uninterpreted predicate `isEmail`.
- The Bean Validation message interpolation is not modelled: violations are sets of (path, message) pairs, not the rendered exception text.
- Repository.FreshId: the persistence layer generates a random UUID; the model takes 1 + the largest key, and only freshness is promised.
- Errors.IdText: ids are natural numbers written in decimal, not UUID text. The not-found message has the source's shape around that text.
- Repository.GetAllByBirthDateRange: the query leaves the order of rows open. The model lists them in ascending key order, which is one admissible order, and fixes that order for every call. `Repository.EveryMatchIsOnSomePage` and `ServiceProperties.EveryUserInRangeIsListed` depend on this: with no ORDER BY the database may order each page's query differently, so in the deployed system paging can skip or repeat a user.
- Repository.UserStore.Save: only the insert of a new entity (id null) is modelled. The merge path of `save` for an entity that already has an id is never used by the service.
- Service.UserService.UpdateUser: the loaded entity is mutated in place by setters, and the commit writes it back. The model holds it in a local value, updates it field by field, and writes it back explicitly. Aliasing of the managed instance is not modelled.
- Service.FindAllParams: `pageIndex` and `pageSize` are Java `Integer`s. Their 32-bit range is not modelled: values are unbounded integers. Nor is the overflow of the offset `pageIndex * pageSize` beyond `Integer.MAX_VALUE` (for example 10000000 × 500), which makes the query fail in the persistence layer; the model returns the (empty) page there.
- Constraints.LengthCheck: `@Length` counts UTF-16 code units. The model counts characters, so strings outside the Basic Multilingual Plane are not modelled.
- `TimeServiceImpl`, `ApplicationConfig` and the test configuration classes are wiring, and are not modelled.
