# app-users: a Dafny model of the user service and its validation rules

This project models the decision logic of the `app-users` backend slice:

- the user service (`UserServiceImpl`): registration, profile update,
  birth-date range search and deletion, written as pure functions over an
  abstract user store (`UserStore.Store`: users keyed by id plus an identity
  counter) and a role reference table (`RoleName -> Role`);
- the minimum-age validator (`AgeOverValidation.isValid`) over calendar dates
  given as (year, month, day) triples, with the day of validation as a
  parameter;
- the field constraints of the registration, update and login payloads as
  validity predicates (`Dtos.ValidRegistration`, `Dtos.ValidUpdate`,
  `Dtos.ValidLogin`).

Files: `wrappers.dfy` (Option, Result, nullable `Text`), `dates.dfy` (calendar,
ordering, `Period.between(...).getYears()`), `age_over.dfy` (the age
validator), `dtos.dfy` (payloads and constraints), `user_store.dfy` (store,
roles, repository queries), `user_service.dfy` (the service).

Modelling choices:

- A Java `String` is `Text = Option<string>`, `None` being `null`; a
  `LocalDate` is `Dates.Date`, a triple that names a real day of the
  proleptic Gregorian calendar.
- `Period.between(start, end).getYears()` is written out as `LocalDate.until`
  computes it (`Dates.PeriodYears`: proleptic-month difference, one-month
  correction by the day of month, division truncating toward zero) and proved
  equal to the plain calendar age `end.year - start.year - (1 if the
  anniversary has not come yet)` whenever start is not after end, and at most
  zero otherwise.
- `Register` and `Update` return a `Reply`: the result (a value or the
  exception thrown, as `Error`) and the store after the call. "Nothing was
  saved" is stated as "the store after the call equals the store before".
  The range search reads no store of its own and returns a bare `Result`;
  `DeleteById` returns the store after the call.
- Collaborators are parameters: the password encoder (`encode: Text -> Text`),
  the `UserMapper.toDto` projection (`toDto: User -> R`, any response type)
  and, for the range search, the repository query
  (`query: (Date, Date, Pageable) -> seq<User>`).
- `UserRepository.findByEmail` scans ids upward from the first id and answers
  with the lowest id whose user has that email; under the store invariant
  (`UserStore.Invariant`: ids consistent, emails unique) that is the only
  such user. The repository's error for several matching users is
  therefore never reached in a store that satisfies the invariant.
- Assumption: the derived query `findAllByBirthDateBetween` has no body in the
  program. `UserStore.FindAllByBirthDateBetween` gives it one: an inclusive
  filter on the birth date, in id order, cut to the requested page
  (`pageNumber * pageSize`, at most `pageSize` users). The service functions
  do not depend on this choice; only `SearchStore` and the lemmas
  `SearchReturnsUsersBornInRange` and `SearchFirstPageIsComplete` use it.
- `deleteById` of an unknown id is a silent no-op, as in current Spring Data
  JPA.
- The `@Email` validator is left abstract: it is the parameter
  `isEmail: Text -> bool`. The `@FieldMatch` validator is left abstract too;
  its message ("shouldn't be empty and should be equal") is taken as the rule:
  both fields non-null, non-empty and equal.
- Single-field constraints other than `@NotNull` (`@Size`, `@Past`,
  `@AgeOver`) accept null, as Bean Validation does; `@NotNull` is what rejects
  it.

## Model

| member | source | states |
|---|---|---|
| `Dates.PeriodYears` | src/main/java/app/users/validation/AgeOverValidation.java:18-19 | the `LocalDate.until` year count is never negative for a birth date not after today and never positive for one after it |
| `Dates.PeriodYearsIsElapsedYears` | src/main/java/app/users/validation/AgeOverValidation.java:18-19 | for a birth date not after today, the whole years of the period equal the calendar age: year difference, less one when today's month/day precedes the birthday's |
| `Dates.PeriodYearsOfLaterStart` | src/main/java/app/users/validation/AgeOverValidation.java:18-20 | for a birth date after today the period's year count is at most zero |
| `AgeOverValidation.IsValid` | src/main/java/app/users/validation/AgeOverValidation.java:12-21 | a null birth date is valid; a birth date after today is never valid |
| `AgeOverValidation.IsValidIffEighteenWholeYears` | src/main/java/app/users/validation/AgeOverValidation.java:9-20 | a birth date passes if and only if it is not after today and at least 18 whole calendar years have elapsed |
| `AgeOverValidation.BirthdayNotYetReached` | src/main/java/app/users/validation/AgeOverValidation.java:18-19 | in the 18th calendar year, a birthday later in the year than today does not count: the check fails |
| `AgeOverValidation.LeapDayBirth` | src/main/java/app/users/validation/AgeOverValidation.java:18-20 | someone born on 29 February fails on 28 February of their 18th year and passes on 1 March |
| `AgeOverValidation.ExactlyEighteenYears` | src/main/java/app/users/validation/AgeOverValidation.java:18-20 | born exactly 18 years before today (same month and day) passes; born the following day fails |
| `AgeOverValidation.EarlierBirthDatePasses` | src/main/java/app/users/validation/AgeOverValidation.java:18-20 | monotonicity: if a birth date passes, every earlier birth date passes on the same day |
| `Dtos.AdultBirthDateRuleIff` | src/main/java/app/users/dto/UserRegistrationRequestDto.java:25-28 | `@NotNull @Past @AgeOver` holds iff the birth date is present, strictly before today, and at least 18 whole years back |
| `Dtos.ValidRegistration` | src/main/java/app/users/dto/UserRegistrationRequestDto.java:12-35 | a valid registration payload has a repeated password equal to the password, and its email and password also pass the login rules |
| `Dtos.ValidRegistrationIff` | src/main/java/app/users/dto/UserRegistrationRequestDto.java:12-35 | a registration payload is valid iff the email check passes, the password is present with 7 to 60 characters, the repeated password equals it, the birth date is present, past and 18 years back, and both names are present; address and phone do not matter |
| `Dtos.RegistrationRejectsBadPassword` | src/main/java/app/users/dto/UserRegistrationRequestDto.java:21-23 | a null password, or one shorter than 7 or longer than 60 characters, makes the registration payload invalid |
| `Dtos.RegistrationRejectsPasswordMismatch` | src/main/java/app/users/dto/UserRegistrationRequestDto.java:13-17 | a null or empty password, or a repeated password that differs, makes the registration payload invalid |
| `Dtos.AddressAndPhoneUnconstrained` | src/main/java/app/users/dto/UserRegistrationRequestDto.java:29-34 | changing address and phone never changes whether a registration or an update payload is valid |
| `Dtos.ValidUpdate` | src/main/java/app/users/dto/UserRequestUpdateDto.java:10-21 | a valid update payload carries a birth date strictly before the day of validation |
| `Dtos.ValidUpdateIff` | src/main/java/app/users/dto/UserRequestUpdateDto.java:10-21 | an update payload is valid iff the birth date is present, past and 18 whole years back and both names are present |
| `Dtos.ValidUpdateHasAdultBirthDate` | src/main/java/app/users/dto/UserRequestUpdateDto.java:11-14 | a valid update payload always carries a birth date, strictly past and 18 whole years back, so a null birth date fails validation through `@NotNull`, whatever `@AgeOver` answers |
| `Dtos.ValidLogin` | src/main/java/app/users/dto/UserLoginRequestDto.java:9-15 | a valid login payload carries a non-null password of 7 to 60 characters |
| `Dtos.ValidLoginIff` | src/main/java/app/users/dto/UserLoginRequestDto.java:9-15 | a login payload is valid iff the email check passes and the password is present with 7 to 60 characters |
| `Dtos.LoginRejectsBadPassword` | src/main/java/app/users/dto/UserLoginRequestDto.java:12-14 | a null password, or one shorter than 7 or longer than 60 characters, makes the login payload invalid |
| `Dtos.LoginAndRegistrationShareThePasswordRule` | src/main/java/app/users/dto/UserLoginRequestDto.java:9-15 | against an otherwise valid registration, a password entered twice is accepted exactly when login accepts it with the same email |
| `UserStore.FindByEmail` | src/main/java/app/users/service/UserServiceImpl.java:32 | an answer is a stored user with that email; in a store with consistent ids there is an answer iff some user has that email |
| `UserStore.FindByEmailFindsTheOwner` | src/main/java/app/users/service/UserServiceImpl.java:52-54 | under the store invariant the lookup by a user's email returns that user's id |
| `UserStore.Insert` | src/main/java/app/users/service/UserServiceImpl.java:46 | saving a new user assigns it the next id, stores it under that key, advances the id counter, adds exactly that key and leaves every other user as it was |
| `UserStore.FindAllByBirthDateBetween` | src/main/java/app/users/service/UserServiceImpl.java:70 | (assumed derived query) the page holds at most page-size stored users, each with a birth date within the inclusive range; a first page with room for every id handed out holds every stored user born within the range |
| `UserService.Register` | src/main/java/app/users/service/UserServiceImpl.java:30-48 | every failure is a registration error that leaves the store unchanged; success needs a free email and the USER role and adds the key of the next id |
| `UserService.NewUser` | src/main/java/app/users/service/UserServiceImpl.java:35-42 | the user built from a payload copies its email, names, birth date, address and phone, stores the encoded password, and has no role yet |
| `UserService.RegisterRefusesTakenEmail` | src/main/java/app/users/service/UserServiceImpl.java:32-34 | a taken email fails with "Unable to complete registration" and no change, even when the USER role is missing (the email check comes first) |
| `UserService.RegisterRefusesMissingRole` | src/main/java/app/users/service/UserServiceImpl.java:43-46 | a free email without a USER role fails with "Can't find role by name" and nothing is saved |
| `UserService.RegisterAddsOneUser` | src/main/java/app/users/service/UserServiceImpl.java:35-47 | success adds exactly one user under a fresh id, with the payload's email, names, birth date, address and phone, the encoded password and the USER role alone; others untouched; the reply is its projection |
| `UserService.RegisterPreservesInvariant` | src/main/java/app/users/service/UserServiceImpl.java:32-46 | registration keeps ids consistent and emails unique |
| `UserService.RegisterTwiceRefused` | src/test/java/app/users/service/UserServiceImplTest.java:78-91 | after a successful registration, registering the same payload again fails with the duplicate-email error and changes nothing |
| `UserService.Update` | src/main/java/app/users/service/UserServiceImpl.java:51-62 | every failure is EntityNotFound and leaves the store unchanged; no call adds or removes a user |
| `UserService.UpdateRefusesUnknownEmail` | src/main/java/app/users/service/UserServiceImpl.java:52-54 | an email no user has fails with "Can't find user by email: " and the email, and nothing is modified |
| `UserService.UpdateOverwritesProfileOnly` | src/main/java/app/users/service/UserServiceImpl.java:55-61 | the user with that email gets the payload's first name, last name, birth date, address and phone; its id, email, password hash and roles, and every other user, are unchanged; the reply is its projection |
| `UserService.UpdatePreservesInvariant` | src/main/java/app/users/service/UserServiceImpl.java:55-60 | an update keeps ids consistent and emails unique |
| `UserService.MapToDto` | src/main/java/app/users/service/UserServiceImpl.java:70-72 | the projected list has the page's length and element i is the projection of page element i |
| `UserService.FindUsersByBirthDateRange` | src/main/java/app/users/service/UserServiceImpl.java:65-73 | fails iff the start date is after the end date, with IllegalArgumentException's message; otherwise returns the page's projections in order |
| `UserService.SearchRefusesReversedRangeBeforeQuery` | src/main/java/app/users/service/UserServiceImpl.java:67-69 | a reversed range gives the same failure whatever the repository would answer, so the store is not consulted |
| `UserService.SearchAcceptsOneDayRange` | src/main/java/app/users/service/UserServiceImpl.java:67 | a range whose start equals its end is accepted, since `isAfter` is strict |
| `UserService.SearchReturnsUsersBornInRange` | src/main/java/app/users/service/UserServiceImpl.java:70-72 | with the assumed inclusive query, every result is the projection of a stored user born within the range, and the page size bounds the count |
| `UserService.SearchFirstPageIsComplete` | src/main/java/app/users/service/UserServiceImpl.java:70-72 | with the assumed inclusive query, a first page with room for every id handed out projects every stored user born within the range |
| `UserService.DeleteById` | src/main/java/app/users/service/UserServiceImpl.java:76-78 | the id is gone afterwards, every other user is kept unchanged, nothing is added, the id counter is untouched, and an unknown id leaves the store as it was |
| `UserService.DeletePreservesInvariantAndIsIdempotent` | src/main/java/app/users/service/UserServiceImpl.java:76-78 | deletion keeps the store invariant and deleting the same id twice equals deleting it once |
| `UserService.RunPreservesInvariant` | src/main/java/app/users/service/UserServiceImpl.java:29-78 | any sequence of register, update and delete calls from a store with consistent ids and unique emails ends in such a store |
| `UserService.ReachableStoresKeepInvariant` | src/main/java/app/users/service/UserServiceImpl.java:29-78 | every store reachable from the empty store through the service's calls has consistent ids and unique emails |

## Left out

- HTTP routing, ISO date parsing, the `@PreAuthorize("hasRole('ADMIN')")` guards and principal extraction of `UserController`: framework wiring in front of the service.
- The body of `UserMapper.toDto` (generated code; its response type is not part of this model): it is the parameter `toDto`.
- The password encoder: the parameter `encode`. Because it is arbitrary, the model makes no claim that a stored hash differs from the plaintext.
- The `@Email` and `@FieldMatch` validator classes are not part of this model; `@Email` is the parameter `isEmail`, `@FieldMatch` follows its message.
- Sorting in `Pageable`, and Spring's refusal of a page size below one: a page size of zero here yields an empty page.
- UserStore.FindAllByBirthDateBetween: which in-range users a later page holds is not stated, only that every page is sound and bounded and that a first page with room for every id is complete, because ordering and paging belong to the repository.
- Transactions and the check-then-insert race on email uniqueness: concurrency at the store level, outside sequential logic.
- `Dtos.SizeBetween`: counts characters as Unicode scalar values, whereas Java's `String.length` counts UTF-16 code units, so the two differ for characters outside the Basic Multilingual Plane.
- `@Past` and `@AgeOver` read the clock separately in the program; the model gives both the same `today`, so a validation that straddles midnight is not modelled.
- `LocalDate`'s year bounds (±999,999,999) and the `int` range of `Period.getYears`: the model's years are unbounded integers; within `LocalDate`'s range the year difference fits an `int`.
- Null arguments to `findUsersByBirthDateRange` and `deleteById`, which would raise a `NullPointerException` or `IllegalArgumentException`; the controller always supplies them, and the model's `Date` and `int` parameters cannot be null.
