# User service — a Dafny model of its business rules

The user service is a CRUD backend for user profile records (email, first and
last name, birthdate, address, phone number). This project models the part
that makes decisions:

- the service implementation (`UserServiceImpl`): the required-field check on
  create, the minimum-age check, the birthdate-range validity check, lookup
  by id and by email with a not-found error, the partial (merge) and complete
  (replace) updates, `update` and `delete`;
- the mapper between the entity and its request/response records (`UserMapper`);
- the global exception handler, which turns each exception into an HTTP
  status, an error label and a message.

Files:

- `Wrappers.dfy` — `Option` (a nullable Java reference) and `Result` (a value or the exception thrown).
- `JavaText.dfy` — decimal rendering of integers in string concatenation, and `"null"` for a null string.
- `Dates.dfy` — `LocalDate` as a valid Gregorian date, `isBefore`/`isAfter`, `minusYears` with 29 February clamped to 28 February.
- `Model.dfy` — `User`, `UserRequestDto`, `UserUpdateDto`, `UserResponseDto`.
- `Exceptions.dfy` — the exception kinds the handler distinguishes.
- `ExceptionHandler.dfy` — the handler as one pure function, `Handle`.
- `UserMapper.dfy` — `ToDto` and `ToModel`.
- `Repository.dfy` — the store the service depends on: a class holding a `map<Id, User>` and an identity counter.
- `UserService.dfy` — the decisions as functions and lemmas, and the class `UserServiceImpl` whose methods change the store.
- `Scenarios.dfy` — a client that walks one user through create, partial update, a rejected complete update and a double delete, using only the contracts.

The clock is an input: every operation that checks the age takes `today`,
and the minimum age is a constant of the service object, fixed when it is
constructed. The handler's timestamp is dropped.

Three rules of the code that are easy to misread, modelled as written:

- On create only `null` counts as a missing field; an empty string passes (`BlankRequiredFieldsPass`).
- The complete update does not require a birthdate: a request without one
  removes the stored birthdate and passes the age check
  (`ReplaceFieldsMayDropBirthdate`). So "a stored user always has a
  birthdate" is not an invariant of the service, and the model does not claim it.
- In a partial update an explicit `null` phone number leaves the stored one
  unchanged; only a non-null value, `""` included, replaces it.

## Model

| member | source | states |
|---|---|---|
| `Dates.MinusYears` | src/main/java/userservice/service/impl/UserServiceImpl.java:120-121 | the cutoff date is `minAge` years earlier, same month; its day is lower only for 29 February moved to a non-leap year, where it becomes 28 |
| `Dates.MinusYearsZero` | src/main/java/userservice/service/impl/UserServiceImpl.java:121 | subtracting zero years gives the same date |
| `Dates.IsBeforeStrictTotalOrder` | src/main/java/userservice/service/impl/UserServiceImpl.java:74 | `isBefore` is irreflexive, asymmetric, transitive and total on distinct dates |
| `Dates.NotAfterCutoffIffOldEnough` | src/main/java/userservice/service/impl/UserServiceImpl.java:120-124 | a birthdate is not after `today.minusYears(n)` exactly when the person has had at least `n` birthdays by today, leap days included |
| `JavaText.IntToString` | src/main/java/userservice/service/impl/UserServiceImpl.java:30 | the decimal text of a number is non-empty and starts with '-' exactly for negative numbers |
| `JavaText.IntToStringInjective` | src/main/java/userservice/service/impl/UserServiceImpl.java:30 | different numbers render as different text |
| `UserService.IdNotFoundMessageNamesId` | src/main/java/userservice/service/impl/UserServiceImpl.java:28-30 | the not-found message of `get` determines the id that was asked for |
| `UserService.EmailNotFoundMessageNamesEmail` | src/main/java/userservice/service/impl/UserServiceImpl.java:67-69 | the not-found message of `findByEmail` determines the email that was asked for |
| `UserService.BlankRequiredFieldsPass` | src/main/java/userservice/service/impl/UserServiceImpl.java:40-47 | required fields set to the empty string are not "missing"; only null is |
| `UserService.IsTooYoungIffUnderAge` | src/main/java/userservice/service/impl/UserServiceImpl.java:119-127 | the age check never rejects a null birthdate, and rejects a known one exactly when the person is younger than `minAge` full years |
| `UserService.IsTooYoungBoundary` | src/main/java/userservice/service/impl/UserServiceImpl.java:121-124 | a birthdate exactly at the cutoff is accepted; any later one is rejected |
| `UserService.IsTooYoungMonotone` | src/main/java/userservice/service/impl/UserServiceImpl.java:123-124 | if a birthdate is accepted, every earlier birthdate is accepted |
| `UserService.IsValidRangeCases` | src/main/java/userservice/service/impl/UserServiceImpl.java:74 | a range is valid iff both bounds are present and `from` is before `to`: a missing bound, equal bounds and reversed bounds are invalid |
| `UserService.MergePartialChangesOnlySupplied` | src/main/java/userservice/service/impl/UserServiceImpl.java:86-96 | the id never changes; email, names and address change only for a non-null non-empty value; birthdate and phone number only for a non-null value |
| `UserService.MergePartialAppliesSupplied` | src/main/java/userservice/service/impl/UserServiceImpl.java:86-96 | every value the per-field rule accepts is applied exactly as supplied, an empty phone number included |
| `UserService.MergePartialEmptyRequest` | src/main/java/userservice/service/impl/UserServiceImpl.java:86-96 | a partial update with every field null leaves the user unchanged |
| `UserService.MergePartialIdempotent` | src/main/java/userservice/service/impl/UserServiceImpl.java:86-96 | applying the same partial update twice gives the same user as applying it once |
| `UserService.MergePartialEmptyStringClearsOnlyPhone` | src/main/java/userservice/service/impl/UserServiceImpl.java:86-96 | a request with "" in every text field clears the phone number and changes nothing else |
| `UserService.MergePartialKeepsRequiredFields` | src/main/java/userservice/service/impl/UserServiceImpl.java:86-96 | a partial update never nulls email, names or birthdate that were present |
| `UserService.MergePartialOfFullRequestIsReplace` | src/main/java/userservice/service/impl/UserServiceImpl.java:86-112 | when all six fields are supplied with values the partial rules accept, the partial and complete updates give the same user |
| `UserService.ReplaceFieldsIsMappedRequest` | src/main/java/userservice/service/impl/UserServiceImpl.java:107-112 | the complete update yields the request mapped to a user, carrying the stored user's id |
| `UserService.ReplaceFieldsForgetsOldValues` | src/main/java/userservice/service/impl/UserServiceImpl.java:107-112 | after a complete update nothing of the old field values remains except the id |
| `UserService.ReplaceFieldsMayDropBirthdate` | src/main/java/userservice/service/impl/UserServiceImpl.java:110-114 | a complete update without a birthdate stores none, and the age check lets it through |
| `UserService.UserServiceImpl.constructor` | src/main/java/userservice/service/impl/UserServiceImpl.java:21-25 | the service holds the given store and the configured minimum age |
| `UserService.UserServiceImpl.Get` | src/main/java/userservice/service/impl/UserServiceImpl.java:27-31 | returns the user stored under the id, or fails with not-found naming the id; reads only |
| `UserService.UserServiceImpl.Save` | src/main/java/userservice/service/impl/UserServiceImpl.java:38-51 | fails with empty-fields iff a required field is null, else with age error iff too young, leaving the store unchanged; otherwise stores the user (a fresh id when it had none) and changes no other entry |
| `UserService.UserServiceImpl.Update` | src/main/java/userservice/service/impl/UserServiceImpl.java:53-59 | a user without an id fails with not-found and the store is unchanged; otherwise it is stored under its id and no other entry changes |
| `UserService.UserServiceImpl.Delete` | src/main/java/userservice/service/impl/UserServiceImpl.java:61-64 | the id is removed if present and nothing else changes; never fails, so a second delete changes nothing |
| `UserService.UserServiceImpl.FindByEmail` | src/main/java/userservice/service/impl/UserServiceImpl.java:66-70 | returns a stored user with that email, or fails with not-found naming the email exactly when there is none |
| `UserService.UserServiceImpl.FindByBirthDateRange` | src/main/java/userservice/service/impl/UserServiceImpl.java:72-80 | fails with the birthdate-range error iff the range is invalid; otherwise returns each stored user born within [from, to] exactly once |
| `UserService.UserServiceImpl.UpdatePartial` | src/main/java/userservice/service/impl/UserServiceImpl.java:82-101 | not-found for an unknown id; otherwise the merged user, stored under the id unless it fails the age check, in which case the store is unchanged |
| `UserService.UserServiceImpl.UpdateComplete` | src/main/java/userservice/service/impl/UserServiceImpl.java:103-117 | not-found for an unknown id; otherwise the user with all six fields replaced, stored unless the new birthdate fails the age check, in which case the store is unchanged |
| `UserMapper.ToDto` | src/main/java/userservice/service/mapper/UserMapper.java:10-21 | the response copies all seven fields, id included, unchanged |
| `UserMapper.ToModel` | src/main/java/userservice/service/mapper/UserMapper.java:24-35 | the new user has no id and the six request fields unchanged |
| `UserMapper.ToDtoInjective` | src/main/java/userservice/service/mapper/UserMapper.java:10-21 | different users give different responses: the mapping loses nothing |
| `UserMapper.ToDtoOfToModel` | src/main/java/userservice/service/mapper/UserMapper.java:10-35 | mapping a request to a user and back to a response keeps the six fields and has a null id |
| `ExceptionHandler.Respond` | src/main/java/userservice/exception/GlobalExceptionHandler.java:23-28 | the body's status equals the response status, with the given label and message |
| `ExceptionHandler.ValidationMessage` | src/main/java/userservice/exception/GlobalExceptionHandler.java:63-67 | "field: defaultMessage" of the first field error (a null default message prints as "null"), else the exception's message |
| `ExceptionHandler.Handle` | src/main/java/userservice/exception/GlobalExceptionHandler.java:21-95 | body status equals HTTP status in every case; 404 iff not-found; 500 iff null-pointer or other; 400 for the other four; the message is passed through except for validation errors |
| `ExceptionHandler.NotFoundResponse` | src/main/java/userservice/exception/GlobalExceptionHandler.java:21-29 | not-found gives 404, "NOT_FOUND" and the exception's message |
| `ExceptionHandler.BadRequestResponses` | src/main/java/userservice/exception/GlobalExceptionHandler.java:31-59 | empty-fields, age and birthdate-range errors give 400, "Bad Request" and the exception's message |
| `ExceptionHandler.ValidationResponse` | src/main/java/userservice/exception/GlobalExceptionHandler.java:61-75 | a validation error gives 400 "Bad Request" with the first field error's text, or the exception's message when there is no field error |
| `ExceptionHandler.ServerErrorResponses` | src/main/java/userservice/exception/GlobalExceptionHandler.java:77-95 | a null-pointer error gives 500 "Null pointer encountered"; any other exception 500 "An error occurred"; both pass the message through |
| `ExceptionHandler.ServiceExceptionsAreClientErrors` | src/main/java/userservice/exception/GlobalExceptionHandler.java:21-59 | every exception the service throws becomes a 4xx response carrying its message |
| `Repository.UserRepository.FindById` | src/main/java/userservice/repository/UserRepository.java:11 | the row stored under the id, or nothing when the id is absent |
| `Repository.UserRepository.FindByEmail` | src/main/java/userservice/repository/UserRepository.java:12 | a stored user with that email, or nothing exactly when no row has it |
| `Repository.UserRepository.FindByBirthdateBetween` | src/main/java/userservice/repository/UserRepository.java:14 | each stored user whose birthdate lies in [from, to] exactly once, and no other |
| `Repository.UserRepository.Save` | src/main/java/userservice/repository/UserRepository.java:11 | a user without an id is inserted under an id not yet used; one with an id is written under it; the saved user differs from the input only in the id |
| `Repository.UserRepository.DeleteById` | src/main/java/userservice/repository/UserRepository.java:11 | removes the id if present; an absent id changes nothing |

## Left out

- `getAll` (UserServiceImpl.java:33-36): it returns the whole store and decides nothing.
- HTTP routing, success status codes and parsing of `dd.MM.yyyy` dates in the controller: framework plumbing.
- The logging aspect: logging and timing only.
- Request-body validation annotations (`@Email`, `@Past`, `@Pattern`, `@NotEmpty`): enforced by the validation library; the model accepts any field values, and the handler models the resulting validation error.
- Clock reads: `today` is a parameter and the handler's timestamp is dropped.
- The 64-bit range of `Long` ids and of `int` ages, and the year range of `LocalDate`: integers are unbounded.
- A null id passed to `get`, `delete`, `updatePartial` or `updateComplete`: ids from the path are never null, and the store's own rejection is not modelled.
- Null-pointer failures inside the service (a null user or request object): the model's records are always present.
- Concurrent read-modify-write of the same id: not coordinated by the code.
- `UserNotFoundException.java` and `UserUpdateDto.java` are not part of this model; their shapes are taken from how the service uses them.
- The request record's redeclared email and name fields: it is modelled as one record with six fields.
- Repository.UserRepository.FindByEmail: returns some matching user when several rows share an email, whereas the JPA query would fail on duplicates; email uniqueness is not enforced by the code either.
- Repository.UserRepository.FindByBirthdateBetween: the order of the returned list is not modelled.
- Repository.UserRepository.Save: writing a user whose id is not in the store inserts it under that id; the persistence provider's handling of that case is not modelled.
- Transactions, SQL and the persistence context of the store.
