/**
 * The user service: the business rules applied to user records before they
 * reach the store. The decisions (required fields, minimum age, range
 * validity, the two update merges) are pure functions; the service class
 * holds the store and the configured minimum age and changes the store.
 */
module UserService {
  import opened Wrappers
  import opened JavaText
  import opened Dates
  import opened Model
  import opened Exceptions
  import opened Repository
  import UserMapper

  const EMPTY_FIELDS_MESSAGE: string := "One or more fields are missing: email, firstname, lastname, birthdate"
  const RANGE_MESSAGE: string := "All fields are required and birthdate from should be less than birthdate to"
  const NULL_USER_MESSAGE: string := "Can't update a null user"

  function IdNotFoundMessage(id: Id): string {
    "User with id " + IntToString(id) + " not found"
  }

  function EmailNotFoundMessage(email: string): string {
    "User with email: " + email + " not found"
  }

  function AgeMessage(minAge: int): string {
    "User must be at least " + IntToString(minAge) + " years old."
  }

  /** A not-found message identifies the id that was looked up. */
  lemma IdNotFoundMessageNamesId(a: Id, b: Id)
    ensures IdNotFoundMessage(a) == IdNotFoundMessage(b) ==> a == b
  {
    if IdNotFoundMessage(a) == IdNotFoundMessage(b) {
      ConcatMiddleDeterminesPart("User with id ", IntToString(a), IntToString(b), " not found");
      IntToStringInjective(a, b);
    }
  }

  /** A not-found message identifies the email that was looked up. */
  lemma EmailNotFoundMessageNamesEmail(a: string, b: string)
    ensures EmailNotFoundMessage(a) == EmailNotFoundMessage(b) ==> a == b
  {
    if EmailNotFoundMessage(a) == EmailNotFoundMessage(b) {
      ConcatMiddleDeterminesPart("User with email: ", a, b, " not found");
    }
  }

  // ---------------------------------------------------------------------------
  // Decisions

  /** The create-time presence test: only null counts as missing, an empty string does not. */
  predicate MissingRequiredFields(user: User) {
    user.firstname.None? || user.lastname.None? || user.birthdate.None? || user.email.None?
  }

  /** `checkAge`: a known birthdate strictly after `today.minusYears(minAge)` is too young. */
  predicate IsTooYoung(birthdate: Option<Date>, today: Date, minAge: int) {
    birthdate.Some? && IsAfter(birthdate.value, MinusYears(today, minAge))
  }

  /** The range test of `findByBirthDateRange`: both bounds present, `from` strictly first. */
  predicate IsValidRange(from: Option<Date>, to: Option<Date>) {
    from.Some? && to.Some? && IsBefore(from.value, to.value)
  }

  /** Only null counts as missing: required fields that are empty strings pass the presence test. */
  lemma BlankRequiredFieldsPass(user: User)
    requires user.email == Some("") && user.firstname == Some("") && user.lastname == Some("")
    requires user.birthdate.Some?
    ensures !MissingRequiredFields(user)
  {
  }

  /**
   * The age check rejects exactly the birthdates of people who have had
   * fewer than `minAge` birthdays by `today`; an unknown birthdate is never rejected.
   */
  lemma IsTooYoungIffUnderAge(birthdate: Option<Date>, today: Date, minAge: int)
    ensures birthdate.None? ==> !IsTooYoung(birthdate, today, minAge)
    ensures birthdate.Some? ==>
      (IsTooYoung(birthdate, today, minAge) <==> AgeInYears(birthdate.value, today) < minAge)
  {
    if birthdate.Some? {
      NotAfterCutoffIffOldEnough(birthdate.value, today, minAge);
    }
  }

  /** Born exactly `minAge` years before today is old enough; one day later is not. */
  lemma IsTooYoungBoundary(today: Date, minAge: int, birth: Date)
    ensures !IsTooYoung(Some(MinusYears(today, minAge)), today, minAge)
    ensures IsBefore(MinusYears(today, minAge), birth) ==> IsTooYoung(Some(birth), today, minAge)
  {
  }

  /** An older birthdate than an accepted one is accepted too. */
  lemma IsTooYoungMonotone(older: Date, younger: Date, today: Date, minAge: int)
    requires IsBefore(older, younger) && !IsTooYoung(Some(younger), today, minAge)
    ensures !IsTooYoung(Some(older), today, minAge)
  {
  }

  /** A missing bound, equal bounds and reversed bounds are all rejected; strictly ordered bounds are accepted. */
  lemma IsValidRangeCases(from: Option<Date>, to: Option<Date>)
    ensures from.None? || to.None? ==> !IsValidRange(from, to)
    ensures from.Some? && to.Some? ==>
      (IsValidRange(from, to) <==> from.value != to.value && !IsBefore(to.value, from.value))
  {
    if from.Some? && to.Some? {
      IsBeforeStrictTotalOrder(from.value, to.value, from.value);
    }
  }

  // ---------------------------------------------------------------------------
  // The two update modes

  /**
   * The partial update: text fields other than the phone number are taken
   * from the request only when non-null and non-empty; birthdate and phone
   * number whenever non-null; the id never.
   */
  function MergePartial(user: User, request: UserUpdateDto): User {
    User(
      user.id,
      if HasText(request.email) then request.email else user.email,
      if HasText(request.firstname) then request.firstname else user.firstname,
      if HasText(request.lastname) then request.lastname else user.lastname,
      if request.birthdate.Some? then request.birthdate else user.birthdate,
      if HasText(request.address) then request.address else user.address,
      if request.phoneNumber.Some? then request.phoneNumber else user.phoneNumber)
  }

  /** The complete update: all six fields replaced as given, nulls included; the id kept. */
  function ReplaceFields(user: User, request: UserRequestDto): User {
    User(user.id, request.email, request.firstname, request.lastname,
         request.birthdate, request.address, request.phoneNumber)
  }

  /** A field changes under a partial update only when the request supplies a value the rule accepts. */
  lemma MergePartialChangesOnlySupplied(user: User, request: UserUpdateDto)
    ensures MergePartial(user, request).id == user.id
    ensures MergePartial(user, request).email != user.email ==> HasText(request.email)
    ensures MergePartial(user, request).firstname != user.firstname ==> HasText(request.firstname)
    ensures MergePartial(user, request).lastname != user.lastname ==> HasText(request.lastname)
    ensures MergePartial(user, request).address != user.address ==> HasText(request.address)
    ensures MergePartial(user, request).birthdate != user.birthdate ==> request.birthdate.Some?
    ensures MergePartial(user, request).phoneNumber != user.phoneNumber ==> request.phoneNumber.Some?
  {
  }

  /** Every value the rule accepts is applied as supplied. */
  lemma MergePartialAppliesSupplied(user: User, request: UserUpdateDto)
    ensures HasText(request.email) ==> MergePartial(user, request).email == request.email
    ensures HasText(request.firstname) ==> MergePartial(user, request).firstname == request.firstname
    ensures HasText(request.lastname) ==> MergePartial(user, request).lastname == request.lastname
    ensures HasText(request.address) ==> MergePartial(user, request).address == request.address
    ensures request.birthdate.Some? ==> MergePartial(user, request).birthdate == request.birthdate
    ensures request.phoneNumber.Some? ==> MergePartial(user, request).phoneNumber == request.phoneNumber
  {
  }

  /** An empty request leaves the user as it was. */
  lemma MergePartialEmptyRequest(user: User)
    ensures MergePartial(user, UserUpdateDto(None, None, None, None, None, None)) == user
  {
  }

  /** Applying the same partial update twice is the same as applying it once. */
  lemma MergePartialIdempotent(user: User, request: UserUpdateDto)
    ensures MergePartial(MergePartial(user, request), request) == MergePartial(user, request)
  {
  }

  /**
   * An empty string clears the phone number but no other field: a request
   * whose text fields are all "" changes the phone number alone.
   */
  lemma MergePartialEmptyStringClearsOnlyPhone(user: User)
    ensures MergePartial(user, UserUpdateDto(Some(""), Some(""), Some(""), None, Some(""), Some("")))
      == user.(phoneNumber := Some(""))
  {
  }

  /** A partial update never takes away a required field the user had. */
  lemma MergePartialKeepsRequiredFields(user: User, request: UserUpdateDto)
    requires !MissingRequiredFields(user)
    ensures !MissingRequiredFields(MergePartial(user, request))
  {
  }

  /** The request record of a complete update, read as a partial update. */
  function AsUpdate(request: UserRequestDto): UserUpdateDto {
    UserUpdateDto(request.email, request.firstname, request.lastname,
                  request.birthdate, request.address, request.phoneNumber)
  }

  /** When every field is supplied with a value the partial rules accept, the two modes agree. */
  lemma MergePartialOfFullRequestIsReplace(user: User, request: UserRequestDto)
    requires HasText(request.email) && HasText(request.firstname) && HasText(request.lastname)
    requires HasText(request.address) && request.birthdate.Some? && request.phoneNumber.Some?
    ensures MergePartial(user, AsUpdate(request)) == ReplaceFields(user, request)
  {
  }

  /** A complete update is the mapped request, given the stored user's id. */
  lemma ReplaceFieldsIsMappedRequest(user: User, request: UserRequestDto)
    ensures ReplaceFields(user, request) == UserMapper.ToModel(request).(id := user.id)
  {
  }

  /** After a complete update nothing of the old values remains but the id. */
  lemma ReplaceFieldsForgetsOldValues(a: User, b: User, request: UserRequestDto)
    requires a.id == b.id
    ensures ReplaceFields(a, request) == ReplaceFields(b, request)
  {
  }

  /**
   * A complete update whose request has no birthdate removes the stored
   * birthdate, and the age check lets it through.
   */
  lemma ReplaceFieldsMayDropBirthdate(user: User, request: UserRequestDto, today: Date, minAge: int)
    requires request.birthdate.None?
    ensures ReplaceFields(user, request).birthdate.None?
    ensures !IsTooYoung(ReplaceFields(user, request).birthdate, today, minAge)
  {
  }

  // ---------------------------------------------------------------------------
  // The service

  class UserServiceImpl {
    const repository: UserRepository
    /** The configured `user.min_age`. */
    const minAge: int

    constructor (repository: UserRepository, minAge: int)
      ensures this.repository == repository && this.minAge == minAge
    {
      this.repository := repository;
      this.minAge := minAge;
    }

    ghost predicate Valid()
      reads repository
    {
      repository.Valid()
    }

    /** `get`: the stored user, or not-found naming the id. */
    method Get(id: Id) returns (r: Result<User, Exception>)
      ensures id in repository.users ==> r == Success(repository.users[id])
      ensures id !in repository.users ==> r == Failure(UserNotFound(IdNotFoundMessage(id)))
    {
      var found := repository.FindById(id);
      if found.None? {
        return Failure(UserNotFound(IdNotFoundMessage(id)));
      }
      return Success(found.value);
    }

    /**
     * `save`: rejects a user lacking a required field, then one too young,
     * and otherwise stores it; the store is untouched on rejection.
     */
    method Save(user: User, today: Date) returns (r: Result<User, Exception>)
      requires Valid()
      modifies repository
      ensures Valid()
      ensures r.Success? <==> !MissingRequiredFields(user) && !IsTooYoung(user.birthdate, today, minAge)
      ensures MissingRequiredFields(user) ==> r == Failure(UserEmptyFields(EMPTY_FIELDS_MESSAGE))
      ensures !MissingRequiredFields(user) && IsTooYoung(user.birthdate, today, minAge) ==>
        r == Failure(UserAge(AgeMessage(minAge)))
      ensures r.Failure? ==> unchanged(repository)
      ensures r.Success? ==>
        && r.value.id.Some?
        && r.value == user.(id := r.value.id)
        && (user.id.Some? ==> r.value == user)
        && (user.id.None? ==> r.value.id.value !in old(repository.users))
        && repository.users == old(repository.users)[r.value.id.value := r.value]
    {
      if user.firstname.None? || user.lastname.None? || user.birthdate.None? || user.email.None? {
        return Failure(UserEmptyFields(EMPTY_FIELDS_MESSAGE));
      }
      if IsTooYoung(user.birthdate, today, minAge) {
        return Failure(UserAge(AgeMessage(minAge)));
      }
      var saved := repository.Save(user);
      return Success(saved);
    }

    /** `update`: a user without an id is rejected; otherwise it is written under its id. */
    method Update(user: User) returns (r: Result<User, Exception>)
      requires Valid()
      modifies repository
      ensures Valid()
      ensures user.id.None? ==> r == Failure(UserNotFound(NULL_USER_MESSAGE)) && unchanged(repository)
      ensures user.id.Some? ==>
        r == Success(user) && repository.users == old(repository.users)[user.id.value := user]
      ensures user.id.Some? && user.id.value in old(repository.users) ==>
        repository.nextId == old(repository.nextId)
    {
      if user.id.None? {
        return Failure(UserNotFound(NULL_USER_MESSAGE));
      }
      var saved := repository.Save(user);
      return Success(saved);
    }

    /** `delete`: removes the id if present; never fails. */
    method Delete(id: Id)
      requires Valid()
      modifies repository
      ensures Valid()
      ensures repository.users == old(repository.users) - {id}
      ensures repository.nextId == old(repository.nextId)
    {
      repository.DeleteById(id);
    }

    /** `findByEmail`: a stored user with that email, or not-found naming the email. */
    method FindByEmail(email: string) returns (r: Result<User, Exception>)
      ensures r.Success? ==> r.value in repository.users.Values && r.value.email == Some(email)
      ensures r.Failure? <==> forall k :: k in repository.users ==> repository.users[k].email != Some(email)
      ensures r.Failure? ==> r.error == UserNotFound(EmailNotFoundMessage(email))
    {
      var found := repository.FindByEmail(email);
      if found.None? {
        return Failure(UserNotFound(EmailNotFoundMessage(email)));
      }
      return Success(found.value);
    }

    /**
     * `findByBirthDateRange`: rejects an invalid range; otherwise every stored
     * user born within [from, to], each once.
     */
    method FindByBirthDateRange(from: Option<Date>, to: Option<Date>) returns (r: Result<seq<User>, Exception>)
      requires Valid()
      ensures r.Success? <==> IsValidRange(from, to)
      ensures r.Failure? ==> r.error == UserBirthdate(RANGE_MESSAGE)
      ensures r.Success? ==>
        forall u :: u in r.value <==> u in repository.users.Values && BirthdateBetween(u, from.value, to.value)
      ensures r.Success? ==> forall i, j :: 0 <= i < j < |r.value| ==> r.value[i] != r.value[j]
    {
      if from.Some? && to.Some? && IsBefore(from.value, to.value) {
        var users := repository.FindByBirthdateBetween(from.value, to.value);
        return Success(users);
      }
      return Failure(UserBirthdate(RANGE_MESSAGE));
    }

    /**
     * `updatePartial`: not-found for an unknown id; otherwise the merged user,
     * stored only if it passes the age check.
     */
    method UpdatePartial(id: Id, request: UserUpdateDto, today: Date) returns (r: Result<User, Exception>)
      requires Valid()
      modifies repository
      ensures Valid()
      ensures repository.nextId == old(repository.nextId)
      ensures id !in old(repository.users) ==>
        r == Failure(UserNotFound(IdNotFoundMessage(id))) && repository.users == old(repository.users)
      ensures id in old(repository.users) ==>
        var merged := MergePartial(old(repository.users)[id], request);
        if IsTooYoung(merged.birthdate, today, minAge) then
          r == Failure(UserAge(AgeMessage(minAge))) && repository.users == old(repository.users)
        else
          r == Success(merged) && repository.users == old(repository.users)[id := merged]
    {
      var found := Get(id);
      if found.Failure? {
        return found;
      }
      var user := found.value;
      if request.email.Some? && |request.email.value| > 0 {
        user := user.(email := request.email);
      }
      if request.firstname.Some? && |request.firstname.value| > 0 {
        user := user.(firstname := request.firstname);
      }
      if request.lastname.Some? && |request.lastname.value| > 0 {
        user := user.(lastname := request.lastname);
      }
      if request.birthdate.Some? {
        user := user.(birthdate := request.birthdate);
      }
      if request.address.Some? && |request.address.value| > 0 {
        user := user.(address := request.address);
      }
      if request.phoneNumber.Some? {
        user := user.(phoneNumber := request.phoneNumber);
      }
      if IsTooYoung(user.birthdate, today, minAge) {
        return Failure(UserAge(AgeMessage(minAge)));
      }
      r := Update(user);
    }

    /**
     * `updateComplete`: not-found for an unknown id; otherwise every field
     * replaced, stored only if the new birthdate passes the age check.
     */
    method UpdateComplete(id: Id, request: UserRequestDto, today: Date) returns (r: Result<User, Exception>)
      requires Valid()
      modifies repository
      ensures Valid()
      ensures repository.nextId == old(repository.nextId)
      ensures id !in old(repository.users) ==>
        r == Failure(UserNotFound(IdNotFoundMessage(id))) && repository.users == old(repository.users)
      ensures id in old(repository.users) ==>
        var replaced := ReplaceFields(old(repository.users)[id], request);
        if IsTooYoung(request.birthdate, today, minAge) then
          r == Failure(UserAge(AgeMessage(minAge))) && repository.users == old(repository.users)
        else
          r == Success(replaced) && repository.users == old(repository.users)[id := replaced]
    {
      var found := Get(id);
      if found.Failure? {
        return found;
      }
      var user := found.value;
      user := user.(email := request.email);
      user := user.(firstname := request.firstname);
      user := user.(lastname := request.lastname);
      user := user.(birthdate := request.birthdate);
      user := user.(address := request.address);
      user := user.(phoneNumber := request.phoneNumber);
      if IsTooYoung(user.birthdate, today, minAge) {
        return Failure(UserAge(AgeMessage(minAge)));
      }
      r := Update(user);
    }
  }
}
