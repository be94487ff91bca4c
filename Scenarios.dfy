/**
 * A client of the service that follows one user through create, partial
 * update, a rejected complete update and a repeated delete, checking each
 * outcome against the service's contracts alone.
 */
module Scenarios {
  import opened Wrappers
  import opened Dates
  import opened Model
  import opened Exceptions
  import opened Repository
  import opened UserService
  import UserMapper

  method EndToEnd() {
    var repository := new UserRepository();
    var service := new UserServiceImpl(repository, 18);
    var today: Date := YearMonthDay(2024, 6, 15);

    // Create: the request maps to a user without an id, which is stored under a fresh one.
    var request := UserRequestDto(Some("a@x.com"), Some("A"), Some("B"), Some(YearMonthDay(1994, 6, 15)), None, None);
    var created := service.Save(UserMapper.ToModel(request), today);
    assert created.Success?;
    var id := created.value.id.value;
    assert repository.users == map[id := created.value];

    // Partial update of the first name only.
    var patch := UserUpdateDto(None, Some("A2"), None, None, None, None);
    var patched := service.UpdatePartial(id, patch, today);
    assert patched.Success? && patched.value.firstname == Some("A2") && patched.value.lastname == Some("B");

    // Complete update to a ten-year-old: rejected, and the stored record stays as it was.
    var replacement := UserRequestDto(Some("c@x.com"), Some("C"), Some("D"), Some(YearMonthDay(2014, 6, 15)), None, None);
    var replaced := service.UpdateComplete(id, replacement, today);
    assert replaced == Failure(UserAge(AgeMessage(18)));
    assert repository.users == map[id := patched.value];

    // Deleting twice leaves the same store as deleting once, and the user is gone.
    service.Delete(id);
    var afterOnce := repository.users;
    service.Delete(id);
    assert repository.users == afterOnce == map[];
    var missing := service.Get(id);
    assert missing == Failure(UserNotFound(IdNotFoundMessage(id)));
  }
}
