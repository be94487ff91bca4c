/**
 * The user entity and the three data-transfer records exchanged with the
 * HTTP layer. Every Java reference field may be null, so every field is an
 * `Option`.
 */
module Model {
  import opened Wrappers
  import opened Dates

  /** The store's key type (a Java `Long`; its 64-bit range is not modelled). */
  type Id = int

  /** The `users` table row: `id` is assigned by the store, never by a client. */
  datatype User = User(
    id: Option<Id>,
    email: Option<string>,
    firstname: Option<string>,
    lastname: Option<string>,
    birthdate: Option<Date>,
    address: Option<string>,
    phoneNumber: Option<string>)

  /** Body of a create (POST) or complete update (PUT) request. */
  datatype UserRequestDto = UserRequestDto(
    email: Option<string>,
    firstname: Option<string>,
    lastname: Option<string>,
    birthdate: Option<Date>,
    address: Option<string>,
    phoneNumber: Option<string>)

  /** Body of a partial update (PATCH) request: the same six optional fields. */
  datatype UserUpdateDto = UserUpdateDto(
    email: Option<string>,
    firstname: Option<string>,
    lastname: Option<string>,
    birthdate: Option<Date>,
    address: Option<string>,
    phoneNumber: Option<string>)

  /** What every endpoint returns for a user. */
  datatype UserResponseDto = UserResponseDto(
    id: Option<Id>,
    email: Option<string>,
    firstname: Option<string>,
    lastname: Option<string>,
    birthdate: Option<Date>,
    address: Option<string>,
    phoneNumber: Option<string>)

  /** `s != null && !s.isEmpty()`: the test the partial update applies to text fields. */
  predicate HasText(s: Option<string>) {
    s.Some? && |s.value| > 0
  }
}
