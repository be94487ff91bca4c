/** Field copying between the entity and its request/response records. */
module UserMapper {
  import opened Wrappers
  import opened Model

  /** The response record for a stored user: all seven fields, id included. */
  function ToDto(model: User): (dto: UserResponseDto)
    ensures dto.id == model.id
    ensures dto.email == model.email && dto.firstname == model.firstname && dto.lastname == model.lastname
    ensures dto.birthdate == model.birthdate
    ensures dto.address == model.address && dto.phoneNumber == model.phoneNumber
  {
    UserResponseDto(model.id, model.email, model.firstname, model.lastname,
                    model.birthdate, model.address, model.phoneNumber)
  }

  /** A new, not yet stored user built from a request: the id is never set by a client. */
  function ToModel(request: UserRequestDto): (user: User)
    ensures user.id == None
    ensures user.email == request.email && user.firstname == request.firstname
    ensures user.lastname == request.lastname && user.birthdate == request.birthdate
    ensures user.address == request.address && user.phoneNumber == request.phoneNumber
  {
    User(None, request.email, request.firstname, request.lastname,
         request.birthdate, request.address, request.phoneNumber)
  }

  /** The response record loses nothing: different users give different responses. */
  lemma ToDtoInjective(a: User, b: User)
    ensures ToDto(a) == ToDto(b) ==> a == b
  {
  }

  /** A request mapped to a user and back to a response keeps its six fields and has no id. */
  lemma ToDtoOfToModel(request: UserRequestDto)
    ensures ToDto(ToModel(request)).id == None
    ensures ToDto(ToModel(request)) == UserResponseDto(None, request.email, request.firstname,
      request.lastname, request.birthdate, request.address, request.phoneNumber)
  {
  }
}
