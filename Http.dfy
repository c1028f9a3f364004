/** The JSON responses the handlers write: a status code and a body. None
    of the body shapes has a field for the password hash. */
module Http {

  /** `newUser.rows[0]` of `INSERT ... RETURNING id, name, email, created_at`. */
  datatype NewUser = NewUser(id: nat, name: string, email: string, createdAt: int)

  /** The `user` object of a successful login: `{ id, name, email }`. */
  datatype UserSummary = UserSummary(id: nat, name: string, email: string)

  /** Both `Registered.newUser` and `LoggedIn.user` are the JSON key `user`. */
  datatype Body =
    | Message(message: string)
    | Registered(message: string, newUser: NewUser)
    | LoggedIn(message: string, token: string, user: UserSummary)

  datatype Response = Response(status: nat, body: Body)
}
