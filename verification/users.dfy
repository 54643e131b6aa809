/** The user record shared by the repository and the handlers. */
module Users {

  /** One stored user. The password field holds a hash once stored and is
      never part of a response body. */
  datatype User = User(id: int, username: string, role: string, login: string, password: string)

  /** Go's zero value for the record, returned alongside "not found". */
  const ZeroUser: User := User(0, "", "", "", "")
}
