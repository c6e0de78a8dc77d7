/** The parts of a Flask request and of the API's `User` model that the
    authentication classes look at. */
module Http {

  /** An incoming request: its path, its headers and its cookies. */
  datatype Request = Request(path: string, headers: map<string, string>, cookies: map<string, string>)

  /** The name of the header HTTP Basic credentials travel in. */
  const AuthorizationName: string := "Authorization"

  /** A stored user of the API. Its password check is `User.is_valid_password`,
      which the models take as a parameter. */
  datatype User = User(id: string, email: string)
}
