/** What a request handler sends back: a status code and a JSON body. */
module Http {

  /** The user object a successful login returns: the password is not part of it. */
  datatype Profile = Profile(id: nat, username: string, email: string)

  datatype Body =
    | Message(text: string)                                 // { message }
    | Failure(text: string)                                 // { error }
    | Session(text: string, token: string, user: Profile)  // { message, token, user }

  datatype Reply = Reply(status: nat, body: Body)
}
