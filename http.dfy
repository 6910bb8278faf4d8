/**
 * What the request handlers see of HTTP: the session that survives between
 * requests, the caller a request resolves to, and the response it gets.
 */
module Http {
  import opened Wrappers
  import opened Schema

  /** The login session keeps the id of the logged-in user and nothing else. */
  datatype Session = Session(userId: Option<int>)

  /** Who a request comes from once its session has been resolved. */
  datatype Caller = Anonymous | SignedIn(user: User)

  /** The payload of a response: nothing beyond the status line, a JSON
      user, item or list of items, a JSON message, or the validation errors
      of a rejected body. */
  datatype Body =
    | NoBody
    | UserJson(user: User)
    | ItemJson(item: Item)
    | ItemsJson(items: seq<Item>)
    | Message(text: string)
    | ValidationErrors

  datatype Response = Response(status: int, body: Body)
}
