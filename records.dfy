/** The records fetched from the REST API, holding the fields the rules read.
    JSON text is decoded into JavaScript strings, which are sequences of
    UTF-16 code units: `title.length` counts code units. */
module Records {

  newtype CodeUnit = x: int | 0 <= x < 0x1_0000

  type JsString = seq<CodeUnit>

  /** An element of `/posts`. */
  datatype Post = Post(id: int, userId: int, title: JsString, body: JsString)

  /** An element of `/comments`. */
  datatype Comment = Comment(id: int, postId: int, name: JsString, email: JsString, body: JsString)

  /** An element of `/users`: the five fields the users rule keeps, and every
      other field of the record (address, website, company, ...) by name. */
  datatype User = User(
    id: int, name: JsString, username: JsString, email: JsString, phone: JsString,
    otherFields: map<JsString, JsString>)

  /** The object literal `{id, name, username, email, phone}` built from a user. */
  datatype UserSummary = UserSummary(
    id: int, name: JsString, username: JsString, email: JsString, phone: JsString)

  /** An element of `/todos`. */
  datatype Todo = Todo(id: int, userId: int, title: JsString, completed: bool)

  /** Why a request's promise was rejected: the `error` event of the request. */
  datatype FetchError = TransportError(message: string)
}
