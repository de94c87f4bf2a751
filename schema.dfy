/** The rows of the four tables, the status codes the handlers answer with,
    and Python's truthiness of the optional JSON fields they read. */
module Schema {

  datatype Option<+T> = None | Some(value: T)

  /** The HTTP statuses of the handlers: 200, 400, 401, 403, 404, 409 and
      500 in order. `ServerError` stands for an uncaught exception, which
      Flask turns into 500. */
  datatype Status = Ok | BadRequest | Unauthorized | Forbidden | NotFound | Conflict | ServerError

  /** A row of `users` (its id is the key of the map that holds it). */
  datatype User = User(email: string, passwordHash: string, isAdmin: bool, isSuspended: bool, points: int)

  /** The row `register` inserts: every column it does not name keeps its
      schema default (not an admin, not suspended, no points). */
  function NewUser(email: string, passwordHash: string): User {
    User(email, passwordHash, false, false, 0)
  }

  /** A row of `items`. */
  datatype Item = Item(title: string, description: string, price: int, sellerId: int, imageUrl: Option<string>)

  /** A row of `reports`; a target column is `None` when it holds NULL. */
  datatype Report = Report(reporterId: int, targetUserId: Option<int>, targetItemId: Option<int>, reason: string)

  /** A row of `messages`. */
  datatype Message = Message(senderId: int, receiverId: int, body: string)

  /** What the chat channel emits into a room: the `status` event of a join
      and the `message` event of a sent message. */
  datatype Event = Joined(room: string, senderId: int) | Broadcast(room: string, senderId: int, body: string)

  /** What `/admin/users` shows of a user: no password hash, no points. */
  datatype UserSummary = UserSummary(email: string, isAdmin: bool, isSuspended: bool)

  /** Python truthiness of an optional integer field: present and not 0. */
  predicate Truthy(n: Option<int>) {
    n.Some? && n.value != 0
  }

  /** Python truthiness of an optional text field: present and not empty. */
  predicate Present(s: Option<string>) {
    s.Some? && s.value != []
  }
}
