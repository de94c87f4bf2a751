/** The request handlers of the marketplace backend over an in-memory store.
    Each handler is one sequential step: it takes the claim `verify_token`
    returned for the request (None when the request has no valid token),
    the request's fields (None when a JSON field is missing), and answers
    with a status after changing the store. */
module App {
  import opened Schema
  import opened Text
  import opened Session
  import Ledger
  import Moderation
  import Chat

  /** No two users share an email: the UNIQUE constraint of `users.email`. */
  predicate UniqueEmails(users: map<int, User>) {
    forall a, b :: a in users && b in users && users[a].email == users[b].email ==> a == b
  }

  /** Some user has this email. */
  predicate EmailTaken(users: map<int, User>, email: string) {
    exists id :: id in users && users[id].email == email
  }

  /** The invariant of the store's tables and counters. */
  predicate Consistent(users: map<int, User>, items: map<int, Item>, messages: seq<Message>, events: seq<Event>,
                       nextUserId: int, nextItemId: int)
  {
    && 1 <= nextUserId && 1 <= nextItemId
    && (forall id :: id in users ==> 1 <= id < nextUserId)
    && (forall id :: id in items ==> 1 <= id < nextItemId)
    && UniqueEmails(users)
    && Ledger.NonNegative(users)
    && Chat.Deliveries(events) == Chat.Announcements(messages)
  }

  /** Moderation keeps the store consistent: it only sets suspension flags
      and only removes items. */
  lemma SubmitKeepsConsistent(b: Moderation.Board, reporterId: int, targetUser: Option<int>, targetItem: Option<int>,
                              reason: string, messages: seq<Message>, events: seq<Event>, nextUserId: int, nextItemId: int)
    requires Consistent(b.users, b.items, messages, events, nextUserId, nextItemId)
    ensures var after := Moderation.Submit(b, reporterId, targetUser, targetItem, reason).1;
      Consistent(after.users, after.items, messages, events, nextUserId, nextItemId)
  {
    var after := Moderation.Submit(b, reporterId, targetUser, targetItem, reason).1;
    assert forall u :: u in after.users ==> u in b.users && after.users[u].email == b.users[u].email;
  }

  class Shop {
    var users: map<int, User>
    var items: map<int, Item>
    var reports: seq<Report>
    var messages: seq<Message>
    /** Everything the chat channel has emitted, in order. */
    var events: seq<Event>
    /** The next AUTOINCREMENT id of `users` and of `items`. */
    var nextUserId: int
    var nextItemId: int

    /** The store's invariant: ids below their counters, unique emails,
        no negative balance, and every broadcast matched, in order, by a
        persisted message. */
    ghost predicate Valid()
      reads this
    {
      Consistent(users, items, messages, events, nextUserId, nextItemId)
    }

    /** An empty database, as the table definitions create it. */
    constructor ()
      ensures Valid()
      ensures users == map[] && items == map[] && reports == [] && messages == [] && events == []
      ensures nextUserId == 1 && nextItemId == 1
    {
      users, items, reports, messages, events := map[], map[], [], [], [];
      nextUserId, nextItemId := 1, 1;
    }

    /** `register`: `hashed` is the bcrypt hash of `password` (computed with
        a random salt outside the model). */
    method Register(email: Option<string>, password: Option<string>, hashed: string) returns (status: Status)
      requires Valid()
      modifies this`users, this`nextUserId
      ensures Valid()
      ensures status == BadRequest <==> !Present(email) || !Present(password)
      ensures status == Conflict <==> Present(email) && Present(password) && EmailTaken(old(users), email.value)
      ensures status == Ok <==> Present(email) && Present(password) && !EmailTaken(old(users), email.value)
      ensures status != Ok ==> users == old(users) && nextUserId == old(nextUserId)
      ensures status == Ok ==> old(nextUserId) !in old(users)
      ensures status == Ok ==> users == old(users)[old(nextUserId) := NewUser(email.value, hashed)]
      ensures status == Ok ==> nextUserId == old(nextUserId) + 1
    {
      if !Present(email) || !Present(password) {
        return BadRequest;
      }
      if EmailTaken(users, email.value) {
        return Conflict;
      }
      users := users[nextUserId := NewUser(email.value, hashed)];
      nextUserId := nextUserId + 1;
      status := Ok;
    }

    /** `login`: looks the email up, then applies `LoginCheck`; on success it
        returns the claim of the token it signs at `now`. `checkPassword` is
        bcrypt's check of a password against a stored hash. */
    method Login(email: Option<string>, password: Option<string>, checkPassword: (string, string) -> bool, now: int)
      returns (status: Status, claim: Option<Claim>)
      requires Valid()
      ensures status == NotFound <==> email.None? || !EmailTaken(users, email.value)
      ensures forall id :: id in users && email == Some(users[id].email) ==>
        status == LoginCheck(users[id], password, checkPassword)
        && (status == Ok ==> claim == Some(IssueClaim(id, users[id].isAdmin, now)))
      ensures claim.Some? <==> status == Ok
    {
      if email.None? || !EmailTaken(users, email.value) {
        return NotFound, None;
      }
      var id :| id in users && users[id].email == email.value;
      status := LoginCheck(users[id], password, checkPassword);
      claim := if status == Ok then Some(IssueClaim(id, users[id].isAdmin, now)) else None;
    }

    /** `create_item`: the title (after HTML escaping, which keeps it empty
        or not) and the price must be truthy; the caller becomes the seller. */
    method CreateItem(payload: Option<Claim>, title: Option<string>, description: string, price: Option<int>,
                      imageUrl: Option<string>)
      returns (status: Status)
      requires Valid()
      modifies this`items, this`nextItemId
      ensures Valid()
      ensures status == Unauthorized <==> payload.None?
      ensures status == BadRequest <==> payload.Some? && (!Present(title) || !Truthy(price))
      ensures status == Ok <==> payload.Some? && Present(title) && Truthy(price)
      ensures status != Ok ==> items == old(items) && nextItemId == old(nextItemId)
      ensures status == Ok ==> old(nextItemId) !in old(items)
      ensures status == Ok ==>
        items == old(items)[old(nextItemId) := Item(title.value, description, price.value, payload.value.userId, imageUrl)]
      ensures status == Ok ==> nextItemId == old(nextItemId) + 1
    {
      if payload.None? {
        return Unauthorized;
      }
      if !Present(title) || !Truthy(price) {
        return BadRequest;
      }
      items := items[nextItemId := Item(title.value, description, price.value, payload.value.userId, imageUrl)];
      nextItemId := nextItemId + 1;
      status := Ok;
    }

    /** `update_item`: only the seller may change the price. A missing price
        would write NULL into a NOT NULL column, which raises. */
    method UpdateItem(payload: Option<Claim>, itemId: int, price: Option<int>) returns (status: Status)
      requires Valid()
      modifies this`items
      ensures Valid()
      ensures status == Unauthorized <==> payload.None?
      ensures status == Forbidden <==> payload.Some? && !OwnsItem(old(items), itemId, payload.value.userId)
      ensures status == ServerError <==> payload.Some? && OwnsItem(old(items), itemId, payload.value.userId) && price.None?
      ensures status == Ok <==> payload.Some? && OwnsItem(old(items), itemId, payload.value.userId) && price.Some?
      ensures status != Ok ==> items == old(items)
      ensures status == Ok ==> items == old(items)[itemId := old(items)[itemId].(price := price.value)]
    {
      if payload.None? {
        return Unauthorized;
      }
      if !OwnsItem(items, itemId, payload.value.userId) {
        return Forbidden;
      }
      if price.None? {
        return ServerError;
      }
      items := items[itemId := items[itemId].(price := price.value)];
      status := Ok;
    }

    /** `delete_item`: only the seller may delete the item. */
    method DeleteItem(payload: Option<Claim>, itemId: int) returns (status: Status)
      requires Valid()
      modifies this`items
      ensures Valid()
      ensures status == Unauthorized <==> payload.None?
      ensures status == Forbidden <==> payload.Some? && !OwnsItem(old(items), itemId, payload.value.userId)
      ensures status == Ok <==> payload.Some? && OwnsItem(old(items), itemId, payload.value.userId)
      ensures status != Ok ==> items == old(items)
      ensures status == Ok ==> items == old(items) - {itemId} && itemId in old(items)
    {
      if payload.None? {
        return Unauthorized;
      }
      if !OwnsItem(items, itemId, payload.value.userId) {
        return Forbidden;
      }
      items := items - {itemId};
      status := Ok;
    }

    /** `get_all_users`: admins only; a missing token is refused with 403
        too. Shows every user without the password hash and the points. */
    method GetAllUsers(payload: Option<Claim>) returns (status: Status, listing: map<int, UserSummary>)
      requires Valid()
      ensures status == Ok <==> IsAdmin(payload)
      ensures status != Ok ==> status == Forbidden && listing == map[]
      ensures status == Ok ==> listing.Keys == users.Keys
      ensures status == Ok ==> forall id :: id in listing ==>
        listing[id] == UserSummary(users[id].email, users[id].isAdmin, users[id].isSuspended)
    {
      if !IsAdmin(payload) {
        return Forbidden, map[];
      }
      listing := map id | id in users :: UserSummary(users[id].email, users[id].isAdmin, users[id].isSuspended);
      status := Ok;
    }

    /** `suspend_user`: admins only; an unknown id is not an error. */
    method SuspendUser(payload: Option<Claim>, userId: int) returns (status: Status)
      requires Valid()
      modifies this`users
      ensures Valid()
      ensures status == Ok <==> IsAdmin(payload)
      ensures status != Ok ==> status == Forbidden && users == old(users)
      ensures status == Ok ==> users == if userId in old(users)
                                        then old(users)[userId := old(users)[userId].(isSuspended := true)]
                                        else old(users)
    {
      if !IsAdmin(payload) {
        return Forbidden;
      }
      if userId in users {
        users := users[userId := users[userId].(isSuspended := true)];
      }
      status := Ok;
    }

    /** `report`: refuses an unauthenticated request, then answers and
        changes the store as `Moderation.Submit` says: validate, store the
        report with its stripped reason, and apply the moderation rules of
        `Moderation.File`. A missing reason is the empty string. */
    method FileReport(payload: Option<Claim>, targetUser: Option<int>, targetItem: Option<int>, reason: string)
      returns (status: Status)
      requires Valid()
      modifies this`users, this`items, this`reports
      ensures Valid()
      ensures payload.None? ==> status == Unauthorized && users == old(users) && items == old(items) && reports == old(reports)
      ensures payload.Some? ==>
        (status, Moderation.Board(users, items, reports))
        == Moderation.Submit(Moderation.Board(old(users), old(items), old(reports)),
                             payload.value.userId, targetUser, targetItem, reason)
    {
      if payload.None? {
        return Unauthorized;
      }
      var before := Moderation.Board(users, items, reports);
      var outcome := Moderation.Submit(before, payload.value.userId, targetUser, targetItem, reason);
      SubmitKeepsConsistent(before, payload.value.userId, targetUser, targetItem, reason, messages, events, nextUserId, nextItemId);
      status := outcome.0;
      users, items, reports := outcome.1.users, outcome.1.items, outcome.1.reports;
    }

    /** `transfer_points`: the caller sends `amount` points to `recipientId`.
        The answer is `Ledger.Answer`, and only an accepted transfer touches
        a balance. */
    method TransferPoints(payload: Option<Claim>, recipientId: int, amount: int) returns (status: Status)
      requires Valid()
      modifies this`users
      ensures Valid()
      ensures payload.None? ==> status == Unauthorized && users == old(users)
      ensures payload.Some? ==>
        var m := Ledger.Move(payload.value.userId, recipientId, amount);
        status == Ledger.Answer(old(users), m) && users == Ledger.Step(old(users), m)
      ensures Ledger.Total(users) == Ledger.Total(old(users))
    {
      if payload.None? {
        return Unauthorized;
      }
      var sender := payload.value.userId;
      if recipientId == 0 || amount <= 0 {
        return BadRequest;
      }
      if sender !in users || users[sender].points < amount {
        return Forbidden;
      }
      if recipientId !in users {
        return NotFound;
      }
      ghost var before := users;
      users := Ledger.Credit(users, sender, -amount);
      users := Ledger.Credit(users, recipientId, amount);
      Ledger.TransferConserves(before, sender, recipientId, amount);
      Ledger.TransferKeepsNonNegative(before, sender, recipientId, amount);
      status := Ok;
    }

    /** `handle_join`: announces the sender in the room of the pair. */
    method HandleJoin(senderId: int, receiverId: int)
      requires Valid()
      modifies this`events
      ensures Valid()
      ensures events == old(events) + [Joined(Chat.RoomName(senderId, receiverId), senderId)]
    {
      Chat.DeliveriesAppend(events, Joined(Chat.RoomName(senderId, receiverId), senderId));
      events := events + [Joined(Chat.RoomName(senderId, receiverId), senderId)];
    }

    /** `handle_message`: persists the message, then broadcasts it to the
        room of the pair. */
    method HandleMessage(senderId: int, receiverId: int, body: string)
      requires Valid()
      modifies this`messages, this`events
      ensures Valid()
      ensures messages == old(messages) + [Message(senderId, receiverId, body)]
      ensures events == old(events) + [Broadcast(Chat.RoomName(senderId, receiverId), senderId, body)]
    {
      var m := Message(senderId, receiverId, body);
      Chat.AnnouncementsAppend(messages, m);
      messages := messages + [m];
      Chat.DeliveriesAppend(events, Chat.Announce(m));
      events := events + [Chat.Announce(m)];
    }
  }
}
