/** The point ledger: balances live in the `points` column of `users`, and a
    transfer moves points from the sender's row to the recipient's. */
module Ledger {
  import opened Schema

  /** No account holds a negative balance. */
  predicate NonNegative(users: map<int, User>) {
    forall id :: id in users ==> users[id].points >= 0
  }

  /** Some account of a non-empty map, the one `Total` takes first. */
  ghost function Pick(users: map<int, User>): (id: int)
    requires users != map[]
    ensures id in users
  {
    assert exists id :: id in users by {
      if forall id :: id !in users { assert false; }
    }
    var id :| id in users; id
  }

  /** The sum of all balances. */
  ghost function Total(users: map<int, User>): int
    decreases |users|
  {
    if users == map[] then 0
    else
      var id := Pick(users);
      users[id].points + Total(users - {id})
  }

  /** The total splits into any one account and the rest. */
  lemma {:induction false} TotalRemove(users: map<int, User>, id: int)
    requires id in users
    ensures Total(users) == users[id].points + Total(users - {id})
    decreases |users|
  {
    var j := Pick(users);
    if j != id {
      TotalRemove(users - {j}, id);
      TotalRemove(users - {id}, j);
      assert users - {j} - {id} == users - {id} - {j};
    }
  }

  /** `UPDATE users SET points = points + delta WHERE id = ?` on an existing row. */
  function Credit(users: map<int, User>, id: int, delta: int): (r: map<int, User>)
    requires id in users
    ensures id in r && r[id] == users[id].(points := users[id].points + delta)
    ensures r == users[id := r[id]]
  {
    users[id := users[id].(points := users[id].points + delta)]
  }

  /** Crediting one account by `delta` raises the total by exactly `delta`. */
  lemma {:induction false} TotalCredit(users: map<int, User>, id: int, delta: int)
    requires id in users
    ensures Total(Credit(users, id, delta)) == Total(users) + delta
  {
    var r := Credit(users, id, delta);
    TotalRemove(users, id);
    TotalRemove(r, id);
    assert r - {id} == users - {id};
  }

  /** The two UPDATEs of a transfer, in the source's order: debit the
      sender, then credit the recipient as the first UPDATE left it. */
  function Transfer(users: map<int, User>, sender: int, recipient: int, amount: int): (r: map<int, User>)
    requires sender in users && recipient in users
    ensures r.Keys == users.Keys
    ensures sender != recipient ==> r[sender].points == users[sender].points - amount
    ensures sender != recipient ==> r[recipient].points == users[recipient].points + amount
    ensures sender == recipient ==> r == users
    ensures forall id :: id in users && id != sender && id != recipient ==> r[id] == users[id]
    ensures forall id :: id in users ==> r[id] == users[id].(points := r[id].points)
  {
    Credit(Credit(users, sender, -amount), recipient, amount)
  }

  /** A transfer neither creates nor destroys points. */
  lemma TransferConserves(users: map<int, User>, sender: int, recipient: int, amount: int)
    requires sender in users && recipient in users
    ensures Total(Transfer(users, sender, recipient, amount)) == Total(users)
  {
    var debited := Credit(users, sender, -amount);
    var credited := Credit(debited, recipient, amount);
    TotalCredit(users, sender, -amount);
    var before, middle := Total(users), Total(debited);
    assert middle == before - amount;
    TotalCredit(debited, recipient, amount);
    assert Total(credited) == middle + amount;
    assert Transfer(users, sender, recipient, amount) == credited;
  }

  /** A transfer the sender can cover leaves no balance negative. */
  lemma TransferKeepsNonNegative(users: map<int, User>, sender: int, recipient: int, amount: int)
    requires NonNegative(users) && sender in users && recipient in users
    requires 0 <= amount <= users[sender].points
    ensures NonNegative(Transfer(users, sender, recipient, amount))
  {
    var r := Transfer(users, sender, recipient, amount);
    forall id | id in r ensures r[id].points >= 0 {
      if id == sender && sender != recipient {
        assert r[sender].points == users[sender].points - amount;
      }
    }
  }

  /** One request to `/transfer`: who sends, to whom, how much. */
  datatype Move = Move(sender: int, recipient: int, amount: int)

  /** The checks of `transfer_points` that a move must pass, in its order:
      a truthy recipient and a positive amount; a sender row that covers the
      amount; an existing recipient row. */
  predicate Accepts(users: map<int, User>, m: Move) {
    && m.recipient != 0 && m.amount > 0
    && m.sender in users && users[m.sender].points >= m.amount
    && m.recipient in users
  }

  /** The answer of `transfer_points` to an authenticated request, from
      its checks in order: 400 for a falsy recipient or a non-positive
      amount, 403 for a missing or short sender, 404 for a missing
      recipient. */
  function Answer(users: map<int, User>, m: Move): (s: Status)
    ensures s == Ok <==> Accepts(users, m)
    ensures s in {Ok, BadRequest, Forbidden, NotFound}
  {
    if m.recipient == 0 || m.amount <= 0 then BadRequest
    else if !(m.sender in users && users[m.sender].points >= m.amount) then Forbidden
    else if m.recipient !in users then NotFound
    else Ok
  }

  /** Each answer of a transfer request, and the condition that leads to it;
      only the answers 200 go with a change of balance. */
  lemma AnswerCases(users: map<int, User>, m: Move)
    ensures Answer(users, m) == Ok <==> Accepts(users, m)
    ensures Answer(users, m) == BadRequest <==> m.recipient == 0 || m.amount <= 0
    ensures Answer(users, m) == Forbidden <==>
      m.recipient != 0 && m.amount > 0 && !(m.sender in users && users[m.sender].points >= m.amount)
    ensures Answer(users, m) == NotFound <==>
      m.recipient != 0 && m.amount > 0 && m.sender in users && users[m.sender].points >= m.amount
      && m.recipient !in users
    ensures Answer(users, m) != Ok ==> Step(users, m) == users
  {
  }

  /** The balances after one request: transferred when accepted, untouched
      when rejected. */
  function Step(users: map<int, User>, m: Move): (r: map<int, User>)
    ensures r.Keys == users.Keys
    ensures !Accepts(users, m) ==> r == users
    ensures Accepts(users, m) ==> r == Transfer(users, m.sender, m.recipient, m.amount)
    ensures Total(r) == Total(users)
  {
    if Accepts(users, m) then
      TransferConserves(users, m.sender, m.recipient, m.amount);
      Transfer(users, m.sender, m.recipient, m.amount)
    else users
  }

  /** The balances after a run of requests, one after another. */
  function Replay(users: map<int, User>, ms: seq<Move>): map<int, User>
    decreases |ms|
  {
    if ms == [] then users else Replay(Step(users, ms[0]), ms[1..])
  }

  /** Any run of transfer requests, accepted or rejected, keeps the set of
      accounts, keeps the total of all points, and keeps every balance
      non-negative. */
  lemma {:induction false} ReplayPreserves(users: map<int, User>, ms: seq<Move>)
    ensures Replay(users, ms).Keys == users.Keys
    ensures Total(Replay(users, ms)) == Total(users)
    ensures NonNegative(users) ==> NonNegative(Replay(users, ms))
    decreases |ms|
  {
    if ms != [] {
      var m := ms[0];
      var next := Step(users, m);
      if Accepts(users, m) {
        TransferConserves(users, m.sender, m.recipient, m.amount);
        if NonNegative(users) {
          TransferKeepsNonNegative(users, m.sender, m.recipient, m.amount);
        }
      }
      ReplayPreserves(next, ms[1..]);
    }
  }
}
