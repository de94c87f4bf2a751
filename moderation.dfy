/** Report-driven moderation: a report is stored, the reports against its
    target are counted (the new one included), and at the threshold the
    target user is suspended or the target item deleted. */
module Moderation {
  import opened Schema
  import opened Text

  /** The number of reports against one target that triggers the action. */
  const Threshold: nat := 3

  /** What a `COUNT(*)` query of `report` counts against. */
  datatype Target = AgainstUser(userId: int) | AgainstItem(itemId: int)

  /** The report's column for that kind of target holds that id. */
  predicate Names(r: Report, t: Target) {
    match t
    case AgainstUser(u) => r.targetUserId == Some(u)
    case AgainstItem(i) => r.targetItemId == Some(i)
  }

  /** `SELECT COUNT(*) FROM reports WHERE target_..._id = ?`. */
  function CountAgainst(rs: seq<Report>, t: Target): (n: nat)
    ensures n <= |rs|
    ensures n == 0 <==> forall k :: 0 <= k < |rs| ==> !Names(rs[k], t)
  {
    if rs == [] then 0
    else
      assert forall k :: 1 <= k < |rs| ==> rs[k] == rs[1..][k - 1];
      (if Names(rs[0], t) then 1 else 0) + CountAgainst(rs[1..], t)
  }

  /** Appending a report raises the count of exactly the targets it names, by one. */
  lemma {:induction false} CountAppend(rs: seq<Report>, r: Report, t: Target)
    ensures CountAgainst(rs + [r], t) == CountAgainst(rs, t) + (if Names(r, t) then 1 else 0)
  {
    if rs == [] {
      assert rs + [r] == [r];
    } else {
      assert (rs + [r])[1..] == rs[1..] + [r];
      CountAppend(rs[1..], r, t);
    }
  }

  /** The validation of `report`: refused when the stripped reason is empty
      or when neither target is truthy. */
  predicate Admissible(reason: string, targetUser: Option<int>, targetItem: Option<int>) {
    Strip(reason) != [] && (Truthy(targetUser) || Truthy(targetItem))
  }

  /** A report is admitted exactly when its reason holds a character other
      than whitespace and one of its targets is a non-zero id. */
  lemma AdmissibleMeans(reason: string, targetUser: Option<int>, targetItem: Option<int>)
    ensures Admissible(reason, targetUser, targetItem) <==>
      (exists i :: 0 <= i < |reason| && !IsSpace(reason[i])) && (Truthy(targetUser) || Truthy(targetItem))
  {
  }

  /** The part of the store moderation reads and writes. */
  datatype Board = Board(users: map<int, User>, items: map<int, Item>, reports: seq<Report>)

  /** The user branch of a report, run on the table after the insert:
      suspend the target once the reports against it reach the threshold.
      The UPDATE of a missing user changes nothing. */
  function SuspendBranch(users: map<int, User>, reports: seq<Report>, r: Report): (users': map<int, User>)
    ensures users'.Keys == users.Keys
    ensures forall u :: u in users ==> users'[u] == users[u].(isSuspended := users'[u].isSuspended)
    ensures forall u :: u in users ==>
      (users'[u].isSuspended <==>
        users[u].isSuspended || (u != 0 && r.targetUserId == Some(u) && CountAgainst(reports, AgainstUser(u)) >= Threshold))
  {
    if Truthy(r.targetUserId) && CountAgainst(reports, AgainstUser(r.targetUserId.value)) >= Threshold
       && r.targetUserId.value in users
    then users[r.targetUserId.value := users[r.targetUserId.value].(isSuspended := true)]
    else users
  }

  /** The item branch of a report: delete the target once the reports
      against it reach the threshold; deleting a missing item changes
      nothing. */
  function DeleteBranch(items: map<int, Item>, reports: seq<Report>, r: Report): (items': map<int, Item>)
    ensures forall i :: i in items' ==> i in items && items'[i] == items[i]
    ensures forall i :: i in items ==>
      (i !in items' <==> i != 0 && r.targetItemId == Some(i) && CountAgainst(reports, AgainstItem(i)) >= Threshold)
  {
    if Truthy(r.targetItemId) && CountAgainst(reports, AgainstItem(r.targetItemId.value)) >= Threshold
    then items - {r.targetItemId.value}
    else items
  }

  /** An admitted report: insert it, then run the user branch and the item
      branch, each only when its target is truthy. */
  function File(b: Board, r: Report): (b': Board)
    ensures b'.reports == b.reports + [r]
    ensures b'.users.Keys == b.users.Keys
    ensures forall u :: u in b.users ==> b'.users[u] == b.users[u].(isSuspended := b'.users[u].isSuspended)
    ensures forall u :: u in b.users ==>
      (b'.users[u].isSuspended <==>
        b.users[u].isSuspended || (u != 0 && r.targetUserId == Some(u) && CountAgainst(b'.reports, AgainstUser(u)) >= Threshold))
    ensures forall i :: i in b'.items ==> i in b.items && b'.items[i] == b.items[i]
    ensures forall i :: i in b.items ==>
      (i !in b'.items <==> i != 0 && r.targetItemId == Some(i) && CountAgainst(b'.reports, AgainstItem(i)) >= Threshold)
  {
    var reports := b.reports + [r];
    Board(SuspendBranch(b.users, reports, r), DeleteBranch(b.items, reports, r), reports)
  }

  /** What `report` does once the reporter is authenticated: an
      inadmissible report is answered 400 and changes nothing; an admissible
      one is answered 200 and filed, exactly once, with its reason stripped. */
  function Submit(b: Board, reporterId: int, targetUser: Option<int>, targetItem: Option<int>, reason: string)
    : (res: (Status, Board))
    ensures res.0 == Ok <==> Admissible(reason, targetUser, targetItem)
    ensures !Admissible(reason, targetUser, targetItem) ==> res == (BadRequest, b)
    ensures Admissible(reason, targetUser, targetItem) ==>
      res.1.reports == b.reports + [Report(reporterId, targetUser, targetItem, Strip(reason))]
    ensures Admissible(reason, targetUser, targetItem) ==>
      res.1 == File(b, Report(reporterId, targetUser, targetItem, Strip(reason)))
  {
    if Admissible(reason, targetUser, targetItem)
    then (Ok, File(b, Report(reporterId, targetUser, targetItem, Strip(reason))))
    else (BadRequest, b)
  }

  /** A run of admitted reports, filed one after another. */
  function FileAll(b: Board, rs: seq<Report>): Board
    decreases |rs|
  {
    if rs == [] then b else FileAll(File(b, rs[0]), rs[1..])
  }

  /** Reports against one user: the user stays in the table, and ends up
      suspended exactly when it already was, or when the reports (counting
      those filed before) reach the threshold. From a clean record the 1st
      and 2nd report leave the flag alone, the 3rd sets it and later ones
      keep it set. */
  lemma {:induction false} UserThreshold(b: Board, rs: seq<Report>, u: int)
    requires u != 0 && u in b.users
    requires forall k :: 0 <= k < |rs| ==> rs[k].targetUserId == Some(u)
    ensures u in FileAll(b, rs).users
    ensures FileAll(b, rs).users[u].isSuspended <==>
      b.users[u].isSuspended || (|rs| > 0 && CountAgainst(b.reports, AgainstUser(u)) + |rs| >= Threshold)
    decreases |rs|
  {
    if rs != [] {
      var next := File(b, rs[0]);
      CountAppend(b.reports, rs[0], AgainstUser(u));
      assert forall k :: 0 <= k < |rs[1..]| ==> rs[1..][k] == rs[k + 1];
      UserThreshold(next, rs[1..], u);
    }
  }

  /** Reports against one item: it is gone once the reports (counting those
      filed before) reach the threshold, and it is never brought back, so
      reports against a deleted id are accepted and change nothing. */
  lemma {:induction false} ItemThreshold(b: Board, rs: seq<Report>, i: int)
    requires i != 0
    requires forall k :: 0 <= k < |rs| ==> rs[k].targetItemId == Some(i)
    ensures i in FileAll(b, rs).items <==>
      i in b.items && !(|rs| > 0 && CountAgainst(b.reports, AgainstItem(i)) + |rs| >= Threshold)
    ensures i !in b.items ==> FileAll(b, rs).items == b.items
    decreases |rs|
  {
    if rs != [] {
      var next := File(b, rs[0]);
      CountAppend(b.reports, rs[0], AgainstItem(i));
      assert forall k :: 0 <= k < |rs[1..]| ==> rs[1..][k] == rs[k + 1];
      if i !in b.items {
        assert next.items == b.items;
      }
      ItemThreshold(next, rs[1..], i);
    }
  }
}
