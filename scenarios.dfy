/** Request sequences against a fresh store, as a client would send them. */
module Scenarios {
  import opened Schema
  import opened Text
  import opened Session
  import opened App

  /** A fresh store in which two accounts have registered. */
  method TwoAccounts() returns (shop: Shop)
    ensures fresh(shop) && shop.Valid()
    ensures shop.users.Keys == {1, 2} && shop.reports == []
    ensures shop.users[1] == NewUser("ann@example.com", "hash-a")
    ensures shop.users[2] == NewUser("bob@example.com", "hash-b")
  {
    shop := new Shop();
    var s := shop.Register(Some("ann@example.com"), Some("pw-a"), "hash-a");
    assert s == Ok;
    s := shop.Register(Some("bob@example.com"), Some("pw-b"), "hash-b");
    assert s == Ok;
  }

  /** The first account reports the second for spam; the report is
      accepted and counted against the second account, which is suspended
      exactly when it was, or when that count reaches the threshold. */
  method ReportSpam(shop: Shop)
    requires shop.Valid() && 2 in shop.users
    modifies shop`users, shop`items, shop`reports
    ensures shop.Valid() && 2 in shop.users
    ensures shop.users[2].email == old(shop.users[2].email)
    ensures Moderation.CountAgainst(shop.reports, Moderation.AgainstUser(2))
         == Moderation.CountAgainst(old(shop.reports), Moderation.AgainstUser(2)) + 1
    ensures shop.users[2].isSuspended <==>
      old(shop.users[2].isSuspended) || Moderation.CountAgainst(shop.reports, Moderation.AgainstUser(2)) >= Moderation.Threshold
  {
    Moderation.AdmissibleMeans("spam", Some(2), None);
    assert "spam"[0] == 's';
    Moderation.CountAppend(shop.reports, Report(1, Some(2), None, Strip("spam")), Moderation.AgainstUser(2));
    var s := shop.FileReport(Some(IssueClaim(1, false, 0)), Some(2), None, "spam");
  }

  /** The second account is reported three times by the first: the first
      two reports leave it active and the third suspends it. */
  method ReportedThrice() returns (shop: Shop)
    ensures fresh(shop) && shop.Valid() && 2 in shop.users
    ensures shop.users[2].email == "bob@example.com" && shop.users[2].isSuspended
  {
    shop := TwoAccounts();
    ReportSpam(shop);
    assert !shop.users[2].isSuspended;
    ReportSpam(shop);
    assert !shop.users[2].isSuspended;
    ReportSpam(shop);
  }

  /** A fourth report against a suspended account is still accepted and
      keeps it suspended, and the account cannot log in whatever its
      password. */
  method SuspendedCannotLogIn() returns (loginStatus: Status)
    ensures loginStatus == Forbidden
  {
    var shop := ReportedThrice();
    ReportSpam(shop);
    var claim;
    loginStatus, claim := shop.Login(Some("bob@example.com"), Some("pw-b"), (p, h) => true, 100);
  }
}
