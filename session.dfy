/** Session tokens and the authorization gates built on them.

    The token itself is a signed JWT; its encoding, its signature and its
    decoding belong to a library and are modelled by a partial function
    `decode` from token text to claim (None for a forged or malformed
    token). The expiry check that the library applies on decoding is kept,
    against an explicit clock `now` in whole seconds. */
module Session {
  import opened Schema
  import opened Text

  /** The payload of a session token. */
  datatype Claim = Claim(userId: int, isAdmin: bool, exp: int)

  /** How long a token stays valid, in seconds: two hours. */
  const TokenLifetime: int := 2 * 60 * 60

  /** What an Authorization header must start with. */
  const Scheme: string := "Bearer "

  /** The claim `generate_token` signs at time `now`. */
  function IssueClaim(userId: int, isAdmin: bool, now: int): (c: Claim)
    ensures c.userId == userId && c.isAdmin == isAdmin
    ensures c.exp - now == TokenLifetime
  {
    Claim(userId, isAdmin, now + TokenLifetime)
  }

  /** The token text of an Authorization header: the second space-separated
      field of a header that starts with the scheme, and nothing otherwise. */
  function BearerToken(header: Option<string>): (token: Option<string>)
    ensures token.Some? <==> header.Some? && Scheme <= header.value
    ensures token.Some? ==> LeadingField(header.value[|Scheme|..], ' ', token.value)
  {
    if header.None? || header.value == [] || !(Scheme <= header.value) then None
    else
      var h := header.value;
      assert h == "Bearer" + [' '] + h[|Scheme|..];
      SplitAfterSeparator("Bearer", h[|Scheme|..], ' ');
      SplitLeading(h[|Scheme|..], ' ');
      Some(Split(h, ' ')[1])
  }

  /** `verify_token`: the claim of a well-signed, unexpired bearer token. */
  function VerifyToken(header: Option<string>, now: int, decode: string -> Option<Claim>): (c: Option<Claim>)
    ensures c.Some? <==>
      && BearerToken(header).Some?
      && decode(BearerToken(header).value).Some?
      && now < decode(BearerToken(header).value).value.exp
    ensures c.Some? ==> c == decode(BearerToken(header).value)
  {
    match BearerToken(header)
    case None => None
    case Some(token) =>
      match decode(token)
      case None => None
      case Some(c) => if now < c.exp then Some(c) else None
  }

  /** A token issued at `issuedAt` and sent as `Bearer <token>` is accepted
      with its claim before `issuedAt + TokenLifetime` and rejected from then
      on (so at 1h59m it is accepted and at 2h01m rejected). */
  lemma TokenLifetimeWindow(token: string, userId: int, isAdmin: bool, issuedAt: int, now: int,
                            decode: string -> Option<Claim>)
    requires Free(token, ' ')
    requires decode(token) == Some(IssueClaim(userId, isAdmin, issuedAt))
    ensures VerifyToken(Some(Scheme + token), now, decode)
         == if now < issuedAt + TokenLifetime then Some(IssueClaim(userId, isAdmin, issuedAt)) else None
  {
    var h := Scheme + token;
    assert h[|Scheme|..] == token;
    var t := BearerToken(Some(h)).value;
    assert LeadingField(token, ' ', t);
    assert t == token;
  }

  /** The order in which `login` checks a user it has found: a suspended
      account is refused whatever the password, a missing password makes
      the password check raise, and only a matching password succeeds. */
  function LoginCheck(u: User, password: Option<string>, checkPassword: (string, string) -> bool): (s: Status)
    ensures s == Ok <==> !u.isSuspended && password.Some? && checkPassword(password.value, u.passwordHash)
    ensures u.isSuspended ==> s == Forbidden
    ensures !u.isSuspended && password.None? ==> s == ServerError
    ensures !u.isSuspended && password.Some? && !checkPassword(password.value, u.passwordHash) ==> s == Unauthorized
    ensures s != Ok ==> s in {Forbidden, ServerError, Unauthorized}
  {
    if u.isSuspended then Forbidden
    else if password.None? then ServerError
    else if !checkPassword(password.value, u.passwordHash) then Unauthorized
    else Ok
  }

  /** The admin gate: a verified claim whose admin flag is set. */
  predicate IsAdmin(payload: Option<Claim>) {
    payload.Some? && payload.value.isAdmin
  }

  /** The owner gate: the item exists and `userId` sells it. */
  predicate OwnsItem(items: map<int, Item>, itemId: int, userId: int) {
    itemId in items && items[itemId].sellerId == userId
  }
}
