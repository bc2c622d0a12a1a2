/** app/controllers/application_controller.rb: the `authenticate_user!` and
    `ensure_supervisor` before-actions. Token decoding (signature, algorithm,
    expiry) is the `decode` oracle; the deny-list and the users table are
    passed in. */
module ApplicationController {
  import opened Wrappers
  import opened Text
  import JwtBlacklist
  import Users

  /** The claims the gate reads from a decoded token. */
  datatype Claims = Claims(sub: Option<nat>, jti: Option<string>)

  /** What `JWT.decode` does with the token: return claims, or raise
      `JWT::DecodeError` / `JWT::ExpiredSignature` with a message. */
  datatype Decoded = Decoded(claims: Claims) | DecodeError(message: string) | ExpiredSignature(message: string)

  type Decoder = Option<string> -> Decoded

  /** A rendered response that ends the request. */
  datatype Halt = Halt(status: nat, message: string)

  /** The outcome of a before-action gate: `@current_user` set (with its
      id), or the request refused with a rendered 401 / 403. */
  datatype AuthResult = Authenticated(id: nat, user: Users.User) | Refused(halt: Halt)

  const Unauthorized: nat := 401
  const Forbidden: nat := 403
  const Bearer: string := "Bearer "
  const NoTokenMessage: string := "No token provided. Please sign in."
  const RevokedMessage: string := "Token has been revoked. Please sign in again."
  const UserNotFoundMessage: string := "Invalid token: User not found."
  const InvalidTokenPrefix: string := "Invalid or expired token: "
  const SupervisorMessage: string := "Forbidden: Supervisor access required"

  /** The header gate: present, not blank, and starting with "Bearer ". */
  predicate HeaderOk(header: Option<string>) {
    !BlankOpt(header) && StartsWith(header.value, Bearer)
  }

  /** `auth_header.split('Bearer ').last` */
  function TokenOf(header: string): Option<string> {
    SplitLast(header, Bearer)
  }

  function FailureMessage(d: Decoded): string
    requires !d.Decoded?
  {
    InvalidTokenPrefix + d.message
  }

  /** `authenticate_user!`: header, then decode, then deny-list, then user;
      the first failing gate decides the response. */
  function Authenticate(header: Option<string>, decode: Decoder, denyList: JwtBlacklist.Table,
                        users: Users.UserTable): (r: AuthResult)
    ensures !HeaderOk(header) ==> r == Refused(Halt(Unauthorized, NoTokenMessage))
    ensures HeaderOk(header) ==>
      var d := decode(TokenOf(header.value));
      && (!d.Decoded? ==> r == Refused(Halt(Unauthorized, FailureMessage(d))))
      && (d.Decoded? && JwtBlacklist.HasJti(denyList, d.claims.jti) ==>
            r == Refused(Halt(Unauthorized, RevokedMessage)))
      && (d.Decoded? && !JwtBlacklist.HasJti(denyList, d.claims.jti) && !(d.claims.sub.Some? && d.claims.sub.value in users) ==>
            r == Refused(Halt(Unauthorized, UserNotFoundMessage)))
    ensures r.Authenticated? <==>
      && HeaderOk(header)
      && var d := decode(TokenOf(header.value));
      && d.Decoded?
      && !JwtBlacklist.HasJti(denyList, d.claims.jti)
      && d.claims.sub.Some? && d.claims.sub.value in users
    ensures r.Authenticated? ==>
      decode(TokenOf(header.value)).claims.sub == Some(r.id) && r.id in users && users[r.id] == r.user
    ensures r.Refused? ==> r.halt.status == Unauthorized
  {
    if !HeaderOk(header) then Refused(Halt(Unauthorized, NoTokenMessage))
    else
      match decode(TokenOf(header.value))
      case DecodeError(_) | ExpiredSignature(_) =>
        Refused(Halt(Unauthorized, FailureMessage(decode(TokenOf(header.value)))))
      case Decoded(claims) =>
        if JwtBlacklist.HasJti(denyList, claims.jti) then Refused(Halt(Unauthorized, RevokedMessage))
        else if claims.sub.Some? && claims.sub.value in users then Authenticated(claims.sub.value, users[claims.sub.value])
        else Refused(Halt(Unauthorized, UserNotFoundMessage))
  }

  /** `@current_user` after the gate. */
  function CurrentUser(r: AuthResult): (u: Option<Users.User>)
    ensures u.Some? <==> r.Authenticated?
  {
    if r.Authenticated? then Some(r.user) else None
  }

  /** The decoder sees only the text after "Bearer ": a header "Bearer " +
      t, where t is non-empty and holds no further "Bearer ", hands exactly
      t to the decoder. */
  lemma TokenAfterBearer(t: string)
    requires t != [] && !Occurs(t, Bearer)
    ensures HeaderOk(Some(Bearer + t))
    ensures TokenOf(Bearer + t) == Some(t)
  {
    SplitLastAfterPrefix(Bearer, t);
    assert !IsSpace((Bearer + t)[0]);
    assert (Bearer + t)[..|Bearer|] == Bearer;
  }

  /** The outcome depends on the decoder only through its answer for the
      extracted token. */
  lemma DecoderSeesOnlyToken(header: Option<string>, d1: Decoder, d2: Decoder,
                             denyList: JwtBlacklist.Table, users: Users.UserTable)
    requires HeaderOk(header) ==> d1(TokenOf(header.value)) == d2(TokenOf(header.value))
    ensures Authenticate(header, d1, denyList, users) == Authenticate(header, d2, denyList, users)
  {
  }

  /** A token that fails to decode is rejected before the deny-list and the
      users table are consulted: neither affects the outcome. */
  lemma DecodeFailureIgnoresStores(header: Option<string>, decode: Decoder,
                                   deny1: JwtBlacklist.Table, users1: Users.UserTable,
                                   deny2: JwtBlacklist.Table, users2: Users.UserTable)
    requires HeaderOk(header) && !decode(TokenOf(header.value)).Decoded?
    ensures Authenticate(header, decode, deny1, users1) == Authenticate(header, decode, deny2, users2)
  {
  }

  /** A revoked token is refused even when its user exists: the deny-list
      is consulted before the users table, whatever that table holds. */
  lemma RevokedBeforeLookup(header: Option<string>, decode: Decoder, denyList: JwtBlacklist.Table,
                            users1: Users.UserTable, users2: Users.UserTable)
    requires HeaderOk(header) && decode(TokenOf(header.value)).Decoded?
    requires JwtBlacklist.HasJti(denyList, decode(TokenOf(header.value)).claims.jti)
    ensures Authenticate(header, decode, denyList, users1) == Refused(Halt(Unauthorized, RevokedMessage))
    ensures Authenticate(header, decode, denyList, users1) == Authenticate(header, decode, denyList, users2)
  {
  }

  /** Sign-out: once the token's payload is revoked, the same request is
      refused as revoked, whatever it was before. */
  lemma RevokeThenRefused(header: Option<string>, decode: Decoder, denyList: JwtBlacklist.Table,
                          users: Users.UserTable, exp: int)
    requires HeaderOk(header) && decode(TokenOf(header.value)).Decoded?
    ensures var jti := decode(TokenOf(header.value)).claims.jti;
      Authenticate(header, decode, JwtBlacklist.Revoke(denyList, JwtBlacklist.Payload(jti, exp)), users)
        == Refused(Halt(Unauthorized, RevokedMessage))
  {
    var jti := decode(TokenOf(header.value)).claims.jti;
    JwtBlacklist.RevokeThenRevoked(denyList, JwtBlacklist.Payload(jti, exp));
  }

  /** `ensure_supervisor`: continues (None) only for a current user with
      the supervisor role; otherwise renders 403. */
  function EnsureSupervisor(current: Option<Users.User>): (h: Option<Halt>)
    ensures h.None? <==> current.Some? && current.value.role == Users.Supervisor
    ensures h.Some? ==> h.value == Halt(Forbidden, SupervisorMessage)
  {
    if current.Some? && current.value.role == Users.Supervisor then None
    else Some(Halt(Forbidden, SupervisorMessage))
  }

  /** `before_action :authenticate_user!` followed by
      `before_action :ensure_supervisor`: a rendered 401 stops the chain
      before the role check runs. */
  function RequireSupervisor(header: Option<string>, decode: Decoder, denyList: JwtBlacklist.Table,
                             users: Users.UserTable): (r: AuthResult)
    ensures r.Authenticated? <==>
      Authenticate(header, decode, denyList, users).Authenticated? &&
      Authenticate(header, decode, denyList, users).user.role == Users.Supervisor
    ensures r.Authenticated? ==> r == Authenticate(header, decode, denyList, users)
    ensures Authenticate(header, decode, denyList, users).Refused? ==>
      r == Authenticate(header, decode, denyList, users)
    ensures Authenticate(header, decode, denyList, users).Authenticated? && r.Refused? ==>
      r.halt == Halt(Forbidden, SupervisorMessage)
  {
    var auth := Authenticate(header, decode, denyList, users);
    if auth.Refused? then auth
    else
      match EnsureSupervisor(CurrentUser(auth))
      case None => auth
      case Some(halt) => Refused(halt)
  }
}
