/** app/controllers/api/v1/users_controller.rb: the signed-in user's own
    record. Every action runs behind `authenticate_user!`; updates re-run
    all of user.rb's validations against the rest of the table. */
module UsersController {
  import opened Wrappers
  import opened Validation
  import JwtBlacklist
  import Users
  import opened ApplicationController

  /** The JSON body of `current`. */
  datatype Profile = Profile(id: nat, email: string, role: string)

  datatype Reply =
    | Halted(halt: Halt)
    | CurrentProfile(profile: Profile)
    | TokenUpdated
    | NotificationsUpdated(enabled: Option<bool>)
    | Unprocessable(errors: Errors)

  function Status(r: Reply): nat {
    match r
    case Halted(h) => h.status
    case CurrentProfile(_) => 200
    case TokenUpdated => 200
    case NotificationsUpdated(_) => 200
    case Unprocessable(_) => 422
  }

  const TokenUpdatedMessage: string := "Device token updated successfully"
  const NotificationsMessage: string := "Notifications preference updated"

  /** The response and the users table afterwards. */
  datatype Step = Step(reply: Reply, users: Users.UserTable)

  /** `current`: id, email and role name of the authenticated user. */
  function Current(auth: AuthResult): (r: Reply)
    ensures auth.Refused? ==> r == Halted(auth.halt)
    ensures auth.Authenticated? ==>
      && r.CurrentProfile?
      && r.profile.id == auth.id
      && r.profile.email == auth.user.email
      && Users.RoleOfName(r.profile.role) == Some(auth.user.role)
  {
    if auth.Refused? then Halted(auth.halt)
    else
      Users.RoleEncodingRoundTrip(auth.user.role);
      CurrentProfile(Profile(auth.id, auth.user.email, Users.RoleName(auth.user.role)))
  }

  /** `@current_user.update(changed)`: Devise normalises the email, then
      the record is saved when every validation passes with the user's own
      row excluded from the uniqueness checks. */
  function Save(id: nat, changed: Users.User, users: Users.UserTable, emailFormat: string -> bool,
                success: Reply): (st: Step)
    ensures var saved := Users.Normalized(changed);
      Users.Valid(saved, Some(id), users, emailFormat) ==> st == Step(success, users[id := saved])
    ensures var saved := Users.Normalized(changed);
      !Users.Valid(saved, Some(id), users, emailFormat) ==>
        st == Step(Unprocessable(Users.Validate(saved, Some(id), users, emailFormat)), users)
  {
    var saved := Users.Normalized(changed);
    var errors := Users.Validate(saved, Some(id), users, emailFormat);
    if errors == {} then Step(success, users[id := saved]) else Step(Unprocessable(errors), users)
  }

  /** `update_device_token`: a missing parameter stores nil. */
  function UpdateDeviceToken(auth: AuthResult, users: Users.UserTable, token: Option<string>,
                             emailFormat: string -> bool): (st: Step)
    ensures auth.Refused? ==> st == Step(Halted(auth.halt), users)
    ensures st.reply == TokenUpdated <==>
      auth.Authenticated? && Users.Valid(Users.Normalized(auth.user), Some(auth.id), users, emailFormat)
    ensures st.reply == TokenUpdated ==>
      st.users == users[auth.id := Users.Normalized(auth.user).(deviceToken := token)]
    ensures auth.Authenticated? && !Users.Valid(Users.Normalized(auth.user), Some(auth.id), users, emailFormat) ==>
      st == Step(Unprocessable(Users.Validate(Users.Normalized(auth.user).(deviceToken := token), Some(auth.id), users,
                                              emailFormat)), users)
    ensures st.reply != TokenUpdated ==> st.users == users
  {
    if auth.Refused? then Step(Halted(auth.halt), users)
    else
      Users.DeviceTokenIrrelevant(Users.Normalized(auth.user), token, Some(auth.id), users, emailFormat);
      assert Users.Normalized(auth.user.(deviceToken := token)) == Users.Normalized(auth.user).(deviceToken := token);
      Save(auth.id, auth.user.(deviceToken := token), users, emailFormat, TokenUpdated)
  }

  /** Ruby's `!`: nil and false are falsy. */
  function Negate(b: Option<bool>): (r: Option<bool>)
    ensures r.Some?
    ensures r.value <==> b != Some(true)
  {
    Some(b != Some(true))
  }

  /** `toggle_notifications` */
  function ToggleNotifications(auth: AuthResult, users: Users.UserTable, emailFormat: string -> bool): (st: Step)
    ensures auth.Refused? ==> st == Step(Halted(auth.halt), users)
    ensures st.reply.NotificationsUpdated? <==>
      auth.Authenticated? &&
      Users.Valid(Users.Normalized(auth.user.(notificationsEnabled := Negate(auth.user.notificationsEnabled))),
                  Some(auth.id), users, emailFormat)
    ensures st.reply.NotificationsUpdated? ==>
      && st.reply.enabled == Negate(auth.user.notificationsEnabled)
      && st.users == users[auth.id := Users.Normalized(auth.user.(notificationsEnabled := st.reply.enabled))]
    ensures auth.Authenticated? ==>
      var toggled := Users.Normalized(auth.user.(notificationsEnabled := Negate(auth.user.notificationsEnabled)));
      !Users.Valid(toggled, Some(auth.id), users, emailFormat) ==>
        st == Step(Unprocessable(Users.Validate(toggled, Some(auth.id), users, emailFormat)), users)
    ensures !st.reply.NotificationsUpdated? ==> st.users == users
  {
    if auth.Refused? then Step(Halted(auth.halt), users)
    else
      var flag := Negate(auth.user.notificationsEnabled);
      Save(auth.id, auth.user.(notificationsEnabled := flag), users, emailFormat, NotificationsUpdated(flag))
  }

  /** The uniqueness checks for row `id` ignore what row `id` itself holds. */
  lemma OwnRowIrrelevant(u: Users.User, id: nat, users: Users.UserTable, v: Users.User, emailFormat: string -> bool)
    ensures Users.Valid(u, Some(id), users[id := v], emailFormat) <==> Users.Valid(u, Some(id), users, emailFormat)
  {
    var users' := users[id := v];
    assert Users.MobileTaken(u, Some(id), users') <==> Users.MobileTaken(u, Some(id), users) by {
      if Users.MobileTaken(u, Some(id), users') {
        var k :| k in users' && Some(k) != Some(id) && users'[k].mobileNumber == u.mobileNumber;
        assert k in users && users[k] == users'[k];
      }
      if Users.MobileTaken(u, Some(id), users) {
        var k :| k in users && Some(k) != Some(id) && users[k].mobileNumber == u.mobileNumber;
        assert k in users' && users[k] == users'[k];
      }
    }
    assert Users.JtiTaken(u, Some(id), users') <==> Users.JtiTaken(u, Some(id), users) by {
      if Users.JtiTaken(u, Some(id), users') {
        var k :| k in users' && Some(k) != Some(id) && users'[k].jti == u.jti;
        assert k in users && users[k] == users'[k];
      }
      if Users.JtiTaken(u, Some(id), users) {
        var k :| k in users && Some(k) != Some(id) && users[k].jti == u.jti;
        assert k in users' && users[k] == users'[k];
      }
    }
  }

  /** Toggling twice, the second time as the user stored by the first,
      gives back the original preference and the record as saved. */
  lemma {:induction false} ToggleTwiceRestores(id: nat, u: Users.User, users: Users.UserTable, emailFormat: string -> bool)
    requires u.notificationsEnabled.Some?
    requires ToggleNotifications(Authenticated(id, u), users, emailFormat).reply.NotificationsUpdated?
    ensures var first := ToggleNotifications(Authenticated(id, u), users, emailFormat);
      var second := ToggleNotifications(Authenticated(id, first.users[id]), first.users, emailFormat);
      && second.reply == NotificationsUpdated(u.notificationsEnabled)
      && second.users == users[id := Users.Normalized(u)]
  {
    var b := u.notificationsEnabled.value;
    var n := Users.Normalized(u);
    var toggled := n.(notificationsEnabled := Some(!b));
    ToggledRecord(u, b);
    var first := ToggleNotifications(Authenticated(id, u), users, emailFormat);
    assert first.users == users[id := toggled] && Users.Valid(toggled, Some(id), users, emailFormat);
    Users.NotificationFlagIrrelevant(n, !b, Some(id), users, emailFormat);
    OwnRowIrrelevant(n, id, users, toggled, emailFormat);
    Users.NormalizedTwice(u);
    ToggleBack(id, n, b, first.users, emailFormat);
    UpdateTwice(users, id, toggled, n);
  }

  /** The second store to a row overrides the first. */
  lemma UpdateTwice(users: Users.UserTable, id: nat, first: Users.User, second: Users.User)
    ensures users[id := first][id := second] == users[id := second]
  {
  }

  /** The record the first toggle stores: the normalised one with the
      negated flag. */
  lemma ToggledRecord(u: Users.User, b: bool)
    requires u.notificationsEnabled == Some(b)
    ensures Negate(Some(b)) == Some(!b) && Negate(Some(!b)) == Some(b)
    ensures Users.Normalized(u.(notificationsEnabled := Some(!b))) == Users.Normalized(u).(notificationsEnabled := Some(!b))
  {
  }

  /** Toggling the stored, normalised record back saves the record before
      the first toggle. */
  lemma ToggleBack(id: nat, n: Users.User, b: bool, users: Users.UserTable, emailFormat: string -> bool)
    requires n == Users.Normalized(n) && n.notificationsEnabled == Some(b)
    requires Users.Valid(n, Some(id), users, emailFormat)
    ensures ToggleNotifications(Authenticated(id, n.(notificationsEnabled := Some(!b))), users, emailFormat)
      == Step(NotificationsUpdated(Some(b)), users[id := n])
  {
    var toggled := n.(notificationsEnabled := Some(!b));
    assert Negate(Some(!b)) == Some(b);
    assert toggled.(notificationsEnabled := Some(b)) == n;
    assert Save(id, n, users, emailFormat, NotificationsUpdated(Some(b))) == Step(NotificationsUpdated(Some(b)), users[id := n]);
  }
}
