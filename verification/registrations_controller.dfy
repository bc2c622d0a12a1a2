/** app/controllers/users/registrations_controller.rb: sign-up. Devise's
    own pieces are inputs: whether the account is active for
    authentication, the token warden issues, the jti the `JTIMatcher`
    callback generates, and the id the database assigns. */
module RegistrationsController {
  import opened Wrappers
  import opened Validation
  import Users
  import Subscriptions

  type Params = map<string, string>

  /** The keys `sign_up_params` lets through. */
  const Permitted: set<string> := {"email", "password", "password_confirmation", "name", "mobile_number"}

  /** `params.require(:user).permit(...)`: everything else is dropped. */
  function Permit(raw: Params): (p: Params)
    ensures p.Keys == raw.Keys * Permitted
    ensures forall k :: k in p ==> p[k] == raw[k]
  {
    map k | k in raw.Keys && k in Permitted :: raw[k]
  }

  /** Permitting twice is permitting once. */
  lemma PermitIdempotent(raw: Params)
    ensures Permit(Permit(raw)) == Permit(raw)
  {
  }

  /** The value sent for `key`, None when it was not sent. */
  function Sent(p: Params, key: string): (v: Option<string>)
    ensures v.Some? <==> key in p
    ensures v.Some? ==> v.value == p[key]
  {
    if key in p then Some(p[key]) else None
  }

  /** `build_resource` followed by `resource.role = 'user'`, as
      `resource.save` then validates and stores it: a fresh user with the
      permitted attributes, an attribute not sent staying nil (a nil name
      or email reads as the empty string for the validations), the role
      always the regular one, and the email lower-cased and stripped by
      Devise's `before_validation` callbacks. */
  function Build(p: Params): (u: Users.User)
    ensures u.role == Users.RegularUser
    ensures u.email == Users.NormalizeEmail(Sent(p, "email").GetOr(""))
    ensures u.name == Sent(p, "name").GetOr("")
    ensures u.mobileNumber == Sent(p, "mobile_number") && u.password == Sent(p, "password")
    ensures u.notificationsEnabled == Some(false) && u.jti.None? && u.deviceToken.None?
  {
    Users.User(Users.NormalizeEmail(Sent(p, "email").GetOr("")), Sent(p, "name").GetOr(""), Sent(p, "mobile_number"),
               Sent(p, "password"), Users.RegularUser, Some(false), None, None)
  }

  /** The email is validated and stored lower-cased and without the spaces
      around it, whatever case and padding the client sent. */
  lemma BuildNormalizesEmail()
    ensures Build(map["email" := " Ann@Example.com "]).email == "ann@example.com"
  {
    Users.NormalizeEmailExample();
  }

  /** The JSON body of a 201. */
  datatype Created = Created(id: nat, email: string, role: string, token: Option<string>)

  datatype Reply =
    | BadRequest                   // no `user` parameter, or an empty hash
    | SignedUp(body: Created)
    | SignedUpInactive
    | Unprocessable(errors: Errors)

  function Status(r: Reply): nat {
    match r
    case BadRequest => 400
    case SignedUp(_) => 201
    case SignedUpInactive => 200
    case Unprocessable(_) => 422
  }

  const InactiveMessage: string := "Signed up but not active"

  datatype Step = Step(reply: Reply, accounts: Users.Accounts)

  /** `params.require(:user)` passes: the key is there and its hash is not
      empty. */
  predicate Required(raw: Option<Params>) {
    raw.Some? && raw.value != map[]
  }

  /** `create`. `raw` is the `user` parameter, None when absent; `id` is
      the id the new row would get, `freshJti` the token id the create
      callback stores, `token` the JWT warden issues on sign-in. */
  function SignUp(accounts: Users.Accounts, raw: Option<Params>, id: nat, freshJti: string,
                  active: bool, token: Option<string>, emailFormat: string -> bool): (st: Step)
    requires id !in accounts.users
    ensures !Required(raw) <==> st == Step(BadRequest, accounts)
    ensures st.reply.SignedUp? || st.reply.SignedUpInactive? <==>
      Required(raw) && Users.Valid(Build(Permit(raw.value)), None, accounts.users, emailFormat)
    ensures st.reply.SignedUp? || st.reply.SignedUpInactive? ==>
      st.accounts == Users.Create(accounts, id, Build(Permit(raw.value)).(jti := Some(freshJti)))
    ensures st.reply.SignedUp? <==> (st.reply.SignedUp? || st.reply.SignedUpInactive?) && active
    ensures st.reply.SignedUp? ==>
      st.reply.body == Created(id, Build(Permit(raw.value)).email, Users.RoleName(Users.RegularUser), token)
    ensures st.reply.Unprocessable? ==>
      Required(raw) && st.reply.errors == Users.Validate(Build(Permit(raw.value)), None, accounts.users, emailFormat)
    ensures !(st.reply.SignedUp? || st.reply.SignedUpInactive?) ==> st.accounts == accounts
  {
    if !Required(raw) then Step(BadRequest, accounts)
    else
      var u := Build(Permit(raw.value));
      var errors := Users.Validate(u, None, accounts.users, emailFormat);
      if errors != {} then Step(Unprocessable(errors), accounts)
      else
        var accounts' := Users.Create(accounts, id, u.(jti := Some(freshJti)));
        if active then Step(SignedUp(Created(id, u.email, Users.RoleName(u.role), token)), accounts')
        else Step(SignedUpInactive, accounts')
  }

  /** Sign-up never makes a supervisor: whatever `role` the client sends,
      the stored user is a regular one, and it owns a basic, active
      subscription. */
  lemma {:induction false} SignUpMakesRegularUser(accounts: Users.Accounts, raw: Params, id: nat, freshJti: string,
                                                  active: bool, token: Option<string>, emailFormat: string -> bool)
    requires id !in accounts.users
    requires SignUp(accounts, Some(raw), id, freshJti, active, token, emailFormat).reply.SignedUp? ||
             SignUp(accounts, Some(raw), id, freshJti, active, token, emailFormat).reply.SignedUpInactive?
    ensures var st := SignUp(accounts, Some(raw), id, freshJti, active, token, emailFormat);
      && id in st.accounts.users
      && st.accounts.users[id].role == Users.RegularUser
      && exists s :: s in Users.SubscriptionsOf(st.accounts, id) && Subscriptions.IsBasic(s) && s.status == Some("active")
  {
    var st := SignUp(accounts, Some(raw), id, freshJti, active, token, emailFormat);
    var u := Build(Permit(raw)).(jti := Some(freshJti));
    assert st.accounts == Users.Create(accounts, id, u);
    Users.CreateGivesSubscription(accounts, id, u);
  }

  /** Keys outside the permitted list, such as `role`, have no effect
      once the hash is non-empty; alone, they only get the request past
      `require`, into validation of a user with no attributes. */
  lemma UnpermittedKeysIgnored(accounts: Users.Accounts, raw: Params, key: string, value: string, id: nat,
                               freshJti: string, active: bool, token: Option<string>, emailFormat: string -> bool)
    requires id !in accounts.users && key !in Permitted
    ensures raw != map[] ==>
      SignUp(accounts, Some(raw[key := value]), id, freshJti, active, token, emailFormat)
      == SignUp(accounts, Some(raw), id, freshJti, active, token, emailFormat)
    ensures raw == map[] ==>
      && SignUp(accounts, Some(raw), id, freshJti, active, token, emailFormat).reply == BadRequest
      && SignUp(accounts, Some(raw[key := value]), id, freshJti, active, token, emailFormat).reply
         == Unprocessable(Users.Validate(Build(map[]), None, accounts.users, emailFormat))
  {
    var raw' := raw[key := value];
    assert Permit(raw') == Permit(raw);
    assert key in raw' && Required(Some(raw'));
    if raw == map[] {
      assert !Required(Some(raw));
      assert Permit(raw') == map[];
      EmptySignUpInvalid(accounts.users, emailFormat);
    } else {
      assert Required(Some(raw));
      SamePermittedSameSignUp(accounts, raw', raw, id, freshJti, active, token, emailFormat);
    }
  }

  /** Sign-up reads a non-empty hash only through what `permit` keeps. */
  lemma SamePermittedSameSignUp(accounts: Users.Accounts, raw1: Params, raw2: Params, id: nat, freshJti: string,
                                active: bool, token: Option<string>, emailFormat: string -> bool)
    requires id !in accounts.users
    requires Required(Some(raw1)) && Required(Some(raw2)) && Permit(raw1) == Permit(raw2)
    ensures SignUp(accounts, Some(raw1), id, freshJti, active, token, emailFormat)
         == SignUp(accounts, Some(raw2), id, freshJti, active, token, emailFormat)
  {
  }

  /** A user built from no attributes fails validation. */
  lemma EmptySignUpInvalid(users: Users.UserTable, emailFormat: string -> bool)
    ensures !Users.Valid(Build(map[]), None, users, emailFormat)
  {
    Users.NormalizeEmptyEmail();
    assert Build(map[]) == Users.NewUser();
    Users.NewUserInvalid(None, users, emailFormat);
  }
}
