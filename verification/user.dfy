/** app/models/user.rb: the account record, its validations, its role enum,
    its JWT payload and the default subscription created with it. */
module Users {
  import opened Wrappers
  import opened Text
  import opened Validation
  import Subscriptions
  import Seqs

  /** `enum role: { user: 0, supervisor: 1 }` */
  datatype Role = RegularUser | Supervisor

  function RoleCode(r: Role): nat {
    match r
    case RegularUser => 0
    case Supervisor => 1
  }

  function RoleName(r: Role): string {
    match r
    case RegularUser => "user"
    case Supervisor => "supervisor"
  }

  /** The role stored under an integer column value, if any. */
  function RoleOfCode(code: int): (r: Option<Role>)
    ensures r.Some? ==> RoleCode(r.value) == code
    ensures r.None? <==> code != 0 && code != 1
  {
    if code == 0 then Some(RegularUser) else if code == 1 then Some(Supervisor) else None
  }

  /** The role with a given enum name, if any. */
  function RoleOfName(name: string): (r: Option<Role>)
    ensures r.Some? ==> RoleName(r.value) == name
    ensures r.None? <==> name != "user" && name != "supervisor"
  {
    if name == "user" then Some(RegularUser) else if name == "supervisor" then Some(Supervisor) else None
  }

  /** The enum's names and codes both identify the role. */
  lemma RoleEncodingRoundTrip(r: Role)
    ensures RoleOfCode(RoleCode(r)) == Some(r)
    ensures RoleOfName(RoleName(r)) == Some(r)
  {
  }

  /** A users row (the key of the users table is its id). `password` is the
      virtual attribute: present only when assigned in this request. */
  datatype User = User(
    email: string,
    name: string,
    mobileNumber: Option<string>,
    password: Option<string>,
    role: Role,
    notificationsEnabled: Option<bool>,
    jti: Option<string>,
    deviceToken: Option<string>)

  type UserTable = map<nat, User>

  /** `User.new`: every column at its database default (role 0, notifications
      off). */
  function NewUser(): (u: User)
    ensures u.role == RegularUser && u.notificationsEnabled == Some(false)
    ensures u.password.None? && u.deviceToken.None? && u.jti.None?
  {
    User("", "", None, None, RegularUser, Some(false), None, None)
  }

  /** `jwt_payload`: the extra claim put into issued tokens. */
  function JwtPayload(u: User): (payload: map<string, string>)
    ensures payload.Keys == {"role"}
    ensures RoleOfName(payload["role"]) == Some(u.role)
  {
    map["role" := RoleName(u.role)]
  }

  // ---------------------------------------------------------------------
  // Mobile number: /\A(\+?[1-9]\d{0,3})?\d{9,14}\z/
  // ---------------------------------------------------------------------

  /** `[1-9]\d{0,3}` */
  predicate CountryCode(p: string) {
    1 <= |p| <= 4 && AllDigits(p) && p[0] != '0'
  }

  /** `(\+?[1-9]\d{0,3})?` */
  predicate MobilePrefix(p: string) {
    p == [] || CountryCode(p) || (|p| >= 1 && p[0] == '+' && CountryCode(p[1..]))
  }

  /** The whole string matches the pattern: some split into a prefix and a
      run of 9 to 14 digits. */
  predicate MatchesMobilePattern(s: string) {
    exists k :: 0 <= k <= |s| && MobilePrefix(s[..k]) && 9 <= |s| - k <= 14 && AllDigits(s[k..])
  }

  /** The same language without the split: an optional `+`, then only
      digits; with a `+` (or when longer than 14) 10 to 18 digits not
      starting with 0, otherwise 9 to 14 digits. */
  predicate MobileShape(s: string) {
    if |s| > 0 && s[0] == '+' then
      10 <= |s| - 1 <= 18 && AllDigits(s[1..]) && s[1] != '0'
    else
      AllDigits(s) && (9 <= |s| <= 14 || (10 <= |s| <= 18 && s[0] != '0'))
  }

  /** The length of the country code a matching digit run of length `n`
      can be given. */
  function CodeLength(n: int): int {
    if n <= 15 then 1 else n - 14
  }

  /** The regular expression and its split-free description accept the same
      strings. */
  lemma MobilePatternIff(s: string)
    ensures MatchesMobilePattern(s) <==> MobileShape(s)
  {
    if MobileShape(s) {
      ShapeMatches(s);
    }
    if MatchesMobilePattern(s) {
      MatchHasShape(s);
    }
  }

  /** Every string of the described shape matches, with the country code
      length `CodeLength` chooses. */
  lemma ShapeMatches(s: string)
    requires MobileShape(s)
    ensures MatchesMobilePattern(s)
  {
    if |s| > 0 && s[0] == '+' {
      var q := CodeLength(|s| - 1);
      var k := 1 + q;
      assert s[..k][1..] == s[1..][..q];
      assert MobilePrefix(s[..k]);
      assert s[k..] == s[1..][q..];
    } else if 9 <= |s| <= 14 {
      assert s[..0] == [] && s[0..] == s;
    } else {
      var k := CodeLength(|s|);
      assert CountryCode(s[..k]);
      assert MobilePrefix(s[..k]);
    }
  }

  /** Every matching string has the described shape. */
  lemma MatchHasShape(s: string)
    requires MatchesMobilePattern(s)
    ensures MobileShape(s)
  {
    var k :| 0 <= k <= |s| && MobilePrefix(s[..k]) && 9 <= |s| - k <= 14 && AllDigits(s[k..]);
    var p := s[..k];
    if p == [] {
      assert s[k..] == s;
    } else if CountryCode(p) {
      DigitsJoin(s, k);
      assert s[0] == p[0];
    } else {
      var t := s[1..];
      assert p[1..] == t[..k - 1] && s[k..] == t[k - 1..];
      DigitsJoin(t, k - 1);
      assert s[1] == p[1..][0];
    }
  }

  /** Two runs of digits make one. */
  lemma DigitsJoin(s: string, k: nat)
    requires k <= |s| && AllDigits(s[..k]) && AllDigits(s[k..])
    ensures AllDigits(s)
  {
    forall i | 0 <= i < |s| ensures IsDigit(s[i]) {
      if i < k {
        assert s[i] == s[..k][i];
      } else {
        assert s[i] == s[k..][i - k];
      }
    }
  }

  /** The sample numbers: too short fails, with or without a `+` the
      ten-digit forms pass. */
  lemma MobileExamples()
    ensures !MatchesMobilePattern("123")
    ensures MatchesMobilePattern("+1234567890")
    ensures MatchesMobilePattern("1234567890")
  {
    MobilePatternIff("123");
    MobilePatternIff("+1234567890");
    MobilePatternIff("1234567890");
  }

  // ---------------------------------------------------------------------
  // Password: /\A(?=.*[a-z])(?=.*[A-Z])(?=.*\d)(?=.*[@$!%*?&])[A-Za-z\d@$!%*?&]{8,}\z/
  // ---------------------------------------------------------------------

  predicate IsLowerLetter(c: char) { 'a' <= c <= 'z' }
  predicate IsUpperLetter(c: char) { 'A' <= c <= 'Z' }
  predicate IsSpecial(c: char) { c in "@$!%*?&" }

  predicate PasswordChar(c: char) {
    IsLowerLetter(c) || IsUpperLetter(c) || IsDigit(c) || IsSpecial(c)
  }

  /** The password pattern: at least 8 characters, all from the allowed
      class, with a lower-case letter, an upper-case letter, a digit and a
      special character somewhere. */
  predicate StrongPassword(p: string) {
    && |p| >= 8
    && (forall i :: 0 <= i < |p| ==> PasswordChar(p[i]))
    && (exists i :: 0 <= i < |p| && IsLowerLetter(p[i]))
    && (exists i :: 0 <= i < |p| && IsUpperLetter(p[i]))
    && (exists i :: 0 <= i < |p| && IsDigit(p[i]))
    && (exists i :: 0 <= i < |p| && IsSpecial(p[i]))
  }

  /** Matches the password pattern in one left-to-right pass. */
  method CheckPassword(p: string) returns (ok: bool)
    ensures ok <==> StrongPassword(p)
  {
    var lower, upper, digit, special := false, false, false, false;
    var i := 0;
    while i < |p|
      invariant 0 <= i <= |p|
      invariant forall j :: 0 <= j < i ==> PasswordChar(p[j])
      invariant lower <==> exists j :: 0 <= j < i && IsLowerLetter(p[j])
      invariant upper <==> exists j :: 0 <= j < i && IsUpperLetter(p[j])
      invariant digit <==> exists j :: 0 <= j < i && IsDigit(p[j])
      invariant special <==> exists j :: 0 <= j < i && IsSpecial(p[j])
    {
      var c := p[i];
      if !PasswordChar(c) {
        return false;
      }
      lower := lower || IsLowerLetter(c);
      upper := upper || IsUpperLetter(c);
      digit := digit || IsDigit(c);
      special := special || IsSpecial(c);
      i := i + 1;
    }
    ok := |p| >= 8 && lower && upper && digit && special;
  }

  /** The sign-up sample password passes; the all-lower-case one fails. */
  lemma PasswordExamples()
    ensures StrongPassword("Password@123")
    ensures !StrongPassword("password123")
  {
    var good := "Password@123";
    assert IsUpperLetter(good[0]) && IsLowerLetter(good[1]) && IsSpecial(good[8]) && IsDigit(good[9]);
    var bad := "password123";
    assert forall i :: 0 <= i < |bad| ==> !IsUpperLetter(bad[i]);
  }

  // ---------------------------------------------------------------------
  // Validations
  // ---------------------------------------------------------------------

  /** Another row (not `self`) already holds this mobile number. */
  predicate MobileTaken(u: User, self: Option<nat>, users: UserTable) {
    exists k :: k in users && Some(k) != self && users[k].mobileNumber == u.mobileNumber
  }

  /** Another row (not `self`) already holds this token id. */
  predicate JtiTaken(u: User, self: Option<nat>, users: UserTable) {
    exists k :: k in users && Some(k) != self && users[k].jti == u.jti
  }

  /** The per-attribute conditions of user.rb:10-15. `emailFormat` stands
      for `URI::MailTo::EMAIL_REGEXP`. */
  predicate NameOk(u: User) { !Blank(u.name) && 3 <= |u.name| <= 100 }
  predicate MobileOk(u: User, self: Option<nat>, users: UserTable) {
    MatchesMobilePattern(u.mobileNumber.GetOr("")) && !MobileTaken(u, self, users)
  }
  predicate PasswordOk(u: User) {
    u.password.Some? && !Blank(u.password.value) ==> StrongPassword(u.password.value)
  }

  const PasswordMessage: string :=
    "The password must include at least one uppercase letter, one lowercase letter, one digit, one special character, and have a minimum of 8 characters."

  function NameErrors(u: User): (errors: Errors)
    ensures Only(errors, "name") && (errors == {} <==> NameOk(u))
  {
    Presence("name", u.name)
    + Check(|u.name| >= 3, "name", TooShort(3))
    + Check(|u.name| <= 100, "name", TooLong(100))
  }

  function MobileErrors(u: User, self: Option<nat>, users: UserTable): (errors: Errors)
    ensures Only(errors, "mobile_number") && (errors == {} <==> MobileOk(u, self, users))
  {
    var mobile := u.mobileNumber.GetOr("");
    MatchImpliesPresent(mobile);
    Presence("mobile_number", mobile)
    + Check(MatchesMobilePattern(mobile), "mobile_number", IsInvalid)
    + Check(!MobileTaken(u, self, users), "mobile_number", AlreadyTaken)
  }

  function PasswordErrors(u: User): (errors: Errors)
    ensures Only(errors, "password") && (errors == {} <==> PasswordOk(u))
  {
    if u.password.Some? && !Blank(u.password.value)
    then Check(StrongPassword(u.password.value), "password", Message(PasswordMessage))
    else {}
  }

  /** Every validation of user.rb for the record `u`, stored (or about to be
      stored, `self == None`) among `users`; all failing attributes are
      reported together. */
  function Validate(u: User, self: Option<nat>, users: UserTable, emailFormat: string -> bool): (errors: Errors)
    ensures On(errors, "name") == {} <==> NameOk(u)
    ensures On(errors, "mobile_number") == {} <==> MobileOk(u, self, users)
    ensures On(errors, "email") == {} <==> emailFormat(u.email)
    ensures On(errors, "notifications_enabled") == {} <==> u.notificationsEnabled.Some?
    ensures On(errors, "password") == {} <==> PasswordOk(u)
    ensures On(errors, "jti") == {} <==> !JtiTaken(u, self, users)
    ensures errors == {} <==>
      NameOk(u) && MobileOk(u, self, users) && emailFormat(u.email) &&
      u.notificationsEnabled.Some? && PasswordOk(u) && !JtiTaken(u, self, users)
  {
    var name := NameErrors(u);
    var mobile := MobileErrors(u, self, users);
    var email := Check(emailFormat(u.email), "email", IsInvalid);
    var notifications := Check(u.notificationsEnabled.Some?, "notifications_enabled", NotIncluded);
    var password := PasswordErrors(u);
    var jti := Check(!JtiTaken(u, self, users), "jti", AlreadyTaken);
    var all := name + mobile + email + notifications + password + jti;
    UserAttributes(name, mobile, email, notifications, password, jti);
    all
  }

  /** A name of no-break spaces is blank, just as one of ASCII spaces. */
  lemma NbspNameRejected(u: User)
    ensures NameErrors(u.(name := "\U{00A0}\U{00A0}\U{00A0}")) == {FieldError("name", CantBeBlank)}
  {
    assert Blank("\U{00A0}\U{00A0}\U{00A0}");
  }

  /** `User.new` never validates: its name is blank. */
  lemma NewUserInvalid(self: Option<nat>, users: UserTable, emailFormat: string -> bool)
    ensures NameErrors(NewUser()) == {FieldError("name", CantBeBlank), FieldError("name", TooShort(3))}
    ensures !Valid(NewUser(), self, users, emailFormat)
  {
  }

  /** Errors from validators of other attributes never name this one. */
  lemma UserClean(name: Errors, mobile: Errors, email: Errors, notifications: Errors,
                  password: Errors, jti: Errors)
    requires Only(name, "name") && Only(mobile, "mobile_number") && Only(email, "email")
    requires Only(notifications, "notifications_enabled") && Only(password, "password") && Only(jti, "jti")
    ensures var all := name + mobile + email + notifications + password + jti;
      && (Clean(all, "name") <==> name == {})
      && (Clean(all, "mobile_number") <==> mobile == {})
      && (Clean(all, "email") <==> email == {})
      && (Clean(all, "notifications_enabled") <==> notifications == {})
      && (Clean(all, "password") <==> password == {})
      && (Clean(all, "jti") <==> jti == {})
  {
  }

  /** Bookkeeping for `Validate`: each attribute's errors come from its own
      validators only. */
  lemma UserAttributes(name: Errors, mobile: Errors, email: Errors, notifications: Errors,
                       password: Errors, jti: Errors)
    requires Only(name, "name") && Only(mobile, "mobile_number") && Only(email, "email")
    requires Only(notifications, "notifications_enabled") && Only(password, "password") && Only(jti, "jti")
    ensures var all := name + mobile + email + notifications + password + jti;
      && (On(all, "name") == {} <==> name == {})
      && (On(all, "mobile_number") == {} <==> mobile == {})
      && (On(all, "email") == {} <==> email == {})
      && (On(all, "notifications_enabled") == {} <==> notifications == {})
      && (On(all, "password") == {} <==> password == {})
      && (On(all, "jti") == {} <==> jti == {})
  {
    UserClean(name, mobile, email, notifications, password, jti);
    var all := name + mobile + email + notifications + password + jti;
    OnEmptyIff(all, "name");
    OnEmptyIff(all, "mobile_number");
    OnEmptyIff(all, "email");
    OnEmptyIff(all, "notifications_enabled");
    OnEmptyIff(all, "password");
    OnEmptyIff(all, "jti");
  }

  /** A matching mobile number is never blank. */
  lemma MatchImpliesPresent(s: string)
    ensures MatchesMobilePattern(s) ==> !Blank(s)
  {
    if MatchesMobilePattern(s) {
      var k :| 0 <= k <= |s| && MobilePrefix(s[..k]) && 9 <= |s| - k <= 14 && AllDigits(s[k..]);
      assert IsDigit(s[k..][0]) && s[k..][0] == s[k];
    }
  }

  predicate Valid(u: User, self: Option<nat>, users: UserTable, emailFormat: string -> bool) {
    Validate(u, self, users, emailFormat) == {}
  }

  /** Validity of a record depends on its own attributes only through the
      fields it reads: changing the device token changes nothing. */
  lemma DeviceTokenIrrelevant(u: User, token: Option<string>, self: Option<nat>, users: UserTable,
                              emailFormat: string -> bool)
    ensures Valid(u.(deviceToken := token), self, users, emailFormat) <==> Valid(u, self, users, emailFormat)
  {
  }

  /** Any set notification flag is as valid as any other. */
  lemma NotificationFlagIrrelevant(u: User, flag: bool, self: Option<nat>, users: UserTable,
                                   emailFormat: string -> bool)
    requires u.notificationsEnabled.Some?
    ensures Valid(u.(notificationsEnabled := Some(flag)), self, users, emailFormat) <==> Valid(u, self, users, emailFormat)
  {
  }

  // ---------------------------------------------------------------------
  // Devise's key normalisation (before_validation)
  // ---------------------------------------------------------------------

  /** What Devise's `downcase_keys` and then `strip_whitespace` make of the
      email before every validation: lower-cased, and stripped of the
      spaces at either end. */
  function NormalizeEmail(e: string): (r: string)
    ensures forall i :: 0 <= i < |r| ==> !('A' <= r[i] <= 'Z')
  {
    var r := Strip(LowerString(e));
    StripKeepsLowerCase(r, LowerString(e));
    r
  }

  /** The normalised email is the lower-cased one without the strip spaces
      at either end. */
  lemma NormalizeEmailStrips(e: string)
    ensures StripOf(NormalizeEmail(e), LowerString(e))
  {
  }

  /** Normalising twice is normalising once: a stored, normalised email
      comes back unchanged from the next save. */
  lemma NormalizeEmailTwice(e: string)
    ensures NormalizeEmail(NormalizeEmail(e)) == NormalizeEmail(e)
  {
    var r := NormalizeEmail(e);
    LowerOfLower(r);
    StripTwice(LowerString(e));
  }

  /** A missing email stays empty. */
  lemma NormalizeEmptyEmail()
    ensures NormalizeEmail("") == ""
  {
    StripUnchanged("");
  }

  /** " Ann@Example.com " is saved as "ann@example.com". */
  lemma NormalizeEmailExample()
    ensures NormalizeEmail(" Ann@Example.com ") == "ann@example.com"
  {
    assert LowerString(" Ann@Example.com ") == " " + "ann@example.com" + " ";
    StripPadded("ann@example.com");
  }

  /** The record as it is validated and saved: the email normalised. */
  function Normalized(u: User): (v: User)
    ensures v.email == NormalizeEmail(u.email)
    ensures v.(email := u.email) == u
  {
    u.(email := NormalizeEmail(u.email))
  }

  /** A normalised record is left as it is by the next save. */
  lemma NormalizedTwice(u: User)
    ensures Normalized(Normalized(u)) == Normalized(u)
  {
    NormalizeEmailTwice(u.email);
  }

  // ---------------------------------------------------------------------
  // Creation with the default subscription (after_create)
  // ---------------------------------------------------------------------

  /** The users table with the subscriptions table beside it. */
  datatype Accounts = Accounts(users: UserTable, subscriptions: seq<Subscriptions.Subscription>)

  /** The subscriptions that belong to user `id`. */
  function SubscriptionsOf(a: Accounts, id: nat): seq<Subscriptions.Subscription> {
    Seqs.Filter(a.subscriptions, (s: Subscriptions.Subscription) => s.userId == Some(id))
  }

  /** Inserting user `u` under a fresh id, followed by the `after_create`
      callback that gives it a basic, active subscription. The virtual
      `password` attribute is not a column (only its digest is stored), so
      the row holds every attribute but that one. */
  function Create(a: Accounts, id: nat, u: User): (a': Accounts)
    requires id !in a.users
    ensures a'.users == a.users[id := u.(password := None)]
    ensures a'.users[id].password.None?
    ensures |a'.subscriptions| == |a.subscriptions| + 1
    ensures forall i :: 0 <= i < |a.subscriptions| ==> a'.subscriptions[i] == a.subscriptions[i]
    ensures var s := a'.subscriptions[|a.subscriptions|];
      Subscriptions.IsBasic(s) && s.status == Some("active") && s.userId == Some(id) &&
      Subscriptions.Valid(s, a'.users.Keys)
  {
    Subscriptions.DefaultIsValid(id, a.users.Keys + {id});
    Accounts(a.users[id := u.(password := None)], a.subscriptions + [Subscriptions.Default(id)])
  }

  /** After creation the new user owns a basic, active subscription. */
  lemma CreateGivesSubscription(a: Accounts, id: nat, u: User)
    requires id !in a.users
    ensures exists s :: s in SubscriptionsOf(Create(a, id, u), id) && Subscriptions.IsBasic(s) && s.status == Some("active")
  {
    var a' := Create(a, id, u);
    var s := a'.subscriptions[|a.subscriptions|];
    assert s in a'.subscriptions;
  }
}
