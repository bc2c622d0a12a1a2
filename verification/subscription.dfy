/** app/models/subscription.rb: a user's plan, validated against fixed lists. */
module Subscriptions {
  import opened Wrappers
  import opened Text
  import opened Validation

  const PlanTypes: seq<string> := ["basic", "premium"]
  const Statuses: seq<string> := ["active", "inactive", "cancelled"]

  /** A subscriptions row; `userId` is the `belongs_to :user` reference. */
  datatype Subscription = Subscription(userId: Option<nat>, planType: Option<string>, status: Option<string>)

  /** Every validation of the model: presence and inclusion of `plan_type`
      and `status`, and the required `user` of `belongs_to` (which must be
      one of `userIds`, the existing users). */
  function Validate(s: Subscription, userIds: set<nat>): (errors: Errors)
    ensures On(errors, "plan_type") == {} <==> s.planType.Some? && s.planType.value in PlanTypes
    ensures On(errors, "status") == {} <==> s.status.Some? && s.status.value in Statuses
    ensures On(errors, "user") == {} <==> s.userId.Some? && s.userId.value in userIds
    ensures forall e :: e in errors ==> e.attribute in {"plan_type", "status", "user"}
  {
    var plan := Check(!BlankOpt(s.planType), "plan_type", CantBeBlank) + Inclusion("plan_type", s.planType, PlanTypes);
    var status := Check(!BlankOpt(s.status), "status", CantBeBlank) + Inclusion("status", s.status, Statuses);
    var user := Check(s.userId.Some? && s.userId.value in userIds, "user", MustExist);
    ListedIsPresent(s.planType, PlanTypes);
    ListedIsPresent(s.status, Statuses);
    SubscriptionAttributes(plan, status, user);
    plan + status + user
  }

  /** Bookkeeping for `Validate`: each attribute's errors come from its own
      validators only. */
  lemma SubscriptionAttributes(plan: Errors, status: Errors, user: Errors)
    requires Only(plan, "plan_type") && Only(status, "status") && Only(user, "user")
    ensures var all := plan + status + user;
      && (On(all, "plan_type") == {} <==> plan == {})
      && (On(all, "status") == {} <==> status == {})
      && (On(all, "user") == {} <==> user == {})
      && forall e :: e in all ==> e.attribute in {"plan_type", "status", "user"}
  {
    var all := plan + status + user;
    assert Clean(all, "plan_type") <==> plan == {};
    assert Clean(all, "status") <==> status == {};
    assert Clean(all, "user") <==> user == {};
    OnEmptyIff(all, "plan_type");
    OnEmptyIff(all, "status");
    OnEmptyIff(all, "user");
  }

  /** A value from either list is not blank, so inclusion implies presence. */
  lemma ListedIsPresent(value: Option<string>, allowed: seq<string>)
    requires allowed == PlanTypes || allowed == Statuses
    ensures value.Some? && value.value in allowed ==> !BlankOpt(value)
  {
    if value.Some? && value.value in allowed {
      assert !IsSpace(value.value[0]);
    }
  }

  predicate Valid(s: Subscription, userIds: set<nat>) {
    Validate(s, userIds) == {}
  }

  /** `basic?` */
  predicate IsBasic(s: Subscription) {
    s.planType == Some("basic")
  }

  /** `premium?` */
  predicate IsPremium(s: Subscription) {
    s.planType == Some("premium")
  }

  /** The subscription `after_create` gives every new user (user.rb:38-40). */
  function Default(userId: nat): (s: Subscription)
    ensures IsBasic(s) && s.status == Some("active") && s.userId == Some(userId)
  {
    Subscription(Some(userId), Some("basic"), Some("active"))
  }

  /** A record is valid exactly when its plan and status are in the lists and
      it belongs to an existing user. */
  lemma ValidIff(s: Subscription, userIds: set<nat>)
    ensures Valid(s, userIds) <==>
      s.planType.Some? && s.planType.value in PlanTypes &&
      s.status.Some? && s.status.value in Statuses &&
      s.userId.Some? && s.userId.value in userIds
  {
    if Valid(s, userIds) {
      assert On(Validate(s, userIds), "plan_type") == {};
      assert On(Validate(s, userIds), "status") == {};
      assert On(Validate(s, userIds), "user") == {};
    } else {
      var e :| e in Validate(s, userIds);
      assert e.kind in On(Validate(s, userIds), e.attribute);
    }
  }

  /** `basic?` and `premium?` never both hold, and a valid record satisfies
      exactly one of them. */
  lemma BasicXorPremium(s: Subscription, userIds: set<nat>)
    ensures !(IsBasic(s) && IsPremium(s))
    ensures Valid(s, userIds) ==> IsBasic(s) != IsPremium(s)
  {
    if Valid(s, userIds) {
      ValidIff(s, userIds);
    }
  }

  /** A subscription is only valid when it belongs to an existing user. */
  lemma ValidBelongsToUser(s: Subscription, userIds: set<nat>)
    requires Valid(s, userIds)
    ensures s.userId.Some? && s.userId.value in userIds
  {
    ValidIff(s, userIds);
  }

  /** The default subscription of an existing user passes validation. */
  lemma DefaultIsValid(userId: nat, userIds: set<nat>)
    requires userId in userIds
    ensures Valid(Default(userId), userIds)
  {
    ValidIff(Default(userId), userIds);
  }

  /** A record with an unknown plan and an unknown status reports both. */
  lemma BothFieldsReported(userId: nat, userIds: set<nat>)
    ensures var errs := Validate(Subscription(Some(userId), Some("invalid_plan"), Some("invalid_status")), userIds);
      NotIncluded in On(errs, "plan_type") && NotIncluded in On(errs, "status")
  {
  }
}
