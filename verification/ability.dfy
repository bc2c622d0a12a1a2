/** app/models/ability.rb: the CanCan permission table. */
module Ability {
  import Users

  /** Who is asking: an ActiveAdmin administrator, an application user, or
      nobody (nil). */
  datatype Actor = Admin | Member(user: Users.User) | Nobody

  /** The action asked about; CanCan's `:read` alias covers index and show. */
  datatype Action = Read | Index | Show | Create | Update | Destroy | OtherAction(name: string)

  /** The subject class asked about. */
  datatype Subject = MovieSubject | OtherSubject(name: string)

  /** `can :manage, <subject>` or `can :read, <subject>` */
  datatype Verb = Manage | ReadOnly
  datatype Scope = AllSubjects | Movies
  datatype Rule = Rule(verb: Verb, scope: Scope)

  /** The rules `initialize(user)` grants: `user ||= User.new`, then by kind
      and role. */
  function Rules(actor: Actor): seq<Rule> {
    var user := match actor
      case Member(u) => u
      case _ => Users.NewUser();
    if actor.Admin? then [Rule(Manage, AllSubjects)]
    else if user.role == Users.Supervisor then [Rule(Manage, Movies)]
    else [Rule(ReadOnly, Movies)]
  }

  predicate Covers(r: Rule, action: Action, subject: Subject) {
    && (r.verb == Manage || action in {Read, Index, Show})
    && (r.scope == AllSubjects || subject == MovieSubject)
  }

  /** `can?(action, subject)` */
  predicate Can(actor: Actor, action: Action, subject: Subject) {
    exists r :: r in Rules(actor) && Covers(r, action, subject)
  }

  predicate IsReadAction(action: Action) {
    action == Read || action == Index || action == Show
  }

  /** The whole table: administrators may do anything, supervisors anything
      on movies only, and everyone else (a nil user included) only read
      movies. */
  lemma Permissions(actor: Actor, action: Action, subject: Subject)
    ensures actor.Admin? ==> Can(actor, action, subject)
    ensures actor.Member? && actor.user.role == Users.Supervisor ==>
      (Can(actor, action, subject) <==> subject == MovieSubject)
    ensures (actor.Nobody? || (actor.Member? && actor.user.role == Users.RegularUser)) ==>
      (Can(actor, action, subject) <==> subject == MovieSubject && IsReadAction(action))
    ensures !actor.Admin? && subject != MovieSubject ==> !Can(actor, action, subject)
  {
    var r := Rules(actor)[0];
    assert r in Rules(actor);
  }

  /** A nil user gets exactly the rights of a plain user. */
  lemma NobodyIsPlainUser(u: Users.User, action: Action, subject: Subject)
    requires u.role == Users.RegularUser
    ensures Can(Nobody, action, subject) <==> Can(Member(u), action, subject)
  {
    Permissions(Nobody, action, subject);
    Permissions(Member(u), action, subject);
  }
}
