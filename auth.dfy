/**
 * The session-and-role bootstrapper (`AuthProvider`): four pieces of state
 * (`user`, `session`, `role`, `loading`) kept in step with the identity
 * provider's session events and the `user_roles` collection, plus the
 * demo-account sign-in and sign-out.
 *
 * The pure part is a state machine over `AuthView`; the class `AuthProvider`
 * holds the fields and its methods are specified by that state machine.
 */
module Auth {
  import opened Wrappers
  import opened Strings
  import opened Backend

  datatype Credentials = Credentials(email: string, password: string)

  /**
   * `DEMO_ACCOUNTS`: the fixed credentials of the two demo identities; each
   * role has its own email, so no demo account serves both roles.
   */
  function DemoAccount(role: Role): (c: Credentials)
    ensures c.password == "demo123456"
    ensures c.email == "demo.secretary@hua.gr" <==> role == Secretary
    ensures c.email == "demo.phd@hua.gr" <==> role == PhdStudent
  {
    match role
    case Secretary => Credentials("demo.secretary@hua.gr", "demo123456")
    case PhdStudent => Credentials("demo.phd@hua.gr", "demo123456")
  }

  /** The `full_name` metadata given to a demo account at sign-up; the two roles get different names. */
  function DemoFullName(role: Role): (name: string)
    ensures name == "Demo Γραμματεία" <==> role == Secretary
    ensures name == "Demo Διδακτορικός" <==> role == PhdStudent
  {
    match role
    case Secretary => "Demo Γραμματεία"
    case PhdStudent => "Demo Διδακτορικός"
  }

  /** The professor every freshly created demo PhD student is linked to. */
  const DemoProfessorId: Id := "11111111-1111-1111-1111-111111111111"

  /** The provider's exposed state. */
  datatype AuthView = AuthView(user: Option<User>, session: Option<Session>, role: Option<Role>, loading: bool)

  /** The state on mount. */
  const Initial: AuthView := AuthView(None, None, None, true)

  /**
   * `fetchUserRole`: a found row sets the role; a lookup error or a missing
   * row leaves the current role as it was.
   */
  function RoleAfterLookup(current: Option<Role>, lookup: Result<Option<Role>>): (r: Option<Role>)
    ensures r == current || (lookup.Success? && r == lookup.value)
    ensures lookup.Success? && lookup.value.Some? ==> r == lookup.value
    ensures lookup.Failure? || lookup.value.None? ==> r == current
  {
    if lookup.Success? && lookup.value.Some? then lookup.value else current
  }

  /**
   * The session-change listener, up to the role lookup it defers: the session
   * and its user are adopted, a signed-out event clears the role, a signed-in
   * event leaves the role for the deferred lookup, and `loading` is never touched.
   */
  function AfterSessionChange(v: AuthView, s: Option<Session>): (r: AuthView)
    ensures r.session == s && r.loading == v.loading
    ensures r.user.Some? <==> s.Some? && s.value.user.Some?
    ensures r.user.Some? ==> r.user == s.value.user && r.role == v.role
    ensures r.user.None? ==> r.role.None?
  {
    var u := SessionUser(s);
    AuthView(u, s, if u.Some? then v.role else None, v.loading)
  }

  /** The listener applied to a sequence of session-change events, oldest first; `loading` never changes. */
  function AfterEvents(v: AuthView, events: seq<Option<Session>>): (r: AuthView)
    ensures r.loading == v.loading
    ensures events == [] ==> r == v
    decreases |events|
  {
    if events == [] then v
    else AfterEvents(AfterSessionChange(v, events[0]), events[1..])
  }

  /**
   * After any non-empty sequence of session-change events, the user is present
   * exactly when the most recent event carried a session with a user, the
   * session is that event's, and no role survives a signed-out state.
   */
  lemma {:induction false} LastEventDecidesUser(v: AuthView, events: seq<Option<Session>>)
    requires events != []
    decreases |events|
    ensures var r := AfterEvents(v, events);
      && r.session == events[|events| - 1]
      && r.user == SessionUser(events[|events| - 1])
      && (r.user.None? ==> r.role.None?)
  {
    if |events| > 1 {
      LastEventDecidesUser(AfterSessionChange(v, events[0]), events[1..]);
    }
  }

  /**
   * Completion of the initial `getSession`: the session and its user are
   * adopted, the role is looked up when there is a user, and `loading` ends.
   */
  function AfterInitialSession(v: AuthView, s: Option<Session>, lookup: Result<Option<Role>>): (r: AuthView)
    ensures r.session == s && r.user == SessionUser(s) && !r.loading
    ensures r.role == if r.user.Some? then RoleAfterLookup(v.role, lookup) else v.role
  {
    var u := SessionUser(s);
    AuthView(u, s, if u.Some? then RoleAfterLookup(v.role, lookup) else v.role, false)
  }

  /**
   * `loading` is true from mount until the initial `getSession` completes,
   * whatever events arrive first, and false from then on, whatever events
   * follow and whether or not a session was found.
   */
  lemma LoadingEndsOnlyWithInitialSession(before: seq<Option<Session>>, s: Option<Session>,
                                          lookup: Result<Option<Role>>, after: seq<Option<Session>>)
    ensures AfterEvents(Initial, before).loading
    ensures !AfterEvents(AfterInitialSession(AfterEvents(Initial, before), s, lookup), after).loading
  {
  }

  /** `signOut`: user, session and role are all cleared; `loading` is kept. */
  function AfterSignOut(v: AuthView): (r: AuthView)
    ensures r.user.None? && r.session.None? && r.role.None? && r.loading == v.loading
  {
    AuthView(None, None, None, v.loading)
  }

  /** `fetchUserRole` completing: the role follows `RoleAfterLookup`, whoever is signed in by then. */
  function AfterRoleLookup(v: AuthView, lookup: Result<Option<Role>>): (r: AuthView)
    ensures r.user == v.user && r.session == v.session && r.loading == v.loading
    ensures r.role == RoleAfterLookup(v.role, lookup)
  {
    v.(role := RoleAfterLookup(v.role, lookup))
  }

  /** One thing that can happen to the provider's state, in any interleaving. */
  datatype AuthStep =
    | SessionChanged(s: Option<Session>)
    | RoleLookedUp(userId: Id, lookup: Result<Option<Role>>)
    | InitialSession(s: Option<Session>, lookup: Result<Option<Role>>)
    | SignedOut

  /** A step as the provider performs it. */
  function Step(v: AuthView, step: AuthStep): AuthView
  {
    match step
    case SessionChanged(s) => AfterSessionChange(v, s)
    case RoleLookedUp(_, lookup) => AfterRoleLookup(v, lookup)
    case InitialSession(s, lookup) => AfterInitialSession(v, s, lookup)
    case SignedOut => AfterSignOut(v)
  }

  function Run(v: AuthView, steps: seq<AuthStep>): AuthView
    decreases |steps|
  {
    if steps == [] then v else Run(Step(v, steps[0]), steps[1..])
  }

  /** A role is only held while someone is signed in. */
  predicate NoRoleWithoutUser(v: AuthView)
  {
    v.role.Some? ==> v.user.Some?
  }

  /**
   * A role lookup deferred by a signed-in event can complete after a
   * signed-out event: the role of the signed-out user is then set with no
   * user present.
   */
  lemma StaleLookupGivesRoleWithoutUser(a: User)
    ensures var v := Run(Initial, [SessionChanged(Some(Session(Some(a)))), SessionChanged(None),
                                   RoleLookedUp(a.id, Success(Some(Secretary)))]);
      v.user.None? && v.role == Some(Secretary) && !NoRoleWithoutUser(v)
  {
    var steps := [SessionChanged(Some(Session(Some(a)))), SessionChanged(None), RoleLookedUp(a.id, Success(Some(Secretary)))];
    var v1 := AfterSessionChange(Initial, Some(Session(Some(a))));
    var v2 := AfterSessionChange(v1, None);
    var v3 := AfterRoleLookup(v2, Success(Some(Secretary)));
    assert steps[1..][1..][1..] == [];
    assert Run(v2, steps[1..][1..]) == Run(v3, []);
    assert Run(v1, steps[1..]) == Run(v2, steps[1..][1..]);
    assert Run(Initial, steps) == Run(v1, steps[1..]);
  }

  /**
   * A step with the stale cases closed: a role lookup is adopted only while
   * the user it was started for is still the signed-in user, and an initial
   * session without a user clears the role, as the listener already does.
   */
  function StepChecked(v: AuthView, step: AuthStep): (r: AuthView)
    ensures NoRoleWithoutUser(v) ==> NoRoleWithoutUser(r)
    ensures step.SessionChanged? || step.SignedOut? ==> r == Step(v, step)
    ensures step.RoleLookedUp? ==>
      r == if v.user.Some? && v.user.value.id == step.userId then Step(v, step) else v
    ensures step.InitialSession? && SessionUser(step.s).Some? ==> r == Step(v, step)
  {
    match step
    case RoleLookedUp(userId, lookup) =>
      if v.user.Some? && v.user.value.id == userId then AfterRoleLookup(v, lookup) else v
    case InitialSession(s, lookup) =>
      var r := AfterInitialSession(v, s, lookup);
      if r.user.None? then r.(role := None) else r
    case _ => Step(v, step)
  }

  function RunChecked(v: AuthView, steps: seq<AuthStep>): AuthView
    decreases |steps|
  {
    if steps == [] then v else RunChecked(StepChecked(v, steps[0]), steps[1..])
  }

  /** With the checked steps, no interleaving of events, lookups and sign-outs leaves a role without a user. */
  lemma {:induction false} CheckedRunsKeepRoleWithUser(v: AuthView, steps: seq<AuthStep>)
    requires NoRoleWithoutUser(v)
    ensures NoRoleWithoutUser(RunChecked(v, steps))
    decreases |steps|
  {
    if steps != [] {
      CheckedRunsKeepRoleWithUser(StepChecked(v, steps[0]), steps[1..]);
    }
  }

  /** Which backend calls of `signInDemo` fail, and how. */
  datatype DemoFaults = DemoFaults(signIn: Option<string>, signUp: Option<string>,
                                   roleRead: bool, roleWrite: bool, linkWrite: bool)

  /** The link rows a demo sign-up inserts: the demo professor for a PhD student, none for a secretary. */
  function DemoLinks(userId: Id, demoRole: Role, linkWriteFault: bool): (ls: set<Link>)
    ensures LinksOf(ls, userId) == if demoRole == PhdStudent && !linkWriteFault then {DemoProfessorId} else {}
  {
    if demoRole == PhdStudent && !linkWriteFault then {Link(userId, DemoProfessorId)} else {}
  }

  /** A user id that no account has owns no link rows, as long as links refer to accounts. */
  lemma NoLinksOfUnknownUser(links: set<Link>, userId: Id, userIds: set<Id>)
    requires forall l | l in links :: l.userId in userIds
    requires userId !in userIds
    ensures LinksOf(links, userId) == {}
  {
    assert forall l | l in links :: l.userId != userId;
  }

  lemma LinksOfUnion(links: set<Link>, added: set<Link>, userId: Id)
    requires LinksOf(links, userId) == {}
    ensures LinksOf(links + added, userId) == LinksOf(added, userId)
  {
  }

  class AuthProvider {
    var user: Option<User>
    var session: Option<Session>
    var role: Option<Role>
    var loading: bool
    const db: Store

    function View(): AuthView
      reads this
    {
      AuthView(user, session, role, loading)
    }

    constructor (db: Store)
      ensures View() == Initial && this.db == db
    {
      user, session, role, loading := None, None, None, true;
      this.db := db;
    }

    /**
     * The `onAuthStateChange` callback. The role lookup it defers is returned
     * as the user id to look up; running it is `FetchUserRole`.
     */
    method OnAuthStateChange(s: Option<Session>) returns (deferredLookup: Option<Id>)
      modifies this
      ensures View() == AfterSessionChange(old(View()), s)
      ensures deferredLookup.Some? <==> SessionUser(s).Some?
      ensures deferredLookup.Some? ==> deferredLookup.value == SessionUser(s).value.id
    {
      session := s;
      user := SessionUser(s);
      if user.Some? {
        deferredLookup := Some(user.value.id);
      } else {
        deferredLookup := None;
        role := None;
      }
    }

    /** `fetchUserRole(userId)`: the result is adopted whoever is signed in by then. */
    method FetchUserRole(userId: Id, lookupFault: bool)
      modifies this`role
      ensures View() == Step(old(View()), RoleLookedUp(userId, db.SelectRole(userId, lookupFault)))
    {
      var found := db.SelectRole(userId, lookupFault);
      if found.Success? && found.value.Some? {
        role := found.value;
      }
    }

    /**
     * Completion of the initial `getSession`. Its error is not inspected: a
     * failed read hands over no session.
     */
    method GetSessionCompleted(sessionFault: bool, lookupFault: bool)
      modifies this
      ensures var got := db.CurrentSession(sessionFault);
        var s := if got.Success? then got.value else None;
        var u := SessionUser(s);
        View() == Step(old(View()), InitialSession(s, if u.Some? then db.SelectRole(u.value.id, lookupFault) else Success(None)))
      ensures sessionFault ==> user.None? && session.None? && !loading
    {
      var got := db.CurrentSession(sessionFault);
      var s := if got.Success? then got.value else None;
      session := s;
      user := SessionUser(s);
      if user.Some? {
        FetchUserRole(user.value.id, lookupFault);
      }
      loading := false;
    }

    /**
     * `signInDemo(demoRole)`: sign in with the demo credentials; if the
     * provider answers "Invalid login credentials", provision the account
     * (`ProvisionDemo`); any other sign-in error is returned as it is; on
     * success, resolve the role of the existing account (`AdoptDemoRole`).
     */
    method SignInDemo(demoRole: Role, faults: DemoFaults) returns (error: Option<string>)
      requires db.Valid()
      modifies this`role, db`accounts, db`session, db`roles, db`links
      ensures db.Valid()
      // Any other sign-in error is returned verbatim and nothing is created.
      ensures var signIn := old(db.PasswordSignIn(DemoAccount(demoRole).email, DemoAccount(demoRole).password, faults.signIn));
        signIn.Failure? && !Includes(signIn.error, InvalidCredentials) ==>
          && error == Some(signIn.error) && role == old(role)
          && db.accounts == old(db.accounts) && db.session == old(db.session)
          && db.roles == old(db.roles) && db.links == old(db.links)
      // A failed sign-up is returned verbatim and nothing is created.
      ensures var signIn := old(db.PasswordSignIn(DemoAccount(demoRole).email, DemoAccount(demoRole).password, faults.signIn));
        signIn.Failure? && Includes(signIn.error, InvalidCredentials)
        && (faults.signUp.Some? || DemoAccount(demoRole).email in old(db.accounts)) ==>
          && error == Some(if faults.signUp.Some? then faults.signUp.value else AlreadyRegistered)
          && role == old(role)
          && db.accounts == old(db.accounts) && db.session == old(db.session)
          && db.roles == old(db.roles) && db.links == old(db.links)
      // Sign-up: a fresh account, its role row, the demo link for a PhD student, and the requested role.
      ensures var account := DemoAccount(demoRole);
        var signIn := old(db.PasswordSignIn(account.email, account.password, faults.signIn));
        signIn.Failure? && Includes(signIn.error, InvalidCredentials)
        && faults.signUp.None? && account.email !in old(db.accounts) ==>
          && error.None? && role == Some(demoRole)
          && account.email in db.accounts
          && var id := db.accounts[account.email].id;
          && id !in old(db.UserIds())
          && db.accounts == old(db.accounts)[account.email := Account(id, account.password, DemoFullName(demoRole))]
          && db.session == Some(Session(Some(User(id, Some(account.email)))))
          && db.roles == (if faults.roleWrite then old(db.roles) else old(db.roles)[id := demoRole])
          && db.links == old(db.links) + DemoLinks(id, demoRole, faults.linkWrite)
          && LinksOf(db.links, id) == LinksOf(DemoLinks(id, demoRole, faults.linkWrite), id)
      // Existing account: adopt its stored role, or upsert the requested one when no row is found.
      ensures var signIn := old(db.PasswordSignIn(DemoAccount(demoRole).email, DemoAccount(demoRole).password, faults.signIn));
        signIn.Success? ==>
          && error.None?
          && db.accounts == old(db.accounts) && db.links == old(db.links)
          && db.session == Some(Session(Some(signIn.value)))
          && var stored := old(db.SelectRole(signIn.value.id, faults.roleRead));
          && (stored.Success? && stored.value.Some? ==> role == stored.value && db.roles == old(db.roles))
          && (stored.Failure? || stored.value.None? ==>
                && role == Some(demoRole)
                && db.roles == (if faults.roleWrite then old(db.roles) else old(db.roles)[signIn.value.id := demoRole]))
    {
      var account := DemoAccount(demoRole);
      var signIn := db.SignInWithPassword(account.email, account.password, faults.signIn);
      if signIn.Failure? {
        if Includes(signIn.error, InvalidCredentials) {
          error := ProvisionDemo(demoRole, faults);
        } else {
          error := Some(signIn.error);
        }
      } else {
        assert signIn.value.id in db.UserIds() by {
          assert db.accounts[account.email].id == signIn.value.id;
        }
        AdoptDemoRole(signIn.value.id, demoRole, faults);
        error := None;
      }
    }

    /** The sign-up branch of `signInDemo`. */
    method ProvisionDemo(demoRole: Role, faults: DemoFaults) returns (error: Option<string>)
      requires db.Valid()
      modifies this`role, db`accounts, db`session, db`roles, db`links
      ensures db.Valid()
      ensures var account := DemoAccount(demoRole);
        faults.signUp.Some? || account.email in old(db.accounts) ==>
          && error == Some(if faults.signUp.Some? then faults.signUp.value else AlreadyRegistered)
          && role == old(role)
          && db.accounts == old(db.accounts) && db.session == old(db.session)
          && db.roles == old(db.roles) && db.links == old(db.links)
      ensures var account := DemoAccount(demoRole);
        faults.signUp.None? && account.email !in old(db.accounts) ==>
          && error.None? && role == Some(demoRole)
          && account.email in db.accounts
          && var id := db.accounts[account.email].id;
          && id !in old(db.UserIds())
          && db.accounts == old(db.accounts)[account.email := Account(id, account.password, DemoFullName(demoRole))]
          && db.session == Some(Session(Some(User(id, Some(account.email)))))
          && db.roles == (if faults.roleWrite then old(db.roles) else old(db.roles)[id := demoRole])
          && db.links == old(db.links) + DemoLinks(id, demoRole, faults.linkWrite)
          && LinksOf(db.links, id) == LinksOf(DemoLinks(id, demoRole, faults.linkWrite), id)
    {
      var account := DemoAccount(demoRole);
      var signUp := db.SignUp(account.email, account.password, DemoFullName(demoRole), faults.signUp);
      if signUp.Failure? {
        return Some(signUp.error);
      }
      var id := signUp.value.id;
      assert db.accounts[account.email].id == id;
      assert id in db.UserIds();
      NoLinksOfUnknownUser(db.links, id, old(db.UserIds()));
      var _ := db.InsertRole(id, demoRole, faults.roleWrite);
      if demoRole == PhdStudent {
        var _ := db.InsertLinks({Link(id, DemoProfessorId)}, faults.linkWrite);
      }
      LinksOfUnion(old(db.links), DemoLinks(id, demoRole, faults.linkWrite), id);
      role := Some(demoRole);
      return None;
    }

    /** The existing-account branch of `signInDemo`. */
    method AdoptDemoRole(userId: Id, demoRole: Role, faults: DemoFaults)
      requires db.Valid() && userId in db.UserIds()
      modifies this`role, db`roles
      ensures db.Valid()
      ensures var stored := old(db.SelectRole(userId, faults.roleRead));
        && (stored.Success? && stored.value.Some? ==> role == stored.value && db.roles == old(db.roles))
        && (stored.Failure? || stored.value.None? ==>
              && role == Some(demoRole)
              && db.roles == (if faults.roleWrite then old(db.roles) else old(db.roles)[userId := demoRole]))
    {
      var stored := db.SelectRole(userId, faults.roleRead);
      if stored.Success? && stored.value.Some? {
        role := stored.value;
      } else {
        var _ := db.UpsertRole(userId, demoRole, faults.roleWrite);
        role := Some(demoRole);
      }
    }

    /**
     * `signOut`: the three fields are cleared on return whatever the provider
     * answers; its error is not inspected, so a failed call leaves the
     * provider's session in place.
     */
    method SignOut(signOutFault: bool)
      modifies this, db`session
      ensures View() == AfterSignOut(old(View()))
      ensures db.session == if signOutFault then old(db.session) else None
    {
      var _ := db.SignOut(signOutFault);
      user, session, role := None, None, None;
    }
  }

  /** No backend call fails. */
  const NoFaults: DemoFaults := DemoFaults(None, None, false, false, false)

  /**
   * Demo sign-in is idempotent when nothing fails: once a call has succeeded,
   * calling it again for the same role succeeds, keeps the role the first call
   * gave, and creates no account, role row or link.
   */
  method SignInDemoTwice(auth: AuthProvider, demoRole: Role)
    returns (first: Option<string>, second: Option<string>, roleAfterFirst: Option<Role>,
             ghost accounts: map<string, Account>, ghost roles: map<Id, Role>, ghost links: set<Link>)
    requires auth.db.Valid()
    modifies auth`role, auth.db`accounts, auth.db`session, auth.db`roles, auth.db`links
    ensures auth.db.Valid()
    ensures first.None? ==> second.None? && auth.role == roleAfterFirst && roleAfterFirst.Some?
    ensures first.None? ==> auth.db.accounts == accounts && auth.db.roles == roles && auth.db.links == links
    ensures first.None? && old(DemoAccount(demoRole).email !in auth.db.accounts) ==> auth.role == Some(demoRole)
  {
    first := auth.SignInDemo(demoRole, NoFaults);
    roleAfterFirst := auth.role;
    accounts, roles, links := auth.db.accounts, auth.db.roles, auth.db.links;
    second := auth.SignInDemo(demoRole, NoFaults);
  }
}
