/**
 * The OAuth callback page: after the provider redirects back, it checks the
 * session, enforces the university email domain and either sends the user to
 * the dashboard or asks them to pick a role, which `AssignRole` then stores.
 */
module AuthCallback {
  import opened Wrappers
  import opened Strings
  import opened Backend
  import opened Routes
  import Auth

  /** The errors the page can show. */
  datatype CallbackError = SessionFailed | NoUser | NotUniversityEmail | RoleAssignmentFailed

  /** The text shown for each error; each text belongs to exactly one error. */
  function Message(e: CallbackError): (r: string)
    ensures r == "Αποτυχία σύνδεσης. Παρακαλώ δοκιμάστε ξανά." <==> e == SessionFailed
    ensures r == "Δεν βρέθηκε χρήστης." <==> e == NoUser
    ensures r == "Παρακαλώ χρησιμοποιήστε το ακαδημαϊκό σας email (@hua.gr)" <==> e == NotUniversityEmail
    ensures r == "Αποτυχία ανάθεσης ρόλου. Παρακαλώ δοκιμάστε ξανά." <==> e == RoleAssignmentFailed
  {
    match e
    case SessionFailed => "Αποτυχία σύνδεσης. Παρακαλώ δοκιμάστε ξανά."
    case NoUser => "Δεν βρέθηκε χρήστης."
    case NotUniversityEmail => "Παρακαλώ χρησιμοποιήστε το ακαδημαϊκό σας email (@hua.gr)"
    case RoleAssignmentFailed => "Αποτυχία ανάθεσης ρόλου. Παρακαλώ δοκιμάστε ξανά."
  }

  const UniversityDomain: string := "@hua.gr"

  /** `userEmail?.endsWith('@hua.gr')`: a missing email fails the check. */
  function HasUniversityEmail(u: User): (r: bool)
    ensures r <==> u.email.Some? && exists p :: u.email.value == p + UniversityDomain
  {
    if u.email.None? then false
    else
      EndsWithIff(u.email.value, UniversityDomain);
      EndsWith(u.email.value, UniversityDomain)
  }

  /** Both demo identities pass the domain check. */
  lemma DemoAccountsHaveUniversityEmail(id: Id, role: Role)
    ensures HasUniversityEmail(User(id, Some(Auth.DemoAccount(role).email)))
  {
    var email := Auth.DemoAccount(role).email;
    assert email[|email| - |UniversityDomain|..] == UniversityDomain;
  }

  /** Where `handleCallback` ends up. */
  datatype Decision =
    | Fail(error: CallbackError, signsOut: bool)
    | GoToDashboard
    | PickRole(userId: Id)

  /**
   * The decision chain of `handleCallback`, in order: a session error, a
   * session without user, an email outside the university domain (which
   * also signs the user out), then the role lookup, whose error is not
   * inspected and so reads as "no role row".
   */
  function Decide(got: Result<Option<Session>>, roles: map<Id, Role>, lookupFault: bool): (d: Decision)
    ensures d == Fail(SessionFailed, false) <==> got.Failure?
    ensures d == Fail(NoUser, false) <==> got.Success? && SessionUser(got.value).None?
    ensures d.Fail? ==> d.error != RoleAssignmentFailed
    ensures d.Fail? && d.signsOut <==> d == Fail(NotUniversityEmail, true)
    ensures d == Fail(NotUniversityEmail, true) <==>
      got.Success? && SessionUser(got.value).Some? && !HasUniversityEmail(SessionUser(got.value).value)
    ensures !d.Fail? ==> got.Success? && SessionUser(got.value).Some? && HasUniversityEmail(SessionUser(got.value).value)
    ensures d.GoToDashboard? ==> !lookupFault && SessionUser(got.value).value.id in roles
    ensures d.PickRole? ==>
      d.userId == SessionUser(got.value).value.id && (lookupFault || d.userId !in roles)
    ensures got.Success? && SessionUser(got.value).Some? && HasUniversityEmail(SessionUser(got.value).value) ==> !d.Fail?
    ensures lookupFault && !d.Fail? ==> d == PickRole(SessionUser(got.value).value.id)
  {
    if got.Failure? then Fail(SessionFailed, false)
    else
      var u := SessionUser(got.value);
      if u.None? then Fail(NoUser, false)
      else if !HasUniversityEmail(u.value) then Fail(NotUniversityEmail, true)
      else if !lookupFault && u.value.id in roles then GoToDashboard
      else PickRole(u.value.id)
  }

  /** The role table is never consulted before the session and domain checks pass. */
  lemma RolesConsultedOnlyForUniversityUsers(got: Result<Option<Session>>, roles1: map<Id, Role>, fault1: bool,
                                             roles2: map<Id, Role>, fault2: bool)
    requires got.Failure? || SessionUser(got.value).None? || !HasUniversityEmail(SessionUser(got.value).value)
    ensures Decide(got, roles1, fault1) == Decide(got, roles2, fault2)
  {
  }

  /** A university user with a role row always reaches the dashboard; without one, the role picker. */
  lemma UniversityUserOutcome(s: Session, roles: map<Id, Role>)
    requires s.user.Some? && HasUniversityEmail(s.user.value)
    ensures s.user.value.id in roles ==> Decide(Success(Some(s)), roles, false) == GoToDashboard
    ensures s.user.value.id !in roles ==> Decide(Success(Some(s)), roles, false) == PickRole(s.user.value.id)
  {
  }

  class CallbackPage {
    /** The message shown, if any. */
    var error: Option<string>
    var needsRole: bool
    var userId: Option<Id>
    var isAssigning: bool
    /** The route the page navigated to, if it did. */
    var navigatedTo: Option<string>
    const db: Store

    constructor (db: Store)
      ensures error.None? && !needsRole && userId.None? && !isAssigning && navigatedTo.None?
      ensures this.db == db
    {
      error, needsRole, userId, isAssigning, navigatedTo := None, false, None, false, None;
      this.db := db;
    }

    /** `handleCallback`; the error of the domain-check sign-out is not inspected. */
    method HandleCallback(sessionFault: bool, lookupFault: bool, signOutFault: bool)
      modifies this`error, this`needsRole, this`userId, this`navigatedTo, db`session
      ensures var d := old(Decide(db.CurrentSession(sessionFault), db.roles, lookupFault));
        && (d.Fail? ==> error == Some(Message(d.error)) && needsRole == old(needsRole)
                        && userId == old(userId) && navigatedTo == old(navigatedTo))
        && (d.GoToDashboard? ==> navigatedTo == Some(DashboardRoute) && error == old(error)
                                 && needsRole == old(needsRole) && userId == old(userId))
        && (d.PickRole? ==> userId == Some(d.userId) && needsRole && error == old(error)
                            && navigatedTo == old(navigatedTo))
        && db.session == if d.Fail? && d.signsOut && !signOutFault then None else old(db.session)
    {
      var got := db.CurrentSession(sessionFault);
      if got.Failure? {
        error := Some(Message(SessionFailed));
        return;
      }
      var u := SessionUser(got.value);
      if u.None? {
        error := Some(Message(NoUser));
        return;
      }
      if !HasUniversityEmail(u.value) {
        var _ := db.SignOut(signOutFault);
        error := Some(Message(NotUniversityEmail));
        return;
      }
      var found := db.SelectRole(u.value.id, lookupFault);
      if found.Success? && found.value.Some? {
        navigatedTo := Some(DashboardRoute);
      } else {
        userId := Some(u.value.id);
        needsRole := true;
      }
    }

    /**
     * `assignRole(selectedRole)`: without a pending user nothing happens;
     * otherwise the role row is inserted, a failed insert shows an error and
     * stays on the page, a successful one goes to the dashboard, and
     * `isAssigning` is false afterwards either way.
     */
    method AssignRole(selectedRole: Role, insertFault: bool)
      requires db.Valid()
      modifies this`isAssigning, this`error, this`navigatedTo, db`roles
      ensures db.Valid()
      ensures userId.None? ==>
        isAssigning == old(isAssigning) && error == old(error) && navigatedTo == old(navigatedTo)
        && db.roles == old(db.roles)
      ensures userId.Some? ==>
        var id := userId.value;
        var inserted := !insertFault && id in db.UserIds() && id !in old(db.roles);
        && !isAssigning
        && (inserted ==> navigatedTo == Some(DashboardRoute) && error == old(error)
                         && db.roles == old(db.roles)[id := selectedRole])
        && (!inserted ==> error == Some(Message(RoleAssignmentFailed)) && navigatedTo == old(navigatedTo)
                          && db.roles == old(db.roles))
    {
      if userId.None? {
        return;
      }
      isAssigning := true;
      var ok := db.InsertRole(userId.value, selectedRole, insertFault);
      if !ok {
        error := Some(Message(RoleAssignmentFailed));
      } else {
        navigatedTo := Some(DashboardRoute);
      }
      isAssigning := false;
    }
  }
}
