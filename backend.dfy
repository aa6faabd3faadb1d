/**
 * The hosted backend the pages talk to, replaced by an in-model store: the
 * identity provider's accounts and current session, and the record
 * collections `user_roles`, `phd_supervisor_links`, `availability`,
 * `professors`, `courses` and `exams`. Every SDK call is one atomic
 * operation; whether the call fails on the wire is an input (`fault`).
 */
module Backend {
  import opened Wrappers

  /** Row and principal ids (UUIDs in the database). */
  type Id = string

  datatype Role = Secretary | PhdStudent

  /** The identity provider's user: its id and (possibly missing) email. */
  datatype User = User(id: Id, email: Option<string>)

  /** A session as the provider hands it out; its `user` may be missing. */
  datatype Session = Session(user: Option<User>)

  /** An identity-provider account, keyed by email in the store. */
  datatype Account = Account(id: Id, password: string, fullName: string)

  /** A `phd_supervisor_links` row. */
  datatype Link = Link(userId: Id, professorId: Id)

  /** A `professors` row without its id. */
  datatype Professor = Professor(fullName: string, department: Option<string>, email: Option<string>)

  /** A `courses` row without its id. */
  datatype Course = Course(name: string, code: Option<string>, professorId: Option<Id>, semester: Option<string>)

  /** An `exams` row without its id. */
  datatype Exam = Exam(courseId: Id, examDate: string, startTime: string, endTime: string,
                       location: Option<string>, supervisorsNeeded: int)

  const InvalidCredentials: string := "Invalid login credentials"
  const AlreadyRegistered: string := "User already registered"

  /** `session?.user ?? null`. */
  function SessionUser(s: Option<Session>): (u: Option<User>)
    ensures u.Some? <==> s.Some? && s.value.user.Some?
  {
    if s.Some? then s.value.user else None
  }

  /** The professor ids linked to one user. */
  function LinksOf(links: set<Link>, userId: Id): (ps: set<Id>)
    ensures forall p :: p in ps <==> Link(userId, p) in links
  {
    set l | l in links && l.userId == userId :: l.professorId
  }

  /** `after` is `before` with one more row, `row`, under an id `before` did not use. */
  ghost predicate AddedRow<T>(before: map<Id, T>, after: map<Id, T>, row: T)
  {
    exists id :: id in after.Keys - before.Keys && after == before[id := row]
  }

  /** The database hands out ids no row uses yet: here, a string longer than every used id. */
  method FreshId(used: set<Id>) returns (id: Id)
    ensures id !in used
  {
    var longest: nat := 0;
    var rest := used;
    while rest != {}
      invariant rest <= used
      invariant forall u | u in used && u !in rest :: |u| <= longest
      decreases rest
    {
      var u :| u in rest;
      if |u| > longest {
        longest := |u|;
      }
      rest := rest - {u};
    }
    id := seq(longest + 1, _ => '0');
  }

  class Store {
    /** Identity-provider accounts by email. */
    var accounts: map<string, Account>
    /** The provider's current session (what `getSession` returns). */
    var session: Option<Session>
    /** `user_roles`: one role per user id. */
    var roles: map<Id, Role>
    var links: set<Link>
    /** `availability`: user id, then exam id, to `is_available`. */
    var availability: map<Id, map<Id, bool>>
    var professors: map<Id, Professor>
    var courses: map<Id, Course>
    var exams: map<Id, Exam>

    constructor ()
      ensures Valid()
      ensures accounts == map[] && session == None && roles == map[] && links == {}
      ensures availability == map[] && professors == map[] && courses == map[] && exams == map[]
    {
      accounts, session, roles, links := map[], None, map[], {};
      availability, professors, courses, exams := map[], map[], map[], map[];
    }

    function UserIds(): set<Id>
      reads this
    {
      set e | e in accounts :: accounts[e].id
    }

    /**
     * Account ids are unique, and `user_roles` and `phd_supervisor_links`
     * refer to existing accounts (their `user_id` is a foreign key).
     */
    ghost predicate Valid()
      reads this
    {
      && (forall e1, e2 | e1 in accounts && e2 in accounts && e1 != e2 :: accounts[e1].id != accounts[e2].id)
      && roles.Keys <= UserIds()
      && (forall l | l in links :: l.userId in UserIds())
    }

    /** The outcome of `signInWithPassword`. */
    function PasswordSignIn(email: string, password: string, fault: Option<string>): Result<User>
      reads this
    {
      if fault.Some? then Failure(fault.value)
      else if email in accounts && accounts[email].password == password then
        Success(User(accounts[email].id, Some(email)))
      else Failure(InvalidCredentials)
    }

    method SignInWithPassword(email: string, password: string, fault: Option<string>) returns (r: Result<User>)
      modifies this`session
      ensures r == old(PasswordSignIn(email, password, fault))
      ensures session == if r.Success? then Some(Session(Some(r.value))) else old(session)
    {
      r := PasswordSignIn(email, password, fault);
      if r.Success? {
        session := Some(Session(Some(r.value)));
      }
    }

    /** `signUp`: creates an account under a fresh id and signs it in. */
    method SignUp(email: string, password: string, fullName: string, fault: Option<string>) returns (r: Result<User>)
      requires Valid()
      modifies this`accounts, this`session
      ensures Valid()
      ensures fault.Some? ==> r == Failure(fault.value)
      ensures fault.None? && email in old(accounts) ==> r == Failure(AlreadyRegistered)
      ensures fault.None? && email !in old(accounts) ==> r.Success?
      ensures r.Failure? ==> accounts == old(accounts) && session == old(session)
      ensures r.Success? ==>
        && r.value.email == Some(email)
        && r.value.id !in old(UserIds())
        && accounts == old(accounts)[email := Account(r.value.id, password, fullName)]
        && session == Some(Session(Some(r.value)))
    {
      if fault.Some? {
        return Failure(fault.value);
      }
      if email in accounts {
        return Failure(AlreadyRegistered);
      }
      var id := FreshId(UserIds());
      accounts := accounts[email := Account(id, password, fullName)];
      assert UserIds() == old(UserIds()) + {id} by {
        forall x | x in UserIds() ensures x in old(UserIds()) + {id} {
          var e :| e in accounts && accounts[e].id == x;
          if e != email {
            assert e in old(accounts) && old(accounts)[e].id == x;
          }
        }
        forall x | x in old(UserIds()) ensures x in UserIds() {
          var e :| e in old(accounts) && old(accounts)[e].id == x;
          assert e in accounts && accounts[e].id == x;
        }
        assert accounts[email].id == id;
      }
      forall e | e in old(accounts) ensures old(accounts)[e].id in old(UserIds()) { }
      r := Success(User(id, Some(email)));
      session := Some(Session(Some(r.value)));
    }

    /** `signOut`: a failed call leaves the provider's session in place. */
    method SignOut(fault: bool) returns (ok: bool)
      modifies this`session
      ensures ok == !fault
      ensures session == if ok then None else old(session)
    {
      ok := !fault;
      if ok {
        session := None;
      }
    }

    /** The outcome of `getSession`. */
    function CurrentSession(fault: bool): Result<Option<Session>>
      reads this
    {
      if fault then Failure("session could not be read") else Success(session)
    }

    /** `select role from user_roles where user_id = userId`, `maybeSingle`. */
    function SelectRole(userId: Id, fault: bool): Result<Option<Role>>
      reads this
    {
      if fault then Failure("role lookup failed")
      else if userId in roles then Success(Some(roles[userId]))
      else Success(None)
    }

    /** `insert into user_roles`: refused for an unknown user or a user that already has a row. */
    method InsertRole(userId: Id, role: Role, fault: bool) returns (ok: bool)
      requires Valid()
      modifies this`roles
      ensures Valid()
      ensures ok <==> !fault && userId in UserIds() && userId !in old(roles)
      ensures roles == if ok then old(roles)[userId := role] else old(roles)
    {
      ok := !fault && userId in UserIds() && userId !in roles;
      if ok {
        roles := roles[userId := role];
      }
    }

    /** `upsert into user_roles on conflict (user_id)`. */
    method UpsertRole(userId: Id, role: Role, fault: bool) returns (ok: bool)
      requires Valid()
      modifies this`roles
      ensures Valid()
      ensures ok <==> !fault && userId in UserIds()
      ensures roles == if ok then old(roles)[userId := role] else old(roles)
    {
      ok := !fault && userId in UserIds();
      if ok {
        roles := roles[userId := role];
      }
    }

    /** One `insert` of several `phd_supervisor_links` rows: all or nothing. */
    method InsertLinks(rows: set<Link>, fault: bool) returns (ok: bool)
      requires Valid()
      modifies this`links
      ensures Valid()
      ensures ok <==> !fault && forall l | l in rows :: l.userId in UserIds()
      ensures links == if ok then old(links) + rows else old(links)
    {
      ok := !fault && forall l | l in rows :: l.userId in UserIds();
      if ok {
        links := links + rows;
      }
    }

    /** `delete from phd_supervisor_links where user_id = userId`. */
    method DeleteLinksOf(userId: Id, fault: bool) returns (ok: bool)
      requires Valid()
      modifies this`links
      ensures Valid()
      ensures ok == !fault
      ensures links == if ok then set l | l in old(links) && l.userId != userId else old(links)
    {
      ok := !fault;
      if ok {
        links := set l | l in links && l.userId != userId;
      }
    }

    /** The `availability` rows of one user, by exam id. */
    function StoredAvailability(userId: Id): map<Id, bool>
      reads this
    {
      if userId in availability then availability[userId] else map[]
    }

    /** `insert into availability`: refused when the (user, exam) row already exists. */
    method InsertAvailability(userId: Id, examId: Id, isAvailable: bool, fault: bool) returns (ok: bool)
      modifies this`availability
      ensures ok <==> !fault && examId !in old(StoredAvailability(userId))
      ensures availability ==
        if ok then old(availability)[userId := old(StoredAvailability(userId))[examId := isAvailable]]
        else old(availability)
    {
      ok := !fault && examId !in StoredAvailability(userId);
      if ok {
        availability := availability[userId := StoredAvailability(userId)[examId := isAvailable]];
      }
    }

    /** `update availability ... where user_id and exam_id`: touches the row if there is one. */
    method UpdateAvailability(userId: Id, examId: Id, isAvailable: bool, fault: bool) returns (ok: bool)
      modifies this`availability
      ensures ok == !fault
      ensures availability ==
        if ok && examId in old(StoredAvailability(userId))
        then old(availability)[userId := old(StoredAvailability(userId))[examId := isAvailable]]
        else old(availability)
    {
      ok := !fault;
      if ok && examId in StoredAvailability(userId) {
        availability := availability[userId := StoredAvailability(userId)[examId := isAvailable]];
      }
    }

    method InsertProfessor(row: Professor, fault: bool) returns (ok: bool)
      modifies this`professors
      ensures ok == !fault
      ensures if ok then AddedRow(old(professors), professors, row) else professors == old(professors)
    {
      ok := !fault;
      if ok {
        var id := FreshId(professors.Keys);
        professors := professors[id := row];
        assert id in professors.Keys - old(professors).Keys && professors == old(professors)[id := row];
      }
    }

    method InsertCourse(row: Course, fault: bool) returns (ok: bool)
      modifies this`courses
      ensures ok == !fault
      ensures if ok then AddedRow(old(courses), courses, row) else courses == old(courses)
    {
      ok := !fault;
      if ok {
        var id := FreshId(courses.Keys);
        courses := courses[id := row];
        assert id in courses.Keys - old(courses).Keys && courses == old(courses)[id := row];
      }
    }

    method InsertExam(row: Exam, fault: bool) returns (ok: bool)
      modifies this`exams
      ensures ok == !fault
      ensures if ok then AddedRow(old(exams), exams, row) else exams == old(exams)
    {
      ok := !fault;
      if ok {
        var id := FreshId(exams.Keys);
        exams := exams[id := row];
        assert id in exams.Keys - old(exams).Keys && exams == old(exams)[id := row];
      }
    }

    /** `delete from exams where id = examId`. */
    method DeleteExam(examId: Id, fault: bool) returns (ok: bool)
      modifies this`exams
      ensures ok == !fault
      ensures exams == if ok then old(exams) - {examId} else old(exams)
    {
      ok := !fault;
      if ok {
        exams := exams - {examId};
      }
    }
  }
}
