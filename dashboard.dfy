/**
 * The dashboard page: it loads exams, the signed-in student's availability
 * and supervisor links, and the leaderboard; it toggles availability per
 * exam and highlights "priority" exams taught by one of the student's
 * supervisors.
 */
module Dashboard {
  import opened Wrappers
  import opened Strings
  import opened Backend

  datatype ProfessorRef = ProfessorRef(id: Id, fullName: string)
  datatype CourseView = CourseView(id: Id, name: string, code: string, professor: Option<ProfessorRef>)
  /** An exam as the joined select returns it. */
  datatype ExamView = ExamView(id: Id, examDate: string, startTime: string, endTime: string, location: string,
                               supervisorsNeeded: int, course: Option<CourseView>)
  datatype ProfileRow = ProfileRow(id: Id, fullName: string, score: int)
  /** A selected `availability` row: `exam_id, is_available`. */
  datatype AvailabilityRow = AvailabilityRow(examId: Id, isAvailable: bool)

  /** The exam ids the rows name. */
  function ExamIds(rows: seq<AvailabilityRow>): set<Id>
  {
    set i | 0 <= i < |rows| :: rows[i].examId
  }

  /** The map the rows describe when applied in order: a later row for the same exam wins. */
  function AvailabilityOf(rows: seq<AvailabilityRow>): (m: map<Id, bool>)
    ensures m.Keys == ExamIds(rows)
    ensures rows != [] ==> m[rows[|rows| - 1].examId] == rows[|rows| - 1].isAvailable
  {
    if rows == [] then map[]
    else
      var init := rows[..|rows| - 1];
      var last := rows[|rows| - 1];
      assert ExamIds(rows) == ExamIds(init) + {last.examId} by {
        forall e | e in ExamIds(rows) ensures e in ExamIds(init) + {last.examId} {
          var i :| 0 <= i < |rows| && rows[i].examId == e;
          if i < |init| {
            assert init[i] == rows[i];
          }
        }
        forall e | e in ExamIds(init) ensures e in ExamIds(rows) {
          var i :| 0 <= i < |init| && init[i].examId == e;
          assert rows[i] == init[i];
        }
      }
      AvailabilityOf(init)[last.examId := last.isAvailable]
  }

  /**
   * An exam id is in the map exactly when some row names it, and then it
   * holds the `is_available` of the last row that names it.
   */
  lemma {:induction false} AvailabilityOfRows(rows: seq<AvailabilityRow>, examId: Id)
    ensures examId in AvailabilityOf(rows) <==> exists i | 0 <= i < |rows| :: rows[i].examId == examId
    ensures examId in AvailabilityOf(rows) ==>
      exists i | 0 <= i < |rows| :: rows[i].examId == examId && AvailabilityOf(rows)[examId] == rows[i].isAvailable
        && forall j | i < j < |rows| :: rows[j].examId != examId
  {
    if rows != [] {
      var init := rows[..|rows| - 1];
      var last := |rows| - 1;
      var m := AvailabilityOf(rows);
      if rows[last].examId == examId {
        assert m[examId] == rows[last].isAvailable;
        assert rows[last].examId == examId && m[examId] == rows[last].isAvailable;
      } else {
        AvailabilityOfRows(init, examId);
        assert examId in m <==> examId in AvailabilityOf(init);
        if examId in AvailabilityOf(init) {
          var i :| 0 <= i < |init| && init[i].examId == examId && AvailabilityOf(init)[examId] == init[i].isAvailable
            && forall j | i < j < |init| :: init[j].examId != examId;
          assert rows[i] == init[i];
          assert m[examId] == AvailabilityOf(init)[examId];
          assert forall j | i < j < |rows| :: rows[j].examId != examId by {
            forall j | i < j < |rows| ensures rows[j].examId != examId {
              if j < last {
                assert rows[j] == init[j];
              }
            }
          }
        } else {
          forall i | 0 <= i < |rows| ensures rows[i].examId != examId {
            if i < last {
              assert rows[i] == init[i];
            }
          }
        }
      }
    }
  }

  /** The rows list exactly the stored entries: each row agrees with `stored`, and every stored exam has a row. */
  predicate ListsExactly(rows: seq<AvailabilityRow>, stored: map<Id, bool>)
  {
    && (forall i | 0 <= i < |rows| :: rows[i].examId in stored && stored[rows[i].examId] == rows[i].isAvailable)
    && (forall e | e in stored :: exists i | 0 <= i < |rows| :: rows[i].examId == e)
  }

  /**
   * When the rows are exactly the stored rows of one user (each row agrees
   * with the store and every stored exam is listed), the map built from
   * them is the stored availability of that user, whatever the row order.
   */
  lemma AvailabilityOfStoredRows(rows: seq<AvailabilityRow>, stored: map<Id, bool>)
    requires ListsExactly(rows, stored)
    ensures AvailabilityOf(rows) == stored
  {
    var m := AvailabilityOf(rows);
    forall e | e in m ensures e in stored && m[e] == stored[e] {
      AvailabilityOfRows(rows, e);
      var i :| 0 <= i < |rows| && rows[i].examId == e && m[e] == rows[i].isAvailable;
    }
    forall e | e in stored ensures e in m {
      AvailabilityOfRows(rows, e);
    }
    assert m.Keys == stored.Keys;
  }

  /** The `forEach` of `fetchData` that builds `availMap` from the selected rows. */
  method BuildAvailabilityMap(rows: seq<AvailabilityRow>) returns (m: map<Id, bool>)
    ensures m == AvailabilityOf(rows)
  {
    m := map[];
    var i := 0;
    while i < |rows|
      invariant 0 <= i <= |rows|
      invariant m == AvailabilityOf(rows[..i])
    {
      assert rows[..i + 1][..i] == rows[..i];
      m := m[rows[i].examId := rows[i].isAvailable];
      i := i + 1;
    }
    assert rows[..|rows|] == rows;
  }

  /**
   * The new availability map of `toggleAvailability`: an exam without an
   * entry becomes available, one with an entry is negated, and no other
   * entry changes.
   */
  function Toggled(m: map<Id, bool>, examId: Id): (r: map<Id, bool>)
    ensures r.Keys == m.Keys + {examId}
    ensures r[examId] == if examId in m then !m[examId] else true
    ensures forall e | e in m && e != examId :: r[e] == m[e]
  {
    m[examId := if examId in m then !m[examId] else true]
  }

  /** Once an exam has an entry, toggling it twice restores the map. */
  lemma ToggleTwiceRestores(m: map<Id, bool>, examId: Id)
    requires examId in m
    ensures Toggled(Toggled(m, examId), examId) == m
  {
  }

  /** A first toggle followed by a second leaves the exam explicitly unavailable. */
  lemma ToggleTwiceFromAbsent(m: map<Id, bool>, examId: Id)
    requires examId !in m
    ensures Toggled(Toggled(m, examId), examId) == m[examId := false]
  {
  }

  /**
   * `isPriorityExam`: false when the exam's course or the course's professor
   * is missing, otherwise whether that professor is among the links.
   */
  function IsPriorityExam(exam: ExamView, supervisorLinks: seq<Id>): (r: bool)
    ensures r ==> exam.course.Some? && exam.course.value.professor.Some?
    ensures exam.course.Some? && exam.course.value.professor.Some? ==>
      (r <==> exam.course.value.professor.value.id in supervisorLinks)
  {
    match exam.course
    case None => false
    case Some(c) =>
      match c.professor
      case None => false
      case Some(p) => p.id in supervisorLinks
  }

  /**
   * With links loaded from the store for a user, an exam is a priority exam
   * exactly when the store links that user to the exam's professor.
   */
  lemma PriorityFollowsStoredLinks(exam: ExamView, supervisorLinks: seq<Id>, links: set<Link>, userId: Id)
    requires forall p :: p in supervisorLinks <==> p in LinksOf(links, userId)
    ensures IsPriorityExam(exam, supervisorLinks) <==>
      exam.course.Some? && exam.course.value.professor.Some?
      && Link(userId, exam.course.value.professor.value.id) in links
  {
  }

  /** `formatTime`: the first five characters ("HH:MM" of "HH:MM:SS"). */
  function FormatTime(time: string): (r: string)
    ensures |r| == if |time| < 5 then |time| else 5
    ensures r == time[..|r|]
  {
    Prefix(time, 5)
  }

  /** The leaderboard shows at most the first five fetched profiles, in fetched order. */
  function Leaderboard(profiles: seq<ProfileRow>): (r: seq<ProfileRow>)
    ensures |r| == if |profiles| < 5 then |profiles| else 5
    ensures r == profiles[..|r|]
  {
    Prefix(profiles, 5)
  }

  class DashboardPage {
    var exams: seq<ExamView>
    var profiles: seq<ProfileRow>
    var availability: map<Id, bool>
    var supervisorLinks: seq<Id>
    var loadingExams: bool
    const db: Store

    constructor (db: Store)
      ensures exams == [] && profiles == [] && availability == map[] && supervisorLinks == [] && loadingExams
      ensures this.db == db
    {
      exams, profiles, availability, supervisorLinks, loadingExams := [], [], map[], [], true;
      this.db := db;
    }

    /**
     * `fetchData`. Each argument is what the server returned for one select
     * (None when it returned no data), in the server's order; availability and
     * links are only read for a signed-in user, and the rows of those two
     * selects are the user's rows in the store.
     */
    method FetchData(user: Option<User>, examRows: Option<seq<ExamView>>, availRows: Option<seq<AvailabilityRow>>,
                     linkRows: Option<seq<Id>>, profileRows: Option<seq<ProfileRow>>)
      requires user.Some? && availRows.Some? ==> ListsExactly(availRows.value, db.StoredAvailability(user.value.id))
      requires user.Some? && linkRows.Some? ==>
        forall p :: p in linkRows.value <==> p in LinksOf(db.links, user.value.id)
      modifies this`exams, this`availability, this`supervisorLinks, this`profiles, this`loadingExams
      ensures exams == if examRows.Some? then examRows.value else old(exams)
      ensures availability == if user.Some? && availRows.Some? then AvailabilityOf(availRows.value) else old(availability)
      ensures user.Some? && availRows.Some? ==> availability == db.StoredAvailability(user.value.id)
      ensures supervisorLinks == if user.Some? && linkRows.Some? then linkRows.value else old(supervisorLinks)
      ensures user.Some? && linkRows.Some? ==>
        forall exam :: IsPriorityExam(exam, supervisorLinks) <==>
          exam.course.Some? && exam.course.value.professor.Some?
          && Link(user.value.id, exam.course.value.professor.value.id) in db.links
      ensures profiles == if profileRows.Some? then profileRows.value else old(profiles)
      ensures !loadingExams
    {
      loadingExams := true;
      if examRows.Some? {
        exams := examRows.value;
      }
      if user.Some? {
        if availRows.Some? {
          availability := BuildAvailabilityMap(availRows.value);
          AvailabilityOfStoredRows(availRows.value, db.StoredAvailability(user.value.id));
        }
        if linkRows.Some? {
          supervisorLinks := linkRows.value;
          forall exam ensures IsPriorityExam(exam, supervisorLinks) <==>
            exam.course.Some? && exam.course.value.professor.Some?
            && Link(user.value.id, exam.course.value.professor.value.id) in db.links
          {
            PriorityFollowsStoredLinks(exam, supervisorLinks, db.links, user.value.id);
          }
        }
      }
      if profileRows.Some? {
        profiles := profileRows.value;
      }
      loadingExams := false;
    }

    /**
     * `toggleAvailability(examId)`. Without a user nothing changes. Otherwise
     * the page's map becomes `Toggled`, whatever the write's outcome (its error
     * is not inspected); the store gets an insert of `true` for an exam the page
     * had no entry for, or an update to the negated page value.
     */
    method ToggleAvailability(user: Option<User>, examId: Id, writeFault: bool)
      modifies this`availability, db`availability
      ensures user.None? ==> availability == old(availability) && db.availability == old(db.availability)
      ensures user.Some? ==> availability == Toggled(old(availability), examId)
      ensures user.Some? && examId !in old(availability) ==>
        var uid := user.value.id;
        db.availability ==
          if !writeFault && examId !in old(db.StoredAvailability(uid))
          then old(db.availability)[uid := old(db.StoredAvailability(uid))[examId := true]]
          else old(db.availability)
      ensures user.Some? && examId in old(availability) ==>
        var uid := user.value.id;
        db.availability ==
          if !writeFault && examId in old(db.StoredAvailability(uid))
          then old(db.availability)[uid := old(db.StoredAvailability(uid))[examId := !old(availability)[examId]]]
          else old(db.availability)
      // A page in step with the store stays in step when the write goes through.
      ensures user.Some? && !writeFault && old(availability) == old(db.StoredAvailability(user.value.id)) ==>
        availability == db.StoredAvailability(user.value.id)
    {
      if user.None? {
        return;
      }
      if examId !in availability {
        var _ := db.InsertAvailability(user.value.id, examId, true, writeFault);
        availability := availability[examId := true];
      } else {
        var current := availability[examId];
        var _ := db.UpdateAvailability(user.value.id, examId, !current, writeFault);
        availability := availability[examId := !current];
      }
    }
  }
}
