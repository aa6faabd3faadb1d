/**
 * The profile page, where a PhD student picks supervisors: a checkbox list
 * toggles professor ids in the selection, and saving replaces the student's
 * `phd_supervisor_links` rows by the selection (delete, then insert).
 */
module Profile {
  import opened Wrappers
  import opened Backend
  import opened Routes

  /** A `professors` row with its id, as the page lists it. */
  datatype ProfessorEntry = ProfessorEntry(id: Id, professor: Professor)

  /** `ids.filter((id) => id !== x)`: every occurrence of x removed, the rest in order. */
  function Without(ids: seq<Id>, x: Id): (r: seq<Id>)
    ensures forall y :: y in r <==> y in ids && y != x
    ensures |r| <= |ids|
  {
    if ids == [] then []
    else (if ids[0] == x then [] else [ids[0]]) + Without(ids[1..], x)
  }

  lemma {:induction false} WithoutAppend(a: seq<Id>, b: seq<Id>, x: Id)
    ensures Without(a + b, x) == Without(a, x) + Without(b, x)
  {
    if a == [] {
      assert a + b == b;
    } else {
      assert (a + b)[1..] == a[1..] + b;
      WithoutAppend(a[1..], b, x);
    }
  }

  lemma {:induction false} WithoutAbsent(ids: seq<Id>, x: Id)
    requires x !in ids
    ensures Without(ids, x) == ids
  {
    if ids != [] {
      WithoutAbsent(ids[1..], x);
      assert ids == [ids[0]] + ids[1..];
    }
  }

  /**
   * `toggleSupervisor`: a selected id is removed (every occurrence), an
   * unselected one is appended at the end.
   */
  function ToggleSupervisor(selected: seq<Id>, professorId: Id): (r: seq<Id>)
    ensures professorId in selected ==> r == Without(selected, professorId)
    ensures professorId !in selected ==> r == selected + [professorId]
  {
    if professorId in selected then Without(selected, professorId) else selected + [professorId]
  }

  /**
   * A toggle flips the membership of the toggled id only, and keeps every
   * other id where it was relative to the others.
   */
  lemma ToggleFlipsOnlyThatId(selected: seq<Id>, professorId: Id)
    ensures professorId in ToggleSupervisor(selected, professorId) <==> professorId !in selected
    ensures forall y | y != professorId :: y in ToggleSupervisor(selected, professorId) <==> y in selected
    ensures Without(ToggleSupervisor(selected, professorId), professorId) == Without(selected, professorId)
  {
    if professorId in selected {
      WithoutAbsent(Without(selected, professorId), professorId);
    } else {
      WithoutAppend(selected, [professorId], professorId);
      assert Without([professorId], professorId) == [];
    }
  }

  /**
   * Toggling the same professor twice gives back the same set of ids, and
   * exactly the same list when the professor was not selected.
   */
  lemma ToggleTwice(selected: seq<Id>, professorId: Id)
    ensures forall y :: y in ToggleSupervisor(ToggleSupervisor(selected, professorId), professorId) <==> y in selected
    ensures professorId !in selected ==>
      ToggleSupervisor(ToggleSupervisor(selected, professorId), professorId) == selected
  {
    ToggleFlipsOnlyThatId(selected, professorId);
    ToggleFlipsOnlyThatId(ToggleSupervisor(selected, professorId), professorId);
    if professorId !in selected {
      WithoutAppend(selected, [professorId], professorId);
      assert Without([professorId], professorId) == [];
      WithoutAbsent(selected, professorId);
    }
  }

  /**
   * The link rows after a complete save: other users' rows as they were,
   * and for this user exactly one row per selected professor id.
   */
  function ReplaceLinks(links: set<Link>, userId: Id, selected: seq<Id>): (r: set<Link>)
    ensures forall l: Link | l.userId != userId :: l in r <==> l in links
    ensures LinksOf(r, userId) == set p | p in selected
  {
    var kept := set l | l in links && l.userId != userId;
    var added := set p | p in selected :: Link(userId, p);
    assert LinksOf(kept + added, userId) == set p | p in selected by {
      forall p ensures p in LinksOf(kept + added, userId) <==> p in selected {
        assert Link(userId, p) in kept + added <==> Link(userId, p) in added;
      }
    }
    kept + added
  }

  /** Saving right after loading (no toggle in between) leaves the store's links as they were. */
  lemma SaveAfterLoadKeepsLinks(links: set<Link>, userId: Id, loaded: seq<Id>)
    requires forall p :: p in loaded <==> p in LinksOf(links, userId)
    ensures ReplaceLinks(links, userId, loaded) == links
  {
    var r := ReplaceLinks(links, userId, loaded);
    forall l ensures l in r <==> l in links {
      if l.userId == userId {
        assert l == Link(userId, l.professorId);
        assert l in r <==> l.professorId in LinksOf(r, userId);
      }
    }
  }

  class ProfilePage {
    var professors: seq<ProfessorEntry>
    var selected: seq<Id>
    var saving: bool
    var loadingData: bool
    var navigatedTo: Option<string>
    const db: Store

    constructor (db: Store)
      ensures professors == [] && selected == [] && !saving && loadingData && navigatedTo.None?
      ensures this.db == db
    {
      professors, selected, saving, loadingData, navigatedTo := [], [], false, true, None;
      this.db := db;
    }

    /**
     * `fetchData`: the professor list and, for a signed-in user, the
     * `professor_id` of each of their link rows, as the server returned them
     * (None when it returned no data). The order of the rows is the server's;
     * which ids they hold is fixed by the store's `phd_supervisor_links`.
     */
    method FetchData(user: Option<User>, professorRows: Option<seq<ProfessorEntry>>, linkRows: Option<seq<Id>>)
      requires user.Some? && linkRows.Some? ==>
        forall p :: p in linkRows.value <==> p in LinksOf(db.links, user.value.id)
      modifies this`professors, this`selected, this`loadingData
      ensures professors == if professorRows.Some? then professorRows.value else old(professors)
      ensures selected == if user.Some? && linkRows.Some? then linkRows.value else old(selected)
      ensures user.Some? && linkRows.Some? ==>
        forall p :: p in selected <==> Link(user.value.id, p) in db.links
      ensures !loadingData
    {
      loadingData := true;
      if professorRows.Some? {
        professors := professorRows.value;
      }
      if user.Some? && linkRows.Some? {
        selected := linkRows.value;
      }
      loadingData := false;
    }

    /** A click on a professor's checkbox. */
    method Toggle(professorId: Id)
      modifies this`selected
      ensures selected == ToggleSupervisor(old(selected), professorId)
    {
      selected := ToggleSupervisor(selected, professorId);
    }

    /**
     * `handleSave`: without a user nothing happens. Otherwise this user's
     * links are deleted, one row per selected id is inserted when the
     * selection is non-empty, and the page goes to the dashboard; the errors
     * of both writes are not inspected. Other users' links never change.
     */
    method HandleSave(user: Option<User>, deleteFault: bool, insertFault: bool)
      requires db.Valid()
      modifies this`saving, this`navigatedTo, db`links
      ensures db.Valid()
      ensures user.None? ==> saving == old(saving) && navigatedTo == old(navigatedTo) && db.links == old(db.links)
      ensures user.Some? ==> !saving && navigatedTo == Some(DashboardRoute)
      ensures user.Some? ==> forall l: Link | l.userId != user.value.id :: l in db.links <==> l in old(db.links)
      ensures user.Some? && !deleteFault && (selected == [] || (!insertFault && user.value.id in db.UserIds())) ==>
        db.links == ReplaceLinks(old(db.links), user.value.id, selected)
      ensures user.Some? && selected == [] ==>
        db.links == if deleteFault then old(db.links) else set l | l in old(db.links) && l.userId != user.value.id
      ensures user.Some? && !deleteFault && (insertFault || user.value.id !in db.UserIds()) ==>
        LinksOf(db.links, user.value.id) == {}
      // A failed delete keeps the old rows; a successful insert then adds the selection to them.
      ensures user.Some? && deleteFault && selected != [] ==>
        db.links == if !insertFault && user.value.id in db.UserIds()
                    then old(db.links) + (set p | p in selected :: Link(user.value.id, p))
                    else old(db.links)
    {
      if user.None? {
        return;
      }
      saving := true;
      var userId := user.value.id;
      var _ := db.DeleteLinksOf(userId, deleteFault);
      if |selected| > 0 {
        var _ := db.InsertLinks(set p | p in selected :: Link(userId, p), insertFault);
      }
      saving := false;
      navigatedTo := Some(DashboardRoute);
    }
  }

  /**
   * Opening the profile page and saving without toggling anything leaves the
   * store's links as they were, when neither write fails.
   */
  method LoadThenSave(page: ProfilePage, user: User, professorRows: Option<seq<ProfessorEntry>>, linkRows: seq<Id>)
    requires page.db.Valid() && user.id in page.db.UserIds()
    requires forall p :: p in linkRows <==> p in LinksOf(page.db.links, user.id)
    modifies page, page.db`links
    ensures page.db.Valid()
    ensures page.db.links == old(page.db.links)
    ensures page.navigatedTo == Some(DashboardRoute)
  {
    page.FetchData(Some(user), professorRows, Some(linkRows));
    page.HandleSave(Some(user), false, false);
    SaveAfterLoadKeepsLinks(old(page.db.links), user.id, linkRows);
  }
}
