/**
 * The management page of the secretary: forms that add professors, courses
 * and exams, and deletion of exams. Each add handler validates its form,
 * builds the row (empty optional fields become null), inserts it, and only
 * on success resets the form and closes the dialog.
 */
module Manage {
  import opened Wrappers
  import opened Strings
  import opened Backend

  /** A row with its id, as the lists on the page hold them. */
  datatype Entry<T> = Entry(id: Id, row: T)

  /** The form fields of each dialog, as typed. */
  datatype ProfessorForm = ProfessorForm(name: string, department: string, email: string)
  datatype CourseForm = CourseForm(name: string, code: string, professorId: string, semester: string)
  datatype ExamForm = ExamForm(courseId: string, date: string, start: string, end: string,
                               location: string, supervisors: string)

  const EmptyProfessorForm: ProfessorForm := ProfessorForm("", "", "")
  const EmptyCourseForm: CourseForm := CourseForm("", "", "", "")
  const EmptyExamForm: ExamForm := ExamForm("", "", "09:00", "12:00", "", "2")

  /** What a handler ends with: its toast. */
  datatype Outcome = Rejected | Failed | Done

  /** `s || null` on a form string: the empty string becomes null, anything else is kept. */
  function NullIfEmpty(s: string): (r: Option<string>)
    ensures r.None? <==> s == ""
    ensures r.Some? ==> r.value == s
  {
    if s == "" then None else Some(s)
  }

  /** `parseInt(s) || 2`: the parsed number, or 2 when the parse gives NaN or 0. */
  function SupervisorsNeeded(s: string): (n: int)
    ensures n != 0
    ensures ParseInt(s).Some? && ParseInt(s).value != 0 ==> n == ParseInt(s).value
    ensures ParseInt(s).None? || ParseInt(s).value == 0 ==> n == 2
  {
    var parsed := ParseInt(s);
    if parsed.Some? && parsed.value != 0 then parsed.value else 2
  }

  /** A positive number typed in the form is stored as typed; "0" falls back to 2. */
  lemma SupervisorsNeededOfNumeral(n: nat)
    ensures SupervisorsNeeded(Decimal(n)) == if n == 0 then 2 else n
  {
    ParseIntOfDecimal(n);
  }

  /** The professor form passes validation when its name holds a character other than whitespace. */
  function ProfessorFormValid(f: ProfessorForm): (r: bool)
    ensures r <==> exists i | 0 <= i < |f.name| :: !IsWhitespace(f.name[i])
  {
    !IsBlank(f.name)
  }

  /** The course form passes validation when its name holds a character other than whitespace. */
  function CourseFormValid(f: CourseForm): (r: bool)
    ensures r <==> exists i | 0 <= i < |f.name| :: !IsWhitespace(f.name[i])
  {
    !IsBlank(f.name)
  }

  /**
   * The exam form passes validation when a course and a date are chosen
   * (no trimming here: a date of spaces passes), so a validated form never
   * produces a row with an empty course or date.
   */
  function ExamFormValid(f: ExamForm): (r: bool)
    ensures r <==> ExamRow(f).courseId != "" && ExamRow(f).examDate != ""
    ensures r ==> |f.courseId| > 0 && |f.date| > 0
  {
    f.courseId != "" && f.date != ""
  }

  /** The `professors` row: the name as typed, untrimmed; empty department or email as null. */
  function ProfessorRow(f: ProfessorForm): (p: Professor)
    ensures p.fullName == f.name
    ensures p.department.None? <==> f.department == ""
    ensures p.email.None? <==> f.email == ""
    ensures p.department.Some? ==> p.department.value == f.department
    ensures p.email.Some? ==> p.email.value == f.email
  {
    Professor(f.name, NullIfEmpty(f.department), NullIfEmpty(f.email))
  }

  /** The `courses` row: empty code, professor or semester as null. */
  function CourseRow(f: CourseForm): (c: Course)
    ensures c.name == f.name
    ensures c.code.None? <==> f.code == ""
    ensures c.professorId.None? <==> f.professorId == ""
    ensures c.semester.None? <==> f.semester == ""
    ensures c.code.Some? ==> c.code.value == f.code
    ensures c.professorId.Some? ==> c.professorId.value == f.professorId
    ensures c.semester.Some? ==> c.semester.value == f.semester
  {
    Course(f.name, NullIfEmpty(f.code), NullIfEmpty(f.professorId), NullIfEmpty(f.semester))
  }

  /** The `exams` row: times as typed, empty location as null, the parsed supervisor count with fallback 2. */
  function ExamRow(f: ExamForm): (e: Exam)
    ensures e.courseId == f.courseId && e.examDate == f.date
    ensures e.startTime == f.start && e.endTime == f.end
    ensures e.location.None? <==> f.location == ""
    ensures e.location.Some? ==> e.location.value == f.location
    ensures e.supervisorsNeeded == SupervisorsNeeded(f.supervisors)
    ensures e.supervisorsNeeded != 0
  {
    Exam(f.courseId, f.date, f.start, f.end, NullIfEmpty(f.location), SupervisorsNeeded(f.supervisors))
  }

  /** The untouched exam form produces the default times and two supervisors. */
  lemma DefaultExamRow(courseId: string, date: string)
    ensures var e := ExamRow(EmptyExamForm.(courseId := courseId, date := date));
      e.startTime == "09:00" && e.endTime == "12:00" && e.location.None? && e.supervisorsNeeded == 2
  {
    assert "2" == Decimal(2);
    SupervisorsNeededOfNumeral(2);
  }

  class ManagePage {
    var professors: seq<Entry<Professor>>
    var courses: seq<Entry<Course>>
    var exams: seq<Entry<Exam>>
    var loadingData: bool
    var professorForm: ProfessorForm
    var courseForm: CourseForm
    var examForm: ExamForm
    /** Which add dialog is open, if any. */
    var dialogOpen: Option<string>
    const db: Store

    constructor (db: Store)
      ensures professors == [] && courses == [] && exams == [] && loadingData
      ensures professorForm == EmptyProfessorForm && courseForm == EmptyCourseForm && examForm == EmptyExamForm
      ensures dialogOpen.None? && this.db == db
    {
      professors, courses, exams, loadingData := [], [], [], true;
      professorForm, courseForm, examForm, dialogOpen := EmptyProfessorForm, EmptyCourseForm, EmptyExamForm, None;
      this.db := db;
    }

    /**
     * `fetchData`: each list is replaced by what the server returned for its
     * select (None when it returned no data), and loading ends. It is called
     * by the effect below and, not awaited, after every successful add or
     * delete.
     */
    method FetchData(professorRows: Option<seq<Entry<Professor>>>, courseRows: Option<seq<Entry<Course>>>,
                     examRows: Option<seq<Entry<Exam>>>)
      modifies this`professors, this`courses, this`exams, this`loadingData
      ensures professors == if professorRows.Some? then professorRows.value else old(professors)
      ensures courses == if courseRows.Some? then courseRows.value else old(courses)
      ensures exams == if examRows.Some? then examRows.value else old(exams)
      ensures !loadingData
    {
      loadingData := true;
      if professorRows.Some? {
        professors := professorRows.value;
      }
      if courseRows.Some? {
        courses := courseRows.value;
      }
      if examRows.Some? {
        exams := examRows.value;
      }
      loadingData := false;
    }

    /**
     * The effect that runs whenever the user or the role changes: it loads
     * the lists only for a signed-in secretary.
     */
    method OnAuthChange(user: Option<User>, role: Option<Role>, professorRows: Option<seq<Entry<Professor>>>,
                        courseRows: Option<seq<Entry<Course>>>, examRows: Option<seq<Entry<Exam>>>)
      modifies this`professors, this`courses, this`exams, this`loadingData
      ensures !(user.Some? && role == Some(Secretary)) ==>
        professors == old(professors) && courses == old(courses) && exams == old(exams)
        && loadingData == old(loadingData)
      ensures user.Some? && role == Some(Secretary) ==>
        && professors == (if professorRows.Some? then professorRows.value else old(professors))
        && courses == (if courseRows.Some? then courseRows.value else old(courses))
        && exams == (if examRows.Some? then examRows.value else old(exams))
        && !loadingData
    {
      if user.Some? && role == Some(Secretary) {
        FetchData(professorRows, courseRows, examRows);
      }
    }

    /** `addProfessor`. */
    method AddProfessor(insertFault: bool) returns (outcome: Outcome)
      modifies this`professorForm, this`dialogOpen, db`professors
      ensures !ProfessorFormValid(old(professorForm)) ==> outcome == Rejected
      ensures !ProfessorFormValid(old(professorForm)) || insertFault ==>
        professorForm == old(professorForm) && dialogOpen == old(dialogOpen) && db.professors == old(db.professors)
      ensures ProfessorFormValid(old(professorForm)) && insertFault ==> outcome == Failed
      ensures ProfessorFormValid(old(professorForm)) && !insertFault ==>
        && outcome == Done
        && AddedRow(old(db.professors), db.professors, ProfessorRow(old(professorForm)))
        && professorForm == EmptyProfessorForm && dialogOpen.None?
    {
      if !ProfessorFormValid(professorForm) {
        return Rejected;
      }
      var ok := db.InsertProfessor(ProfessorRow(professorForm), insertFault);
      if !ok {
        return Failed;
      }
      professorForm := EmptyProfessorForm;
      dialogOpen := None;
      return Done;
    }

    /** `addCourse`. */
    method AddCourse(insertFault: bool) returns (outcome: Outcome)
      modifies this`courseForm, this`dialogOpen, db`courses
      ensures !CourseFormValid(old(courseForm)) ==> outcome == Rejected
      ensures !CourseFormValid(old(courseForm)) || insertFault ==>
        courseForm == old(courseForm) && dialogOpen == old(dialogOpen) && db.courses == old(db.courses)
      ensures CourseFormValid(old(courseForm)) && insertFault ==> outcome == Failed
      ensures CourseFormValid(old(courseForm)) && !insertFault ==>
        && outcome == Done
        && AddedRow(old(db.courses), db.courses, CourseRow(old(courseForm)))
        && courseForm == EmptyCourseForm && dialogOpen.None?
    {
      if !CourseFormValid(courseForm) {
        return Rejected;
      }
      var ok := db.InsertCourse(CourseRow(courseForm), insertFault);
      if !ok {
        return Failed;
      }
      courseForm := EmptyCourseForm;
      dialogOpen := None;
      return Done;
    }

    /** `addExam`. */
    method AddExam(insertFault: bool) returns (outcome: Outcome)
      modifies this`examForm, this`dialogOpen, db`exams
      ensures !ExamFormValid(old(examForm)) ==> outcome == Rejected
      ensures !ExamFormValid(old(examForm)) || insertFault ==>
        examForm == old(examForm) && dialogOpen == old(dialogOpen) && db.exams == old(db.exams)
      ensures ExamFormValid(old(examForm)) && insertFault ==> outcome == Failed
      ensures ExamFormValid(old(examForm)) && !insertFault ==>
        && outcome == Done
        && AddedRow(old(db.exams), db.exams, ExamRow(old(examForm)))
        && examForm == EmptyExamForm && dialogOpen.None?
    {
      if !ExamFormValid(examForm) {
        return Rejected;
      }
      var ok := db.InsertExam(ExamRow(examForm), insertFault);
      if !ok {
        return Failed;
      }
      examForm := EmptyExamForm;
      dialogOpen := None;
      return Done;
    }

    /** `deleteExam(id)`: only the exam with that id is removed, and only if the delete succeeds. */
    method DeleteExam(examId: Id, deleteFault: bool) returns (outcome: Outcome)
      modifies db`exams
      ensures outcome == if deleteFault then Failed else Done
      ensures db.exams.Keys == if deleteFault then old(db.exams.Keys) else old(db.exams.Keys) - {examId}
      ensures forall id | id in db.exams :: db.exams[id] == old(db.exams)[id]
    {
      var ok := db.DeleteExam(examId, deleteFault);
      outcome := if ok then Done else Failed;
    }
  }
}
