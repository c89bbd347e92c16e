/** The course document of the document-store back end: its computed
    enrollment status and duration, and the defaults and bounds applied
    when a document is created. Dates are milliseconds on an integer
    clock. */
module CourseModel {
  import opened Common

  const DayMillis: nat := 1000 * 60 * 60 * 24
  const WeekMillis: nat := 7 * DayMillis

  datatype EnrollmentStatus = Open | Waitlist | Closed

  datatype GradingPolicy = GradingPolicy(assignments: int, quizzes: int, midterm: int, finalExam: int, participation: int)

  /** The document fields the computed values and the defaults concern. */
  datatype CourseDoc = CourseDoc(
    courseCode: string, title: string, description: string, instructor: nat,
    department: string, academicYear: string, syllabus: string,
    creditHours: int, semester: string, level: string,
    startDate: int, endDate: int,
    enrollmentCap: int, currentEnrollment: int,
    waitlistEnabled: bool, waitlistCapacity: int,
    coverImage: string, grading: GradingPolicy, pointsAvailable: int,
    certificationOffered: bool, isActive: bool, isVerified: bool, isFeatured: bool)

  /** The `enrollmentStatus` virtual: open while there is room, otherwise a
      waitlist when one is enabled with some capacity, otherwise closed. */
  function Status(c: CourseDoc): (s: EnrollmentStatus)
    ensures s == Open <==> c.currentEnrollment < c.enrollmentCap
    ensures s == Waitlist <==>
      c.currentEnrollment >= c.enrollmentCap && c.waitlistEnabled && c.waitlistCapacity > 0
    ensures s == Closed <==>
      c.currentEnrollment >= c.enrollmentCap && !(c.waitlistEnabled && c.waitlistCapacity > 0)
  {
    if c.currentEnrollment < c.enrollmentCap then Open
    else if c.waitlistEnabled && c.waitlistCapacity > 0 then Waitlist
    else Closed
  }

  /** Enrolling fewer students never closes an open course. */
  lemma StatusOpenDownward(c: CourseDoc, fewer: int)
    requires Status(c) == Open && fewer <= c.currentEnrollment
    ensures Status(c.(currentEnrollment := fewer)) == Open
  {}

  function Abs(x: int): nat {
    if x < 0 then -x else x
  }

  /** The two bounds of CeilDiv determine it. */
  lemma CeilDivUnique(a: nat, b: nat, q: nat)
    requires b > 0 && q * b >= a && (q > 0 ==> (q - 1) * b < a)
    ensures q == CeilDiv(a, b)
  {
    var r := CeilDiv(a, b);
    if r > 0 { MulCancel(r - 1, q, b); }
    if q > 0 { MulCancel(q - 1, r, b); }
  }

  /** Rounding up to days and then to weeks is rounding straight up to
      weeks. */
  lemma {:induction false} DaysThenWeeks(t: nat)
    ensures CeilDiv(CeilDiv(t, DayMillis), 7) == CeilDiv(t, WeekMillis)
  {
    var days := CeilDiv(t, DayMillis);
    var weeks := CeilDiv(days, 7);
    assert weeks * 7 >= days;
    assert weeks * WeekMillis == (weeks * 7) * DayMillis;
    assert (weeks * 7) * DayMillis >= days * DayMillis;
    if weeks > 0 {
      assert (weeks - 1) * 7 < days;
      assert (weeks - 1) * 7 <= days - 1;
      assert (days - 1) * DayMillis < t;
      assert (weeks - 1) * WeekMillis == ((weeks - 1) * 7) * DayMillis;
      assert ((weeks - 1) * 7) * DayMillis <= (days - 1) * DayMillis;
    }
    CeilDivUnique(t, WeekMillis, weeks);
  }

  /** The `durationWeeks` virtual: whole days rounded up, then whole weeks
      rounded up, which is the fewest whole weeks covering the interval. */
  function DurationWeeks(start: int, end: int): (w: nat)
    ensures w * WeekMillis >= Abs(end - start)
    ensures w > 0 ==> (w - 1) * WeekMillis < Abs(end - start)
  {
    DaysThenWeeks(Abs(end - start));
    CeilDiv(CeilDiv(Abs(end - start), DayMillis), 7)
  }

  /** The duration is the week-rounded interval. */
  lemma DurationIsWeekCeil(start: int, end: int)
    ensures DurationWeeks(start, end) == CeilDiv(Abs(end - start), WeekMillis)
  {
    DaysThenWeeks(Abs(end - start));
  }

  lemma DurationSymmetric(start: int, end: int)
    ensures DurationWeeks(start, end) == DurationWeeks(end, start)
  {}

  /** No weeks for equal dates and at least one for any difference. */
  lemma DurationZeroIff(start: int, end: int)
    ensures DurationWeeks(start, end) == 0 <==> start == end
  {}

  lemma DurationExamples()
    ensures DurationWeeks(0, 1) == 1
    ensures DurationWeeks(0, WeekMillis) == 1
    ensures DurationWeeks(0, WeekMillis + 1) == 2
    ensures DurationWeeks(3 * WeekMillis, 0) == 3
  {
    DurationIsWeekCeil(0, 1);
    CeilDivUnique(1, WeekMillis, 1);
    DurationIsWeekCeil(0, WeekMillis);
    CeilDivUnique(WeekMillis, WeekMillis, 1);
    DurationIsWeekCeil(0, WeekMillis + 1);
    CeilDivUnique(WeekMillis + 1, WeekMillis, 2);
    DurationIsWeekCeil(3 * WeekMillis, 0);
    CeilDivUnique(3 * WeekMillis, WeekMillis, 3);
  }

  const DefaultGrading := GradingPolicy(30, 20, 20, 30, 0)

  function GradingTotal(g: GradingPolicy): int {
    g.assignments + g.quizzes + g.midterm + g.finalExam + g.participation
  }

  /** The default weights make up the whole grade. */
  lemma DefaultGradingIsWhole()
    ensures GradingTotal(DefaultGrading) == 100
  {}

  const Semesters: set<string> := {"fall", "spring", "summer", "winter", "year-round"}
  const Levels: set<string> := {"beginner", "intermediate", "advanced", "all-levels"}

  datatype GradingInput = GradingInput(assignments: Option<int>, quizzes: Option<int>, midterm: Option<int>,
                                       finalExam: Option<int>, participation: Option<int>)

  /** What a new document is created from; absent fields are None. */
  datatype CourseInput = CourseInput(
    courseCode: Option<string>, title: Option<string>, description: Option<string>, instructor: Option<nat>,
    department: Option<string>, academicYear: Option<string>, syllabus: Option<string>,
    creditHours: Option<int>, semester: Option<string>, level: Option<string>,
    startDate: Option<int>, endDate: Option<int>,
    enrollmentCap: Option<int>, currentEnrollment: Option<int>,
    waitlistEnabled: Option<bool>, waitlistCapacity: Option<int>,
    coverImage: Option<string>, grading: GradingInput, pointsAvailable: Option<int>,
    certificationOffered: Option<bool>, isActive: Option<bool>, isVerified: Option<bool>, isFeatured: Option<bool>)

  datatype Created = Invalid(paths: set<Path>) | Valid(doc: CourseDoc)

  /** The document paths a validation error can name. */
  datatype Path = CourseCode | Title | Description | Instructor | Department | AcademicYear | Syllabus
    | CreditHours | Semester | Level | StartDate | EndDate | EnrollmentCap

  /** The paths the schema refuses: the required fields that are absent
      (the `required` check also refuses an empty string), credit hours
      below one, and values outside their lists. */
  function InvalidPaths(i: CourseInput): (bad: set<Path>)
    ensures CourseCode in bad <==> !Present(i.courseCode)
    ensures Title in bad <==> !Present(i.title)
    ensures Description in bad <==> !Present(i.description)
    ensures Instructor in bad <==> i.instructor.None?
    ensures Department in bad <==> !Present(i.department)
    ensures AcademicYear in bad <==> !Present(i.academicYear)
    ensures Syllabus in bad <==> !Present(i.syllabus)
    ensures CreditHours in bad <==> i.creditHours.None? || i.creditHours.value < 1
    ensures Semester in bad <==> i.semester.None? || i.semester.value !in Semesters
    ensures Level in bad <==> i.level.Some? && i.level.value !in Levels
    ensures StartDate in bad <==> i.startDate.None?
    ensures EndDate in bad <==> i.endDate.None?
    ensures EnrollmentCap in bad <==> i.enrollmentCap.None?
  {
    set p | p in AllPaths && Refused(i, p)
  }

  const AllPaths: set<Path> := {CourseCode, Title, Description, Instructor, Department, AcademicYear, Syllabus,
                                CreditHours, Semester, Level, StartDate, EndDate, EnrollmentCap}

  /** The schema's check of one path. */
  predicate Refused(i: CourseInput, p: Path) {
    match p
    case CourseCode => !Present(i.courseCode)
    case Title => !Present(i.title)
    case Description => !Present(i.description)
    case Instructor => i.instructor.None?
    case Department => !Present(i.department)
    case AcademicYear => !Present(i.academicYear)
    case Syllabus => !Present(i.syllabus)
    case CreditHours => i.creditHours.None? || i.creditHours.value < 1
    case Semester => i.semester.None? || i.semester.value !in Semesters
    case Level => i.level.Some? && i.level.value !in Levels
    case StartDate => i.startDate.None?
    case EndDate => i.endDate.None?
    case EnrollmentCap => i.enrollmentCap.None?
  }

  function GradingWithDefaults(g: GradingInput): GradingPolicy {
    GradingPolicy(g.assignments.GetOr(30), g.quizzes.GetOr(20), g.midterm.GetOr(20),
                  g.finalExam.GetOr(30), g.participation.GetOr(0))
  }

  /** Creating a document: refused with the failing paths, or built with
      every given value kept and every absent one defaulted. */
  function Create(i: CourseInput): (r: Created)
    ensures r.Invalid? <==> InvalidPaths(i) != {}
    ensures r.Invalid? ==> r.paths == InvalidPaths(i)
    ensures r.Valid? ==> r.doc.creditHours >= 1 && r.doc.semester in Semesters && r.doc.level in Levels
    ensures r.Valid? ==> (Some(r.doc.courseCode) == i.courseCode && Some(r.doc.title) == i.title
                          && Some(r.doc.description) == i.description && Some(r.doc.instructor) == i.instructor
                          && Some(r.doc.department) == i.department && Some(r.doc.academicYear) == i.academicYear
                          && Some(r.doc.syllabus) == i.syllabus)
    ensures r.Valid? ==> (Some(r.doc.creditHours) == i.creditHours && Some(r.doc.semester) == i.semester
                          && Some(r.doc.startDate) == i.startDate && Some(r.doc.endDate) == i.endDate
                          && Some(r.doc.enrollmentCap) == i.enrollmentCap)
    ensures r.Valid? ==> r.doc.currentEnrollment == i.currentEnrollment.GetOr(0)
    ensures r.Valid? ==> r.doc.level == i.level.GetOr("all-levels")
    ensures r.Valid? ==> (r.doc.waitlistEnabled == i.waitlistEnabled.GetOr(false)
                          && r.doc.waitlistCapacity == i.waitlistCapacity.GetOr(0))
    ensures r.Valid? ==> (r.doc.coverImage == i.coverImage.GetOr("default-course-cover.jpg")
                          && r.doc.pointsAvailable == i.pointsAvailable.GetOr(100)
                          && r.doc.certificationOffered == i.certificationOffered.GetOr(false))
    ensures r.Valid? ==> (r.doc.isActive == i.isActive.GetOr(true)
                          && r.doc.isVerified == i.isVerified.GetOr(false)
                          && r.doc.isFeatured == i.isFeatured.GetOr(false))
    ensures r.Valid? ==> r.doc.grading == GradingWithDefaults(i.grading)
  {
    var bad := InvalidPaths(i);
    if bad != {} then Invalid(bad)
    else Valid(CourseDoc(
      i.courseCode.value, i.title.value, i.description.value, i.instructor.value,
      i.department.value, i.academicYear.value, i.syllabus.value,
      i.creditHours.value, i.semester.value, i.level.GetOr("all-levels"),
      i.startDate.value, i.endDate.value,
      i.enrollmentCap.value, i.currentEnrollment.GetOr(0),
      i.waitlistEnabled.GetOr(false), i.waitlistCapacity.GetOr(0),
      i.coverImage.GetOr("default-course-cover.jpg"), GradingWithDefaults(i.grading),
      i.pointsAvailable.GetOr(100),
      i.certificationOffered.GetOr(false), i.isActive.GetOr(true),
      i.isVerified.GetOr(false), i.isFeatured.GetOr(false)))
  }

  /** A new course that gives no enrollment figures starts open exactly
      when its cap is positive, and a full one without a waitlist setting
      is closed. */
  lemma NewCourseStatus(i: CourseInput)
    requires Create(i).Valid? && i.currentEnrollment.None?
    ensures Status(Create(i).doc) == Open <==> i.enrollmentCap.value > 0
    ensures i.enrollmentCap.value <= 0 && i.waitlistEnabled.None? ==> Status(Create(i).doc) == Closed
  {}

  /** With no grading weights given, the new document's weights make up
      the whole grade. */
  lemma NewCourseGradingWhole(i: CourseInput)
    requires Create(i).Valid? && i.grading == GradingInput(None, None, None, None, None)
    ensures GradingTotal(Create(i).doc.grading) == 100
    ensures Create(i).doc.grading == DefaultGrading
  {}
}
