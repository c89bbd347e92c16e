/** The course controller's store: courses with ordered sections of
    materials, enrollments keyed by (student, course), per-(student, material)
    progress rows, primary wallets and the append-only reward ledger. Each
    handler is one atomic step; `blockchainService.awardPoints` is an oracle
    whose outcome is a parameter. */
module CourseCatalog {
  import opened Common
  import opened Progress

  type StudentId = nat
  type CourseId = nat
  type AssignmentId = nat
  type Address = string

  datatype Material = Material(title: string, kind: string, content: Option<string>, url: Option<string>, order: nat)

  datatype Section = Section(title: string, description: Option<string>, order: nat, materials: seq<Material>)

  datatype Course = Course(
    title: string, description: string, departmentId: nat, creditHours: int,
    startDate: Option<int>, endDate: Option<int>, isActive: bool,
    prerequisites: seq<CourseId>, imageUrl: Option<string>, createdBy: nat,
    sections: seq<Section>, updatedAt: Option<int>)

  /** A material is named by its course and its position; distinct
      materials have distinct names by construction. */
  datatype MaterialRef = MaterialRef(course: CourseId, section: nat, index: nat)

  datatype ProgressRow = ProgressRow(isCompleted: bool, completedAt: Option<int>)

  /** `transactions.transaction_type` */
  datatype RewardKind = EnrollmentReward | CourseProgress

  datatype LedgerEntry = LedgerEntry(wallet: Address, kind: RewardKind, amount: nat, description: string)

  /** Achievement type 0, "Academic", the only one this flow uses. */
  const Academic: nat := 0

  /** The points awarded on enrollment. */
  const EnrollmentPoints: nat := 5

  /** One call of `awardPoints(wallet, points, achievementName, achievementType)`. */
  datatype AwardCall = AwardCall(wallet: Address, points: nat, achievement: string, achievementType: nat)

  // ---- request bodies ----

  datatype MaterialInput = MaterialInput(title: string, kind: Option<string>, content: Option<string>, url: Option<string>)

  datatype SectionInput = SectionInput(title: string, description: Option<string>, materials: seq<MaterialInput>)

  /** `None` is a field left out of the JSON body. */
  datatype CourseInput = CourseInput(
    title: Option<string>, description: Option<string>, departmentId: Option<nat>,
    creditHours: Option<int>, startDate: Option<int>, endDate: Option<int>,
    isActive: Option<bool>, prerequisites: Option<seq<CourseId>>, imageUrl: Option<string>,
    sections: seq<SectionInput>)

  datatype CoursePatch = CoursePatch(
    title: Option<string>, description: Option<string>, departmentId: Option<nat>,
    creditHours: Option<int>, startDate: Option<int>, endDate: Option<int>,
    isActive: Option<bool>, prerequisites: Option<seq<CourseId>>, imageUrl: Option<string>)

  // ---- responses ----

  datatype CreateResult = MissingFields | Created(id: CourseId) {
    function Status(): nat { if Created? then 201 else 400 }
  }

  datatype UpdateResult = UpdateNotFound | Updated(course: Course) {
    function Status(): nat { if Updated? then 200 else 404 }
  }

  datatype DeleteResult = DeleteNotFound | HasEnrollments | Deleted {
    function Status(): nat {
      match this
      case DeleteNotFound => 404
      case HasEnrollments => 400
      case Deleted => 200
    }
  }

  datatype EnrollResult = CourseNotFound | AlreadyEnrolled | Enrolled {
    function Status(): nat {
      match this
      case CourseNotFound => 404
      case AlreadyEnrolled => 400
      case Enrolled => 201
    }
  }

  datatype UnenrollResult = EnrollmentNotFound | Unenrolled {
    function Status(): nat { if Unenrolled? then 200 else 404 }
  }

  datatype CompleteResult = ProgressNotFound | Completed(percentage: nat, milestone: Option<nat>) {
    function Status(): nat { if Completed? then 200 else 404 }
  }

  datatype CourseDetail = DetailNotFound
    | Detail(course: Course, isEnrolled: Option<bool>, percentage: Option<nat>)
  {
    function Status(): nat { if Detail? then 200 else 404 }
  }

  // ---- pure pieces of the handlers ----

  /** `!title || !description || !department_id` */
  predicate MissingRequired(input: CourseInput) {
    !Present(input.title) || !Present(input.description)
    || input.departmentId.None? || input.departmentId.value == 0
  }

  /** A material row as `createCourse` inserts the j-th material of a section. */
  predicate MaterialBuilt(j: nat, m: Material, input: MaterialInput) {
    m.title == input.title
    && m.kind == (if Present(input.kind) then input.kind.value else "text")
    && m.content == OrNull(input.content) && m.url == OrNull(input.url)
    && m.order == j + 1
  }

  predicate MaterialsBuilt(ms: seq<Material>, inputs: seq<MaterialInput>) {
    |ms| == |inputs| && forall j :: 0 <= j < |ms| ==> MaterialBuilt(j, ms[j], inputs[j])
  }

  /** A section row as `createCourse` inserts the i-th section. */
  predicate SectionBuilt(i: nat, s: Section, input: SectionInput) {
    s.title == input.title && s.description == OrNull(input.description)
    && s.order == i + 1 && MaterialsBuilt(s.materials, input.materials)
  }

  predicate SectionsBuilt(ss: seq<Section>, inputs: seq<SectionInput>) {
    |ss| == |inputs| && forall i :: 0 <= i < |ss| ==> SectionBuilt(i, ss[i], inputs[i])
  }

  /** The course row `createCourse` inserts, with its defaults:
      `credit_hours || 3`, `is_active` true when omitted,
      `prerequisites || []` and `image_url || null`. */
  predicate CourseBuilt(c: Course, input: CourseInput, createdBy: nat)
    requires !MissingRequired(input)
  {
    c.title == input.title.value && c.description == input.description.value
    && c.departmentId == input.departmentId.value
    && c.creditHours == (if input.creditHours.None? || input.creditHours.value == 0 then 3 else input.creditHours.value)
    && c.startDate == input.startDate && c.endDate == input.endDate
    && c.isActive == input.isActive.GetOr(true)
    && c.prerequisites == input.prerequisites.GetOr([])
    && c.imageUrl == OrNull(input.imageUrl)
    && c.createdBy == createdBy && c.updatedAt == None
    && SectionsBuilt(c.sections, input.sections)
  }

  /** `SET field = COALESCE($n, field)` for every column, `updated_at = NOW()`. */
  function Coalesce(c: Course, p: CoursePatch, now: int): (r: Course)
    ensures CoalescedValue(c.title, p.title, r.title)
    ensures CoalescedValue(c.description, p.description, r.description)
    ensures CoalescedValue(c.departmentId, p.departmentId, r.departmentId)
    ensures CoalescedValue(c.creditHours, p.creditHours, r.creditHours)
    ensures Coalesced(c.startDate, p.startDate, r.startDate) && Coalesced(c.endDate, p.endDate, r.endDate)
    ensures CoalescedValue(c.isActive, p.isActive, r.isActive)
    ensures CoalescedValue(c.prerequisites, p.prerequisites, r.prerequisites)
    ensures Coalesced(c.imageUrl, p.imageUrl, r.imageUrl)
    ensures r.sections == c.sections && r.createdBy == c.createdBy
    ensures r.updatedAt == Some(now)
  {
    c.(title := p.title.GetOr(c.title),
       description := p.description.GetOr(c.description),
       departmentId := p.departmentId.GetOr(c.departmentId),
       creditHours := p.creditHours.GetOr(c.creditHours),
       startDate := if p.startDate.Some? then p.startDate else c.startDate,
       endDate := if p.endDate.Some? then p.endDate else c.endDate,
       isActive := p.isActive.GetOr(c.isActive),
       prerequisites := p.prerequisites.GetOr(c.prerequisites),
       imageUrl := if p.imageUrl.Some? then p.imageUrl else c.imageUrl,
       updatedAt := Some(now))
  }

  /** Sending the same patch twice is the same as sending it once. */
  lemma CoalesceIdempotent(c: Course, p: CoursePatch, t1: int, t2: int)
    ensures Coalesce(Coalesce(c, p, t1), p, t2) == Coalesce(c, p, t2)
  {}

  /** A patch naming every column gives the same course whatever was
      stored, apart from the sections and the owner. */
  lemma FullPatchOverwrites(c1: Course, c2: Course, p: CoursePatch, now: int)
    requires p.title.Some? && p.description.Some? && p.departmentId.Some? && p.creditHours.Some?
    requires p.startDate.Some? && p.endDate.Some? && p.isActive.Some?
    requires p.prerequisites.Some? && p.imageUrl.Some?
    requires c1.sections == c2.sections && c1.createdBy == c2.createdBy
    ensures Coalesce(c1, p, now) == Coalesce(c2, p, now)
  {}

  /** An empty patch changes nothing but the update time. */
  lemma EmptyPatchKeepsCourse(c: Course, now: int)
    ensures Coalesce(c, CoursePatch(None, None, None, None, None, None, None, None, None), now)
      == c.(updatedAt := Some(now))
  {}

  /** Achievement names and ledger descriptions of the two rewards. */
  function EnrollAchievement(title: string): string {
    "Enrolled in " + title
  }

  function EnrollDescription(title: string): string {
    "Enrollment reward for course: " + title
  }

  function MilestoneAchievement(m: nat, title: string): string {
    NatToString(m) + "% completion of " + title
  }

  function MilestoneDescription(m: nat, title: string): string {
    "Reached " + NatToString(m) + "% completion in course: " + title
  }

  /** The `awardPoints` request a reward makes: only for a student with a
      primary wallet, addressed to that wallet. */
  function RewardRequest(wallets: map<StudentId, Address>, s: StudentId, points: nat, achievement: string)
    : (award: Option<AwardCall>)
    ensures award.Some? <==> s in wallets
    ensures award.Some? ==> award.value.wallet == wallets[s] && award.value.points == points
    ensures award.Some? ==> award.value.achievement == achievement && award.value.achievementType == Academic
  {
    if s in wallets then Some(AwardCall(wallets[s], points, achievement, Academic)) else None
  }

  /** The ledger after a request: one more row exactly when a request was
      made and the chain call succeeded. */
  function LedgerAfter(ledger: seq<LedgerEntry>, award: Option<AwardCall>, succeeded: bool,
                       kind: RewardKind, description: string): (after: seq<LedgerEntry>)
    ensures |after| == |ledger| + (if award.Some? && succeeded then 1 else 0)
    ensures after[..|ledger|] == ledger
    ensures award.Some? && succeeded ==>
      after[|ledger|] == LedgerEntry(award.value.wallet, kind, award.value.points, description)
  {
    if award.Some? && succeeded
    then ledger + [LedgerEntry(award.value.wallet, kind, award.value.points, description)]
    else ledger
  }

  class Catalog {
    var courses: map<CourseId, Course>
    var nextCourseId: CourseId
    var assignments: map<AssignmentId, CourseId>
    var enrollments: set<(StudentId, CourseId)>
    var progress: map<(StudentId, MaterialRef), ProgressRow>
    var submissions: map<(StudentId, AssignmentId), string>
    var primaryWallet: map<StudentId, Address>
    var ledger: seq<LedgerEntry>
    /** Ids of the `departments` rows; no handler here writes that table. */
    const departments: set<nat>

    /** r names a material currently in its course's sections. */
    predicate IsMaterial(r: MaterialRef)
      reads this`courses
    {
      r.course in courses && r.section < |courses[r.course].sections|
      && r.index < |courses[r.course].sections[r.section].materials|
    }

    /** The rows `COUNT(*) FROM course_materials JOIN course_sections` counts. */
    function MaterialsOf(c: CourseId): (ms: set<MaterialRef>)
      reads this`courses
      ensures forall r :: r in ms <==> r.course == c && IsMaterial(r)
    {
      if c in courses then
        var ss := courses[c].sections;
        set i: nat, j: nat | i < |ss| && j < |ss[i].materials| :: MaterialRef(c, i, j)
      else {}
    }

    function CompletedCount(s: StudentId, c: CourseId): nat
      reads this`progress
    {
      |CompletedIn(progress, s, c)|
    }

    /** The store's invariant. Besides id freshness and enrollments naming
        existing courses, it says that progress rows are exactly the pairs
        (enrolled student, material of that course): the snapshot taken at
        enrollment always agrees with a live count, because no operation here
        changes the materials of a course that has enrollments. */
    ghost predicate Valid()
      reads this
    {
      (forall c :: c in courses ==> c < nextCourseId)
      && (forall e :: e in enrollments ==> e.1 in courses)
      && RowsValid(enrollments, progress)
    }

    /** The progress rows are exactly the pairs (enrolled student, material
        of that course). */
    ghost predicate RowsValid(enr: set<(StudentId, CourseId)>, p: ProgressTable)
      reads this`courses
    {
      (forall k :: k in p ==> (k.0, k.1.course) in enr && IsMaterial(k.1))
      && (forall s: StudentId, r: MaterialRef :: (s, r.course) in enr && IsMaterial(r) ==> (s, r) in p)
    }

    /** Only which rows exist matters, not what they hold. */
    lemma RowsValidUpdate(enr: set<(StudentId, CourseId)>, p: ProgressTable, k: (StudentId, MaterialRef), row: ProgressRow)
      requires RowsValid(enr, p) && k in p
      ensures RowsValid(enr, p[k := row])
    {
      assert p[k := row].Keys == p.Keys;
    }

    /** Enrolling adds exactly the new pair's rows. */
    lemma RowsValidEnroll(enr: set<(StudentId, CourseId)>, p: ProgressTable, s: StudentId, c: CourseId)
      requires RowsValid(enr, p) && c in courses
      ensures RowsValid(enr + {(s, c)}, p + NewRows(s, MaterialsOf(c)))
    {}

    /** Unenrolling removes exactly the pair's rows. */
    lemma RowsValidUnenroll(enr: set<(StudentId, CourseId)>, p: ProgressTable, s: StudentId, c: CourseId)
      requires RowsValid(enr, p)
      ensures RowsValid(enr - {(s, c)}, WithoutPair(p, s, c))
    {}

    constructor (departments: set<nat>)
      ensures Valid()
      ensures this.departments == departments
      ensures courses == map[] && enrollments == {} && progress == map[] && ledger == []
      ensures assignments == map[] && submissions == map[] && primaryWallet == map[]
    {
      courses, nextCourseId, assignments := map[], 0, map[];
      enrollments, progress, submissions := {}, map[], map[];
      primaryWallet, ledger := map[], [];
      this.departments := departments;
    }

    /** An enrolled student's completed materials are materials of the
        course, so the percentage never exceeds 100. */
    lemma CompletedWithinCourse(s: StudentId, c: CourseId)
      requires Valid()
      ensures CompletedIn(progress, s, c) <= MaterialsOf(c)
      ensures CompletedCount(s, c) <= |MaterialsOf(c)|
    {
      var done, all := CompletedIn(progress, s, c), MaterialsOf(c);
      assert done <= all;
      SubsetCard(done, all);
    }

    /** `createCourse`: validate, then insert the course, its sections in
        order and each section's materials in order. */
    method CreateCourse(input: CourseInput, createdBy: nat) returns (result: CreateResult)
      requires Valid()
      modifies this
      ensures Valid()
      ensures MissingRequired(input) <==> result == MissingFields
      ensures result == MissingFields ==> unchanged(this)
      ensures result.Created? ==>
        && result.id == old(nextCourseId) && result.id !in old(courses)
        && nextCourseId == old(nextCourseId) + 1
        && result.id in courses && courses == old(courses)[result.id := courses[result.id]]
        && CourseBuilt(courses[result.id], input, createdBy)
      ensures result.Created? ==>
        enrollments == old(enrollments) && progress == old(progress) && ledger == old(ledger)
        && assignments == old(assignments) && submissions == old(submissions)
        && primaryWallet == old(primaryWallet)
    {
      if MissingRequired(input) {
        return MissingFields;
      }
      var sections: seq<Section> := [];
      var i := 0;
      while i < |input.sections|
        invariant 0 <= i <= |input.sections|
        invariant |sections| == i
        invariant forall k :: 0 <= k < i ==> SectionBuilt(k, sections[k], input.sections[k])
      {
        var section := input.sections[i];
        var materials: seq<Material> := [];
        var j := 0;
        while j < |section.materials|
          invariant 0 <= j <= |section.materials|
          invariant |materials| == j
          invariant forall k :: 0 <= k < j ==> MaterialBuilt(k, materials[k], section.materials[k])
        {
          var m := section.materials[j];
          var kind := if Present(m.kind) then m.kind.value else "text";
          materials := materials + [Material(m.title, kind, OrNull(m.content), OrNull(m.url), j + 1)];
          j := j + 1;
        }
        sections := sections + [Section(section.title, OrNull(section.description), i + 1, materials)];
        i := i + 1;
      }
      var credit := if input.creditHours.None? || input.creditHours.value == 0 then 3 else input.creditHours.value;
      var course := Course(
        input.title.value, input.description.value, input.departmentId.value, credit,
        input.startDate, input.endDate, input.isActive.GetOr(true),
        input.prerequisites.GetOr([]), OrNull(input.imageUrl), createdBy, sections, None);
      var id := nextCourseId;
      courses := courses[id := course];
      nextCourseId := id + 1;
      result := Created(id);
      assert forall r: MaterialRef :: r.course != id ==> (IsMaterial(r) <==> old(IsMaterial(r)));
    }

    /** `updateCourse`: 404 for an unknown course, otherwise COALESCE every
        column, so an omitted field keeps its value. */
    method UpdateCourse(c: CourseId, patch: CoursePatch, now: int) returns (result: UpdateResult)
      requires Valid()
      modifies this
      ensures Valid()
      ensures c !in old(courses) <==> result == UpdateNotFound
      ensures result == UpdateNotFound ==> unchanged(this)
      ensures result.Updated? ==>
        result.course == Coalesce(old(courses)[c], patch, now)
        && courses == old(courses)[c := result.course]
      ensures enrollments == old(enrollments) && progress == old(progress) && ledger == old(ledger)
      ensures assignments == old(assignments) && submissions == old(submissions)
      ensures primaryWallet == old(primaryWallet) && nextCourseId == old(nextCourseId)
    {
      if c !in courses {
        return UpdateNotFound;
      }
      var updated := Coalesce(courses[c], patch, now);
      courses := courses[c := updated];
      result := Updated(updated);
      assert forall r :: IsMaterial(r) <==> old(IsMaterial(r));
    }

    /** `deleteCourse`: 404 for an unknown course, 400 while anyone is
        enrolled; otherwise the course with its sections, materials and
        assignments goes. */
    method DeleteCourse(c: CourseId) returns (result: DeleteResult)
      requires Valid()
      modifies this
      ensures Valid()
      ensures c !in old(courses) <==> result == DeleteNotFound
      ensures result == HasEnrollments <==>
        c in old(courses) && exists e :: e in old(enrollments) && e.1 == c
      ensures !result.Deleted? ==> unchanged(this)
      ensures result.Deleted? ==>
        courses == old(courses) - {c}
        && assignments == (map a | a in old(assignments) && old(assignments)[a] != c :: old(assignments)[a])
      ensures enrollments == old(enrollments) && progress == old(progress) && ledger == old(ledger)
      ensures submissions == old(submissions) && primaryWallet == old(primaryWallet)
      ensures nextCourseId == old(nextCourseId)
    {
      if c !in courses {
        return DeleteNotFound;
      }
      if exists e :: e in enrollments && e.1 == c {
        return HasEnrollments;
      }
      courses := courses - {c};
      assignments := map a | a in assignments && assignments[a] != c :: assignments[a];
      result := Deleted;
      assert forall r: MaterialRef :: r.course != c ==> (IsMaterial(r) <==> old(IsMaterial(r)));
    }

    /** `enrollStudent`: 404 unless the course exists and is active, then 400
        if already enrolled; otherwise the enrollment and one uncompleted
        progress row per current material. If the student has a primary
        wallet, 5 points are requested; the ledger grows only when that
        succeeds, and a failure never undoes the enrollment. */
    method EnrollStudent(s: StudentId, c: CourseId, awardSucceeds: bool)
      returns (result: EnrollResult, award: Option<AwardCall>)
      requires Valid()
      modifies this
      ensures Valid()
      ensures result == CourseNotFound <==> (c !in old(courses) || !old(courses)[c].isActive)
      ensures result == AlreadyEnrolled <==>
        c in old(courses) && old(courses)[c].isActive && (s, c) in old(enrollments)
      ensures !result.Enrolled? ==> unchanged(this) && award == None
      ensures result.Enrolled? ==>
        && enrollments == old(enrollments) + {(s, c)}
        && progress == old(progress) + NewRows(s, old(MaterialsOf(c)))
        && award == RewardRequest(primaryWallet, s, EnrollmentPoints, EnrollAchievement(courses[c].title))
        && ledger == LedgerAfter(old(ledger), award, awardSucceeds, EnrollmentReward, EnrollDescription(courses[c].title))
      ensures courses == old(courses) && assignments == old(assignments)
      ensures submissions == old(submissions) && primaryWallet == old(primaryWallet)
      ensures nextCourseId == old(nextCourseId)
    {
      award := None;
      if c !in courses || !courses[c].isActive {
        return CourseNotFound, None;
      }
      if (s, c) in enrollments {
        return AlreadyEnrolled, None;
      }
      var rows := NewRows(s, MaterialsOf(c));
      RowsValidEnroll(enrollments, progress, s, c);
      enrollments := enrollments + {(s, c)};
      progress := progress + rows;
      var title := courses[c].title;
      award := RequestReward(s, EnrollmentPoints, EnrollAchievement(title), EnrollmentReward, EnrollDescription(title), awardSucceeds);
      result := Enrolled;
    }

    /** The reward step both handlers share: request `points` for the
        student's primary wallet, if any, and ledger them when the chain call
        succeeds. Nothing but the ledger changes. */
    method RequestReward(s: StudentId, points: nat, achievement: string, kind: RewardKind,
                         description: string, awardSucceeds: bool) returns (award: Option<AwardCall>)
      requires Valid()
      modifies this
      ensures Valid()
      ensures award == RewardRequest(primaryWallet, s, points, achievement)
      ensures ledger == LedgerAfter(old(ledger), award, awardSucceeds, kind, description)
      ensures courses == old(courses) && enrollments == old(enrollments) && progress == old(progress)
      ensures assignments == old(assignments) && submissions == old(submissions)
      ensures primaryWallet == old(primaryWallet) && nextCourseId == old(nextCourseId)
    {
      award := RewardRequest(primaryWallet, s, points, achievement);
      ledger := LedgerAfter(ledger, award, awardSucceeds, kind, description);
    }

    /** `unenrollStudent`: 404 without an enrollment; otherwise that pair's
        progress rows, its submissions for the course's assignments and the
        enrollment go, and nothing else changes. */
    method UnenrollStudent(s: StudentId, c: CourseId) returns (result: UnenrollResult)
      requires Valid()
      modifies this
      ensures Valid()
      ensures (s, c) !in old(enrollments) <==> result == EnrollmentNotFound
      ensures result == EnrollmentNotFound ==> unchanged(this)
      ensures result.Unenrolled? ==>
        && enrollments == old(enrollments) - {(s, c)}
        && progress == WithoutPair(old(progress), s, c)
        && submissions == (map k | k in old(submissions)
             && !(k.0 == s && k.1 in assignments && assignments[k.1] == c) :: old(submissions)[k])
      ensures courses == old(courses) && assignments == old(assignments) && ledger == old(ledger)
      ensures primaryWallet == old(primaryWallet) && nextCourseId == old(nextCourseId)
    {
      if (s, c) !in enrollments {
        return EnrollmentNotFound;
      }
      RowsValidUnenroll(enrollments, progress, s, c);
      progress := WithoutPair(progress, s, c);
      submissions := map k | k in submissions
        && !(k.0 == s && k.1 in assignments && assignments[k.1] == c) :: submissions[k];
      enrollments := enrollments - {(s, c)};
      result := Unenrolled;
    }

    /** `completeMaterial`: 404 without a progress row; otherwise only that
        row becomes completed, the percentage is recomputed over the
        course's materials and the milestone crossed by this call (the
        corrected rule, see Progress.CrossedMilestone) is reported whatever
        the reward's fate. A reward is requested only for a milestone and a
        primary wallet, and ledgered only when it succeeds. */
    method CompleteMaterial(s: StudentId, r: MaterialRef, now: int, awardSucceeds: bool)
      returns (result: CompleteResult, award: Option<AwardCall>)
      requires Valid()
      modifies this
      ensures Valid()
      ensures (s, r) !in old(progress) <==> result == ProgressNotFound
      ensures result == ProgressNotFound ==> unchanged(this) && award == None
      ensures result.Completed? ==>
        && progress == old(progress)[(s, r) := ProgressRow(true, Some(now))]
        && CompletedCount(s, r.course) == old(CompletedCount(s, r.course))
             + (if old(progress)[(s, r)].isCompleted then 0 else 1)
        && |MaterialsOf(r.course)| > 0
        && result.percentage == Percentage(CompletedCount(s, r.course), |MaterialsOf(r.course)|)
        && result.percentage <= 100
        && result.milestone == CrossedMilestone(old(CompletedCount(s, r.course)),
                                                CompletedCount(s, r.course), |MaterialsOf(r.course)|)
      ensures result.Completed? ==>
        && (result.milestone.None? ==> award == None && ledger == old(ledger))
        && (result.milestone.Some? ==>
              var m, title := result.milestone.value, courses[r.course].title;
              && award == RewardRequest(primaryWallet, s, MilestoneReward(m), MilestoneAchievement(m, title))
              && ledger == LedgerAfter(old(ledger), award, awardSucceeds, CourseProgress, MilestoneDescription(m, title)))
      ensures courses == old(courses) && enrollments == old(enrollments) && assignments == old(assignments)
      ensures submissions == old(submissions) && primaryWallet == old(primaryWallet)
      ensures nextCourseId == old(nextCourseId)
    {
      award := None;
      if (s, r) !in progress {
        return ProgressNotFound, None;
      }
      var c := r.course;
      var before, after := MarkRow(s, r, now);
      var total := |MaterialsOf(c)|;
      PercentageRange(after, total);
      var percentage := Percentage(after, total);
      var milestone := CrossedMilestone(before, after, total);
      if milestone.Some? {
        var m, title := milestone.value, courses[c].title;
        award := RequestReward(s, MilestoneReward(m), MilestoneAchievement(m, title), CourseProgress,
                               MilestoneDescription(m, title), awardSucceeds);
      }
      result := Completed(percentage, milestone);
    }

    /** The UPDATE of `completeMaterial`: that one row becomes completed at
        `now`, and the completed count before and after it. */
    method MarkRow(s: StudentId, r: MaterialRef, now: int) returns (before: nat, after: nat)
      requires Valid() && (s, r) in progress
      modifies this
      ensures Valid()
      ensures progress == old(progress)[(s, r) := ProgressRow(true, Some(now))]
      ensures before == old(CompletedCount(s, r.course)) && after == CompletedCount(s, r.course)
      ensures after == before + (if old(progress)[(s, r)].isCompleted then 0 else 1)
      ensures r in MaterialsOf(r.course) && after <= |MaterialsOf(r.course)|
      ensures courses == old(courses) && enrollments == old(enrollments) && ledger == old(ledger)
      ensures assignments == old(assignments) && submissions == old(submissions)
      ensures primaryWallet == old(primaryWallet) && nextCourseId == old(nextCourseId)
    {
      before := CompletedCount(s, r.course);
      CompletedWithinCourse(s, r.course);
      var row := ProgressRow(true, Some(now));
      RowsValidUpdate(enrollments, progress, (s, r), row);
      MarkCounted(progress, MaterialsOf(r.course), s, r, now);
      progress := progress[(s, r) := row];
      after := CompletedCount(s, r.course);
    }

    /** `getCourseById`: 404 for an unknown course or one whose department
        row is missing (the inner join finds no row); for an enrolled student
        also the share of materials completed and assignments submitted,
        0 when the course has neither. */
    method GetCourseById(c: CourseId, viewer: Option<StudentId>) returns (result: CourseDetail)
      requires Valid()
      ensures result == DetailNotFound <==> c !in courses || courses[c].departmentId !in departments
      ensures result.Detail? ==> result.course == courses[c]
      ensures result.Detail? ==> (viewer.None? <==> result.isEnrolled.None?)
      ensures result.Detail? && viewer.Some? ==>
        result.isEnrolled == Some((viewer.value, c) in enrollments)
      ensures result.Detail? ==> (result.percentage.Some? <==> viewer.Some? && (viewer.value, c) in enrollments)
      ensures result.Detail? && result.percentage.Some? ==>
        result.percentage.value == ShownPercentage(
          CompletedCount(viewer.value, c) + SubmittedCount(viewer.value, c),
          |MaterialsOf(c)| + |AssignmentsOf(c)|)
      ensures result.Detail? && result.percentage.Some? ==> result.percentage.value <= 100
    {
      if c !in courses || courses[c].departmentId !in departments {
        return DetailNotFound;
      }
      if viewer.None? {
        return Detail(courses[c], None, None);
      }
      var s := viewer.value;
      if (s, c) !in enrollments {
        return Detail(courses[c], Some(false), None);
      }
      var done := CompletedCount(s, c) + SubmittedCount(s, c);
      var total := |MaterialsOf(c)| + |AssignmentsOf(c)|;
      CompletedWithinCourse(s, c);
      SubmittedWithinCourse(s, c);
      if total > 0 { PercentageRange(done, total); }
      result := Detail(courses[c], Some(true), Some(ShownPercentage(done, total)));
    }

    function AssignmentsOf(c: CourseId): set<AssignmentId>
      reads this
    {
      set a | a in assignments && assignments[a] == c
    }

    /** Submissions with status 'submitted' for the course's assignments. */
    function SubmittedOf(s: StudentId, c: CourseId): set<AssignmentId>
      reads this
    {
      set k | k in submissions && k.0 == s && k.1 in assignments && assignments[k.1] == c
        && submissions[k] == "submitted" :: k.1
    }

    function SubmittedCount(s: StudentId, c: CourseId): nat
      reads this
    {
      |SubmittedOf(s, c)|
    }

    lemma SubmittedWithinCourse(s: StudentId, c: CourseId)
      ensures SubmittedCount(s, c) <= |AssignmentsOf(c)|
    {
      SubsetCard(SubmittedOf(s, c), AssignmentsOf(c));
    }
  }

  type ProgressTable = map<(StudentId, MaterialRef), ProgressRow>

  /** The student's completed progress rows in a course. */
  function CompletedIn(progress: ProgressTable, s: StudentId, c: CourseId): (done: set<MaterialRef>)
    ensures forall r :: r in done <==> r.course == c && (s, r) in progress && progress[(s, r)].isCompleted
  {
    set k | k in progress && k.0 == s && k.1.course == c && progress[k].isCompleted :: k.1
  }

  /** The rows left when a student leaves a course: every row of the other
      pairs, unchanged. */
  function WithoutPair(p: ProgressTable, s: StudentId, c: CourseId): (q: ProgressTable)
    ensures forall k :: k in q <==> k in p && !(k.0 == s && k.1.course == c)
    ensures forall k :: k in q ==> q[k] == p[k]
  {
    map k | k in p && !(k.0 == s && k.1.course == c) :: p[k]
  }

  /** The uncompleted rows `enrollStudent` inserts, one per material. */
  function NewRows(s: StudentId, ms: set<MaterialRef>): (rows: ProgressTable)
    ensures forall k :: k in rows <==> k.0 == s && k.1 in ms
    ensures forall k :: k in rows ==> rows[k] == ProgressRow(false, None)
  {
    map r | r in ms :: (s, r) := ProgressRow(false, None)
  }

  /** Marking one row completed adds exactly that material to the
      completed set, and raises the count by one unless it was already
      completed. */
  lemma MarkCompleted(progress: ProgressTable, s: StudentId, r: MaterialRef, now: int)
    requires (s, r) in progress
    ensures CompletedIn(progress[(s, r) := ProgressRow(true, Some(now))], s, r.course)
      == CompletedIn(progress, s, r.course) + {r}
    ensures |CompletedIn(progress[(s, r) := ProgressRow(true, Some(now))], s, r.course)|
      == |CompletedIn(progress, s, r.course)| + (if progress[(s, r)].isCompleted then 0 else 1)
  {
    var before := CompletedIn(progress, s, r.course);
    var after := CompletedIn(progress[(s, r) := ProgressRow(true, Some(now))], s, r.course);
    assert after == before + {r};
  }

  /** MarkCompleted within a course whose materials are `ms`: the new
      count still fits in the course. */
  lemma MarkCounted(progress: ProgressTable, ms: set<MaterialRef>, s: StudentId, r: MaterialRef, now: int)
    requires (s, r) in progress && r in ms && CompletedIn(progress, s, r.course) <= ms
    ensures var after := CompletedIn(progress[(s, r) := ProgressRow(true, Some(now))], s, r.course);
      && |after| == |CompletedIn(progress, s, r.course)| + (if progress[(s, r)].isCompleted then 0 else 1)
      && |after| <= |ms|
  {
    MarkCompleted(progress, s, r, now);
    SubsetCard(CompletedIn(progress[(s, r) := ProgressRow(true, Some(now))], s, r.course), ms);
  }

  /** A subset is no larger than its superset. */
  lemma {:induction false} SubsetCard<T>(a: set<T>, b: set<T>)
    requires a <= b
    ensures |a| <= |b|
    decreases |b|
  {
    if a != {} {
      var x :| x in a;
      SubsetCard(a - {x}, b - {x});
    }
  }

  /** Enrolling twice: the second call reports 400 and the pair stays
      enrolled once. */
  method EnrollTwice(cat: Catalog, s: StudentId, c: CourseId) returns (second: EnrollResult, award: Option<AwardCall>)
    requires cat.Valid() && c in cat.courses && cat.courses[c].isActive && (s, c) !in cat.enrollments
    modifies cat
    ensures cat.Valid() && (s, c) in cat.enrollments
    ensures second == AlreadyEnrolled && award == None
  {
    var first, _ := cat.EnrollStudent(s, c, false);
    assert first == Enrolled;
    second, award := cat.EnrollStudent(s, c, true);
  }

  /** Completing the same material twice: the second call changes no count
      and, under the corrected rule, reports no milestone and asks for no
      reward. */
  method CompleteTwice(cat: Catalog, s: StudentId, r: MaterialRef, now: int)
    returns (second: CompleteResult, award: Option<AwardCall>)
    requires cat.Valid() && (s, r) in cat.progress
    modifies cat
    ensures cat.Valid() && (s, r) in cat.progress && cat.progress[(s, r)].isCompleted
    ensures second.Completed? && second.milestone == None && award == None
  {
    var first, _ := cat.CompleteMaterial(s, r, now, true);
    assert first.Completed?;
    second, award := cat.CompleteMaterial(s, r, now + 1, true);
    NoProgressNoMilestone(cat.CompletedCount(s, r.course), |cat.MaterialsOf(r.course)|);
  }
}
