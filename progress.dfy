/** The integer arithmetic of the course controller: completion percentage,
    milestone detection, reward amounts and pagination. The source computes
    these in floating point; here they are exact. */
module Progress {
  import opened Common

  /** `Math.round(completed / total * 100)` on the exact rational: the
      nearest integer, halves rounded up. */
  function Percentage(completed: nat, total: nat): (p: nat)
    requires total > 0
    ensures 2 * total * p <= 200 * completed + total < 2 * total * (p + 1)
  {
    (200 * completed + total) / (2 * total)
  }

  /** The rounding characterisation has exactly one solution, so Percentage
      is THE round-half-up of 100 * completed / total. */
  lemma PercentageUnique(completed: nat, total: nat, q: nat)
    requires total > 0
    requires 2 * total * q <= 200 * completed + total < 2 * total * (q + 1)
    ensures q == Percentage(completed, total)
  {
    var p := Percentage(completed, total);
    MulCancel(q, p + 1, 2 * total);
    MulCancel(p, q + 1, 2 * total);
  }

  /** More completed materials never lower the percentage. */
  lemma PercentageMonotone(k1: nat, k2: nat, total: nat)
    requires total > 0 && k1 <= k2
    ensures Percentage(k1, total) <= Percentage(k2, total)
  {
    var p1, p2 := Percentage(k1, total), Percentage(k2, total);
    MulCancel(p1, p2 + 1, 2 * total);
  }

  /** 0 of n is 0%, n of n is 100%, and k <= n never exceeds 100%. */
  lemma PercentageRange(completed: nat, total: nat)
    requires total > 0 && completed <= total
    ensures Percentage(completed, total) <= 100
    ensures completed == 0 ==> Percentage(completed, total) == 0
    ensures completed == total ==> Percentage(completed, total) == 100
  {
    PercentageMonotone(completed, total, total);
    if completed == 0 { PercentageUnique(0, total, 0); }
    PercentageUnique(total, total, 100);
  }

  /** A percentage shown by `getCourseById` and `getCourseProgress`: the
      rounded share when there is anything to count, and 0 otherwise. */
  function ShownPercentage(done: nat, total: nat): (p: nat)
    ensures total == 0 ==> p == 0
    ensures total > 0 ==> 2 * total * p <= 200 * done + total < 2 * total * (p + 1)
  {
    if total > 0 then Percentage(done, total) else 0
  }

  /** The milestone thresholds, in the order they are checked. */
  const Milestones: seq<nat> := [25, 50, 75, 100]

  ghost predicate Ascending(ms: seq<nat>) {
    forall i, j :: 0 <= i < j < |ms| ==> ms[i] < ms[j]
  }

  /** `Array.prototype.find`: on ascending thresholds, the smallest one the
      test accepts. */
  function First(ms: seq<nat>, hit: nat -> bool): (r: Option<nat>)
    requires Ascending(ms)
    ensures r.None? ==> forall m :: m in ms ==> !hit(m)
    ensures r.Some? ==> r.value in ms && hit(r.value)
    ensures r.Some? ==> forall m :: m in ms && m < r.value ==> !hit(m)
  {
    if ms == [] then None
    else if hit(ms[0]) then Some(ms[0])
    else First(ms[1..], hit)
  }

  /** The source's test for threshold m: `pct >= m && pct - (1/total*100) < m`,
      multiplied through by total > 0 so that it is exact. */
  predicate HitAsWritten(pct: nat, total: nat, m: nat) {
    pct >= m && total * pct - 100 < m * total
  }

  /** The integer test is the source's test on exact reals. */
  lemma HitAsWrittenIsSourceTest(pct: nat, total: nat, m: nat)
    requires total > 0
    ensures HitAsWritten(pct, total, m)
      <==> pct >= m && (pct as real) - 100.0 / (total as real) < m as real
  {
    var t := total as real;
    assert ((pct as real) - 100.0 / t) * t == (total * pct - 100) as real;
    assert (m as real) * t == (m * total) as real;
  }

  /** The milestone `completeMaterial` reports after `completed` of `total`
      materials are done, as the source computes it (courseController.js
      734-743). */
  function MilestoneAsWritten(completed: nat, total: nat): (r: Option<nat>)
    requires total > 0
    ensures r.Some? ==>
      (r.value in Milestones && HitAsWritten(Percentage(completed, total), total, r.value))
    ensures forall m :: (m in Milestones && (r.None? || m < r.value)) ==>
      !HitAsWritten(Percentage(completed, total), total, m)
  {
    var pct := Percentage(completed, total);
    First(Milestones, (m: nat) => HitAsWritten(pct, total, m))
  }

  /** Threshold m lies in (percentage before, percentage after]: this call is
      what carried the student across it. */
  predicate Crosses(before: nat, after: nat, total: nat, m: nat)
    requires total > 0
  {
    Percentage(before, total) < m <= Percentage(after, total)
  }

  /** The milestone rule as the flow is meant to work: the first threshold
      crossed between the completed count before the call and after it. */
  function CrossedMilestone(before: nat, after: nat, total: nat): (r: Option<nat>)
    requires total > 0
    ensures r.Some? ==> r.value in Milestones && Crosses(before, after, total, r.value)
    ensures forall m :: (m in Milestones && (r.None? || m < r.value)) ==>
      !Crosses(before, after, total, m)
  {
    First(Milestones, (m: nat) => Crosses(before, after, total, m))
  }

  /** A call that completes nothing new crosses nothing. */
  lemma NoProgressNoMilestone(completed: nat, total: nat)
    requires total > 0
    ensures CrossedMilestone(completed, completed, total) == None
  {
    var r := CrossedMilestone(completed, completed, total);
    assert r.Some? ==> Crosses(completed, completed, total, r.value);
  }

  /** Each threshold is reported at most once along a run of calls: once a
      later call starts from at least the count an earlier one ended with,
      it cannot report the same milestone. */
  lemma {:induction false} MilestoneReportedOnce(b1: nat, a1: nat, b2: nat, a2: nat, total: nat)
    requires total > 0 && a1 <= b2
    requires CrossedMilestone(b1, a1, total).Some?
    ensures CrossedMilestone(b2, a2, total) != CrossedMilestone(b1, a1, total)
  {
    var m := CrossedMilestone(b1, a1, total).value;
    PercentageMonotone(a1, b2, total);
    assert !Crosses(b2, a2, total, m);
  }

  /** Completing four materials one at a time reports 25, 50, 75 and 100. */
  lemma FourMaterialsWalk()
    ensures CrossedMilestone(0, 1, 4) == Some(25)
    ensures CrossedMilestone(1, 2, 4) == Some(50)
    ensures CrossedMilestone(2, 3, 4) == Some(75)
    ensures CrossedMilestone(3, 4, 4) == Some(100)
    ensures MilestoneAsWritten(1, 4) == Some(25)
    ensures MilestoneAsWritten(2, 4) == Some(50)
    ensures MilestoneAsWritten(3, 4) == Some(75)
    ensures MilestoneAsWritten(4, 4) == Some(100)
  {
    assert Percentage(0, 4) == 0 && Percentage(1, 4) == 25;
    assert Percentage(2, 4) == 50 && Percentage(3, 4) == 75 && Percentage(4, 4) == 100;
  }

  /** Only the first threshold is reported: with two materials the first
      completion (50%) reports 25, and the second (100%) reports 75. */
  lemma TwoMaterialsReportFirstThreshold()
    ensures MilestoneAsWritten(1, 2) == Some(25)
    ensures MilestoneAsWritten(2, 2) == Some(75)
    ensures CrossedMilestone(0, 1, 2) == Some(25)
    ensures CrossedMilestone(1, 2, 2) == Some(75)
  {
    assert Percentage(0, 2) == 0 && Percentage(1, 2) == 50 && Percentage(2, 2) == 100;
  }

  /** Finding: the source's test subtracts one exact step from a ROUNDED
      percentage, so with 12 materials the 3rd (25%) and the 4th (33%)
      completions both report the 25% milestone. */
  lemma AsWrittenRepeatsMilestone()
    ensures MilestoneAsWritten(3, 12) == Some(25)
    ensures MilestoneAsWritten(4, 12) == Some(25)
    ensures CrossedMilestone(2, 3, 12) == Some(25)
    ensures CrossedMilestone(3, 4, 12) == None
  {
    assert Percentage(2, 12) == 17 && Percentage(3, 12) == 25 && Percentage(4, 12) == 33;
  }

  /** Finding: the source's test looks only at the count after the update,
      so marking an already completed material again (1 of 4 still done)
      reports 25% a second time. */
  lemma AsWrittenRepeatsOnRecompletion()
    ensures MilestoneAsWritten(1, 4) == Some(25)
    ensures CrossedMilestone(1, 1, 4) == None
  {
    NoProgressNoMilestone(1, 4);
    assert Percentage(1, 4) == 25;
  }

  /** EduPoints for a milestone: 20 at 100%, otherwise a fifth of it. */
  function MilestoneReward(m: nat): (points: nat)
    requires m in Milestones
    ensures m == 25 ==> points == 5
    ensures m == 50 ==> points == 10
    ensures m == 75 ==> points == 15
    ensures m == 100 ==> points == 20
  {
    if m == 100 then 20 else m / 5
  }

  /** Rewards grow with the milestone. */
  lemma RewardIncreasing(m1: nat, m2: nat)
    requires m1 in Milestones && m2 in Milestones && m1 < m2
    ensures 5 <= MilestoneReward(m1) < MilestoneReward(m2) <= 20
  {}

  /** `(page - 1) * limit`, the OFFSET of `getAllCourses`. The page comes
      from the query string unchecked, so it can be zero or negative; the
      OFFSET is then negative unless no row is asked for. */
  function PageOffset(page: int, limit: nat): (offset: int)
    ensures offset >= 0 <==> page >= 1 || limit == 0
  {
    (page - 1) * limit
  }

  /** The answer of `getAllCourses`: PostgreSQL refuses a negative OFFSET,
      and the handler's catch turns that into a 500. */
  function ListCoursesStatus(page: int, limit: nat): (status: nat)
    ensures status == 500 <==> page < 1 && limit > 0
    ensures status == 200 <==> page >= 1 || limit == 0
  {
    if PageOffset(page, limit) < 0 then 500 else 200
  }

  /** Consecutive pages are adjacent windows: page p + 1 starts where
      page p ends. */
  lemma {:induction false} PagesAbut(page: int, limit: nat)
    ensures PageOffset(page + 1, limit) == PageOffset(page, limit) + limit
  {
    assert page * limit == (page - 1) * limit + limit;
  }

  /** `Math.ceil(total / limit)`: the fewest pages of `limit` rows that hold
      `total` rows. */
  function TotalPages(total: nat, limit: nat): nat
    requires limit > 0
  {
    CeilDiv(total, limit)
  }

  /** Every row lands on exactly one page between 1 and TotalPages. */
  lemma {:induction false} EveryRowOnOnePage(row: nat, total: nat, limit: nat)
    requires limit > 0 && row < total
    ensures var page := row / limit + 1;
      1 <= page <= TotalPages(total, limit)
      && PageOffset(page, limit) <= row < PageOffset(page, limit) + limit
  {
    var q := row / limit;
    var pages := TotalPages(total, limit);
    assert PageOffset(q + 1, limit) == q * limit;
    assert q * limit <= row < q * limit + limit;
    MulCancel(q, pages, limit);
  }

}
