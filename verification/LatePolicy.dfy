/** Lateness and its penalty (assignment-grading-service, internal/service/late_policy_calculator.go). */
module LatePolicies {

  const NANOS_PER_HOUR := 3_600_000_000_000
  const NANOS_PER_DAY := 24 * NANOS_PER_HOUR
  /** The longest time span the runtime can express; a longer one is cut to it. */
  const MAX_DURATION := 0x7FFF_FFFF_FFFF_FFFF

  datatype LatePolicy = LatePolicy(penaltyPercentPerDay: int, maxLateDays: int) {
    predicate Valid() {
      0 <= penaltyPercentPerDay <= 100 && maxLateDays >= 0
    }

    predicate AllowsLate() {
      maxLateDays > 0
    }
  }

  datatype Lateness = Lateness(isLate: bool, daysLate: int)

  /** The time from an instant to a later one, cut to the longest expressible span. */
  function Since(later: int, earlier: int): int {
    if later - earlier > MAX_DURATION then MAX_DURATION else later - earlier
  }

  function CalculatePenalty(submittedAt: int, dueDate: int, policy: LatePolicy): (l: Lateness)
    ensures l.daysLate >= 0
    ensures l.isLate <==> submittedAt > dueDate
    ensures l.daysLate > 0 ==> l.isLate && policy.AllowsLate()
  {
    if submittedAt <= dueDate then Lateness(false, 0)
    else if !policy.AllowsLate() then Lateness(true, 0)
    else
      var hours := Since(submittedAt, dueDate) as real / NANOS_PER_HOUR as real;
      var daysLate := (hours / 24.0).Floor;
      Lateness(true, if hours > (daysLate * 24) as real then daysLate + 1 else daysLate)
  }

  function ApplyPenalty(originalScore: real, daysLate: int, policy: LatePolicy): real {
    if daysLate == 0 then originalScore
    else if !policy.AllowsLate() || daysLate > policy.maxLateDays then 0.0
    else
      var totalPercent := (daysLate * policy.penaltyPercentPerDay) as real;
      var percent := if totalPercent > 100.0 then 100.0 else totalPercent;
      var adjusted := originalScore - originalScore * (percent / 100.0);
      if adjusted < 0.0 then 0.0 else adjusted
  }

  /** The score a submission ends with. */
  function Adjusted(score: real, submittedAt: int, dueDate: int, policy: LatePolicy): real {
    ApplyPenalty(score, CalculatePenalty(submittedAt, dueDate, policy).daysLate, policy)
  }

  // ---------- days late ----------

  function CeilDays(elapsed: int): int {
    (elapsed + NANOS_PER_DAY - 1) / NANOS_PER_DAY
  }

  /** Days late are whole days, rounded up, whenever late work is allowed. */
  lemma DaysLateIsCeiling(submittedAt: int, dueDate: int, policy: LatePolicy)
    requires submittedAt > dueDate && policy.AllowsLate()
    ensures CalculatePenalty(submittedAt, dueDate, policy).daysLate == CeilDays(Since(submittedAt, dueDate))
  {
  }

  lemma DaysNeverShrink(earlier: int, later: int, dueDate: int, policy: LatePolicy)
    requires earlier <= later
    ensures CalculatePenalty(earlier, dueDate, policy).daysLate <= CalculatePenalty(later, dueDate, policy).daysLate
  {
  }

  // ---------- the penalty ----------

  lemma ScalingIsMonotone(x: real, p: real, q: real)
    requires x >= 0.0 && p <= q
    ensures x * p <= x * q
  {
  }

  lemma PenaltyStaysWithinScore(score: real, daysLate: int, policy: LatePolicy)
    requires score >= 0.0 && daysLate >= 0 && policy.Valid()
    ensures 0.0 <= ApplyPenalty(score, daysLate, policy) <= score
  {
  }

  /** What a day late costs: a fixed share of the original score. */
  function Share(score: real, policy: LatePolicy): real {
    score * (policy.penaltyPercentPerDay as real / 100.0)
  }

  /** What is left of a score when some points are taken, or all of it when they are more. */
  function Left(score: real, taken: real): real {
    if score < taken then 0.0 else score - taken
  }

  /** What the penalty means, day by day: each day late takes the same share, until nothing is left. */
  function DayByDay(score: real, share: real, days: nat): real {
    if days == 0 then score
    else
      var left := DayByDay(score, share, days - 1) - share;
      if left < 0.0 then 0.0 else left
  }

  lemma {:induction false} DayByDayLeaves(score: real, share: real, days: nat)
    requires score >= 0.0 && share >= 0.0
    ensures DayByDay(score, share, days) == Left(score, days as real * share)
  {
    if days == 0 {
    } else {
      DayByDayLeaves(score, share, days - 1);
      assert days as real * share == (days - 1) as real * share + share;
    }
  }

  lemma SharesAddUp(score: real, days: nat, percent: int)
    ensures score * ((days * percent) as real / 100.0) == days as real * (score * (percent as real / 100.0))
  {
  }

  lemma ShareIsPart(score: real, policy: LatePolicy)
    requires score >= 0.0 && policy.Valid()
    ensures 0.0 <= Share(score, policy)
  {
  }

  /** Cutting the percentage off at a hundred is cutting the score off at nothing. */
  lemma CapIsFloor(score: real, percent: real)
    requires score >= 0.0
    ensures var capped := if percent > 100.0 then 100.0 else percent;
      var (full, cut) := (score - score * (percent / 100.0), score - score * (capped / 100.0));
      cut >= 0.0 && cut == if full < 0.0 then 0.0 else full
  {
    if percent > 100.0 {
      ScalingIsMonotone(score, 1.0, percent / 100.0);
    } else {
      ScalingIsMonotone(score, percent / 100.0, 1.0);
    }
  }

  lemma PenaltyLeaves(score: real, days: nat, policy: LatePolicy)
    requires score >= 0.0 && 0 < days <= policy.maxLateDays
    ensures ApplyPenalty(score, days, policy) == Left(score, score * ((days * policy.penaltyPercentPerDay) as real / 100.0))
  {
    CapIsFloor(score, (days * policy.penaltyPercentPerDay) as real);
  }

  lemma PenaltyIsDayByDay(score: real, days: nat, policy: LatePolicy)
    requires score >= 0.0 && policy.Valid()
    requires days == 0 || days <= policy.maxLateDays
    ensures ApplyPenalty(score, days, policy) == DayByDay(score, Share(score, policy), days)
  {
    if days > 0 {
      PenaltyLeaves(score, days, policy);
      ShareIsPart(score, policy);
      DayByDayLeaves(score, Share(score, policy), days);
      SharesAddUp(score, days, policy.penaltyPercentPerDay);
    }
  }

  lemma {:induction false} MoreDaysLeaveLess(score: real, share: real, fewer: nat, more: nat)
    requires share >= 0.0 && score >= 0.0 && fewer <= more
    ensures DayByDay(score, share, more) <= DayByDay(score, share, fewer)
  {
    if fewer == more {
    } else {
      MoreDaysLeaveLess(score, share, fewer, more - 1);
      DayByDayLeaves(score, share, fewer);
    }
  }

  lemma MoreDaysNeverHelp(score: real, fewer: nat, more: nat, policy: LatePolicy)
    requires score >= 0.0 && policy.Valid() && fewer <= more
    ensures ApplyPenalty(score, more, policy) <= ApplyPenalty(score, fewer, policy)
  {
    PenaltyStaysWithinScore(score, fewer, policy);
    if more <= policy.maxLateDays {
      PenaltyIsDayByDay(score, fewer, policy);
      PenaltyIsDayByDay(score, more, policy);
      ShareIsPart(score, policy);
      MoreDaysLeaveLess(score, Share(score, policy), fewer, more);
    }
  }

  /** Handing in later never raises the score, and the score stays between nothing and itself. */
  lemma LaterNeverScoresHigher(score: real, earlier: int, later: int, dueDate: int, policy: LatePolicy)
    requires score >= 0.0 && policy.Valid() && earlier <= later
    ensures 0.0 <= Adjusted(score, later, dueDate, policy) <= Adjusted(score, earlier, dueDate, policy) <= score
  {
    var fewer := CalculatePenalty(earlier, dueDate, policy).daysLate;
    var more := CalculatePenalty(later, dueDate, policy).daysLate;
    DaysNeverShrink(earlier, later, dueDate, policy);
    MoreDaysNeverHelp(score, fewer, more, policy);
    PenaltyStaysWithinScore(score, fewer, policy);
    PenaltyStaysWithinScore(score, more, policy);
  }

  // ---------- the percentage that matters ----------

  /** The share of a score, in percent, that a number of days late takes. */
  function EffectivePercent(daysLate: int, policy: LatePolicy): real {
    if daysLate == 0 then 0.0
    else if !policy.AllowsLate() || daysLate > policy.maxLateDays then 100.0
    else
      var percent := (daysLate * policy.penaltyPercentPerDay) as real;
      if percent > 100.0 then 100.0 else percent
  }

  lemma PenaltyByPercent(score: real, daysLate: nat, policy: LatePolicy)
    requires score >= 0.0 && policy.Valid()
    ensures ApplyPenalty(score, daysLate, policy) == score - score * (EffectivePercent(daysLate, policy) / 100.0)
  {
    CapIsFloor(score, (daysLate * policy.penaltyPercentPerDay) as real);
  }

  lemma SamePartExactly(x: real, p: real, q: real)
    ensures x - x * p == x - x * q <==> (x == 0.0 || p == q)
  {
    assert x * p - x * q == x * (p - q);
  }

  /** Two numbers of days late leave the same of a score exactly when they take the same percentage,
      or there is nothing to take. */
  lemma SamePenaltyExactly(score: real, days: nat, others: nat, policy: LatePolicy)
    requires score >= 0.0 && policy.Valid()
    ensures ApplyPenalty(score, days, policy) == ApplyPenalty(score, others, policy)
      <==> (score == 0.0 || EffectivePercent(days, policy) == EffectivePercent(others, policy))
  {
    PenaltyByPercent(score, days, policy);
    PenaltyByPercent(score, others, policy);
    SamePartExactly(score, EffectivePercent(days, policy) / 100.0, EffectivePercent(others, policy) / 100.0);
  }

  // ---------- the documented rule ----------

  /** The service's documentation: days late are rounded up, each costs its share, and a submission
      over the limit, which may be no late days at all, scores nothing (and no score is negative). */
  function DocumentedScore(score: real, submittedAt: int, dueDate: int, policy: LatePolicy): real {
    if submittedAt <= dueDate then score
    else
      var days := CeilDays(Since(submittedAt, dueDate));
      if days > policy.maxLateDays then 0.0 else DayByDay(score, Share(score, policy), days)
  }

  /** The documented rule is kept exactly when the work is on time, late work is allowed, or there
      is nothing to lose: where no late work is allowed, a late submission keeps its full score. */
  lemma DocumentedRuleKeptExactly(score: real, submittedAt: int, dueDate: int, policy: LatePolicy)
    requires score >= 0.0 && policy.Valid()
    ensures Adjusted(score, submittedAt, dueDate, policy) == DocumentedScore(score, submittedAt, dueDate, policy)
      <==> (submittedAt <= dueDate || policy.AllowsLate() || score == 0.0)
  {
    if submittedAt > dueDate {
      var days := CeilDays(Since(submittedAt, dueDate));
      assert days > 0;
      if policy.AllowsLate() {
        DaysLateIsCeiling(submittedAt, dueDate, policy);
        if days <= policy.maxLateDays {
          PenaltyIsDayByDay(score, days, policy);
        }
      }
    }
  }
}
