/** Assignments, submissions and grades, with their validation (assignment-grading-service, internal/models). */
module GradingModels {
  import opened Wrappers
  import opened LatePolicies

  /** The instant that stands for a date never set. */
  const ZERO_TIME := 0
  const MAX_TITLE: nat := 500

  datatype Assignment = Assignment(
    id: string, courseId: string, title: string, description: string,
    maxPoints: real, dueDate: int, latePolicy: LatePolicy)

  datatype SubmissionStatus = Submitted | Graded | Returned

  datatype Submission = Submission(
    id: string, assignmentId: string, studentId: string, filePath: string,
    submittedAt: int, status: SubmissionStatus, lateness: Lateness)

  datatype GradeStatus = Draft | Published(publishedAt: int)

  datatype Grade = Grade(
    id: string, submissionId: string, studentId: string, assignmentId: string,
    score: real, adjustedScore: real, feedback: string, status: GradeStatus, gradedBy: string)

  datatype Error =
    | CourseIdRequired | TitleRequired | TitleTooLong | MaxPointsNotPositive | DueDateRequired
    | PenaltyPercentOutOfRange | MaxLateDaysNegative
    | AssignmentIdRequired | StudentIdRequired | FilePathRequired | SubmittedAtRequired | DaysLateNegative
    | SubmissionIdRequired | ScoreNegative | AdjustedScoreNegative | GradedByRequired
    | ScoreAboveMaxPoints | AdjustedScoreAboveMaxPoints
    | AssignmentNotFound | SubmissionNotFound | GradeNotFound
    | HasSubmissions | FileNotSaved | ScoreOutOfRange | NotDraft | AlreadyPublished | KeyTaken

  function ValidatePolicy(policy: LatePolicy): (r: Option<Error>)
    ensures r.None? <==> policy.Valid()
  {
    if policy.penaltyPercentPerDay < 0 || policy.penaltyPercentPerDay > 100 then Some(PenaltyPercentOutOfRange)
    else if policy.maxLateDays < 0 then Some(MaxLateDaysNegative)
    else None
  }

  function ValidateAssignment(a: Assignment): (r: Option<Error>)
    ensures r.None? <==> (a.courseId != "" && 0 < |a.title| <= MAX_TITLE && a.maxPoints > 0.0 && a.dueDate != ZERO_TIME && a.latePolicy.Valid())
  {
    if a.courseId == "" then Some(CourseIdRequired)
    else if a.title == "" then Some(TitleRequired)
    else if |a.title| > MAX_TITLE then Some(TitleTooLong)
    else if a.maxPoints <= 0.0 then Some(MaxPointsNotPositive)
    else if a.dueDate == ZERO_TIME then Some(DueDateRequired)
    else ValidatePolicy(a.latePolicy)
  }

  function ValidateSubmission(s: Submission): Option<Error> {
    if s.assignmentId == "" then Some(AssignmentIdRequired)
    else if s.studentId == "" then Some(StudentIdRequired)
    else if s.filePath == "" then Some(FilePathRequired)
    else if s.submittedAt == ZERO_TIME then Some(SubmittedAtRequired)
    else if s.lateness.daysLate < 0 then Some(DaysLateNegative)
    else None
  }

  function ValidateGrade(g: Grade): Option<Error> {
    if g.submissionId == "" then Some(SubmissionIdRequired)
    else if g.studentId == "" then Some(StudentIdRequired)
    else if g.assignmentId == "" then Some(AssignmentIdRequired)
    else if g.score < 0.0 then Some(ScoreNegative)
    else if g.adjustedScore < 0.0 then Some(AdjustedScoreNegative)
    else if g.gradedBy == "" then Some(GradedByRequired)
    else None
  }

  function ValidateScore(g: Grade, maxPoints: real): Option<Error> {
    if g.score > maxPoints then Some(ScoreAboveMaxPoints)
    else if g.adjustedScore > maxPoints then Some(AdjustedScoreAboveMaxPoints)
    else None
  }
}
