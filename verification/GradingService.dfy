/** The assignment, submission and grading services over one store, step by step (internal/service). */
module GradingService {
  import opened Wrappers
  import opened LatePolicies
  import opened GradingModels
  import Steps = GradingSteps

  class Services {
    var assignments: map<string, Assignment>
    var submissions: map<string, Submission>
    var grades: map<string, Grade>
    var files: set<string>

    function Model(): Steps.Db
      reads this
    {
      Steps.Db(assignments, submissions, grades, files)
    }

    ghost predicate Valid()
      reads this
    {
      Steps.Consistent(Model())
    }

    constructor ()
      ensures Valid() && Model() == Steps.EMPTY
    {
      assignments, submissions, grades, files := map[], map[], map[], {};
    }

    method CreateAssignment(
      newId: string, courseId: string, title: string, description: string, maxPoints: real, dueDate: int, policy: LatePolicy)
      returns (r: Result<Assignment, Error>)
      requires Valid()
      modifies this`assignments
      ensures Valid()
      ensures (Model(), r) == Steps.CreateAssignment(old(Model()),
        Assignment(newId, courseId, title, description, maxPoints, dueDate, policy))
    {
      var a := Assignment(newId, courseId, title, description, maxPoints, dueDate, policy);
      Steps.CreateAssignmentKeeps(Model(), a);
      var invalid := ValidateAssignment(a);
      if invalid.Some? {
        return Failure(invalid.value);
      }
      if newId in assignments {
        return Failure(KeyTaken);
      }
      assignments := assignments[newId := a];
      return Success(a);
    }

    method UpdateAssignment(id: string, title: string, description: string, maxPoints: real, dueDate: int, policy: LatePolicy)
      returns (r: Result<Assignment, Error>)
      requires Valid()
      modifies this`assignments
      ensures Valid()
      ensures forall courseId :: (Model(), r) == Steps.UpdateAssignment(old(Model()),
        Assignment(id, courseId, title, description, maxPoints, dueDate, policy))
    {
      Steps.UpdateAssignmentKeeps(Model(), Assignment(id, "", title, description, maxPoints, dueDate, policy));
      if Steps.HasWork(submissions, id) {
        return Failure(HasSubmissions);
      }
      if id !in assignments {
        return Failure(AssignmentNotFound);
      }
      var a := assignments[id];
      a := a.(title := title);
      a := a.(description := description);
      a := a.(maxPoints := maxPoints);
      a := a.(dueDate := dueDate);
      a := a.(latePolicy := policy);
      var invalid := ValidateAssignment(a);
      if invalid.Some? {
        return Failure(invalid.value);
      }
      assignments := assignments[id := a];
      return Success(a);
    }

    method DeleteAssignment(id: string) returns (r: Result<Assignment, Error>)
      requires Valid()
      modifies this
      ensures Valid()
      ensures (Model(), r) == Steps.DeleteAssignment(old(Model()), id)
    {
      Steps.DeleteAssignmentKeeps(Model(), id);
      if id !in assignments {
        return Failure(AssignmentNotFound);
      }
      r := Success(assignments[id]);
      grades := Steps.WithoutGrades(grades, submissions, id);
      submissions := Steps.WithoutSubmissions(submissions, id);
      assignments := assignments - {id};
    }

    /** The row with this assignment and student, which the table's unique constraint keeps to at most one. */
    method FindOwner(assignmentId: string, studentId: string) returns (owner: Option<string>)
      requires Valid()
      ensures owner == Steps.Owner(submissions, assignmentId, studentId)
    {
      if sid :| sid in submissions && Steps.Owns(submissions, sid, assignmentId, studentId) {
        ghost var found := Steps.Owner(submissions, assignmentId, studentId);
        assert found.Some? && Steps.SameWork(submissions[sid], submissions[found.value]);
        return Some(sid);
      }
      return None;
    }

    /** Deletes a file saved in vain, if that succeeds. */
    method CleanUp(path: string, cleaned: bool)
      modifies this`files
      ensures files == if cleaned then old(files) - {path} else old(files)
    {
      if cleaned {
        files := files - {path};
      }
    }

    method SubmitAssignment(
      assignmentId: string, studentId: string, saved: Option<string>, cleaned: bool, newId: string, now: int)
      returns (r: Result<Submission, Error>)
      requires Valid() && (saved.Some? ==> saved.value !in files)
      modifies this`submissions, this`files
      ensures Valid()
      ensures (Model(), r) == Steps.SubmitAssignment(old(Model()), assignmentId, studentId, saved, cleaned, newId, now)
    {
      Steps.SubmitKeeps(Model(), assignmentId, studentId, saved, cleaned, newId, now);
      if assignmentId !in assignments {
        return Failure(AssignmentNotFound);
      }
      var a := assignments[assignmentId];
      if saved.None? {
        return Failure(FileNotSaved);
      }
      var owner := FindOwner(assignmentId, studentId);
      files := files + {saved.value};
      assert files - {saved.value} == old(files) - {saved.value};
      var lateness := CalculatePenalty(now, a.dueDate, a.latePolicy);
      var s := Submission(newId, assignmentId, studentId, saved.value, now, Submitted, lateness);
      var invalid := ValidateSubmission(s);
      if invalid.Some? {
        CleanUp(saved.value, cleaned);
        return Failure(invalid.value);
      }
      if owner.Some? {
        s := s.(id := owner.value);
      } else if newId in submissions {
        CleanUp(saved.value, cleaned);
        return Failure(KeyTaken);
      }
      submissions := submissions[s.id := s];
      return Success(s);
    }

    method CreateGrade(newId: string, submissionId: string, score: real, feedback: string, gradedBy: string, marked: bool)
      returns (r: Result<Grade, Error>)
      requires Valid()
      modifies this`submissions, this`grades
      ensures Valid()
      ensures (Model(), r) == Steps.CreateGrade(old(Model()), newId, submissionId, score, feedback, gradedBy, marked)
    {
      Steps.CreateGradeKeeps(Model(), newId, submissionId, score, feedback, gradedBy, marked);
      if submissionId !in submissions {
        return Failure(SubmissionNotFound);
      }
      var s := submissions[submissionId];
      if s.assignmentId !in assignments {
        return Failure(AssignmentNotFound);
      }
      var a := assignments[s.assignmentId];
      if score < 0.0 || score > a.maxPoints {
        return Failure(ScoreOutOfRange);
      }
      var adjusted := ApplyPenalty(score, s.lateness.daysLate, a.latePolicy);
      var g := Grade(newId, submissionId, s.studentId, a.id, score, adjusted, feedback, Draft, gradedBy);
      var invalid := ValidateGrade(g);
      if invalid.Some? {
        return Failure(invalid.value);
      }
      invalid := ValidateScore(g, a.maxPoints);
      if invalid.Some? {
        return Failure(invalid.value);
      }
      if newId in grades || Steps.HasGrade(grades, submissionId) {
        return Failure(KeyTaken);
      }
      grades := grades[newId := g];
      s := s.(status := Graded);
      if marked {
        submissions := submissions[submissionId := s];
      }
      return Success(g);
    }

    method UpdateGrade(id: string, score: real, feedback: string) returns (r: Result<Grade, Error>)
      requires Valid()
      modifies this`grades
      ensures Valid()
      ensures (Model(), r) == Steps.UpdateGrade(old(Model()), id, score, feedback)
    {
      Steps.UpdateGradeKeeps(Model(), id, score, feedback);
      if id !in grades {
        return Failure(GradeNotFound);
      }
      var g := grades[id];
      if !g.status.Draft? {
        return Failure(NotDraft);
      }
      if g.submissionId !in submissions {
        return Failure(SubmissionNotFound);
      }
      var s := submissions[g.submissionId];
      if s.assignmentId !in assignments {
        return Failure(AssignmentNotFound);
      }
      var a := assignments[s.assignmentId];
      if score < 0.0 || score > a.maxPoints {
        return Failure(ScoreOutOfRange);
      }
      g := g.(score := score);
      g := g.(adjustedScore := ApplyPenalty(score, s.lateness.daysLate, a.latePolicy));
      g := g.(feedback := feedback);
      grades := grades[id := g];
      return Success(g);
    }

    method PublishGrade(id: string, now: int, marked: bool) returns (r: Result<Grade, Error>)
      requires Valid()
      modifies this`submissions, this`grades
      ensures Valid()
      ensures (Model(), r) == Steps.PublishGrade(old(Model()), id, now, marked)
    {
      Steps.PublishGradeKeeps(Model(), id, now, marked);
      if id !in grades {
        return Failure(GradeNotFound);
      }
      var g := grades[id];
      if g.status.Published? {
        return Failure(AlreadyPublished);
      }
      g := g.(status := Published(now));
      grades := grades[id := g];
      if g.submissionId in submissions && marked {
        submissions := submissions[g.submissionId := submissions[g.submissionId].(status := Returned)];
      }
      return Success(g);
    }
  }
}
