/** When each grading operation succeeds, and what exactly it changes. */
module GradingLaws {
  import opened Wrappers
  import opened LatePolicies
  import opened GradingModels
  import opened GradingSteps

  // ---------- what stays ----------

  predicate SameRow<T(==)>(before: map<string, T>, after: map<string, T>, id: string) {
    (id in before <==> id in after) && (id in before && id in after ==> before[id] == after[id])
  }

  /** At most this row differs. */
  ghost predicate OnlyRow<T(!new)>(before: map<string, T>, after: map<string, T>, id: string) {
    forall k :: k != id ==> SameRow(before, after, k)
  }

  /** The submission takes the status if it can be written, and nothing else about submissions changes. */
  ghost predicate OnlyStatus(db: Db, db': Db, sid: string, status: SubmissionStatus, marked: bool) {
    && sid in db.submissions && sid in db'.submissions && OnlyRow(db.submissions, db'.submissions, sid)
    && db'.submissions[sid].status == (if marked then status else db.submissions[sid].status)
    && db'.submissions[sid].(status := db.submissions[sid].status) == db.submissions[sid]
  }

  lemma StatusIsWritten(db: Db, db': Db, sid: string, status: SubmissionStatus, marked: bool)
    requires sid in db.submissions && db'.submissions == WithStatus(db.submissions, sid, status, marked)
    ensures OnlyStatus(db, db', sid, status, marked)
  {
  }

  predicate OnlyGradesAndStatus(db: Db, db': Db) {
    db'.assignments == db.assignments && db'.files == db.files
  }

  // ---------- publishing ----------

  predicate IsDraft(db: Db, id: string) {
    id in db.grades && db.grades[id].status == Draft
  }

  /** The stored grade is published and otherwise as it was; its submission is returned. */
  ghost predicate IsPublished(db: Db, db': Db, id: string, now: int, marked: bool)
    requires id in db.grades
  {
    && id in db'.grades && db'.grades[id].status == Published(now) && db'.grades[id].(status := Draft) == db.grades[id]
    && OnlyRow(db.grades, db'.grades, id) && OnlyGradesAndStatus(db, db')
    && OnlyStatus(db, db', db.grades[id].submissionId, Returned, marked)
  }

  lemma PublishesDraft(db: Db, id: string, now: int, marked: bool)
    requires IsDraft(db, id) && db.grades[id].submissionId in db.submissions
    ensures var (db', r) := PublishGrade(db, id, now, marked);
      r.Success? && IsPublished(db, db', id, now, marked) && r.value == db'.grades[id]
  {
    StatusIsWritten(db, PublishGrade(db, id, now, marked).0, db.grades[id].submissionId, Returned, marked);
  }

  /** A publish succeeds exactly on a stored draft. */
  lemma PublishExactly(db: Db, id: string, now: int, marked: bool)
    requires Consistent(db)
    ensures var (db', r) := PublishGrade(db, id, now, marked);
      && (r.Success? <==> IsDraft(db, id))
      && (r == Failure(GradeNotFound) <==> id !in db.grades)
      && (r == Failure(AlreadyPublished) <==> id in db.grades && !IsDraft(db, id))
      && (r.Failure? ==> db' == db)
      && (r.Success? ==> IsPublished(db, db', id, now, marked) && r.value == db'.grades[id])
  {
    if IsDraft(db, id) {
      assert Sits(db.grades[id], id, db);
      PublishesDraft(db, id, now, marked);
    }
  }

  // ---------- giving and changing a grade ----------

  predicate InRange(score: real, a: Assignment) {
    0.0 <= score <= a.maxPoints
  }

  /** What a grade for this submission needs of the score, the names and the table. */
  predicate Gradable(db: Db, sid: string, score: real, gradedBy: string) {
    && sid in db.submissions && db.submissions[sid].assignmentId in db.assignments
    && InRange(score, db.assignments[db.submissions[sid].assignmentId])
    && sid != "" && db.submissions[sid].studentId != "" && db.submissions[sid].assignmentId != "" && gradedBy != ""
  }

  /** The id is free and the submission has no grade. */
  predicate Free(db: Db, newId: string, sid: string) {
    newId !in db.grades && forall gid :: gid in db.grades ==> db.grades[gid].submissionId != sid
  }

  /** The score after the penalty that the submission's own time takes. */
  function PenalisedScore(db: Db, sid: string, score: real): real
    requires sid in db.submissions && db.submissions[sid].assignmentId in db.assignments
  {
    var (s, a) := (db.submissions[sid], db.assignments[db.submissions[sid].assignmentId]);
    Adjusted(score, s.submittedAt, a.dueDate, a.latePolicy)
  }

  /** A grade is given exactly for a stored submission without one, with a score in range and every
      name present; it is a draft with the caller's score and feedback. */
  lemma CreateGradeSucceeds(db: Db, newId: string, sid: string, score: real, feedback: string, gradedBy: string, marked: bool)
    requires Consistent(db)
    ensures var r := CreateGrade(db, newId, sid, score, feedback, gradedBy, marked).1;
      && (r.Success? <==> Gradable(db, sid, score, gradedBy) && Free(db, newId, sid))
      && (r == Failure(SubmissionNotFound) <==> sid !in db.submissions)
      && (r == Failure(ScoreOutOfRange) <==>
        sid in db.submissions && !InRange(score, db.assignments[db.submissions[sid].assignmentId]))
      && (r == Failure(KeyTaken) <==> Gradable(db, sid, score, gradedBy) && !Free(db, newId, sid))
  {
    if sid in db.submissions {
      var s := db.submissions[sid];
      assert Fits(s, sid, db);
      var a := db.assignments[s.assignmentId];
      assert a.id == s.assignmentId && a.latePolicy.Valid();
      if InRange(score, a) {
        PenaltyStaysWithinScore(score, s.lateness.daysLate, a.latePolicy);
      }
    }
  }

  predicate AsGiven(g: Grade, db: Db, newId: string, sid: string, score: real, feedback: string, gradedBy: string)
    requires sid in db.submissions && db.submissions[sid].assignmentId in db.assignments
  {
    g == Grade(newId, sid, db.submissions[sid].studentId, db.submissions[sid].assignmentId,
      score, PenalisedScore(db, sid, score), feedback, Draft, gradedBy)
  }

  lemma NewGradeAsGiven(db: Db, newId: string, sid: string, score: real, feedback: string, gradedBy: string)
    requires sid in db.submissions && Fits(db.submissions[sid], sid, db)
    requires var aid := db.submissions[sid].assignmentId; aid in db.assignments && db.assignments[aid].id == aid
    ensures var s := db.submissions[sid];
      AsGiven(NewGrade(newId, sid, s, db.assignments[s.assignmentId], score, feedback, gradedBy), db, newId, sid, score, feedback, gradedBy)
  {
  }

  lemma CreateGradeStores(db: Db, newId: string, sid: string, score: real, feedback: string, gradedBy: string, marked: bool)
    requires Consistent(db) && CreateGrade(db, newId, sid, score, feedback, gradedBy, marked).1.Success?
    ensures sid in db.submissions && db.submissions[sid].assignmentId in db.assignments
    ensures var (db', r) := CreateGrade(db, newId, sid, score, feedback, gradedBy, marked);
      && newId in db'.grades && r.value == db'.grades[newId]
      && AsGiven(r.value, db, newId, sid, score, feedback, gradedBy)
  {
    assert Fits(db.submissions[sid], sid, db) && db.assignments[db.submissions[sid].assignmentId].id == db.submissions[sid].assignmentId;
    NewGradeAsGiven(db, newId, sid, score, feedback, gradedBy);
  }

  /** Besides, the submission counts as graded, and nothing else changes. */
  lemma CreateGradeSpares(db: Db, newId: string, sid: string, score: real, feedback: string, gradedBy: string, marked: bool)
    requires CreateGrade(db, newId, sid, score, feedback, gradedBy, marked).1.Success?
    ensures var db' := CreateGrade(db, newId, sid, score, feedback, gradedBy, marked).0;
      && OnlyRow(db.grades, db'.grades, newId) && OnlyGradesAndStatus(db, db')
      && OnlyStatus(db, db', sid, Graded, marked)
  {
    StatusIsWritten(db, CreateGrade(db, newId, sid, score, feedback, gradedBy, marked).0, sid, Graded, marked);
  }

  /** A change succeeds exactly on a stored draft with a score in range; the grade takes the caller's
      score and feedback and is otherwise as it was, and nothing else changes. */
  lemma UpdateGradeExactly(db: Db, id: string, score: real, feedback: string)
    requires Consistent(db)
    ensures id in db.grades ==>
      db.grades[id].submissionId in db.submissions && db.grades[id].assignmentId in db.assignments
      && db.submissions[db.grades[id].submissionId].assignmentId == db.grades[id].assignmentId
    ensures var (db', r) := UpdateGrade(db, id, score, feedback);
      && (r.Success? <==> IsDraft(db, id) && InRange(score, db.assignments[db.grades[id].assignmentId]))
      && (r == Failure(GradeNotFound) <==> id !in db.grades)
      && (r == Failure(NotDraft) <==> id in db.grades && !IsDraft(db, id))
      && (r.Failure? ==> db' == db)
      && (r.Success? ==>
        && id in db'.grades && r.value == db'.grades[id] && OnlyRow(db.grades, db'.grades, id)
        && db'.grades[id] == db.grades[id].(score := score, feedback := feedback,
          adjustedScore := PenalisedScore(db, db.grades[id].submissionId, score))
        && OnlyGradesAndStatus(db, db') && db'.submissions == db.submissions)
  {
    if id in db.grades {
      assert Sits(db.grades[id], id, db);
      assert Fits(db.submissions[db.grades[id].submissionId], db.grades[id].submissionId, db);
    }
  }

  // ---------- assignments ----------

  predicate OnlyAssignments(db: Db, db': Db) {
    db'.submissions == db.submissions && db'.grades == db.grades && db'.files == db.files
  }

  predicate WellFormed(a: Assignment) {
    && a.courseId != "" && 0 < |a.title| <= 500 && a.maxPoints > 0.0 && a.dueDate != 0
    && 0 <= a.latePolicy.penaltyPercentPerDay <= 100 && 0 <= a.latePolicy.maxLateDays
  }

  lemma CreateAssignmentExactly(db: Db, a: Assignment)
    ensures var (db', r) := CreateAssignment(db, a);
      && (r.Success? <==> WellFormed(a) && a.id !in db.assignments)
      && (r.Failure? ==> db' == db)
      && (r.Success? ==>
        && r.value == a && a.id in db'.assignments && db'.assignments[a.id] == a
        && OnlyRow(db.assignments, db'.assignments, a.id) && OnlyAssignments(db, db'))
  {
  }

  predicate HandedIn(db: Db, sid: string, assignmentId: string) {
    sid in db.submissions && db.submissions[sid].assignmentId == assignmentId
  }

  /** An update needs an assignment that nothing was handed in to; it leaves its course alone. */
  lemma UpdateAssignmentExactly(db: Db, edit: Assignment)
    ensures var (db', r) := UpdateAssignment(db, edit);
      && (r == Failure(HasSubmissions) <==> exists sid :: HandedIn(db, sid, edit.id))
      && (r.Success? <==>
        && edit.id in db.assignments && (forall sid :: !HandedIn(db, sid, edit.id))
        && WellFormed(edit.(courseId := db.assignments[edit.id].courseId)))
      && (r.Failure? ==> db' == db)
      && (r.Success? ==>
        && edit.id in db'.assignments && r.value == db'.assignments[edit.id]
        && r.value == edit.(id := db.assignments[edit.id].id, courseId := db.assignments[edit.id].courseId)
        && OnlyRow(db.assignments, db'.assignments, edit.id) && OnlyAssignments(db, db'))
  {
    forall sid ensures HandedIn(db, sid, edit.id) ==> HasWork(db.submissions, edit.id) {
    }
    if HasWork(db.submissions, edit.id) {
      var sid :| sid in db.submissions && db.submissions[sid].assignmentId == edit.id;
      assert HandedIn(db, sid, edit.id);
    }
  }

  /** A deletion takes the assignment, what was handed in to it and its grades, and nothing else. */
  lemma DeleteAssignmentExactly(db: Db, id: string)
    requires Consistent(db)
    ensures var (db', r) := DeleteAssignment(db, id);
      && (r.Success? <==> id in db.assignments) && (r.Failure? ==> db' == db)
      && (r.Success? ==> id !in db'.assignments && OnlyRow(db.assignments, db'.assignments, id) && db'.files == db.files)
      && (forall sid :: sid in db'.submissions <==> sid in db.submissions && db.submissions[sid].assignmentId != id)
      && (forall sid :: sid in db'.submissions && sid in db.submissions ==> db'.submissions[sid] == db.submissions[sid])
      && (forall gid :: gid in db'.grades <==> gid in db.grades && db.grades[gid].assignmentId != id)
      && (forall gid :: gid in db'.grades && gid in db.grades ==> db'.grades[gid] == db.grades[gid])
  {
    forall gid | gid in db.grades ensures Sits(db.grades[gid], gid, db) {
    }
    forall sid | sid in db.submissions ensures Fits(db.submissions[sid], sid, db) {
    }
  }

  // ---------- handing in ----------

  /** Work is accepted exactly for a stored assignment, with its file saved, the names and the time
      present, and either the student's earlier work to replace or a free id. */
  lemma SubmitSucceeds(
    db: Db, aid: string, studentId: string, saved: Option<string>, cleaned: bool, newId: string, now: int)
    ensures var r := SubmitAssignment(db, aid, studentId, saved, cleaned, newId, now).1;
      && (r == Failure(AssignmentNotFound) <==> aid !in db.assignments)
      && (r == Failure(FileNotSaved) <==> aid in db.assignments && saved.None?)
      && (r.Success? <==>
        && aid in db.assignments && saved.Some? && aid != "" && studentId != "" && saved.value != "" && now != 0
        && (newId !in db.submissions || exists sid :: Owns(db.submissions, sid, aid, studentId)))
  {
  }

  lemma OneOwner(
    db: Db, aid: string, studentId: string, saved: Option<string>, cleaned: bool, newId: string, now: int, sid: string)
    requires Consistent(db) && SubmitAssignment(db, aid, studentId, saved, cleaned, newId, now).1.Success?
    ensures var (db', r) := SubmitAssignment(db, aid, studentId, saved, cleaned, newId, now);
      Owns(db'.submissions, sid, aid, studentId) <==> sid == r.value.id
  {
    SubmitStores(db, aid, studentId, saved, cleaned, newId, now);
  }

  /** What is stored: the student's one submission to the assignment, under its old id if there was one. */
  lemma SubmitReplaces(
    db: Db, aid: string, studentId: string, saved: Option<string>, cleaned: bool, newId: string, now: int)
    requires SubmitAssignment(db, aid, studentId, saved, cleaned, newId, now).1.Success?
    ensures var (db', r) := SubmitAssignment(db, aid, studentId, saved, cleaned, newId, now);
      var s := r.value;
      && saved.Some? && aid in db.assignments
      && ((s.id == newId && newId !in db.submissions) || Owns(db.submissions, s.id, aid, studentId))
      && db'.submissions[s.id] == s && OnlyRow(db.submissions, db'.submissions, s.id)
      && s == Submission(s.id, aid, studentId, saved.value, now, Submitted,
        CalculatePenalty(now, db.assignments[aid].dueDate, db.assignments[aid].latePolicy))
      && db'.assignments == db.assignments && db'.grades == db.grades && db'.files == db.files + {saved.value}
  {
  }
}
