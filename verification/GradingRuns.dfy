/** What every run of the grading services keeps. */
module GradingRuns {
  import opened Wrappers
  import opened LatePolicies
  import opened GradingModels
  import opened GradingSteps

  datatype Event =
    | CreateAssignmentCall(a: Assignment)
    | UpdateAssignmentCall(edit: Assignment)
    | DeleteAssignmentCall(id: string)
    | SubmitCall(assignmentId: string, studentId: string, saved: Option<string>, cleaned: bool, newId: string, now: int)
    | CreateGradeCall(newId: string, submissionId: string, score: real, feedback: string, gradedBy: string, marked: bool)
    | UpdateGradeCall(gradeId: string, score: real, feedback: string)
    | PublishGradeCall(gradeId: string, now: int, marked: bool)

  /** Storage names every file it saves afresh. */
  predicate Possible(db: Db, e: Event) {
    e.SubmitCall? && e.saved.Some? ==> e.saved.value !in db.files
  }

  /** The new data, and the error if there is one. */
  function Plain<T>(result: (Db, Result<T, Error>)): (Db, Option<Error>) {
    (result.0, if result.1.Failure? then Some(result.1.error) else None)
  }

  ghost function Step(db: Db, e: Event): (Db, Option<Error>) {
    match e
    case CreateAssignmentCall(a) => Plain(CreateAssignment(db, a))
    case UpdateAssignmentCall(edit) => Plain(UpdateAssignment(db, edit))
    case DeleteAssignmentCall(id) => Plain(DeleteAssignment(db, id))
    case SubmitCall(aid, student, saved, cleaned, newId, now) => Plain(SubmitAssignment(db, aid, student, saved, cleaned, newId, now))
    case CreateGradeCall(newId, sid, score, feedback, teacher, marked) =>
      Plain(CreateGrade(db, newId, sid, score, feedback, teacher, marked))
    case UpdateGradeCall(id, score, feedback) => Plain(UpdateGrade(db, id, score, feedback))
    case PublishGradeCall(id, now, marked) => Plain(PublishGrade(db, id, now, marked))
  }

  ghost predicate IsRun(events: seq<Event>)
    decreases |events|, 0
  {
    events == [] ||
    (var n := |events| - 1;
     IsRun(events[..n]) && Possible(After(events[..n]), events[n]))
  }

  ghost function After(events: seq<Event>): Db
    requires IsRun(events)
    decreases |events|, 1
  {
    if events == [] then EMPTY
    else
      var n := |events| - 1;
      Step(After(events[..n]), events[n]).0
  }

  /** The files an event leaves behind if it fails. */
  function LeftBehind(db: Db, e: Event): set<string> {
    if e.SubmitCall? then Leftover(db, e.assignmentId, e.saved, e.cleaned) else {}
  }

  /** An operation that fails changes nothing, but for a saved file that cannot be deleted. */
  lemma FailureChangesNothing(db: Db, e: Event)
    requires Possible(db, e) && Step(db, e).1.Some?
    ensures Step(db, e).0 == db.(files := db.files + LeftBehind(db, e))
  {
    if e.SubmitCall? {
      FailedSubmitUndoesItself(db, e.assignmentId, e.studentId, e.saved, e.cleaned, e.newId, e.now);
    } else {
      assert db.files + {} == db.files;
    }
  }

  lemma StepKeeps(db: Db, e: Event)
    requires Consistent(db) && Possible(db, e)
    ensures Consistent(Step(db, e).0)
  {
    match e
    case CreateAssignmentCall(a) => CreateAssignmentKeeps(db, a);
    case UpdateAssignmentCall(edit) => UpdateAssignmentKeeps(db, edit);
    case DeleteAssignmentCall(id) => DeleteAssignmentKeeps(db, id);
    case SubmitCall(aid, student, saved, cleaned, newId, now) => SubmitKeeps(db, aid, student, saved, cleaned, newId, now);
    case CreateGradeCall(newId, sid, score, feedback, teacher, marked) =>
      CreateGradeKeeps(db, newId, sid, score, feedback, teacher, marked);
    case UpdateGradeCall(id, score, feedback) => UpdateGradeKeeps(db, id, score, feedback);
    case PublishGradeCall(id, now, marked) => PublishGradeKeeps(db, id, now, marked);
  }

  /** In every reachable state: ids and references agree, one submission per student and assignment,
      one grade per submission, and 0 <= adjusted score <= score <= the assignment's present maximum. */
  lemma {:induction false} EveryStateConsistent(events: seq<Event>)
    requires IsRun(events)
    ensures Consistent(After(events))
  {
    if events == [] {
    } else {
      var n := |events| - 1;
      EveryStateConsistent(events[..n]);
      StepKeeps(After(events[..n]), events[n]);
    }
  }

  // ---------- grades come and go ----------

  /** The grade stays, unchanged if it is published. */
  predicate Spares(db: Db, db': Db, gid: string) {
    && gid in db.grades && gid in db'.grades
    && (db.grades[gid].status.Published? ==> db'.grades[gid] == db.grades[gid])
  }

  lemma CreateAssignmentSpares(db: Db, a: Assignment, gid: string)
    requires gid in db.grades
    ensures Spares(db, CreateAssignment(db, a).0, gid)
  {
  }

  lemma UpdateAssignmentSpares(db: Db, edit: Assignment, gid: string)
    requires gid in db.grades
    ensures Spares(db, UpdateAssignment(db, edit).0, gid)
  {
  }

  lemma DeleteAssignmentSpares(db: Db, id: string, gid: string)
    requires gid in db.grades && Sits(db.grades[gid], gid, db)
    ensures if id == db.grades[gid].assignmentId then gid !in DeleteAssignment(db, id).0.grades
      else Spares(db, DeleteAssignment(db, id).0, gid)
  {
  }

  lemma CreateGradeSpares(
    db: Db, newId: string, sid: string, score: real, feedback: string, teacher: string, marked: bool, gid: string)
    requires gid in db.grades
    ensures Spares(db, CreateGrade(db, newId, sid, score, feedback, teacher, marked).0, gid)
  {
  }

  lemma UpdateGradeSpares(db: Db, id: string, score: real, feedback: string, gid: string)
    requires gid in db.grades
    ensures Spares(db, UpdateGrade(db, id, score, feedback).0, gid)
  {
  }

  lemma PublishGradeSpares(db: Db, id: string, now: int, marked: bool, gid: string)
    requires gid in db.grades
    ensures Spares(db, PublishGrade(db, id, now, marked).0, gid)
  {
  }

  lemma SubmitSparesGrades(
    db: Db, assignmentId: string, studentId: string, saved: Option<string>, cleaned: bool, newId: string, now: int)
    ensures SubmitAssignment(db, assignmentId, studentId, saved, cleaned, newId, now).0.grades == db.grades
  {
  }

  lemma StepSpares(db: Db, e: Event, gid: string)
    requires gid in db.grades && Sits(db.grades[gid], gid, db)
    requires e != DeleteAssignmentCall(db.grades[gid].assignmentId)
    ensures Spares(db, Step(db, e).0, gid)
  {
    match e
    case CreateAssignmentCall(a) => CreateAssignmentSpares(db, a, gid);
    case UpdateAssignmentCall(edit) => UpdateAssignmentSpares(db, edit, gid);
    case DeleteAssignmentCall(id) => DeleteAssignmentSpares(db, id, gid);
    case SubmitCall(aid, student, saved, cleaned, newId, now) => SubmitSparesGrades(db, aid, student, saved, cleaned, newId, now);
    case CreateGradeCall(newId, sid, score, feedback, teacher, marked) =>
      CreateGradeSpares(db, newId, sid, score, feedback, teacher, marked, gid);
    case UpdateGradeCall(id, score, feedback) => UpdateGradeSpares(db, id, score, feedback, gid);
    case PublishGradeCall(id, now, marked) => PublishGradeSpares(db, id, now, marked, gid);
  }

  /** A grade disappears exactly when its assignment is deleted. */
  lemma GradeGoesWithItsAssignment(db: Db, e: Event, gid: string)
    requires Consistent(db) && gid in db.grades
    ensures gid !in Step(db, e).0.grades <==> e == DeleteAssignmentCall(db.grades[gid].assignmentId)
  {
    assert Sits(db.grades[gid], gid, db);
    if e == DeleteAssignmentCall(db.grades[gid].assignmentId) {
      DeleteAssignmentSpares(db, e.id, gid);
    } else {
      StepSpares(db, e, gid);
    }
  }

  lemma PublishedStays(db: Db, e: Event, gid: string)
    requires Consistent(db) && gid in db.grades && db.grades[gid].status.Published?
    requires e != DeleteAssignmentCall(db.grades[gid].assignmentId)
    ensures gid in Step(db, e).0.grades && Step(db, e).0.grades[gid] == db.grades[gid]
  {
    assert Sits(db.grades[gid], gid, db);
    StepSpares(db, e, gid);
  }

  predicate NeverDeletes(events: seq<Event>, assignmentId: string) {
    forall i :: 0 <= i < |events| ==> events[i] != DeleteAssignmentCall(assignmentId)
  }

  lemma SplitRun(events: seq<Event>, later: seq<Event>)
    requires later != []
    ensures (events + later)[..|events + later| - 1] == events + later[..|later| - 1]
    ensures (events + later)[|events + later| - 1] == later[|later| - 1]
  {
  }

  /** Once published, a grade never changes again in any run in which its assignment is not deleted. */
  lemma {:induction false} PublishedIsFinal(events: seq<Event>, later: seq<Event>, gid: string)
    requires IsRun(events) && IsRun(events + later)
    requires gid in After(events).grades && After(events).grades[gid].status.Published?
    requires NeverDeletes(later, After(events).grades[gid].assignmentId)
    ensures gid in After(events + later).grades && After(events + later).grades[gid] == After(events).grades[gid]
    decreases |later|
  {
    if later == [] {
      assert events + later == events;
    } else {
      var before := later[..|later| - 1];
      SplitRun(events, later);
      PublishedIsFinal(events, before, gid);
      EveryStateConsistent(events + before);
      PublishedStays(After(events + before), later[|later| - 1], gid);
    }
  }

  // ---------- assignments freeze ----------

  /** The submission keeps its owner, and its assignment keeps everything. */
  predicate WorkStays(db: Db, db': Db, sid: string) {
    && sid in db.submissions && sid in db'.submissions && SameWork(db'.submissions[sid], db.submissions[sid])
    && (var aid := db.submissions[sid].assignmentId;
        aid in db.assignments && aid in db'.assignments && db'.assignments[aid] == db.assignments[aid])
  }

  lemma AssignmentCallSparesWork(db: Db, e: Event, sid: string)
    requires sid in db.submissions && Fits(db.submissions[sid], sid, db)
    requires e.CreateAssignmentCall? || e.UpdateAssignmentCall? || e.DeleteAssignmentCall?
    requires e != DeleteAssignmentCall(db.submissions[sid].assignmentId)
    ensures WorkStays(db, Step(db, e).0, sid)
  {
  }

  lemma GradeCallSparesWork(db: Db, e: Event, sid: string)
    requires sid in db.submissions && Fits(db.submissions[sid], sid, db)
    requires e.CreateGradeCall? || e.UpdateGradeCall? || e.PublishGradeCall?
    ensures WorkStays(db, Step(db, e).0, sid)
  {
  }

  lemma SubmitSparesWork(db: Db, e: Event, sid: string)
    requires Consistent(db) && Possible(db, e) && sid in db.submissions && e.SubmitCall?
    ensures WorkStays(db, Step(db, e).0, sid)
  {
    assert Fits(db.submissions[sid], sid, db);
    if Step(db, e).1.Some? {
      FailureChangesNothing(db, e);
    } else {
      SubmitStores(db, e.assignmentId, e.studentId, e.saved, e.cleaned, e.newId, e.now);
    }
  }

  lemma AssignmentWithWorkStays(db: Db, e: Event, sid: string)
    requires Consistent(db) && Possible(db, e) && sid in db.submissions
    requires e != DeleteAssignmentCall(db.submissions[sid].assignmentId)
    ensures WorkStays(db, Step(db, e).0, sid)
  {
    assert Fits(db.submissions[sid], sid, db);
    if e.SubmitCall? {
      SubmitSparesWork(db, e, sid);
    } else if e.CreateGradeCall? || e.UpdateGradeCall? || e.PublishGradeCall? {
      GradeCallSparesWork(db, e, sid);
    } else {
      AssignmentCallSparesWork(db, e, sid);
    }
  }

  /** From its first submission on, an assignment keeps its points, due date and policy until it is deleted. */
  lemma {:induction false} AssignmentFrozenByWork(events: seq<Event>, later: seq<Event>, sid: string)
    requires IsRun(events) && IsRun(events + later)
    requires sid in After(events).submissions
    requires NeverDeletes(later, After(events).submissions[sid].assignmentId)
    ensures WorkStays(After(events), After(events + later), sid)
    decreases |later|
  {
    if later == [] {
      assert events + later == events;
      EveryStateConsistent(events);
      assert Fits(After(events).submissions[sid], sid, After(events));
    } else {
      var before := later[..|later| - 1];
      SplitRun(events, later);
      AssignmentFrozenByWork(events, before, sid);
      EveryStateConsistent(events + before);
      AssignmentWithWorkStays(After(events + before), later[|later| - 1], sid);
    }
  }

  // ---------- adjusted scores and resubmission ----------

  /** The adjusted score is what the present lateness of the submission makes of the score. */
  predicate Current(db: Db, gid: string)
    requires gid in db.grades && Sits(db.grades[gid], gid, db)
  {
    var g := db.grades[gid];
    g.adjustedScore == ApplyPenalty(g.score, db.submissions[g.submissionId].lateness.daysLate, db.assignments[g.assignmentId].latePolicy)
  }

  predicate AllCurrent(db: Db) {
    forall gid :: gid in db.grades && Sits(db.grades[gid], gid, db) ==> Current(db, gid)
  }

  /** A grade left alone stays current while its submission's lateness does. */
  lemma CurrentStays(db: Db, db': Db, gid: string)
    requires gid in db.grades && Sits(db.grades[gid], gid, db) && Current(db, gid)
    requires gid in db'.grades && Sits(db'.grades[gid], gid, db')
    requires WorkStays(db, db', db.grades[gid].submissionId)
    requires db'.grades[gid].(status := Draft) == db.grades[gid].(status := Draft)
    requires db'.submissions[db.grades[gid].submissionId].lateness == db.submissions[db.grades[gid].submissionId].lateness
    ensures Current(db', gid)
  {
  }

  /** The event hands in the graded work again. */
  predicate Resubmits(db: Db, e: Event, gid: string) {
    && e.SubmitCall? && gid in db.grades
    && db.grades[gid].assignmentId == e.assignmentId && db.grades[gid].studentId == e.studentId
  }

  /** The percentages that the lateness on record takes, and that of a submission made now. */
  function PercentBefore(db: Db, gid: string): real
    requires gid in db.grades && Sits(db.grades[gid], gid, db)
  {
    EffectivePercent(db.submissions[db.grades[gid].submissionId].lateness.daysLate, db.assignments[db.grades[gid].assignmentId].latePolicy)
  }

  function PercentNow(db: Db, gid: string, now: int): real
    requires gid in db.grades && Sits(db.grades[gid], gid, db)
  {
    var a := db.assignments[db.grades[gid].assignmentId];
    EffectivePercent(CalculatePenalty(now, a.dueDate, a.latePolicy).daysLate, a.latePolicy)
  }

  /** A score is at stake and the percentage changes. */
  predicate ChangesPenalty(db: Db, e: Event, gid: string) {
    && Resubmits(db, e, gid) && Sits(db.grades[gid], gid, db)
    && db.grades[gid].score != 0.0 && PercentBefore(db, gid) != PercentNow(db, gid, e.now)
  }

  lemma ResubmissionReplaces(db: Db, e: Event, gid: string)
    requires Consistent(db) && Possible(db, e) && Resubmits(db, e, gid) && Step(db, e).1.None?
    ensures var (g, db') := (db.grades[gid], Step(db, e).0);
      && db'.grades == db.grades && db'.assignments == db.assignments
      && Sits(g, gid, db) && Sits(g, gid, db')
      && db'.submissions[g.submissionId].lateness
        == CalculatePenalty(e.now, db.assignments[g.assignmentId].dueDate, db.assignments[g.assignmentId].latePolicy)
  {
    var g := db.grades[gid];
    SubmitStores(db, e.assignmentId, e.studentId, e.saved, e.cleaned, e.newId, e.now);
    assert Sits(g, gid, db);
    SubmitSparesWork(db, e, g.submissionId);
    SitsStays(g, gid, db, Step(db, e).0);
  }

  /** A resubmission keeps a current score current exactly when the score is nothing or the new
      lateness takes the percentage that the old one took. */
  lemma ResubmissionKeepsCurrentExactly(db: Db, e: Event, gid: string)
    requires Consistent(db) && Possible(db, e) && Resubmits(db, e, gid) && Step(db, e).1.None?
    requires Sits(db.grades[gid], gid, db) && Current(db, gid)
    ensures gid in Step(db, e).0.grades && Sits(Step(db, e).0.grades[gid], gid, Step(db, e).0)
    ensures Current(Step(db, e).0, gid)
      <==> (db.grades[gid].score == 0.0 || PercentBefore(db, gid) == PercentNow(db, gid, e.now))
  {
    var g := db.grades[gid];
    var (s, a) := (db.submissions[g.submissionId], db.assignments[g.assignmentId]);
    ResubmissionReplaces(db, e, gid);
    assert Fits(s, g.submissionId, db) && ValidateAssignment(a).None?;
    SamePenaltyExactly(g.score, s.lateness.daysLate, CalculatePenalty(e.now, a.dueDate, a.latePolicy).daysLate, a.latePolicy);
  }

  /** Handing in other work leaves the grade's submission alone. */
  lemma OtherSubmitKeepsCurrent(db: Db, e: Event, gid: string)
    requires Consistent(db) && Possible(db, e) && e.SubmitCall? && !Resubmits(db, e, gid) && Step(db, e).1.None?
    requires gid in db.grades && Sits(db.grades[gid], gid, db) && Current(db, gid)
    requires gid in Step(db, e).0.grades && Sits(Step(db, e).0.grades[gid], gid, Step(db, e).0)
    ensures Current(Step(db, e).0, gid)
  {
    SubmitStores(db, e.assignmentId, e.studentId, e.saved, e.cleaned, e.newId, e.now);
    SubmitSparesWork(db, e, db.grades[gid].submissionId);
    CurrentStays(db, Step(db, e).0, gid);
  }

  lemma SubmitKeepsCurrent(db: Db, e: Event, gid: string)
    requires Consistent(db) && Possible(db, e) && e.SubmitCall? && AllCurrent(db)
    requires !(Step(db, e).1.None? && ChangesPenalty(db, e, gid))
    requires gid in Step(db, e).0.grades && Sits(Step(db, e).0.grades[gid], gid, Step(db, e).0)
    ensures Current(Step(db, e).0, gid)
  {
    SubmitSparesGrades(db, e.assignmentId, e.studentId, e.saved, e.cleaned, e.newId, e.now);
    assert Sits(db.grades[gid], gid, db) && Current(db, gid);
    if Step(db, e).1.Some? {
      FailureChangesNothing(db, e);
    } else if Resubmits(db, e, gid) {
      ResubmissionKeepsCurrentExactly(db, e, gid);
    } else {
      OtherSubmitKeepsCurrent(db, e, gid);
    }
  }

  /** A call about an assignment leaves the rows it keeps as they were. */
  predicate KeepsRows(db: Db, db': Db, gid: string) {
    gid in db'.grades ==>
      && gid in db.grades && db'.grades[gid] == db.grades[gid]
      && (var sid := db.grades[gid].submissionId;
          sid in db'.submissions ==> sid in db.submissions && db'.submissions[sid] == db.submissions[sid])
  }

  lemma CreateAssignmentKeepsRows(db: Db, a: Assignment, gid: string)
    ensures KeepsRows(db, CreateAssignment(db, a).0, gid)
  {
  }

  lemma UpdateAssignmentKeepsRows(db: Db, edit: Assignment, gid: string)
    ensures KeepsRows(db, UpdateAssignment(db, edit).0, gid)
  {
  }

  lemma DeleteAssignmentKeepsRows(db: Db, id: string, gid: string)
    ensures KeepsRows(db, DeleteAssignment(db, id).0, gid)
  {
  }

  lemma AssignmentCallKeepsRows(db: Db, e: Event, gid: string)
    requires e.CreateAssignmentCall? || e.UpdateAssignmentCall? || e.DeleteAssignmentCall?
    ensures KeepsRows(db, Step(db, e).0, gid)
  {
    match e
    case CreateAssignmentCall(a) => CreateAssignmentKeepsRows(db, a, gid);
    case UpdateAssignmentCall(edit) => UpdateAssignmentKeepsRows(db, edit, gid);
    case DeleteAssignmentCall(id) => DeleteAssignmentKeepsRows(db, id, gid);
  }

  lemma AssignmentCallKeepsCurrent(db: Db, e: Event, gid: string)
    requires Consistent(db) && AllCurrent(db)
    requires e.CreateAssignmentCall? || e.UpdateAssignmentCall? || e.DeleteAssignmentCall?
    requires gid in Step(db, e).0.grades && Sits(Step(db, e).0.grades[gid], gid, Step(db, e).0)
    ensures Current(Step(db, e).0, gid)
  {
    AssignmentCallKeepsRows(db, e, gid);
    assert Sits(db.grades[gid], gid, db) && Current(db, gid);
    GradeGoesWithItsAssignment(db, e, gid);
    assert Fits(db.submissions[db.grades[gid].submissionId], db.grades[gid].submissionId, db);
    AssignmentCallSparesWork(db, e, db.grades[gid].submissionId);
    CurrentStays(db, Step(db, e).0, gid);
  }

  lemma NewGradeIsCurrent(db: Db, e: Event)
    requires Consistent(db) && e.CreateGradeCall? && Step(db, e).1.None?
    requires e.newId in Step(db, e).0.grades && Sits(Step(db, e).0.grades[e.newId], e.newId, Step(db, e).0)
    ensures Current(Step(db, e).0, e.newId)
  {
  }

  lemma ChangedGradeIsCurrent(db: Db, e: Event)
    requires Consistent(db) && e.UpdateGradeCall? && Step(db, e).1.None?
    requires e.gradeId in Step(db, e).0.grades && Sits(Step(db, e).0.grades[e.gradeId], e.gradeId, Step(db, e).0)
    ensures Current(Step(db, e).0, e.gradeId)
  {
  }

  lemma GradeCallSparesLateness(db: Db, e: Event, sid: string)
    requires sid in db.submissions
    requires e.CreateGradeCall? || e.UpdateGradeCall? || e.PublishGradeCall?
    ensures sid in Step(db, e).0.submissions && Step(db, e).0.submissions[sid].lateness == db.submissions[sid].lateness
  {
  }

  lemma GradeCallSparesOthers(db: Db, e: Event, gid: string)
    requires e.CreateGradeCall? || e.UpdateGradeCall? || e.PublishGradeCall?
    requires gid in Step(db, e).0.grades
    requires !(e.CreateGradeCall? && e.newId == gid) && !(e.UpdateGradeCall? && e.gradeId == gid)
    ensures gid in db.grades && Step(db, e).0.grades[gid].(status := Draft) == db.grades[gid].(status := Draft)
  {
  }

  /** A grade just given or changed is current, and the others are left alone. */
  lemma GradeCallKeepsCurrent(db: Db, e: Event, gid: string)
    requires Consistent(db) && Possible(db, e) && AllCurrent(db)
    requires e.CreateGradeCall? || e.UpdateGradeCall? || e.PublishGradeCall?
    requires gid in Step(db, e).0.grades && Sits(Step(db, e).0.grades[gid], gid, Step(db, e).0)
    ensures Current(Step(db, e).0, gid)
  {
    if Step(db, e).1.Some? {
      FailureChangesNothing(db, e);
    } else if e.CreateGradeCall? && e.newId == gid {
      NewGradeIsCurrent(db, e);
    } else if e.UpdateGradeCall? && e.gradeId == gid {
      ChangedGradeIsCurrent(db, e);
    } else {
      GradeCallSparesOthers(db, e, gid);
      var sid := db.grades[gid].submissionId;
      assert Sits(db.grades[gid], gid, db) && Current(db, gid);
      assert Fits(db.submissions[sid], sid, db);
      GradeCallSparesWork(db, e, sid);
      GradeCallSparesLateness(db, e, sid);
      CurrentStays(db, Step(db, e).0, gid);
    }
  }

  /** The event succeeds in replacing graded work by work that is to lose another percentage. */
  ghost predicate Disturbs(db: Db, e: Event) {
    Step(db, e).1.None? && exists gid :: ChangesPenalty(db, e, gid)
  }

  lemma UndisturbedStaysCurrent(db: Db, e: Event)
    requires Consistent(db) && Possible(db, e) && !Disturbs(db, e) && AllCurrent(db)
    ensures AllCurrent(Step(db, e).0)
  {
    var db' := Step(db, e).0;
    forall gid | gid in db'.grades && Sits(db'.grades[gid], gid, db') ensures Current(db', gid) {
      if e.SubmitCall? {
        SubmitKeepsCurrent(db, e, gid);
      } else if e.CreateGradeCall? || e.UpdateGradeCall? || e.PublishGradeCall? {
        GradeCallKeepsCurrent(db, e, gid);
      } else {
        AssignmentCallKeepsCurrent(db, e, gid);
      }
    }
  }

  /** From a state in which every adjusted score is current, exactly the disturbing events lead to
      one in which some score is not. */
  lemma StepKeepsCurrentExactly(db: Db, e: Event)
    requires Consistent(db) && Possible(db, e) && AllCurrent(db)
    ensures AllCurrent(Step(db, e).0) <==> !Disturbs(db, e)
  {
    if Disturbs(db, e) {
      var gid :| ChangesPenalty(db, e, gid);
      ResubmissionKeepsCurrentExactly(db, e, gid);
    } else {
      UndisturbedStaysCurrent(db, e);
    }
  }

  ghost predicate NeverDisturbs(events: seq<Event>)
    requires IsRun(events)
    decreases |events|
  {
    events == [] ||
    (var n := |events| - 1;
     NeverDisturbs(events[..n]) && !Disturbs(After(events[..n]), events[n]))
  }

  /** Every adjusted score is current after every event of the run. */
  ghost predicate AlwaysCurrent(events: seq<Event>)
    requires IsRun(events)
    decreases |events|
  {
    AllCurrent(After(events)) && (events == [] || AlwaysCurrent(events[..|events| - 1]))
  }

  /** In every run: adjusted scores are current throughout exactly when no resubmission changes the
      percentage that a graded score loses. */
  lemma {:induction false} AdjustedScoresAreCurrentExactly(events: seq<Event>)
    requires IsRun(events)
    ensures AlwaysCurrent(events) <==> NeverDisturbs(events)
  {
    if events == [] {
    } else {
      var n := |events| - 1;
      AdjustedScoresAreCurrentExactly(events[..n]);
      EveryStateConsistent(events[..n]);
      if AlwaysCurrent(events[..n]) {
        StepKeepsCurrentExactly(After(events[..n]), events[n]);
      }
    }
  }

  lemma AdjustedScoresAreCurrent(events: seq<Event>)
    requires IsRun(events) && NeverDisturbs(events)
    ensures AllCurrent(After(events))
  {
    AdjustedScoresAreCurrentExactly(events);
  }

  lemma Extend(events: seq<Event>, e: Event)
    requires IsRun(events) && Possible(After(events), e)
    ensures IsRun(events + [e]) && After(events + [e]) == Step(After(events), e).0
  {
  }

  lemma LateIsPunished(score: real, submittedAt: int, dueDate: int, policy: LatePolicy)
    requires score > 0.0 && policy.Valid() && policy.AllowsLate() && policy.penaltyPercentPerDay > 0
    requires submittedAt > dueDate
    ensures Adjusted(score, submittedAt, dueDate, policy) < score
  {
  }

  /** Handing in again late, after on-time work was graded, leaves the full score standing. */
  lemma LateResubmissionGoesUnpunished(db: Db, e: Event, gid: string)
    requires Consistent(db) && Possible(db, e) && Resubmits(db, e, gid) && Step(db, e).1.None?
    requires Sits(db.grades[gid], gid, db)
    requires var (g, a) := (db.grades[gid], db.assignments[db.grades[gid].assignmentId]);
      && g.adjustedScore == g.score > 0.0
      && e.now > a.dueDate && a.latePolicy.AllowsLate() && a.latePolicy.penaltyPercentPerDay > 0
    ensures var db' := Step(db, e).0;
      gid in db'.grades && db'.grades[gid] == db.grades[gid] && Sits(db'.grades[gid], gid, db') && !Current(db', gid)
  {
    var g := db.grades[gid];
    var a := db.assignments[g.assignmentId];
    ResubmissionReplaces(db, e, gid);
    assert ValidateAssignment(a).None?;
    LateIsPunished(g.score, e.now, a.dueDate, a.latePolicy);
  }

  const PAPER := Assignment("a", "c", "Paper", "", 100.0, 10, LatePolicy(10, 3))

  const ON_TIME := SubmitCall("a", "s", Some("f"), true, "w", 5)
  const GRADING := CreateGradeCall("g", "w", 100.0, "", "teacher", true)
  const AGAIN := SubmitCall("a", "s", Some("h"), true, "v", 11)

  lemma GradedOnTime() returns (events: seq<Event>)
    ensures IsRun(events) && After(events).assignments == map["a" := PAPER] && After(events).files == {"f"}
    ensures After(events).grades == map["g" := Grade("g", "w", "s", "a", 100.0, 100.0, "", Draft, "teacher")]
  {
    Extend([], CreateAssignmentCall(PAPER));
    var one := [] + [CreateAssignmentCall(PAPER)];
    assert After(one).assignments == map["a" := PAPER];
    Extend(one, ON_TIME);
    var two := one + [ON_TIME];
    assert After(two).submissions == map["w" := Submission("w", "a", "s", "f", 5, Submitted, Lateness(false, 0))];
    Extend(two, GRADING);
    events := two + [GRADING];
  }

  /** It happens: handed in on time, graded in full, then replaced a moment after the due date. */
  lemma StaleScoreIsReachable() returns (events: seq<Event>)
    ensures IsRun(events) && "g" in After(events).grades && Sits(After(events).grades["g"], "g", After(events))
    ensures After(events).grades["g"].adjustedScore == 100.0 && !Current(After(events), "g")
  {
    var graded := GradedOnTime();
    EveryStateConsistent(graded);
    assert Sits(After(graded).grades["g"], "g", After(graded));
    assert Owns(After(graded).submissions, "w", "a", "s");
    Extend(graded, AGAIN);
    events := graded + [AGAIN];
    LateResubmissionGoesUnpunished(After(graded), AGAIN, "g");
  }
}
