/** What each operation of the grading services does to the stored data (internal/service, internal/repository). */
module GradingSteps {
  import opened Wrappers
  import opened LatePolicies
  import opened GradingModels

  /** The three tables and the stored files. */
  datatype Db = Db(
    assignments: map<string, Assignment>, submissions: map<string, Submission>,
    grades: map<string, Grade>, files: set<string>)

  const EMPTY := Db(map[], map[], map[], {})

  // ---------- assignments ----------

  predicate HasWork(submissions: map<string, Submission>, assignmentId: string) {
    exists sid | sid in submissions :: submissions[sid].assignmentId == assignmentId
  }

  function CreateAssignment(db: Db, a: Assignment): (Db, Result<Assignment, Error>) {
    match ValidateAssignment(a)
    case Some(e) => (db, Failure(e))
    case None =>
      if a.id in db.assignments then (db, Failure(KeyTaken))
      else (db.(assignments := db.assignments[a.id := a]), Success(a))
  }

  /** The stored assignment with the fields an update may set. */
  function Edited(stored: Assignment, edit: Assignment): Assignment {
    stored.(title := edit.title, description := edit.description, maxPoints := edit.maxPoints,
            dueDate := edit.dueDate, latePolicy := edit.latePolicy)
  }

  function UpdateAssignment(db: Db, edit: Assignment): (Db, Result<Assignment, Error>) {
    if HasWork(db.submissions, edit.id) then (db, Failure(HasSubmissions))
    else if edit.id !in db.assignments then (db, Failure(AssignmentNotFound))
    else
      var a := Edited(db.assignments[edit.id], edit);
      match ValidateAssignment(a)
      case Some(e) => (db, Failure(e))
      case None => (db.(assignments := db.assignments[edit.id := a]), Success(a))
  }

  function WithoutSubmissions(submissions: map<string, Submission>, assignmentId: string): map<string, Submission> {
    map sid | sid in submissions && submissions[sid].assignmentId != assignmentId :: submissions[sid]
  }

  /** Grades go with their assignment, and with their submission. */
  function WithoutGrades(grades: map<string, Grade>, submissions: map<string, Submission>, assignmentId: string): map<string, Grade> {
    map gid |
      && gid in grades && grades[gid].assignmentId != assignmentId
      && !(grades[gid].submissionId in submissions && submissions[grades[gid].submissionId].assignmentId == assignmentId)
      :: grades[gid]
  }

  function DeleteAssignment(db: Db, id: string): (Db, Result<Assignment, Error>) {
    if id !in db.assignments then (db, Failure(AssignmentNotFound))
    else (Db(db.assignments - {id}, WithoutSubmissions(db.submissions, id),
             WithoutGrades(db.grades, db.submissions, id), db.files),
          Success(db.assignments[id]))
  }

  // ---------- submissions ----------

  predicate Owns(submissions: map<string, Submission>, sid: string, assignmentId: string, studentId: string) {
    sid in submissions && submissions[sid].assignmentId == assignmentId && submissions[sid].studentId == studentId
  }

  /** The row an insertion conflicts with: the student's submission to the assignment. */
  ghost function Owner(submissions: map<string, Submission>, assignmentId: string, studentId: string): (r: Option<string>)
    ensures r.Some? ==> Owns(submissions, r.value, assignmentId, studentId)
    ensures r.None? ==> forall sid :: !Owns(submissions, sid, assignmentId, studentId)
  {
    if exists sid :: Owns(submissions, sid, assignmentId, studentId)
    then var sid :| Owns(submissions, sid, assignmentId, studentId); Some(sid)
    else None
  }

  /** A submission as first built; saving its file gave its path. */
  function NewSubmission(
    newId: string, assignmentId: string, a: Assignment, studentId: string, path: string, now: int): Submission
  {
    Submission(newId, assignmentId, studentId, path, now, Submitted, CalculatePenalty(now, a.dueDate, a.latePolicy))
  }

  /** A submission whose file was saved under a path; cleaned: whether a file saved in vain can be
      deleted again, for the service goes on if it cannot. */
  ghost function SubmitAssignment(
    db: Db, assignmentId: string, studentId: string, saved: Option<string>, cleaned: bool, newId: string, now: int)
    : (Db, Result<Submission, Error>)
  {
    if assignmentId !in db.assignments then (db, Failure(AssignmentNotFound))
    else if saved.None? then (db, Failure(FileNotSaved))
    else
      var path := saved.value;
      var undone := db.(files := if cleaned then db.files - {path} else db.files + {path});
      var s := NewSubmission(newId, assignmentId, db.assignments[assignmentId], studentId, path, now);
      if ValidateSubmission(s).Some? then (undone, Failure(ValidateSubmission(s).value))
      else
        match Owner(db.submissions, assignmentId, studentId)
        case Some(sid) =>
          (db.(submissions := db.submissions[sid := s.(id := sid)], files := db.files + {path}), Success(s.(id := sid)))
        case None =>
          if newId in db.submissions then (undone, Failure(KeyTaken))
          else (db.(submissions := db.submissions[newId := s], files := db.files + {path}), Success(s))
  }

  // ---------- grades ----------

  predicate HasGrade(grades: map<string, Grade>, submissionId: string) {
    exists gid | gid in grades :: grades[gid].submissionId == submissionId
  }

  function NewGrade(
    newId: string, submissionId: string, s: Submission, a: Assignment, score: real, feedback: string, gradedBy: string): Grade
  {
    var adjusted := ApplyPenalty(score, s.lateness.daysLate, a.latePolicy);
    Grade(newId, submissionId, s.studentId, a.id, score, adjusted, feedback, Draft, gradedBy)
  }

  /** The submission's new status, unless it cannot be written: the services log that and go on. */
  function WithStatus(submissions: map<string, Submission>, sid: string, status: SubmissionStatus, marked: bool): map<string, Submission>
    requires sid in submissions
  {
    if marked then submissions[sid := submissions[sid].(status := status)] else submissions
  }

  function CreateGrade(
    db: Db, newId: string, submissionId: string, score: real, feedback: string, gradedBy: string, marked: bool)
    : (Db, Result<Grade, Error>)
  {
    if submissionId !in db.submissions then (db, Failure(SubmissionNotFound))
    else
      var s := db.submissions[submissionId];
      if s.assignmentId !in db.assignments then (db, Failure(AssignmentNotFound))
      else
        var a := db.assignments[s.assignmentId];
        var g := NewGrade(newId, submissionId, s, a, score, feedback, gradedBy);
        if score < 0.0 || score > a.maxPoints then (db, Failure(ScoreOutOfRange))
        else if ValidateGrade(g).Some? then (db, Failure(ValidateGrade(g).value))
        else if ValidateScore(g, a.maxPoints).Some? then (db, Failure(ValidateScore(g, a.maxPoints).value))
        else if newId in db.grades || HasGrade(db.grades, submissionId) then (db, Failure(KeyTaken))
        else (db.(grades := db.grades[newId := g], submissions := WithStatus(db.submissions, submissionId, Graded, marked)), Success(g))
  }

  function UpdateGrade(db: Db, id: string, score: real, feedback: string): (Db, Result<Grade, Error>) {
    if id !in db.grades then (db, Failure(GradeNotFound))
    else
      var g := db.grades[id];
      if !g.status.Draft? then (db, Failure(NotDraft))
      else if g.submissionId !in db.submissions then (db, Failure(SubmissionNotFound))
      else
        var s := db.submissions[g.submissionId];
        if s.assignmentId !in db.assignments then (db, Failure(AssignmentNotFound))
        else
          var a := db.assignments[s.assignmentId];
          if score < 0.0 || score > a.maxPoints then (db, Failure(ScoreOutOfRange))
          else
            var g' := g.(score := score, adjustedScore := ApplyPenalty(score, s.lateness.daysLate, a.latePolicy), feedback := feedback);
            (db.(grades := db.grades[id := g']), Success(g'))
  }

  function PublishGrade(db: Db, id: string, now: int, marked: bool): (Db, Result<Grade, Error>) {
    if id !in db.grades then (db, Failure(GradeNotFound))
    else if db.grades[id].status.Published? then (db, Failure(AlreadyPublished))
    else
      var g := db.grades[id].(status := Published(now));
      var published := db.(grades := db.grades[id := g]);
      (if g.submissionId in db.submissions
       then published.(submissions := WithStatus(db.submissions, g.submissionId, Returned, marked))
       else published,
       Success(g))
  }

  // ---------- consistency ----------

  predicate AssignmentsValid(db: Db) {
    forall id :: id in db.assignments ==> db.assignments[id].id == id && ValidateAssignment(db.assignments[id]).None?
  }

  /** A submission belongs to a stored assignment, is as late as that assignment's present due date
      and policy make it, and its file is stored. */
  predicate Fits(s: Submission, sid: string, db: Db) {
    && s.id == sid && s.filePath in db.files
    && s.assignmentId in db.assignments
    && s.lateness == CalculatePenalty(s.submittedAt, db.assignments[s.assignmentId].dueDate, db.assignments[s.assignmentId].latePolicy)
  }

  predicate SubmissionsFit(db: Db) {
    forall sid :: sid in db.submissions ==> Fits(db.submissions[sid], sid, db)
  }

  predicate SameWork(s: Submission, t: Submission) {
    s.assignmentId == t.assignmentId && s.studentId == t.studentId
  }

  predicate OneSubmissionEach(submissions: map<string, Submission>) {
    forall i, j :: i in submissions && j in submissions && SameWork(submissions[i], submissions[j]) ==> i == j
  }

  /** A grade agrees with a stored submission about student and assignment, and its scores are in range. */
  predicate Sits(g: Grade, gid: string, db: Db) {
    && g.id == gid
    && g.submissionId in db.submissions && g.assignmentId in db.assignments
    && db.submissions[g.submissionId].assignmentId == g.assignmentId
    && db.submissions[g.submissionId].studentId == g.studentId
    && 0.0 <= g.adjustedScore <= g.score <= db.assignments[g.assignmentId].maxPoints
  }

  predicate GradesSit(db: Db) {
    forall gid :: gid in db.grades ==> Sits(db.grades[gid], gid, db)
  }

  predicate OneGradeEach(grades: map<string, Grade>) {
    forall i, j :: i in grades && j in grades && grades[i].submissionId == grades[j].submissionId ==> i == j
  }

  predicate Consistent(db: Db) {
    && AssignmentsValid(db) && SubmissionsFit(db) && OneSubmissionEach(db.submissions)
    && GradesSit(db) && OneGradeEach(db.grades)
  }

  lemma FitsStays(s: Submission, sid: string, db: Db, db': Db)
    requires Fits(s, sid, db) && s.filePath in db'.files
    requires s.assignmentId in db'.assignments && db'.assignments[s.assignmentId] == db.assignments[s.assignmentId]
    ensures Fits(s, sid, db')
  {
  }

  lemma SitsStays(g: Grade, gid: string, db: Db, db': Db)
    requires Sits(g, gid, db)
    requires g.assignmentId in db'.assignments && db'.assignments[g.assignmentId] == db.assignments[g.assignmentId]
    requires g.submissionId in db'.submissions && SameWork(db'.submissions[g.submissionId], db.submissions[g.submissionId])
    ensures Sits(g, gid, db')
  {
  }

  /** Rows survive a change that leaves their assignments, their submissions' owners and their files alone. */
  lemma RowsStay(db: Db, db': Db)
    requires Consistent(db) && AssignmentsValid(db') && db.files <= db'.files
    requires forall sid :: sid in db'.submissions ==> sid in db.submissions && db'.submissions[sid] == db.submissions[sid]
    requires forall gid :: gid in db'.grades ==> gid in db.grades && db'.grades[gid] == db.grades[gid]
    requires forall sid :: sid in db'.submissions ==>
      (var aid := db.submissions[sid].assignmentId; aid in db'.assignments && db'.assignments[aid] == db.assignments[aid])
    requires forall gid :: gid in db'.grades ==> db'.grades[gid].submissionId in db'.submissions
    ensures Consistent(db')
  {
  }

  /** No submission, so no grade, can notice a change to an assignment without work. */
  lemma StoringAssignmentKeeps(db: Db, a: Assignment)
    requires Consistent(db) && ValidateAssignment(a).None?
    requires forall sid :: sid in db.submissions ==> db.submissions[sid].assignmentId != a.id
    ensures Consistent(db.(assignments := db.assignments[a.id := a]))
  {
  }

  lemma CreateAssignmentKeeps(db: Db, a: Assignment)
    requires Consistent(db)
    ensures Consistent(CreateAssignment(db, a).0)
  {
    if CreateAssignment(db, a).1.Success? {
      forall sid | sid in db.submissions ensures db.submissions[sid].assignmentId != a.id {
        assert Fits(db.submissions[sid], sid, db);
      }
      StoringAssignmentKeeps(db, a);
    }
  }

  lemma UpdateAssignmentKeeps(db: Db, edit: Assignment)
    requires Consistent(db)
    ensures Consistent(UpdateAssignment(db, edit).0)
  {
  }

  /** Without the guard an update could put a grade above its assignment's maximum. */
  lemma UnguardedUpdateBreaks(db: Db, edit: Assignment, gid: string)
    requires Consistent(db) && gid in db.grades && edit.id == db.grades[gid].assignmentId
    requires edit.maxPoints < db.grades[gid].score
    ensures HasWork(db.submissions, edit.id) && edit.id in db.assignments
    ensures !Consistent(db.(assignments := db.assignments[edit.id := Edited(db.assignments[edit.id], edit)]))
  {
    var db' := db.(assignments := db.assignments[edit.id := Edited(db.assignments[edit.id], edit)]);
    assert Sits(db.grades[gid], gid, db);
    assert !Sits(db'.grades[gid], gid, db');
  }

  lemma DeleteAssignmentKeeps(db: Db, id: string)
    requires Consistent(db)
    ensures Consistent(DeleteAssignment(db, id).0)
  {
    assert forall sid :: sid in db.submissions ==> Fits(db.submissions[sid], sid, db);
    assert forall gid :: gid in db.grades ==> Sits(db.grades[gid], gid, db);
    RowsStay(db, DeleteAssignment(db, id).0);
  }

  /** Storing a submission under its own key, where no other submission is the same student's
      to the same assignment, and where a row replaced was that. */
  predicate MayStore(db: Db, sid: string, s: Submission) {
    && (forall k :: k in db.submissions && SameWork(db.submissions[k], s) ==> k == sid)
    && (sid in db.submissions ==> SameWork(db.submissions[sid], s))
  }

  function WithSubmission(db: Db, sid: string, s: Submission): Db {
    db.(submissions := db.submissions[sid := s], files := db.files + {s.filePath})
  }

  lemma StoringFits(db: Db, sid: string, s: Submission)
    requires SubmissionsFit(db) && Fits(s, sid, db.(files := db.files + {s.filePath}))
    ensures SubmissionsFit(WithSubmission(db, sid, s))
  {
    var db' := WithSubmission(db, sid, s);
    forall k | k in db'.submissions ensures Fits(db'.submissions[k], k, db') {
      if k != sid {
        FitsStays(db.submissions[k], k, db, db');
      }
    }
  }

  lemma StoringSits(db: Db, sid: string, s: Submission)
    requires GradesSit(db) && MayStore(db, sid, s)
    ensures GradesSit(WithSubmission(db, sid, s))
  {
    var db' := WithSubmission(db, sid, s);
    forall gid | gid in db'.grades ensures Sits(db'.grades[gid], gid, db') {
      SitsStays(db.grades[gid], gid, db, db');
    }
  }

  lemma StoringSubmissionKeeps(db: Db, sid: string, s: Submission)
    requires Consistent(db) && Fits(s, sid, db.(files := db.files + {s.filePath})) && MayStore(db, sid, s)
    ensures Consistent(WithSubmission(db, sid, s))
  {
    StoringFits(db, sid, s);
    StoringSits(db, sid, s);
  }

  /** What a submission that fails leaves behind: its file, if it was saved and cannot be deleted. */
  function Leftover(db: Db, assignmentId: string, saved: Option<string>, cleaned: bool): set<string> {
    if assignmentId in db.assignments && saved.Some? && !cleaned then {saved.value} else {}
  }

  /** A submission that fails changes nothing else. */
  lemma FailedSubmitUndoesItself(
    db: Db, assignmentId: string, studentId: string, saved: Option<string>, cleaned: bool, newId: string, now: int)
    requires saved.Some? ==> saved.value !in db.files
    requires SubmitAssignment(db, assignmentId, studentId, saved, cleaned, newId, now).1.Failure?
    ensures SubmitAssignment(db, assignmentId, studentId, saved, cleaned, newId, now).0
      == db.(files := db.files + Leftover(db, assignmentId, saved, cleaned))
  {
    if saved.Some? {
      assert db.files - {saved.value} == db.files + {};
    }
  }

  /** What a submission that succeeds stores. */
  lemma SubmitStores(
    db: Db, assignmentId: string, studentId: string, saved: Option<string>, cleaned: bool, newId: string, now: int)
    requires Consistent(db)
    requires SubmitAssignment(db, assignmentId, studentId, saved, cleaned, newId, now).1.Success?
    ensures var (db', r) := SubmitAssignment(db, assignmentId, studentId, saved, cleaned, newId, now);
      var s := r.value;
      && db' == db.(submissions := db.submissions[s.id := s], files := db.files + {s.filePath})
      && s.assignmentId == assignmentId && s.studentId == studentId && s.submittedAt == now && s.status.Submitted?
      && Fits(s, s.id, db')
      && (s.id in db.submissions <==> Owns(db.submissions, s.id, assignmentId, studentId))
      && (forall k :: k in db.submissions && SameWork(db.submissions[k], s) ==> k == s.id)
  {
    var s := SubmitAssignment(db, assignmentId, studentId, saved, cleaned, newId, now).1.value;
    var owner := Owner(db.submissions, assignmentId, studentId);
    forall k | k in db.submissions && SameWork(db.submissions[k], s) ensures k == s.id {
      assert Owns(db.submissions, k, assignmentId, studentId);
      assert owner.Some? && SameWork(db.submissions[owner.value], db.submissions[k]);
    }
  }

  lemma MoreFilesKeep(db: Db, files: set<string>)
    requires Consistent(db)
    ensures Consistent(db.(files := db.files + files))
  {
    RowsStay(db, db.(files := db.files + files));
  }

  lemma SubmitKeeps(
    db: Db, assignmentId: string, studentId: string, saved: Option<string>, cleaned: bool, newId: string, now: int)
    requires Consistent(db) && (saved.Some? ==> saved.value !in db.files)
    ensures Consistent(SubmitAssignment(db, assignmentId, studentId, saved, cleaned, newId, now).0)
  {
    var (db', r) := SubmitAssignment(db, assignmentId, studentId, saved, cleaned, newId, now);
    if r.Failure? {
      FailedSubmitUndoesItself(db, assignmentId, studentId, saved, cleaned, newId, now);
      MoreFilesKeep(db, Leftover(db, assignmentId, saved, cleaned));
    } else {
      SubmitStores(db, assignmentId, studentId, saved, cleaned, newId, now);
      StoringSubmissionKeeps(db, r.value.id, r.value);
    }
  }

  lemma StatusKeeps(db: Db, sid: string, status: SubmissionStatus, marked: bool)
    requires Consistent(db) && sid in db.submissions
    ensures Consistent(db.(submissions := WithStatus(db.submissions, sid, status, marked)))
  {
    var s := db.submissions[sid].(status := status);
    assert Fits(db.submissions[sid], sid, db);
    assert db.files + {s.filePath} == db.files;
    StoringSubmissionKeeps(db, sid, s);
  }

  /** Storing a grade that sits right, under its own key and for a submission no other grade has. */
  lemma StoringGradeKeeps(db: Db, gid: string, g: Grade)
    requires Consistent(db) && Sits(g, gid, db)
    requires forall k :: k in db.grades && db.grades[k].submissionId == g.submissionId ==> k == gid
    ensures Consistent(db.(grades := db.grades[gid := g]))
  {
  }

  lemma CreateGradeKeeps(
    db: Db, newId: string, submissionId: string, score: real, feedback: string, gradedBy: string, marked: bool)
    requires Consistent(db)
    ensures Consistent(CreateGrade(db, newId, submissionId, score, feedback, gradedBy, marked).0)
  {
    var (db', r) := CreateGrade(db, newId, submissionId, score, feedback, gradedBy, marked);
    if r.Success? {
      var s := db.submissions[submissionId];
      assert Fits(s, submissionId, db);
      var a := db.assignments[s.assignmentId];
      PenaltyStaysWithinScore(score, s.lateness.daysLate, a.latePolicy);
      StoringGradeKeeps(db, newId, r.value);
      StatusKeeps(db.(grades := db.grades[newId := r.value]), submissionId, Graded, marked);
    }
  }

  lemma UpdateGradeKeeps(db: Db, id: string, score: real, feedback: string)
    requires Consistent(db)
    ensures Consistent(UpdateGrade(db, id, score, feedback).0)
  {
    var (db', r) := UpdateGrade(db, id, score, feedback);
    if r.Success? {
      var g := db.grades[id];
      assert Sits(g, id, db);
      var s := db.submissions[g.submissionId];
      assert Fits(s, g.submissionId, db);
      PenaltyStaysWithinScore(score, s.lateness.daysLate, db.assignments[s.assignmentId].latePolicy);
      StoringGradeKeeps(db, id, r.value);
    }
  }

  lemma PublishGradeKeeps(db: Db, id: string, now: int, marked: bool)
    requires Consistent(db)
    ensures Consistent(PublishGrade(db, id, now, marked).0)
  {
    var (db', r) := PublishGrade(db, id, now, marked);
    if r.Success? {
      assert Sits(db.grades[id], id, db);
      StoringGradeKeeps(db, id, r.value);
      StatusKeeps(db.(grades := db.grades[id := r.value]), r.value.submissionId, Returned, marked);
    }
  }
}
