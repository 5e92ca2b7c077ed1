/** What the calls of a run say about the grades stored after it. */
module GradingHistory {
  import opened Wrappers
  import opened GradingModels
  import opened GradingSteps
  import opened GradingRuns

  datatype Answered = Answered(event: Event, success: bool)

  /** The calls of a run, each with whether it succeeded. */
  ghost function Answers(events: seq<Event>): (answers: seq<Answered>)
    requires IsRun(events)
    ensures |answers| == |events|
  {
    if events == [] then []
    else
      var n := |events| - 1;
      Answers(events[..n]) + [Answered(events[n], Step(After(events[..n]), events[n]).1.None?)]
  }

  /** The calls that give this id a grade, change its score, and publish it. */
  predicate Gives(e: Event, gid: string) {
    e.CreateGradeCall? && e.newId == gid
  }

  predicate Changes(e: Event, gid: string) {
    e.UpdateGradeCall? && e.gradeId == gid
  }

  predicate Publishes(e: Event, gid: string) {
    e.PublishGradeCall? && e.gradeId == gid
  }

  /** What a call that succeeds makes of a grade that is stored after it. */
  ghost predicate MadeBy(db: Db, e: Event, db': Db, gid: string)
    requires gid in db'.grades
  {
    var g' := db'.grades[gid];
    if Gives(e, gid) then g'.status == Draft && g'.score == e.score && g'.feedback == e.feedback
    else
      && gid in db.grades
      && var g := db.grades[gid];
      if Changes(e, gid) then g'.status == g.status == Draft && g'.score == e.score && g'.feedback == e.feedback
      else
        && g'.score == g.score && g'.feedback == g.feedback
        && (if Publishes(e, gid) then g.status == Draft && g'.status == Published(e.now) else g'.status == g.status)
  }

  lemma CallMakes(db: Db, e: Event, gid: string)
    requires Step(db, e).1.None? && gid in Step(db, e).0.grades
    ensures MadeBy(db, e, Step(db, e).0, gid)
  {
    if e.SubmitCall? {
      SubmitSparesGrades(db, e.assignmentId, e.studentId, e.saved, e.cleaned, e.newId, e.now);
    }
  }

  /** A publish of the id at this time succeeded, and no grade was given under the id since. */
  predicate PublishedAt(answers: seq<Answered>, k: nat, gid: string, time: int) {
    && k < |answers| && answers[k].success && Publishes(answers[k].event, gid) && answers[k].event.now == time
    && forall j :: k < j < |answers| ==> !(answers[j].success && Gives(answers[j].event, gid))
  }

  ghost predicate PublishedSince(answers: seq<Answered>, gid: string, time: int) {
    exists k: nat :: PublishedAt(answers, k, gid, time)
  }

  lemma PublishedSnoc(answers: seq<Answered>, a: Answered, gid: string, time: int)
    ensures PublishedSince(answers + [a], gid, time)
      <==> (if a.success && Gives(a.event, gid) then false
            else (a.success && Publishes(a.event, gid) && a.event.now == time) || PublishedSince(answers, gid, time))
  {
    var (n, longer) := (|answers|, answers + [a]);
    assert longer[n] == a;
    assert PublishedAt(longer, n, gid, time) <==> a.success && Publishes(a.event, gid) && a.event.now == time;
    forall k: nat | k < n
      ensures PublishedAt(longer, k, gid, time) <==> PublishedAt(answers, k, gid, time) && !(a.success && Gives(a.event, gid))
    {
      assert longer[k] == answers[k];
      if PublishedAt(longer, k, gid, time) {
        assert forall j :: k < j < n ==> longer[j] == answers[j];
      }
    }
  }

  /** In every run: a stored grade is published at a time exactly when a publish of its id at that
      time succeeded, and no new grade was given under the id afterwards. */
  lemma {:induction false} PublishedExactly(events: seq<Event>, gid: string, time: int)
    requires IsRun(events) && gid in After(events).grades
    ensures After(events).grades[gid].status == Published(time) <==> PublishedSince(Answers(events), gid, time)
  {
    var n := |events| - 1;
    var (front, e) := (events[..n], events[n]);
    var db := After(front);
    PublishedSnoc(Answers(front), Answered(e, Step(db, e).1.None?), gid, time);
    if Step(db, e).1.Some? {
      FailureChangesNothing(db, e);
      PublishedExactly(front, gid, time);
    } else {
      CallMakes(db, e, gid);
      if !Gives(e, gid) {
        PublishedExactly(front, gid, time);
      }
    }
  }

  /** The last call that gave the grade or changed its score, this one. */
  predicate WrittenAt(answers: seq<Answered>, k: nat, gid: string) {
    && k < |answers| && answers[k].success && (Gives(answers[k].event, gid) || Changes(answers[k].event, gid))
    && forall j :: k < j < |answers| ==>
      !(answers[j].success && (Gives(answers[j].event, gid) || Changes(answers[j].event, gid)))
  }

  /** In every run: the score and the feedback of a stored grade are those of the last call that
      succeeded in giving the grade or changing it. */
  lemma {:induction false} LastWriteStands(events: seq<Event>, gid: string) returns (k: nat)
    requires IsRun(events) && gid in After(events).grades
    ensures WrittenAt(Answers(events), k, gid)
    ensures var (g, e) := (After(events).grades[gid], Answers(events)[k].event);
      g.score == e.score && g.feedback == e.feedback
  {
    k := |events| - 1;
    var (front, e) := (events[..k], events[k]);
    var db := After(front);
    if Step(db, e).1.Some? {
      FailureChangesNothing(db, e);
      k := LastWriteStands(front, gid);
    } else {
      CallMakes(db, e, gid);
      if !Gives(e, gid) && !Changes(e, gid) {
        k := LastWriteStands(front, gid);
      }
    }
  }
}
