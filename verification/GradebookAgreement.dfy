/** When the two gradebooks agree, for data the grading services can reach. */
module GradebookAgreement {
  import opened Wrappers
  import opened GradingModels
  import opened GradingSteps
  import opened Gradebook

  // ---------- what the repositories list ----------

  const PAGE: nat := 1000

  predicate DistinctIds(assignments: seq<Assignment>) {
    forall i, j :: 0 <= i < j < |assignments| ==> assignments[i].id != assignments[j].id
  }

  function Ids(assignments: seq<Assignment>): set<string> {
    set a | a in assignments :: a.id
  }

  function CourseAssignments(db: Db, courseId: string): set<string> {
    set id | id in db.assignments && db.assignments[id].courseId == courseId
  }

  predicate Listed(db: Db, courseId: string, a: Assignment) {
    a.id in db.assignments && db.assignments[a.id] == a && a.courseId == courseId
  }

  /** The first page of a course's assignments, latest due date first. */
  predicate ListsAssignments(db: Db, courseId: string, listing: seq<Assignment>) {
    var ids := CourseAssignments(db, courseId);
    && DistinctIds(listing)
    && |listing| == (if |ids| <= PAGE then |ids| else PAGE)
    && (forall a :: a in listing ==> Listed(db, courseId, a))
    && (forall i, j :: 0 <= i < j < |listing| ==> listing[i].dueDate >= listing[j].dueDate)
    && (forall a, id :: a in listing && id in ids && id !in Ids(listing) ==> a.dueDate >= db.assignments[id].dueDate)
  }

  predicate Shown(db: Db, courseId: string, g: Grade) {
    && g.id in db.grades && db.grades[g.id] == g && g.status.Published?
    && g.assignmentId in CourseAssignments(db, courseId)
  }

  predicate DistinctGrades(grades: seq<Grade>) {
    forall i, j :: 0 <= i < j < |grades| ==> grades[i].id != grades[j].id
  }

  /** The course's published grades, in any order. */
  ghost predicate ListsCourseGrades(db: Db, courseId: string, grades: seq<Grade>) {
    DistinctGrades(grades) && forall g :: g in grades <==> Shown(db, courseId, g)
  }

  /** One student's published grades in the course, in any order. */
  ghost predicate ListsStudentGrades(db: Db, courseId: string, studentId: string, grades: seq<Grade>) {
    DistinctGrades(grades) && forall g :: g in grades <==> Shown(db, courseId, g) && g.studentId == studentId
  }

  // ---------- one grade per assignment ----------

  predicate OnePerAssignment(grades: seq<Grade>) {
    forall i, j :: 0 <= i < j < |grades| ==> grades[i].assignmentId != grades[j].assignmentId
  }

  /** A student has at most one grade for an assignment. */
  lemma OneGradePerWork(db: Db, g: Grade, h: Grade)
    requires Consistent(db) && g.id in db.grades && db.grades[g.id] == g && h.id in db.grades && db.grades[h.id] == h
    ensures g.studentId == h.studentId && g.assignmentId == h.assignmentId ==> g.id == h.id
  {
  }

  lemma StudentGradesAreOnePerAssignment(db: Db, courseId: string, studentId: string, grades: seq<Grade>)
    requires Consistent(db) && ListsStudentGrades(db, courseId, studentId, grades)
    ensures OnePerAssignment(grades)
  {
    forall i, j | 0 <= i < j < |grades| ensures grades[i].assignmentId != grades[j].assignmentId {
      OneGradePerWork(db, grades[i], grades[j]);
    }
  }

  lemma {:induction false} ByStudentSelects(grades: seq<Grade>, studentId: string, g: Grade)
    ensures g in ByStudent(grades, studentId) <==> g in grades && g.studentId == studentId
  {
    if grades == [] {
    } else {
      var n := |grades| - 1;
      ByStudentSelects(grades[..n], studentId, g);
      assert grades == grades[..n] + [grades[n]];
    }
  }

  lemma {:induction false} ByStudentStaysDistinct(grades: seq<Grade>, studentId: string)
    requires DistinctGrades(grades)
    ensures DistinctGrades(ByStudent(grades, studentId))
  {
    if grades == [] {
    } else {
      var n := |grades| - 1;
      var front := ByStudent(grades[..n], studentId);
      ByStudentStaysDistinct(grades[..n], studentId);
      forall i | 0 <= i < |front| ensures front[i].id != grades[n].id {
        ByStudentSelects(grades[..n], studentId, front[i]);
      }
    }
  }

  /** The course's listing holds the same grades of a student as the student's own. */
  lemma CourseListsStudent(db: Db, courseId: string, studentId: string, grades: seq<Grade>)
    requires ListsCourseGrades(db, courseId, grades)
    ensures ListsStudentGrades(db, courseId, studentId, ByStudent(grades, studentId))
  {
    ByStudentStaysDistinct(grades, studentId);
    forall g: Grade ensures g in ByStudent(grades, studentId) <==> Shown(db, courseId, g) && g.studentId == studentId {
      ByStudentSelects(grades, studentId, g);
    }
  }

  lemma {:induction false} GradeMapHolds(grades: seq<Grade>, id: string)
    ensures id in GradeMap(grades) ==> GradeMap(grades)[id] in grades && GradeMap(grades)[id].assignmentId == id
    ensures id !in GradeMap(grades) ==> forall g :: g in grades ==> g.assignmentId != id
  {
    if grades == [] {
    } else {
      var n := |grades| - 1;
      GradeMapHolds(grades[..n], id);
      assert grades == grades[..n] + [grades[n]];
    }
  }

  /** The order in which one-per-assignment grades are listed does not matter to their map. */
  lemma SameGradeMap(grades: seq<Grade>, others: seq<Grade>)
    requires OnePerAssignment(others) && forall g :: g in grades <==> g in others
    ensures GradeMap(grades) == GradeMap(others)
  {
    forall id: string
      ensures id in GradeMap(grades) <==> id in GradeMap(others)
      ensures id in GradeMap(grades) && id in GradeMap(others) ==> GradeMap(grades)[id] == GradeMap(others)[id]
    {
      GradeMapHolds(grades, id);
      GradeMapHolds(others, id);
    }
  }

  // ---------- the two sums ----------

  /** The grades for assignments a listing leaves out. */
  function Unlisted(grades: seq<Grade>, ids: set<string>): seq<Grade> {
    if grades == [] then []
    else
      var n := |grades| - 1;
      Unlisted(grades[..n], ids) + (if grades[n].assignmentId in ids then [] else [grades[n]])
  }

  /** A grade for an assignment not yet graded adds its points once, if the assignment is listed. */
  lemma {:induction false} OneMoreGrade(listing: seq<Assignment>, graded: map<string, Grade>, g: Grade)
    requires DistinctIds(listing) && g.assignmentId !in graded
    ensures EarnedOn(listing, graded[g.assignmentId := g])
      == EarnedOn(listing, graded) + if g.assignmentId in Ids(listing) then g.adjustedScore else 0.0
  {
    if listing == [] {
    } else {
      var n := |listing| - 1;
      OneMoreGrade(listing[..n], graded, g);
      assert Ids(listing) == Ids(listing[..n]) + {listing[n].id} by {
        assert listing == listing[..n] + [listing[n]];
      }
      assert listing[n].id !in Ids(listing[..n]);
    }
  }

  lemma NothingGradedNothingEarned(listing: seq<Assignment>)
    ensures EarnedOn(listing, map[]) == 0.0
  {
  }

  /** Summing grade by grade is summing assignment by assignment, plus what is not listed. */
  lemma {:induction false} SumsDifferByUnlisted(listing: seq<Assignment>, grades: seq<Grade>)
    requires DistinctIds(listing) && OnePerAssignment(grades)
    ensures EarnedIn(grades) == EarnedOn(listing, GradeMap(grades)) + EarnedIn(Unlisted(grades, Ids(listing)))
  {
    if grades == [] {
      NothingGradedNothingEarned(listing);
    } else {
      var n := |grades| - 1;
      var g := grades[n];
      SumsDifferByUnlisted(listing, grades[..n]);
      GradeMapHolds(grades[..n], g.assignmentId);
      OneMoreGrade(listing, GradeMap(grades[..n]), g);
      var rest := Unlisted(grades[..n], Ids(listing));
      assert (rest + [g])[..|rest|] == rest;
      assert Unlisted(grades, Ids(listing)) == if g.assignmentId in Ids(listing) then rest else rest + [g];
    }
  }

  lemma {:induction false} UnlistedSelects(grades: seq<Grade>, ids: set<string>, g: Grade)
    ensures g in Unlisted(grades, ids) <==> g in grades && g.assignmentId !in ids
  {
    if grades == [] {
    } else {
      var n := |grades| - 1;
      UnlistedSelects(grades[..n], ids, g);
      assert grades == grades[..n] + [grades[n]];
    }
  }

  /** Points that are never negative sum to nothing exactly when each is nothing. */
  lemma {:induction false} SumIsZeroExactly(grades: seq<Grade>)
    requires forall g :: g in grades ==> g.adjustedScore >= 0.0
    ensures EarnedIn(grades) >= 0.0
    ensures EarnedIn(grades) == 0.0 <==> forall g :: g in grades ==> g.adjustedScore == 0.0
  {
    if grades == [] {
    } else {
      var n := |grades| - 1;
      assert grades == grades[..n] + [grades[n]];
      SumIsZeroExactly(grades[..n]);
    }
  }

  // ---------- agreement ----------

  /** What the two services are given for one student of one course. Each asks for the course's
      assignments by itself, so assignments due at one time may come in another order or, where
      there are more than a page, fall off another page. */
  ghost predicate Given(
    db: Db, courseId: string, studentId: string, ownListing: seq<Assignment>, courseListing: seq<Assignment>,
    ownGrades: seq<Grade>, courseGrades: seq<Grade>)
  {
    && Consistent(db)
    && ListsAssignments(db, courseId, ownListing) && ListsAssignments(db, courseId, courseListing)
    && ListsStudentGrades(db, courseId, studentId, ownGrades)
    && ListsCourseGrades(db, courseId, courseGrades)
  }

  lemma BothMapsAgree(db: Db, courseId: string, studentId: string, ownGrades: seq<Grade>, courseGrades: seq<Grade>)
    requires Consistent(db)
    requires ListsStudentGrades(db, courseId, studentId, ownGrades) && ListsCourseGrades(db, courseId, courseGrades)
    ensures GradeMap(ownGrades) == GradeMap(ByStudent(courseGrades, studentId))
    ensures OnePerAssignment(ByStudent(courseGrades, studentId))
  {
    CourseListsStudent(db, courseId, studentId, courseGrades);
    StudentGradesAreOnePerAssignment(db, courseId, studentId, ByStudent(courseGrades, studentId));
    SameGradeMap(ownGrades, ByStudent(courseGrades, studentId));
  }

  predicate WorthNothing(db: Db, courseId: string, studentId: string, listing: seq<Assignment>) {
    forall gid :: gid in db.grades ==>
      (var g := db.grades[gid];
       Shown(db, courseId, g) && g.studentId == studentId && g.assignmentId !in Ids(listing) ==> g.adjustedScore == 0.0)
  }

  /** The course's gradebook counts the student's own points plus those on assignments off the
      student's page, so the two agree on the points earned exactly when the student's published
      grades there are worth nothing. */
  lemma GradebooksAgreeExactly(
    db: Db, courseId: string, studentId: string, ownListing: seq<Assignment>, courseListing: seq<Assignment>,
    ownGrades: seq<Grade>, courseGrades: seq<Grade>, submissions: seq<Submission>)
    requires Given(db, courseId, studentId, ownListing, courseListing, ownGrades, courseGrades)
    ensures var own := StudentBook(studentId, ownListing, ownGrades, submissions);
      var theirs := ByStudent(courseGrades, studentId);
      var course := CourseBook(studentId, courseListing, theirs);
      && course.earnedPoints == own.earnedPoints + EarnedIn(Unlisted(theirs, Ids(ownListing)))
      && (course.earnedPoints == own.earnedPoints <==> WorthNothing(db, courseId, studentId, ownListing))
  {
    var theirs := ByStudent(courseGrades, studentId);
    var rest := Unlisted(theirs, Ids(ownListing));
    BothMapsAgree(db, courseId, studentId, ownGrades, courseGrades);
    SumsDifferByUnlisted(ownListing, theirs);
    forall g: Grade
      ensures g in rest <==> Shown(db, courseId, g) && g.studentId == studentId && g.assignmentId !in Ids(ownListing)
      ensures g in rest ==> Sits(g, g.id, db)
    {
      UnlistedSelects(theirs, Ids(ownListing), g);
      ByStudentSelects(courseGrades, studentId, g);
    }
    SumIsZeroExactly(rest);
    WorthNothingIs(db, courseId, studentId, ownListing, rest);
  }

  lemma WorthNothingIs(db: Db, courseId: string, studentId: string, listing: seq<Assignment>, rest: seq<Grade>)
    requires Consistent(db)
    requires forall g :: g in rest <==> Shown(db, courseId, g) && g.studentId == studentId && g.assignmentId !in Ids(listing)
    ensures WorthNothing(db, courseId, studentId, listing) <==> forall g :: g in rest ==> g.adjustedScore == 0.0
  {
  }

  lemma {:induction false} IdsCount(assignments: seq<Assignment>)
    requires DistinctIds(assignments)
    ensures |Ids(assignments)| == |assignments|
  {
    if assignments == [] {
    } else {
      var n := |assignments| - 1;
      IdsCount(assignments[..n]);
      assert Ids(assignments) == Ids(assignments[..n]) + {assignments[n].id} by {
        assert assignments == assignments[..n] + [assignments[n]];
      }
      assert assignments[n].id !in Ids(assignments[..n]);
    }
  }

  lemma SameSizeSubset(small: set<string>, large: set<string>)
    requires small <= large && |small| == |large|
    ensures small == large
  {
    assert |large - small| == |large| - |small|;
    assert large - small == {};
  }

  /** One page holds a course of at most a thousand assignments whole. */
  lemma WholeCourseListed(db: Db, courseId: string, listing: seq<Assignment>)
    requires ListsAssignments(db, courseId, listing) && |CourseAssignments(db, courseId)| <= PAGE
    ensures Ids(listing) == CourseAssignments(db, courseId)
  {
    IdsCount(listing);
    assert forall a :: a in listing ==> Listed(db, courseId, a);
    SameSizeSubset(Ids(listing), CourseAssignments(db, courseId));
  }

  // ---------- the same assignments in another order ----------

  function WithoutAt(assignments: seq<Assignment>, p: nat): seq<Assignment>
    requires p < |assignments|
  {
    assignments[..p] + assignments[p + 1..]
  }

  lemma {:induction false} TotalWithoutAt(assignments: seq<Assignment>, p: nat)
    requires p < |assignments|
    ensures TotalPoints(assignments) == TotalPoints(WithoutAt(assignments, p)) + assignments[p].maxPoints
  {
    var n := |assignments| - 1;
    if p == n {
      assert WithoutAt(assignments, p) == assignments[..n];
    } else {
      TotalWithoutAt(assignments[..n], p);
      assert WithoutAt(assignments, p)[..n - 1] == WithoutAt(assignments[..n], p);
    }
  }

  predicate SameMembers(a: seq<Assignment>, b: seq<Assignment>) {
    (forall x :: x in a ==> x in b) && (forall x :: x in b ==> x in a)
  }

  lemma SameWithoutAt(a: seq<Assignment>, b: seq<Assignment>, p: nat)
    requires a != [] && DistinctIds(a) && DistinctIds(b) && SameMembers(a, b)
    requires p < |b| && b[p] == a[|a| - 1]
    ensures DistinctIds(WithoutAt(b, p)) && SameMembers(a[..|a| - 1], WithoutAt(b, p))
  {
    var n := |a| - 1;
    var rest := WithoutAt(b, p);
    forall x | x in a[..n] ensures x in rest {
      var i :| 0 <= i < n && a[..n][i] == x;
      assert a[i].id != a[n].id && x in a;
      var j :| 0 <= j < |b| && b[j] == x;
      assert j < p ==> rest[j] == x;
      assert j > p ==> rest[j - 1] == x;
    }
    forall x | x in rest ensures x in a[..n] {
      var k :| 0 <= k < |rest| && rest[k] == x;
      var j := if k < p then k else k + 1;
      assert b[j] == x && b[j].id != b[p].id && x in a;
      var i :| 0 <= i < |a| && a[i] == x;
      assert a[..n][i] == x;
    }
  }

  lemma {:induction false} SameTotal(a: seq<Assignment>, b: seq<Assignment>)
    requires DistinctIds(a) && DistinctIds(b) && SameMembers(a, b)
    ensures TotalPoints(a) == TotalPoints(b)
  {
    if a == [] {
      IdsCount(b);
      assert Ids(b) == {};
    } else {
      var n := |a| - 1;
      assert a[n] in a;
      var p :| 0 <= p < |b| && b[p] == a[n];
      SameWithoutAt(a, b, p);
      SameTotal(a[..n], WithoutAt(b, p));
      TotalWithoutAt(b, p);
    }
  }

  /** Two whole listings of a course have the same assignments. */
  lemma WholeListingsAgree(db: Db, courseId: string, a: seq<Assignment>, b: seq<Assignment>)
    requires ListsAssignments(db, courseId, a) && ListsAssignments(db, courseId, b)
    requires |CourseAssignments(db, courseId)| <= PAGE
    ensures SameMembers(a, b)
  {
    WholeCourseListed(db, courseId, a);
    WholeCourseListed(db, courseId, b);
    forall x | x in a ensures x in b {
      SameIdSameAssignment(db, courseId, x, b);
    }
    forall x | x in b ensures x in a {
      SameIdSameAssignment(db, courseId, x, a);
    }
  }

  lemma SameIdSameAssignment(db: Db, courseId: string, x: Assignment, listing: seq<Assignment>)
    requires ListsAssignments(db, courseId, listing) && Listed(db, courseId, x)
    requires Ids(listing) == CourseAssignments(db, courseId)
    ensures x in listing
  {
    assert x.id in Ids(listing);
    var y :| y in listing && y.id == x.id;
    assert Listed(db, courseId, y);
  }

  /** The entry without what only the student's own gradebook fills in. */
  function Graded(e: Entry): Entry {
    e.(submittedAt := None, isLate := false)
  }

  /** Up to a thousand assignments: same points, percentage and letter, and the same entry for each
      assignment, in whatever order either gradebook lists them. */
  lemma GradebooksAgree(
    db: Db, courseId: string, studentId: string, ownListing: seq<Assignment>, courseListing: seq<Assignment>,
    ownGrades: seq<Grade>, courseGrades: seq<Grade>, submissions: seq<Submission>)
    requires Given(db, courseId, studentId, ownListing, courseListing, ownGrades, courseGrades)
    requires |CourseAssignments(db, courseId)| <= PAGE
    ensures var own := StudentBook(studentId, ownListing, ownGrades, submissions);
      var course := CourseBook(studentId, courseListing, ByStudent(courseGrades, studentId));
      && course.earnedPoints == own.earnedPoints && course.totalPoints == own.totalPoints
      && course.percentage == own.percentage && course.letter == own.letter
      && |course.entries| == |own.entries| == |ownListing| == |courseListing|
      && (forall i, j :: 0 <= i < |ownListing| && 0 <= j < |ownListing| && ownListing[i].id == courseListing[j].id ==>
        course.entries[j] == Graded(own.entries[i]))
  {
    WholeCourseListed(db, courseId, ownListing);
    BothMapsAgree(db, courseId, studentId, ownGrades, courseGrades);
    GradebooksAgreeExactly(db, courseId, studentId, ownListing, courseListing, ownGrades, courseGrades, submissions);
    WholeListingsAgree(db, courseId, ownListing, courseListing);
    SameTotal(ownListing, courseListing);
    forall i, j | 0 <= i < |ownListing| && 0 <= j < |ownListing| && ownListing[i].id == courseListing[j].id
      ensures ownListing[i] == courseListing[j]
    {
      assert Listed(db, courseId, ownListing[i]) && Listed(db, courseId, courseListing[j]);
    }
  }

  // ---------- percentages ----------

  lemma {:induction false} EarnedWithinTotal(listing: seq<Assignment>, graded: map<string, Grade>)
    requires forall a :: a in listing ==> a.maxPoints >= 0.0
    requires forall a :: a in listing && a.id in graded ==> 0.0 <= graded[a.id].adjustedScore <= a.maxPoints
    ensures 0.0 <= EarnedOn(listing, graded) <= TotalPoints(listing)
  {
    if listing == [] {
    } else {
      var n := |listing| - 1;
      assert listing == listing[..n] + [listing[n]];
      EarnedWithinTotal(listing[..n], graded);
      assert listing[n] in listing;
    }
  }

  lemma PercentageInRange(earned: real, total: real)
    requires 0.0 <= earned <= total
    ensures 0.0 <= Percentage(earned, total) <= 100.0
  {
  }

  /** A student's percentage lies between nothing and a hundred, however many assignments there are. */
  lemma StudentPercentageInRange(
    db: Db, courseId: string, studentId: string, listing: seq<Assignment>, grades: seq<Grade>, submissions: seq<Submission>)
    requires Consistent(db) && ListsAssignments(db, courseId, listing) && ListsStudentGrades(db, courseId, studentId, grades)
    ensures var own := StudentBook(studentId, listing, grades, submissions);
      0.0 <= own.earnedPoints <= own.totalPoints && 0.0 <= own.percentage <= 100.0
  {
    var graded := GradeMap(grades);
    forall a | a in listing
      ensures a.maxPoints >= 0.0 && (a.id in graded ==> 0.0 <= graded[a.id].adjustedScore <= a.maxPoints)
    {
      assert Listed(db, courseId, a) && ValidateAssignment(db.assignments[a.id]).None?;
      GradeMapHolds(grades, a.id);
      if a.id in graded {
        assert Shown(db, courseId, graded[a.id]) && Sits(graded[a.id], graded[a.id].id, db);
      }
    }
    EarnedWithinTotal(listing, graded);
    PercentageInRange(EarnedOn(listing, graded), TotalPoints(listing));
  }
}
