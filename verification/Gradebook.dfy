/** The student's and the course's gradebook, each built its own way (internal/service/gradebook_service.go). */
module Gradebook {
  import opened Wrappers
  import opened GradingModels

  datatype Entry = Entry(
    assignmentId: string, title: string, maxPoints: real, dueDate: int,
    score: real, adjustedScore: real, status: Option<GradeStatus>,
    submittedAt: Option<int>, isLate: bool)

  datatype StudentGradebook = StudentGradebook(
    studentId: string, entries: seq<Entry>, totalPoints: real, earnedPoints: real, percentage: real, letter: char)

  function LetterGrade(percentage: real): char {
    if percentage >= 90.0 then 'A'
    else if percentage >= 80.0 then 'B'
    else if percentage >= 70.0 then 'C'
    else if percentage >= 60.0 then 'D'
    else 'F'
  }

  function Percentage(earned: real, total: real): real {
    if total > 0.0 then earned / total * 100.0 else 0.0
  }

  /** The last grade of each assignment. */
  function GradeMap(grades: seq<Grade>): map<string, Grade> {
    if grades == [] then map[]
    else
      var n := |grades| - 1;
      GradeMap(grades[..n])[grades[n].assignmentId := grades[n]]
  }

  function SubmissionMap(submissions: seq<Submission>): map<string, Submission> {
    if submissions == [] then map[]
    else
      var n := |submissions| - 1;
      SubmissionMap(submissions[..n])[submissions[n].assignmentId := submissions[n]]
  }

  function EntryFor(a: Assignment, graded: map<string, Grade>, handedIn: map<string, Submission>): Entry {
    var found := a.id in graded;
    var g := if found then (graded[a.id].score, graded[a.id].adjustedScore, Some(graded[a.id].status)) else (0.0, 0.0, None);
    Entry(a.id, a.title, a.maxPoints, a.dueDate, g.0, g.1, g.2,
          if a.id in handedIn then Some(handedIn[a.id].submittedAt) else None,
          a.id in handedIn && handedIn[a.id].lateness.isLate)
  }

  function Entries(assignments: seq<Assignment>, graded: map<string, Grade>, handedIn: map<string, Submission>): seq<Entry> {
    seq(|assignments|, i requires 0 <= i < |assignments| => EntryFor(assignments[i], graded, handedIn))
  }

  function TotalPoints(assignments: seq<Assignment>): real {
    if assignments == [] then 0.0
    else TotalPoints(assignments[..|assignments| - 1]) + assignments[|assignments| - 1].maxPoints
  }

  /** Points earned, found assignment by assignment. */
  function EarnedOn(assignments: seq<Assignment>, graded: map<string, Grade>): real {
    if assignments == [] then 0.0
    else
      var n := |assignments| - 1;
      EarnedOn(assignments[..n], graded) +
      (if assignments[n].id in graded then graded[assignments[n].id].adjustedScore else 0.0)
  }

  /** Points earned, found grade by grade. */
  function EarnedIn(grades: seq<Grade>): real {
    if grades == [] then 0.0 else EarnedIn(grades[..|grades| - 1]) + grades[|grades| - 1].adjustedScore
  }

  function Book(
    studentId: string, assignments: seq<Assignment>, graded: map<string, Grade>, handedIn: map<string, Submission>, earned: real)
    : StudentGradebook
  {
    var total := TotalPoints(assignments);
    var percentage := Percentage(earned, total);
    StudentGradebook(studentId, Entries(assignments, graded, handedIn), total, earned, percentage, LetterGrade(percentage))
  }

  function StudentBook(
    studentId: string, assignments: seq<Assignment>, grades: seq<Grade>, submissions: seq<Submission>): StudentGradebook
  {
    var graded := GradeMap(grades);
    Book(studentId, assignments, graded, SubmissionMap(submissions), EarnedOn(assignments, graded))
  }

  function CourseBook(studentId: string, assignments: seq<Assignment>, grades: seq<Grade>): StudentGradebook {
    Book(studentId, assignments, GradeMap(grades), map[], EarnedIn(grades))
  }

  // ---------- what a gradebook says ----------

  /** Letters from 90, 80, 70 and 60 percent on; the percentage is the share of the points to be had. */
  predicate WellGraded(book: StudentGradebook) {
    && (book.totalPoints > 0.0 ==> book.percentage * book.totalPoints == 100.0 * book.earnedPoints)
    && (book.totalPoints <= 0.0 ==> book.percentage == 0.0)
    && (book.letter == 'A' <==> book.percentage >= 90.0)
    && (book.letter == 'B' <==> 80.0 <= book.percentage < 90.0)
    && (book.letter == 'C' <==> 70.0 <= book.percentage < 80.0)
    && (book.letter == 'D' <==> 60.0 <= book.percentage < 70.0)
    && (book.letter == 'F' <==> book.percentage < 60.0)
  }

  lemma ShareOf(earned: real, total: real)
    requires total > 0.0
    ensures earned / total * 100.0 * total == 100.0 * earned
  {
    assert earned / total * total == earned;
  }

  lemma BookIsWellGraded(
    studentId: string, assignments: seq<Assignment>, graded: map<string, Grade>, handedIn: map<string, Submission>, earned: real)
    ensures WellGraded(Book(studentId, assignments, graded, handedIn, earned))
  {
    if TotalPoints(assignments) > 0.0 {
      ShareOf(earned, TotalPoints(assignments));
    }
  }

  /** This place holds the last grade of the assignment. */
  predicate LastGrade(grades: seq<Grade>, assignmentId: string, k: nat) {
    k < |grades| && grades[k].assignmentId == assignmentId
    && forall j :: k < j < |grades| ==> grades[j].assignmentId != assignmentId
  }

  predicate LastSubmission(submissions: seq<Submission>, assignmentId: string, k: nat) {
    k < |submissions| && submissions[k].assignmentId == assignmentId
    && forall j :: k < j < |submissions| ==> submissions[j].assignmentId != assignmentId
  }

  /** The entry shows the assignment's last grade, or no points. */
  ghost predicate ShowsGrade(entry: Entry, a: Assignment, grades: seq<Grade>) {
    && entry.assignmentId == a.id && entry.title == a.title && entry.maxPoints == a.maxPoints && entry.dueDate == a.dueDate
    && (forall k: nat :: LastGrade(grades, a.id, k) ==>
      entry.score == grades[k].score && entry.adjustedScore == grades[k].adjustedScore && entry.status == Some(grades[k].status))
    && ((forall k :: 0 <= k < |grades| ==> grades[k].assignmentId != a.id) ==>
      entry.score == 0.0 && entry.adjustedScore == 0.0 && entry.status == None)
  }

  /** The entry shows when the assignment's last submission was made and whether it was late. */
  ghost predicate ShowsWork(entry: Entry, a: Assignment, submissions: seq<Submission>) {
    && (forall k: nat :: LastSubmission(submissions, a.id, k) ==>
      entry.submittedAt == Some(submissions[k].submittedAt) && entry.isLate == submissions[k].lateness.isLate)
    && ((forall k :: 0 <= k < |submissions| ==> submissions[k].assignmentId != a.id) ==>
      entry.submittedAt == None && !entry.isLate)
  }

  lemma {:induction false} GradeMapIsLast(grades: seq<Grade>, aid: string)
    ensures forall k: nat :: LastGrade(grades, aid, k) ==> aid in GradeMap(grades) && GradeMap(grades)[aid] == grades[k]
    ensures (forall k :: 0 <= k < |grades| ==> grades[k].assignmentId != aid) ==> aid !in GradeMap(grades)
  {
    if grades == [] {
    } else {
      var n := |grades| - 1;
      GradeMapIsLast(grades[..n], aid);
      forall k: nat | LastGrade(grades, aid, k) ensures aid in GradeMap(grades) && GradeMap(grades)[aid] == grades[k] {
        if k < n {
          assert LastGrade(grades[..n], aid, k);
        }
      }
    }
  }

  lemma {:induction false} SubmissionMapIsLast(submissions: seq<Submission>, aid: string)
    ensures forall k: nat :: LastSubmission(submissions, aid, k) ==>
      aid in SubmissionMap(submissions) && SubmissionMap(submissions)[aid] == submissions[k]
    ensures (forall k :: 0 <= k < |submissions| ==> submissions[k].assignmentId != aid) ==> aid !in SubmissionMap(submissions)
  {
    if submissions == [] {
    } else {
      var n := |submissions| - 1;
      SubmissionMapIsLast(submissions[..n], aid);
      forall k: nat | LastSubmission(submissions, aid, k)
        ensures aid in SubmissionMap(submissions) && SubmissionMap(submissions)[aid] == submissions[k]
      {
        if k < n {
          assert LastSubmission(submissions[..n], aid, k);
        }
      }
    }
  }

  /** The points of the listed entries, and those to be had. */
  function PointsListed(entries: seq<Entry>): (real, real) {
    if entries == [] then (0.0, 0.0)
    else
      var (earned, total) := PointsListed(entries[1..]);
      (entries[0].adjustedScore + earned, entries[0].maxPoints + total)
  }

  lemma {:induction false} PointsListedSnoc(entries: seq<Entry>, e: Entry)
    ensures var (earned, total) := PointsListed(entries);
      PointsListed(entries + [e]) == (earned + e.adjustedScore, total + e.maxPoints)
  {
    if entries == [] {
    } else {
      PointsListedSnoc(entries[1..], e);
      assert (entries + [e])[1..] == entries[1..] + [e];
    }
  }

  lemma {:induction false} PointsOfEntries(assignments: seq<Assignment>, graded: map<string, Grade>, handedIn: map<string, Submission>)
    ensures PointsListed(Entries(assignments, graded, handedIn)) == (EarnedOn(assignments, graded), TotalPoints(assignments))
  {
    if assignments == [] {
    } else {
      var n := |assignments| - 1;
      PointsOfEntries(assignments[..n], graded, handedIn);
      PointsListedSnoc(Entries(assignments[..n], graded, handedIn), EntryFor(assignments[n], graded, handedIn));
      assert Entries(assignments, graded, handedIn)
        == Entries(assignments[..n], graded, handedIn) + [EntryFor(assignments[n], graded, handedIn)];
    }
  }

  /** One entry for each assignment, in order, with its last grade; the points to be had are theirs. */
  ghost predicate Lists(book: StudentGradebook, assignments: seq<Assignment>, grades: seq<Grade>) {
    && |book.entries| == |assignments| && book.totalPoints == PointsListed(book.entries).1
    && forall i :: 0 <= i < |assignments| ==> ShowsGrade(book.entries[i], assignments[i], grades)
  }

  lemma BookLists(
    studentId: string, assignments: seq<Assignment>, grades: seq<Grade>, handedIn: map<string, Submission>, earned: real)
    ensures Lists(Book(studentId, assignments, GradeMap(grades), handedIn, earned), assignments, grades)
  {
    PointsOfEntries(assignments, GradeMap(grades), handedIn);
    forall i | 0 <= i < |assignments|
      ensures ShowsGrade(EntryFor(assignments[i], GradeMap(grades), handedIn), assignments[i], grades)
    {
      GradeMapIsLast(grades, assignments[i].id);
    }
  }

  ghost predicate ListsWork(book: StudentGradebook, assignments: seq<Assignment>, submissions: seq<Submission>) {
    |book.entries| == |assignments| && forall i :: 0 <= i < |assignments| ==> ShowsWork(book.entries[i], assignments[i], submissions)
  }

  lemma BookListsWork(
    studentId: string, assignments: seq<Assignment>, graded: map<string, Grade>, submissions: seq<Submission>, earned: real)
    ensures ListsWork(Book(studentId, assignments, graded, SubmissionMap(submissions), earned), assignments, submissions)
  {
    forall i | 0 <= i < |assignments|
      ensures ShowsWork(EntryFor(assignments[i], graded, SubmissionMap(submissions)), assignments[i], submissions)
    {
      SubmissionMapIsLast(submissions, assignments[i].id);
    }
  }

  ghost predicate SaysAll(book: StudentGradebook, assignments: seq<Assignment>, grades: seq<Grade>, submissions: seq<Submission>) {
    && WellGraded(book) && Lists(book, assignments, grades) && ListsWork(book, assignments, submissions)
    && book.earnedPoints == PointsListed(book.entries).0
  }

  lemma StudentBookSaysAll(studentId: string, assignments: seq<Assignment>, grades: seq<Grade>, submissions: seq<Submission>)
    ensures SaysAll(StudentBook(studentId, assignments, grades, submissions), assignments, grades, submissions)
  {
    var (graded, handedIn) := (GradeMap(grades), SubmissionMap(submissions));
    var earned := EarnedOn(assignments, graded);
    BookIsWellGraded(studentId, assignments, graded, handedIn, earned);
    BookLists(studentId, assignments, grades, handedIn, earned);
    BookListsWork(studentId, assignments, graded, submissions, earned);
    PointsOfEntries(assignments, graded, handedIn);
  }

  // ---------- the two services ----------

  method MapGrades(grades: seq<Grade>) returns (graded: map<string, Grade>)
    ensures graded == GradeMap(grades)
  {
    graded := map[];
    for i := 0 to |grades|
      invariant graded == GradeMap(grades[..i])
    {
      assert grades[..i + 1][..i] == grades[..i];
      graded := graded[grades[i].assignmentId := grades[i]];
    }
    assert grades[..|grades|] == grades;
  }

  method MapSubmissions(submissions: seq<Submission>) returns (handedIn: map<string, Submission>)
    ensures handedIn == SubmissionMap(submissions)
  {
    handedIn := map[];
    for i := 0 to |submissions|
      invariant handedIn == SubmissionMap(submissions[..i])
    {
      assert submissions[..i + 1][..i] == submissions[..i];
      handedIn := handedIn[submissions[i].assignmentId := submissions[i]];
    }
    assert submissions[..|submissions|] == submissions;
  }

  /** The entry of each assignment, and the points to be had and earned. */
  method ListEntries(assignments: seq<Assignment>, graded: map<string, Grade>, handedIn: map<string, Submission>)
    returns (entries: seq<Entry>, total: real, earned: real)
    ensures entries == Entries(assignments, graded, handedIn)
    ensures total == TotalPoints(assignments) && earned == EarnedOn(assignments, graded)
  {
    entries, total, earned := [], 0.0, 0.0;
    for i := 0 to |assignments|
      invariant entries == Entries(assignments[..i], graded, handedIn)
      invariant total == TotalPoints(assignments[..i])
      invariant earned == EarnedOn(assignments[..i], graded)
    {
      var a := assignments[i];
      assert assignments[..i + 1][..i] == assignments[..i];
      var entry := Entry(a.id, a.title, a.maxPoints, a.dueDate, 0.0, 0.0, None, None, false);
      if a.id in handedIn {
        entry := entry.(submittedAt := Some(handedIn[a.id].submittedAt), isLate := handedIn[a.id].lateness.isLate);
      }
      if a.id in graded {
        var g := graded[a.id];
        entry := entry.(score := g.score, adjustedScore := g.adjustedScore, status := Some(g.status));
        earned := earned + g.adjustedScore;
      }
      total := total + a.maxPoints;
      entries := entries + [entry];
    }
    assert assignments[..|assignments|] == assignments;
  }

  method GetStudentGradebook(
    studentId: string, assignments: seq<Assignment>, grades: seq<Grade>, submissions: seq<Submission>)
    returns (book: StudentGradebook)
    ensures book == StudentBook(studentId, assignments, grades, submissions)
    ensures SaysAll(book, assignments, grades, submissions)
  {
    var graded := MapGrades(grades);
    var handedIn := MapSubmissions(submissions);
    var entries, total, earned := ListEntries(assignments, graded, handedIn);
    var percentage := 0.0;
    if total > 0.0 {
      percentage := earned / total * 100.0;
    }
    book := StudentGradebook(studentId, entries, total, earned, percentage, LetterGrade(percentage));
    StudentBookSaysAll(studentId, assignments, grades, submissions);
  }

  /** The grades of one student, in order. */
  function ByStudent(grades: seq<Grade>, studentId: string): seq<Grade> {
    if grades == [] then []
    else
      var n := |grades| - 1;
      ByStudent(grades[..n], studentId) + (if grades[n].studentId == studentId then [grades[n]] else [])
  }

  function StudentsOf(grades: seq<Grade>): set<string> {
    set g | g in grades :: g.studentId
  }

  function Group(grades: seq<Grade>): map<string, seq<Grade>> {
    if grades == [] then map[]
    else
      var (groups, g) := (Group(grades[..|grades| - 1]), grades[|grades| - 1]);
      groups[g.studentId := (if g.studentId in groups then groups[g.studentId] else []) + [g]]
  }

  lemma {:induction false} GroupIsByStudent(grades: seq<Grade>, s: string)
    ensures s in Group(grades) <==> s in StudentsOf(grades)
    ensures ByStudent(grades, s) == if s in Group(grades) then Group(grades)[s] else []
  {
    if grades == [] {
    } else {
      var n := |grades| - 1;
      GroupIsByStudent(grades[..n], s);
      assert grades == grades[..n] + [grades[n]];
    }
  }

  method GroupByStudent(grades: seq<Grade>) returns (groups: map<string, seq<Grade>>)
    ensures groups == Group(grades)
  {
    groups := map[];
    for i := 0 to |grades|
      invariant groups == Group(grades[..i])
    {
      assert grades[..i + 1][..i] == grades[..i];
      var g := grades[i];
      groups := groups[g.studentId := (if g.studentId in groups then groups[g.studentId] else []) + [g]];
    }
    assert grades[..|grades|] == grades;
  }

  method Summarize(studentId: string, assignments: seq<Assignment>, total: real, grades: seq<Grade>)
    returns (book: StudentGradebook)
    requires total == TotalPoints(assignments)
    ensures book == CourseBook(studentId, assignments, grades)
  {
    var earned, graded := 0.0, map[];
    for i := 0 to |grades|
      invariant graded == GradeMap(grades[..i])
      invariant earned == EarnedIn(grades[..i])
    {
      assert grades[..i + 1][..i] == grades[..i];
      graded := graded[grades[i].assignmentId := grades[i]];
      earned := earned + grades[i].adjustedScore;
    }
    assert grades[..|grades|] == grades;
    var entries: seq<Entry> := [];
    for i := 0 to |assignments|
      invariant entries == Entries(assignments[..i], graded, map[])
    {
      var a := assignments[i];
      var entry := Entry(a.id, a.title, a.maxPoints, a.dueDate, 0.0, 0.0, None, None, false);
      if a.id in graded {
        var g := graded[a.id];
        entry := entry.(score := g.score, adjustedScore := g.adjustedScore, status := Some(g.status));
      }
      entries := entries + [entry];
    }
    assert assignments[..|assignments|] == assignments;
    var percentage := 0.0;
    if total > 0.0 {
      percentage := earned / total * 100.0;
    }
    return StudentGradebook(studentId, entries, total, earned, percentage, LetterGrade(percentage));
  }

  function SummarizedIn(students: seq<StudentGradebook>): set<string> {
    set b | b in students :: b.studentId
  }

  predicate DistinctStudents(students: seq<StudentGradebook>) {
    forall i, j :: 0 <= i < j < |students| ==> students[i].studentId != students[j].studentId
  }

  predicate AreSummaries(students: seq<StudentGradebook>, assignments: seq<Assignment>, groups: map<string, seq<Grade>>) {
    forall b :: b in students ==>
      b.studentId in groups && b == CourseBook(b.studentId, assignments, groups[b.studentId])
  }

  lemma OneMoreSummary(
    students: seq<StudentGradebook>, assignments: seq<Assignment>, groups: map<string, seq<Grade>>, book: StudentGradebook)
    requires DistinctStudents(students) && AreSummaries(students, assignments, groups)
    requires book.studentId in groups && book.studentId !in SummarizedIn(students)
    requires book == CourseBook(book.studentId, assignments, groups[book.studentId])
    ensures DistinctStudents(students + [book]) && AreSummaries(students + [book], assignments, groups)
    ensures SummarizedIn(students + [book]) == SummarizedIn(students) + {book.studentId}
  {
    assert forall b :: b in students ==> b.studentId in SummarizedIn(students);
  }

  method TotalOf(assignments: seq<Assignment>) returns (total: real)
    ensures total == TotalPoints(assignments)
  {
    total := 0.0;
    for i := 0 to |assignments|
      invariant total == TotalPoints(assignments[..i])
    {
      assert assignments[..i + 1][..i] == assignments[..i];
      total := total + assignments[i].maxPoints;
    }
    assert assignments[..|assignments|] == assignments;
  }

  method SummarizeGroups(assignments: seq<Assignment>, groups: map<string, seq<Grade>>)
    returns (students: seq<StudentGradebook>)
    ensures SummarizedIn(students) == groups.Keys
    ensures DistinctStudents(students) && AreSummaries(students, assignments, groups)
  {
    var total := TotalOf(assignments);
    students := [];
    var left := groups.Keys;
    while left != {}
      invariant left <= groups.Keys && SummarizedIn(students) == groups.Keys - left
      invariant DistinctStudents(students) && AreSummaries(students, assignments, groups)
      decreases |left|
    {
      var s :| s in left;
      var book := Summarize(s, assignments, total, groups[s]);
      OneMoreSummary(students, assignments, groups, book);
      students := students + [book];
      left := left - {s};
    }
  }

  /** One summary, in some order, for each student with a published grade. */
  method GetCourseGradebook(assignments: seq<Assignment>, grades: seq<Grade>) returns (students: seq<StudentGradebook>)
    ensures SummarizedIn(students) == StudentsOf(grades) && DistinctStudents(students)
    ensures forall b :: b in students ==> b == CourseBook(b.studentId, assignments, ByStudent(grades, b.studentId))
    ensures forall b :: b in students ==> WellGraded(b) && Lists(b, assignments, ByStudent(grades, b.studentId))
  {
    var groups := GroupByStudent(grades);
    forall s: string ensures s in groups <==> s in StudentsOf(grades) {
      GroupIsByStudent(grades, s);
    }
    students := SummarizeGroups(assignments, groups);
    forall b | b in students ensures b == CourseBook(b.studentId, assignments, ByStudent(grades, b.studentId)) {
      GroupIsByStudent(grades, b.studentId);
    }
    forall b | b in students ensures WellGraded(b) && Lists(b, assignments, ByStudent(grades, b.studentId)) {
      var own := ByStudent(grades, b.studentId);
      BookIsWellGraded(b.studentId, assignments, GradeMap(own), map[], EarnedIn(own));
      BookLists(b.studentId, assignments, own, map[], EarnedIn(own));
    }
  }
}
