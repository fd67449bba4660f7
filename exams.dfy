/** Exam sessions: the `exams` table, `start` and `submit` (the in-progress
    to submitted state machine), and the read views `history` and `detail`.
    Timestamps are integer seconds supplied by the caller in place of `now()`. */
module Exams {
  import opened Common
  import opened Catalog
  import opened Scoring

  /** The score columns `submit` writes, all in the same update. */
  datatype Scores = Scores(
    correctAnswers: nat,
    percentage: nat,
    twk: Tally,
    tiu: Tally,
    tkp: Tally,
    passed: bool)

  /** One row of the `exams` table; `None` is a NULL column. */
  datatype Exam = Exam(
    id: int,
    userId: int,
    startedAt: int,
    finishedAt: Option<int>,
    durationSeconds: Option<int>,
    answers: map<int, int>,
    totalQuestions: nat,
    scores: Option<Scores>)

  /** The columns of a report that `submit` stores (the report's own total
      has no column). */
  function Columns(r: Report): (s: Scores)
    ensures s.correctAnswers == r.correct && s.percentage == r.percentage && s.passed == r.passed
    ensures s.twk == r.twk && s.tiu == r.tiu && s.tkp == r.tkp
  {
    Scores(r.correct, r.percentage, r.twk, r.tiu, r.tkp, r.passed)
  }

  /** What the stored score columns promise about each other: the category
      scores add up to the correct count, no category scores more than it
      has questions, the percentage is at most 100.00, and a pass shows at
      least the pass mark. */
  predicate StoredScoresAddUp(c: Scores) {
    && c.twk.score + c.tiu.score + c.tkp.score == c.correctAnswers
    && c.twk.score <= c.twk.total && c.tiu.score <= c.tiu.total && c.tkp.score <= c.tkp.total
    && c.percentage <= 10000
    && (c.passed ==> c.percentage >= 100 * PassMark)
  }

  /** The columns `submit` writes from a computed report keep those promises. */
  lemma ScoredColumnsAddUp(qs: seq<Question>, answers: map<int, int>)
    ensures StoredScoresAddUp(Columns(Results(qs, answers)))
  {
    ReportConsistent(qs, answers);
    var correct := CorrectCount(qs, answers);
    PassShowsAtLeastMark(correct, |qs|);
  }

  predicate IsSubmitted(e: Exam) {
    e.finishedAt.Some?
  }

  /** The finish time, the duration and the scores are either all NULL
      (in progress) or all set (submitted), and an exam in progress has no
      stored answers yet. */
  predicate Consistent(e: Exam) {
    && e.durationSeconds.Some? == e.finishedAt.Some? && e.scores.Some? == e.finishedAt.Some?
    && (!IsSubmitted(e) ==> e.answers == map[])
  }

  /** The `answers` rules of `submit`: 'required|array' (an empty array counts
      as missing) and every value an integer in 0..3. */
  predicate AnswersRulesHold(answers: map<int, int>) {
    answers != map[] && forall id :: id in answers ==> IsAnswerIndex(answers[id])
  }

  /** The row `start` inserts: no answers, no finish time, and the number of
      questions active at that moment. */
  function Started(id: int, userId: int, now: int, activeCount: nat): (e: Exam)
    ensures e.id == id && e.userId == userId && e.startedAt == now
    ensures !IsSubmitted(e) && Consistent(e) && e.answers == map[] && e.totalQuestions == activeCount
  {
    Exam(id, userId, now, None, None, map[], activeCount, None)
  }

  /** The row after a successful `submit`. */
  function Finished(e: Exam, answers: map<int, int>, now: int, r: Report): (f: Exam)
    ensures IsSubmitted(f) && Consistent(f) && f.finishedAt == Some(now)
    ensures f.durationSeconds == Some(now - e.startedAt) && f.answers == answers && f.scores == Some(Columns(r))
    ensures f.id == e.id && f.userId == e.userId && f.startedAt == e.startedAt && f.totalQuestions == e.totalQuestions
  {
    e.(finishedAt := Some(now), durationSeconds := Some(now - e.startedAt), answers := answers,
       scores := Some(Columns(r)))
  }

  /** The position of the exam with the given id (`findOrFail`). */
  function FindExam(rows: seq<Exam>, id: int): (r: Option<nat>)
    ensures r.Some? ==> r.value < |rows| && rows[r.value].id == id
    ensures r.None? ==> forall i :: 0 <= i < |rows| ==> rows[i].id != id
  {
    if rows == [] then None
    else if rows[|rows| - 1].id == id then Some(|rows| - 1)
    else FindExam(rows[..|rows| - 1], id)
  }

  /** Auto-increment ids, strictly increasing and below the next id, every
      row consistent, and every stored score keeping its promises. */
  predicate ExamTableInvariant(rows: seq<Exam>, nextId: int) {
    && 0 < nextId
    && (forall i, j :: 0 <= i < j < |rows| ==> rows[i].id < rows[j].id)
    && (forall i :: 0 <= i < |rows| ==> 0 < rows[i].id < nextId && Consistent(rows[i]))
    && (forall i :: 0 <= i < |rows| && rows[i].scores.Some? ==> StoredScoresAddUp(rows[i].scores.value))
  }

  /** With distinct ids, the row found for an id is the only row with it. */
  lemma FindExamUnique(rows: seq<Exam>, nextId: int, k: nat)
    requires ExamTableInvariant(rows, nextId) && k < |rows|
    ensures FindExam(rows, rows[k].id) == Some(k)
  {
  }

  /** The `exams` table. */
  class ExamTable {
    var rows: seq<Exam>
    var nextId: int

    ghost predicate Valid()
      reads this
    {
      ExamTableInvariant(rows, nextId)
    }

    constructor ()
      ensures Valid() && rows == [] && nextId == 1
    {
      rows := [];
      nextId := 1;
    }

    /** `start`: always succeeds and inserts an in-progress exam owned by the caller. */
    method Start(userId: int, now: int, catalog: QuestionTable) returns (examId: int, startedAt: int)
      requires Valid()
      modifies this
      ensures Valid()
      ensures examId == old(nextId) && startedAt == now && nextId == old(nextId) + 1
      ensures rows == old(rows) + [Started(examId, userId, now, |Active(catalog.rows)|)]
    {
      var e := Started(nextId, userId, now, |Active(catalog.rows)|);
      rows := rows + [e];
      examId, startedAt := nextId, now;
      nextId := nextId + 1;
    }

    /** `submit`: scores the answers against the catalog as it is now and
      finishes the exam, but only for its owner and only once. An unknown
      exam id fails the `exists` rule, so it is a validation error. */
    method Submit(userId: int, examId: int, answers: map<int, int>, now: int, catalog: QuestionTable)
      returns (res: Result<Report>)
      requires Valid()
      modifies this
      ensures Valid() && nextId == old(nextId)
      ensures !AnswersRulesHold(answers) || FindExam(old(rows), examId).None? ==> res == Err(ValidationError)
      ensures AnswersRulesHold(answers) && FindExam(old(rows), examId).Some? ==>
        var e := old(rows)[FindExam(old(rows), examId).value];
        && (e.userId != userId ==> res == Err(Unauthorized))
        && (e.userId == userId && IsSubmitted(e) ==> res == Err(AlreadySubmitted))
        && (e.userId == userId && !IsSubmitted(e) ==> res == Ok(Results(Active(catalog.rows), answers)))
      ensures res.Err? ==> rows == old(rows)
      ensures res.Ok? ==>
        && FindExam(old(rows), examId).Some?
        && var k := FindExam(old(rows), examId).value;
        && rows == old(rows)[k := Finished(old(rows)[k], answers, now, res.value)]
      ensures |rows| == |old(rows)|
      ensures forall i :: 0 <= i < |rows| && IsSubmitted(old(rows)[i]) ==> rows[i] == old(rows)[i]
    {
      var found := FindExam(rows, examId);
      if !AnswersRulesHold(answers) || found.None? {
        return Err(ValidationError);
      }
      var k := found.value;
      var exam := rows[k];
      if exam.userId != userId {
        return Err(Unauthorized);
      }
      if exam.finishedAt.Some? {
        return Err(AlreadySubmitted);
      }
      var results := CalculateResults(Active(catalog.rows), answers);
      ScoredColumnsAddUp(Active(catalog.rows), answers);
      rows := rows[k := Finished(exam, answers, now, results)];
      res := Ok(results);
    }
  }

  /** The caller's submitted exams, in table order. */
  function OwnSubmitted(rows: seq<Exam>, userId: int): (r: seq<Exam>)
    ensures forall e :: e in r <==> e in rows && e.userId == userId && IsSubmitted(e)
  {
    if rows == [] then []
    else
      var init := OwnSubmitted(rows[..|rows| - 1], userId);
      var e := rows[|rows| - 1];
      if e.userId == userId && IsSubmitted(e) then init + [e] else init
  }

  /** The sort key of `orderBy('finished_at')`. */
  function FinishKey(e: Exam): int {
    e.finishedAt.GetOr(0)
  }

  predicate SortedByFinishDesc(s: seq<Exam>) {
    forall i, j :: 0 <= i < j < |s| ==> FinishKey(s[i]) >= FinishKey(s[j])
  }

  lemma ConsSorted(x: Exam, s: seq<Exam>)
    requires SortedByFinishDesc(s) && forall y :: y in s ==> FinishKey(x) >= FinishKey(y)
    ensures SortedByFinishDesc([x] + s)
  {
    var r := [x] + s;
    forall i, j | 0 <= i < j < |r| ensures FinishKey(r[i]) >= FinishKey(r[j]) {
      assert r[j] == s[j - 1];
      if i > 0 {
        assert r[i] == s[i - 1];
      }
    }
  }

  /** Inserts `e` into a list sorted latest first. */
  function InsertByFinish(e: Exam, s: seq<Exam>): (r: seq<Exam>)
    requires SortedByFinishDesc(s)
    ensures SortedByFinishDesc(r) && multiset(r) == multiset(s) + multiset{e}
  {
    if s == [] then [e]
    else if FinishKey(e) >= FinishKey(s[0]) then
      ConsSorted(e, s);
      [e] + s
    else
      var rest := InsertByFinish(e, s[1..]);
      assert s == [s[0]] + s[1..];
      assert forall y :: y in rest ==> FinishKey(s[0]) >= FinishKey(y) by {
        forall y | y in rest ensures FinishKey(s[0]) >= FinishKey(y) {
          assert y in multiset(rest);
          if y != e {
            var j :| 0 <= j < |s[1..]| && s[1..][j] == y;
            assert s[j + 1] == y;
          }
        }
      }
      ConsSorted(s[0], rest);
      [s[0]] + rest
  }

  /** Sorts latest finish first. */
  function SortByFinish(s: seq<Exam>): (r: seq<Exam>)
    ensures SortedByFinishDesc(r) && multiset(r) == multiset(s)
  {
    if s == [] then []
    else
      assert s == [s[0]] + s[1..];
      InsertByFinish(s[0], SortByFinish(s[1..]))
  }

  /** `history`: exactly the caller's submitted exams, each as often as it is
      stored, latest finish first. */
  function History(rows: seq<Exam>, userId: int): (h: seq<Exam>)
    ensures forall e :: e in h <==> e in rows && e.userId == userId && IsSubmitted(e)
    ensures multiset(h) == multiset(OwnSubmitted(rows, userId))
    ensures forall i, j :: 0 <= i < j < |h| ==> h[i].finishedAt.value >= h[j].finishedAt.value
  {
    var h := SortByFinish(OwnSubmitted(rows, userId));
    assert forall e :: e in h <==> e in OwnSubmitted(rows, userId) by {
      forall e ensures e in h <==> e in OwnSubmitted(rows, userId) {
        assert e in h <==> e in multiset(h);
      }
    }
    h
  }

  /** One entry of the review `detail` returns, answer key included. */
  datatype Review = Review(
    id: int,
    category: string,
    text: string,
    options: seq<string>,
    correctAnswer: int,
    userAnswer: Option<int>,
    isCorrect: bool)

  /** The review of each question, in the order of the questions. */
  function Reviews(qs: seq<Question>, answers: map<int, int>): (r: seq<Review>)
    ensures |r| == |qs|
    ensures forall i :: 0 <= i < |qs| ==>
      && r[i].id == qs[i].id && r[i].category == qs[i].category && r[i].text == qs[i].text
      && r[i].options == qs[i].options
      && r[i].correctAnswer == qs[i].correctAnswer
      && r[i].userAnswer == UserAnswer(answers, qs[i].id)
      && (r[i].isCorrect <==> qs[i].id in answers && answers[qs[i].id] == qs[i].correctAnswer)
  {
    if qs == [] then []
    else
      var q := qs[|qs| - 1];
      var userAnswer := UserAnswer(answers, q.id);
      Reviews(qs[..|qs| - 1], answers)
        + [Review(q.id, q.category, q.text, q.options, q.correctAnswer, userAnswer, userAnswer == Some(q.correctAnswer))]
  }

  datatype ExamDetail = ExamDetail(exam: Exam, questions: seq<Review>)

  /** `detail`: the exam and a review of every question active in the
      catalog now, for the owner only. */
  function Detail(rows: seq<Exam>, userId: int, examId: int, catalog: seq<Question>): (r: Result<ExamDetail>)
    ensures r == Err(NotFound) <==> FindExam(rows, examId).None?
    ensures r == Err(Unauthorized) <==> FindExam(rows, examId).Some? && rows[FindExam(rows, examId).value].userId != userId
    ensures r.Ok? ==>
      && FindExam(rows, examId).Some?
      && var e := rows[FindExam(rows, examId).value];
      && e.userId == userId && r.value == ExamDetail(e, Reviews(Active(catalog), e.answers))
    ensures FindExam(rows, examId).Some? && rows[FindExam(rows, examId).value].userId == userId ==> r.Ok?
  {
    match FindExam(rows, examId)
    case None => Err(NotFound)
    case Some(k) =>
      if rows[k].userId != userId then Err(Unauthorized)
      else Ok(ExamDetail(rows[k], Reviews(Active(catalog), rows[k].answers)))
  }

  /** The number of reviews marked correct in the three categories. */
  function MarkedCorrect(reviews: seq<Review>): nat {
    if reviews == [] then 0
    else
      var v := reviews[|reviews| - 1];
      MarkedCorrect(reviews[..|reviews| - 1]) + (if v.isCorrect && IsCategory(v.category) then 1 else 0)
  }

  /** The review marks exactly the questions the scoring engine counts. */
  lemma {:induction false} ReviewsAgreeWithScore(qs: seq<Question>, answers: map<int, int>)
    ensures MarkedCorrect(Reviews(qs, answers)) == CorrectCount(qs, answers)
  {
    if qs != [] {
      var init := qs[..|qs| - 1];
      ReviewsAgreeWithScore(init, answers);
      var r := Reviews(qs, answers);
      assert r[..|r| - 1] == Reviews(init, answers);
    }
  }

  /** Reviewing a submitted exam against the catalog it was scored with
      marks as many questions correct as its stored score. */
  lemma DetailMatchesStoredScore(e: Exam, answers: map<int, int>, now: int, active: seq<Question>)
    ensures var f := Finished(e, answers, now, Results(active, answers));
      MarkedCorrect(Reviews(active, f.answers)) == f.scores.value.correctAnswers
  {
    ReviewsAgreeWithScore(active, answers);
  }

  /** `detail` does not ask whether the exam is finished: for an exam that is
      still in progress it already returns the answer key of every active
      question, with nothing marked correct. */
  lemma DetailBeforeSubmitRevealsKey(rows: seq<Exam>, nextId: int, k: nat, catalog: seq<Question>)
    requires ExamTableInvariant(rows, nextId) && k < |rows| && !IsSubmitted(rows[k])
    ensures var r, active := Detail(rows, rows[k].userId, rows[k].id, catalog), Active(catalog);
      && r.Ok? && |r.value.questions| == |active|
      && forall i :: 0 <= i < |active| ==>
           r.value.questions[i].correctAnswer == active[i].correctAnswer && !r.value.questions[i].isCorrect
  {
    FindExamUnique(rows, nextId, k);
  }

  /** `detail` as evidently intended: the answer key is only handed out
      for an exam that has been submitted. */
  function SubmittedDetail(rows: seq<Exam>, userId: int, examId: int, catalog: seq<Question>): (r: Result<ExamDetail>)
    ensures r.Ok? ==> IsSubmitted(r.value.exam) && r == Detail(rows, userId, examId, catalog)
    ensures Detail(rows, userId, examId, catalog).Err? ==> r == Detail(rows, userId, examId, catalog)
    ensures r == Err(InProgress) <==> Detail(rows, userId, examId, catalog).Ok? && !IsSubmitted(Detail(rows, userId, examId, catalog).value.exam)
  {
    match Detail(rows, userId, examId, catalog)
    case Ok(d) => if IsSubmitted(d.exam) then Ok(d) else Err(InProgress)
    case Err(e) => Err(e)
  }

  /** The corrected `detail` reveals no answer key before submission, and
      after it answers exactly as `detail` does. */
  lemma SubmittedDetailHidesKey(rows: seq<Exam>, nextId: int, k: nat, catalog: seq<Question>)
    requires ExamTableInvariant(rows, nextId) && k < |rows|
    ensures var r := SubmittedDetail(rows, rows[k].userId, rows[k].id, catalog);
      && (!IsSubmitted(rows[k]) ==> r == Err(InProgress))
      && (IsSubmitted(rows[k]) ==> r == Detail(rows, rows[k].userId, rows[k].id, catalog) && r.Ok?)
  {
    FindExamUnique(rows, nextId, k);
  }

  /** `start` records the number of questions active when the exam begins,
      while `submit` scores against the catalog as it is when it ends: a
      question stored in between is scored but was not counted at the start. */
  lemma StoreBetweenStartAndSubmit(rows: seq<Question>, id: int, input: QuestionInput,
                                   examId: int, userId: int, startedAt: int, answers: map<int, int>)
    requires StoreRulesHold(input)
    ensures Results(Active(rows + [Created(id, input)]), answers).total
            == Started(examId, userId, startedAt, |Active(rows)|).totalQuestions + 1
  {
    assert (rows + [Created(id, input)])[..|rows|] == rows;
  }

  /** One exam, submitted by its owner, then again by its owner, and then by
      another user: the first succeeds, the second is refused as already
      submitted, the third as not the owner's. */
  method RepeatedSubmitExample() returns (first: Result<Report>, second: Result<Report>, third: Result<Report>)
    ensures first.Ok? && second == Err(AlreadySubmitted) && third == Err(Unauthorized)
  {
    var catalog := new QuestionTable();
    var exams := new ExamTable();
    var examId, startedAt := exams.Start(7, 100, catalog);
    assert FindExam(exams.rows, examId) == Some(0);
    assert 1 in map[1 := 2];
    assert AnswersRulesHold(map[1 := 2]);
    first := exams.Submit(7, examId, map[1 := 2], 130, catalog);
    assert FindExam(exams.rows, examId) == Some(0);
    second := exams.Submit(7, examId, map[1 := 2], 140, catalog);
    third := exams.Submit(8, examId, map[1 := 2], 150, catalog);
  }
}
