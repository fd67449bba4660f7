/** The self-contained logic of the React client: the `formatTime` clock
    display and the state of the exam page (answers, navigation, countdown,
    submit trigger, resets on start and logout), plus the answer review. */
module Client {
  import opened Common
  import opened Catalog
  import Scoring
  import Exams

  /** The length of an exam in seconds. */
  const ExamSeconds: nat := 3600

  predicate IsDigit(c: char) {
    '0' <= c <= '9'
  }

  predicate AllDigits(s: string) {
    forall i :: 0 <= i < |s| ==> IsDigit(s[i])
  }

  function DigitChar(d: nat): (c: char)
    requires d < 10
    ensures IsDigit(c)
  {
    "0123456789"[d]
  }

  function DigitValue(c: char): nat
    requires IsDigit(c)
  {
    c as int - '0' as int
  }

  /** `n.toString()`: the decimal digits of `n`, without leading zeros. */
  function Decimal(n: nat): (s: string)
    ensures |s| >= 1 && AllDigits(s)
    ensures n > 0 ==> s[0] != '0'
  {
    if n < 10 then [DigitChar(n)] else Decimal(n / 10) + [DigitChar(n % 10)]
  }

  /** The number a string of decimal digits denotes. */
  function ValueOf(s: string): nat
    requires AllDigits(s)
  {
    if s == [] then 0 else 10 * ValueOf(s[..|s| - 1]) + DigitValue(s[|s| - 1])
  }

  /** Reading back the digits printed for `n` gives `n`. */
  lemma {:induction false} ValueOfDecimal(n: nat)
    ensures ValueOf(Decimal(n)) == n
  {
    var s := Decimal(n);
    if n >= 10 {
      ValueOfDecimal(n / 10);
      assert s[..|s| - 1] == Decimal(n / 10);
    }
  }

  /** A leading zero does not change the value. */
  lemma {:induction false} LeadingZero(s: string)
    requires AllDigits(s)
    ensures AllDigits("0" + s) && ValueOf("0" + s) == ValueOf(s)
  {
    if s != [] {
      LeadingZero(s[..|s| - 1]);
      assert ("0" + s)[..|s|] == "0" + s[..|s| - 1];
    }
  }

  /** One digit below 10, two below 100, three or more from 100 on. */
  lemma {:induction false} DecimalLength(n: nat)
    ensures n < 10 <==> |Decimal(n)| == 1
    ensures 10 <= n < 100 <==> |Decimal(n)| == 2
  {
    if n >= 10 {
      DecimalLength(n / 10);
    }
  }

  /** `toString().padStart(2, '0')`. */
  function Pad2(n: nat): (s: string)
    ensures AllDigits(s) && ValueOf(s) == n
    ensures n < 100 ==> |s| == 2
    ensures n >= 100 ==> |s| > 2 && s == Decimal(n)
  {
    var d := Decimal(n);
    ValueOfDecimal(n);
    DecimalLength(n);
    if |d| < 2 then LeadingZero(d); "0" + d else d
  }

  /** The hours, minutes and seconds fields of `formatTime`. */
  function Fields(seconds: nat): (f: (nat, nat, nat))
    ensures f.0 * 3600 + f.1 * 60 + f.2 == seconds
    ensures f.1 < 60 && f.2 < 60
  {
    var h, rest := seconds / 3600, seconds % 3600;
    assert seconds % 60 == rest % 60 by {
      assert seconds == 3600 * h + rest;
      assert seconds == 60 * (60 * h) + rest;
    }
    (h, rest / 60, seconds % 60)
  }

  /** Those are the only fields with that sum and those bounds. */
  lemma FieldsUnique(seconds: nat, h: nat, m: nat, s: nat)
    requires h * 3600 + m * 60 + s == seconds && m < 60 && s < 60
    ensures Fields(seconds) == (h, m, s)
  {
    var f := Fields(seconds);
    assert 0 <= m * 60 + s < 3600;
    assert 0 <= f.1 * 60 + f.2 < 3600;
    assert f.0 == h;
    assert m * 60 + s == f.1 * 60 + f.2;
  }

  /** `formatTime(seconds)`: `HH:MM:SS`, each field at least two digits. */
  function FormatTime(seconds: nat): string {
    var f := Fields(seconds);
    Pad2(f.0) + ":" + Pad2(f.1) + ":" + Pad2(f.2)
  }

  /** Reads a `formatTime` display back into seconds; `None` for any string
      of another shape. */
  function ParseTime(t: string): Option<nat> {
    var n := |t|;
    if n < 8 || t[n - 3] != ':' || t[n - 6] != ':' then None
    else if !AllDigits(t[..n - 6]) || !AllDigits(t[n - 5..n - 3]) || !AllDigits(t[n - 2..]) then None
    else Some(ValueOf(t[..n - 6]) * 3600 + ValueOf(t[n - 5..n - 3]) * 60 + ValueOf(t[n - 2..]))
  }

  /** The display is always `H…H:MM:SS`: minutes and seconds exactly two
      digits, and hours two digits exactly below 100 hours (360000 s); from
      then on the hours field grows instead of being cut. */
  lemma FormatTimeShape(seconds: nat)
    ensures var t := FormatTime(seconds);
      && |t| >= 8 && t[|t| - 3] == ':' && t[|t| - 6] == ':'
      && (|t| == 8 <==> seconds < 360000)
  {
    var f := Fields(seconds);
    assert f.0 < 100 <==> seconds < 360000;
  }

  /** The display determines the time: reading it back gives `seconds`. */
  lemma FormatTimeRoundTrip(seconds: nat)
    ensures ParseTime(FormatTime(seconds)) == Some(seconds)
  {
    var f := Fields(seconds);
    var h, m, s := Pad2(f.0), Pad2(f.1), Pad2(f.2);
    var t := FormatTime(seconds);
    assert t == h + ":" + m + ":" + s;
    var n := |t|;
    assert t[..n - 6] == h;
    assert t[n - 5..n - 3] == m;
    assert t[n - 2..] == s;
  }

  /** Worked examples: one hour, zero, and a hundred hours. */
  lemma FormatTimeExamples()
    ensures FormatTime(3600) == "01:00:00"
    ensures FormatTime(0) == "00:00:00"
    ensures FormatTime(360000) == "100:00:00"
  {
    var zero, one := Pad2(0), Pad2(1);
    assert zero == "00" && one == "01";
    var hundred := Pad2(100);
    assert hundred == "100" by {
      assert Decimal(10) == "10";
      assert Decimal(100) == Decimal(10) + "0";
    }
    FieldsUnique(3600, 1, 0, 0);
    assert FormatTime(3600) == one + ":" + zero + ":" + zero;
    FieldsUnique(0, 0, 0, 0);
    assert FormatTime(0) == zero + ":" + zero + ":" + zero;
    FieldsUnique(360000, 100, 0, 0);
    assert FormatTime(360000) == hundred + ":" + zero + ":" + zero;
  }

  /** The ids of a question list. */
  function IdSet(qs: seq<PublicQuestion>): (ids: set<int>)
    ensures forall i :: 0 <= i < |qs| ==> qs[i].id in ids
    ensures forall x :: x in ids ==> exists i :: 0 <= i < |qs| && qs[i].id == x
  {
    if qs == [] then {} else IdSet(qs[..|qs| - 1]) + {qs[|qs| - 1].id}
  }

  predicate DistinctIds(qs: seq<PublicQuestion>) {
    forall i, j :: 0 <= i < j < |qs| ==> qs[i].id != qs[j].id
  }

  /** How many of the questions have an entry in the answer map. */
  function CountAnswered(qs: seq<PublicQuestion>, answers: map<int, int>): nat {
    if qs == [] then 0
    else CountAnswered(qs[..|qs| - 1], answers) + (if qs[|qs| - 1].id in answers then 1 else 0)
  }

  /** `examQuestions.length - answeredCount` with `answeredCount =
      Object.keys(answers).length`. */
  function UnansweredShown(qs: seq<PublicQuestion>, answers: map<int, int>): int {
    |qs| - |answers.Keys|
  }

  lemma {:induction false} CountAnsweredIsOverlap(qs: seq<PublicQuestion>, answers: map<int, int>)
    requires DistinctIds(qs)
    ensures CountAnswered(qs, answers) == |answers.Keys * IdSet(qs)|
  {
    if qs != [] {
      var init, q := qs[..|qs| - 1], qs[|qs| - 1];
      CountAnsweredIsOverlap(init, answers);
      assert q.id !in IdSet(init);
      OverlapWithOneMore(answers.Keys, IdSet(init), q.id);
    }
  }

  lemma OverlapWithOneMore(k: set<int>, a: set<int>, x: int)
    requires x !in a
    ensures |k * (a + {x})| == |k * a| + (if x in k then 1 else 0)
  {
    if x in k {
      assert k * (a + {x}) == (k * a) + {x};
    } else {
      assert k * (a + {x}) == k * a;
    }
  }

  /** When only questions on the page have been answered, the warning counts
      exactly the questions without an answer, so it is never negative. */
  lemma UnansweredShownIsExact(qs: seq<PublicQuestion>, answers: map<int, int>)
    requires DistinctIds(qs) && answers.Keys <= IdSet(qs)
    ensures UnansweredShown(qs, answers) == |qs| - CountAnswered(qs, answers) >= 0
  {
    CountAnsweredIsOverlap(qs, answers);
    assert answers.Keys * IdSet(qs) == answers.Keys;
    CountAnsweredAtMost(qs, answers);
  }

  lemma {:induction false} CountAnsweredAtMost(qs: seq<PublicQuestion>, answers: map<int, int>)
    ensures CountAnswered(qs, answers) <= |qs|
  {
    if qs != [] {
      CountAnsweredAtMost(qs[..|qs| - 1], answers);
    }
  }

  /** The review mark as written: it compares with `q.correctAnswer`, a field
      the question listing does not carry, so both sides are `undefined`
      exactly when the question is unanswered. */
  function ReviewMarkAsWritten(answers: map<int, int>, q: PublicQuestion): (correct: bool)
    ensures correct <==> q.id !in answers
  {
    var missingField: Option<int> := None;
    Scoring.UserAnswer(answers, q.id) == missingField
  }

  /** An answered question with the right option is shown wrong, and an
      unanswered one is shown right. */
  lemma ReviewAsWrittenInverts()
    ensures var q := Question(1, "TWK", "?", ["A", "B", "C", "D"], 2, true);
      && Scoring.IsCorrect(map[1 := 2], q) && !ReviewMarkAsWritten(map[1 := 2], Summary(q))
      && !Scoring.IsCorrect(map[], q) && ReviewMarkAsWritten(map[], Summary(q))
  {
  }

  /** The review mark as intended: strict equality of the chosen option with
      the answer key, which the client can only take from `detail`. */
  function ReviewMark(answers: map<int, int>, q: Question): (correct: bool)
    ensures correct <==> q.id in answers && answers[q.id] == q.correctAnswer
  {
    Scoring.IsCorrect(answers, q)
  }

  /** The intended review marks the same questions the server's `detail`
      marks. */
  lemma ReviewMarksAgreeWithServer(qs: seq<Question>, answers: map<int, int>)
    ensures forall i :: 0 <= i < |qs| ==> ReviewMark(answers, qs[i]) == Exams.Reviews(qs, answers)[i].isCorrect
  {
  }

  /** The `examState` of the exam page together with the loaded `questions`. */
  class ExamPage {
    var questions: seq<PublicQuestion>
    var isActive: bool
    var examId: Option<int>
    var currentQuestion: int
    var answers: map<int, int>
    var timeRemaining: int
    var startTime: Option<int>

    /** The timer stays in 0..3600, the current question is a valid
      position (0 while there are no questions), and only questions on the
      page carry answers. */
    ghost predicate Valid()
      reads this
    {
      && 0 <= timeRemaining <= ExamSeconds
      && 0 <= currentQuestion
      && (|questions| == 0 ==> currentQuestion == 0)
      && (|questions| > 0 ==> currentQuestion < |questions|)
      && answers.Keys <= IdSet(questions)
    }

    /** The initial state of `useState`. */
    constructor ()
      ensures Valid()
      ensures questions == [] && !isActive && examId == None && currentQuestion == 0
      ensures answers == map[] && timeRemaining == ExamSeconds && startTime == None
    {
      questions := [];
      isActive := false;
      examId := None;
      currentQuestion := 0;
      answers := map[];
      timeRemaining := ExamSeconds;
      startTime := None;
    }

    /** `handleStartExam` after both requests succeed: the loaded questions and
      a fresh active state. */
    method StartExam(id: int, startedAt: int, loaded: seq<PublicQuestion>)
      requires Valid()
      modifies this
      ensures Valid()
      ensures questions == loaded && isActive && examId == Some(id) && currentQuestion == 0
      ensures answers == map[] && timeRemaining == ExamSeconds && startTime == Some(startedAt)
    {
      questions := loaded;
      isActive, examId, currentQuestion := true, Some(id), 0;
      answers, timeRemaining, startTime := map[], ExamSeconds, Some(startedAt);
    }

    /** `handleAnswerSelect`: records or overwrites one answer; the page only
      passes the id of the question on display. */
    method HandleAnswerSelect(questionId: int, answerIndex: int)
      requires Valid() && questionId in IdSet(questions)
      modifies this`answers
      ensures Valid()
      ensures answers == old(answers)[questionId := answerIndex]
      ensures questionId in answers && answers[questionId] == answerIndex
      ensures forall id :: id != questionId ==> (id in answers <==> id in old(answers))
      ensures forall id :: id != questionId && id in answers ==> answers[id] == old(answers)[id]
    {
      answers := answers[questionId := answerIndex];
    }

    /** "Previous": `Math.max(0, currentQuestion - 1)`. */
    method Previous()
      requires Valid()
      modifies this`currentQuestion
      ensures Valid()
      ensures currentQuestion == if old(currentQuestion) - 1 > 0 then old(currentQuestion) - 1 else 0
    {
      var prev := currentQuestion - 1;
      currentQuestion := if 0 > prev then 0 else prev;
    }

    /** "Next": `Math.min(length - 1, currentQuestion + 1)`; the button is only
      shown when there is a next question, so the list is not empty. */
    method Next()
      requires Valid() && |questions| > 0
      modifies this`currentQuestion
      ensures Valid()
      ensures currentQuestion == if old(currentQuestion) + 1 < |questions| - 1 then old(currentQuestion) + 1 else |questions| - 1
    {
      var next := currentQuestion + 1;
      currentQuestion := if |questions| - 1 < next then |questions| - 1 else next;
    }

    /** A numbered button of the question strip. */
    method JumpTo(idx: int)
      requires Valid() && 0 <= idx < |questions|
      modifies this`currentQuestion
      ensures Valid() && currentQuestion == idx
    {
      currentQuestion := idx;
    }

    /** One run of the countdown effect: while active with time left, one
      second is taken off; at zero while active, submit is triggered. */
    method Tick() returns (triggerSubmit: bool)
      requires Valid()
      modifies this`timeRemaining
      ensures Valid()
      ensures triggerSubmit <==> isActive && old(timeRemaining) == 0
      ensures timeRemaining == if isActive && old(timeRemaining) > 0 then old(timeRemaining) - 1 else old(timeRemaining)
    {
      triggerSubmit := false;
      if isActive && timeRemaining > 0 {
        timeRemaining := timeRemaining - 1;
      } else if isActive && timeRemaining == 0 {
        triggerSubmit := true;
      }
    }

    /** The guard of `handleSubmitExam`: no request without an exam id (0 is
      falsy too). Otherwise the request carries the id and the answers. */
    method SubmitRequest() returns (request: Option<(int, map<int, int>)>)
      ensures request.None? <==> examId.None? || examId == Some(0)
      ensures request.Some? ==> request.value == (examId.value, answers)
    {
      if examId.None? || examId.value == 0 {
        return None;
      }
      request := Some((examId.value, answers));
    }

    /** `handleSubmitExam` after the server accepted: the exam stops. */
    method SubmitSucceeded()
      requires Valid()
      modifies this`isActive
      ensures Valid() && !isActive
    {
      isActive := false;
    }

    /** `handleLogout`: the exam state back to its initial values; the loaded
      question list is not cleared. */
    method Logout()
      requires Valid()
      modifies this
      ensures Valid()
      ensures questions == old(questions) && !isActive && examId == None && currentQuestion == 0
      ensures answers == map[] && timeRemaining == ExamSeconds && startTime == None
    {
      isActive, examId, currentQuestion := false, None, 0;
      answers, timeRemaining, startTime := map[], ExamSeconds, None;
    }

    /** `answeredCount`. */
    function AnsweredCount(): (n: nat)
      reads this
      ensures n == 0 <==> answers == map[]
    {
      assert |answers.Keys| == 0 ==> answers == map[] by {
        if |answers.Keys| == 0 {
          assert answers.Keys == {};
        }
      }
      |answers.Keys|
    }

    /** The count in the warning above the submit button; with distinct
      question ids it is exactly the number of unanswered questions. */
    function UnansweredCount(): (n: int)
      reads this
      requires Valid()
      ensures DistinctIds(questions) ==> n == |questions| - CountAnswered(questions, answers) && n >= 0
    {
      var n := UnansweredShown(questions, answers);
      if DistinctIds(questions) then UnansweredShownIsExact(questions, answers); n else n
    }

    /** The review of the finished exam against the answer key. */
    function Review(key: seq<Question>): (marks: seq<bool>)
      reads this
      ensures |marks| == |key|
      ensures forall i :: 0 <= i < |key| ==> marks[i] == Exams.Reviews(key, answers)[i].isCorrect
    {
      var chosen := answers;
      seq(|key|, i requires 0 <= i < |key| => ReviewMark(chosen, key[i]))
    }
  }
}
