/** The scoring engine of `calculateResults`: one pass over the active
    questions with seven counters, then a percentage and a pass flag.
    Percentages are exact: integer hundredths of a percent, rounded half up. */
module Scoring {
  import opened Common
  import opened Catalog

  /** An exam passes at this percentage of correct answers. */
  const PassMark: nat := 65

  /** Score and total of one category. */
  datatype Tally = Tally(score: nat, total: nat)

  /** The result array of `calculateResults`; `percentage` is in hundredths
      (6667 stands for 66.67). */
  datatype Report = Report(
    correct: nat,
    total: nat,
    percentage: nat,
    twk: Tally,
    tiu: Tally,
    tkp: Tally,
    passed: bool)

  /** `$answers[$question->id] ?? null`. */
  function UserAnswer(answers: map<int, int>, id: int): Option<int> {
    if id in answers then Some(answers[id]) else None
  }

  /** The strict comparison `$userAnswer === $question->correct_answer`:
      a missing answer is null and never equals an integer. */
  predicate IsCorrect(answers: map<int, int>, q: Question) {
    UserAnswer(answers, q.id) == Some(q.correctAnswer)
  }

  /** How many of the questions carry category `c`. */
  function CategoryTotal(qs: seq<Question>, c: string): nat {
    if qs == [] then 0
    else CategoryTotal(qs[..|qs| - 1], c) + (if qs[|qs| - 1].category == c then 1 else 0)
  }

  /** How many questions of category `c` are answered correctly. */
  function CategoryScore(qs: seq<Question>, answers: map<int, int>, c: string): nat {
    if qs == [] then 0
    else
      var q := qs[|qs| - 1];
      CategoryScore(qs[..|qs| - 1], answers, c) + (if q.category == c && IsCorrect(answers, q) then 1 else 0)
  }

  /** How many questions are answered correctly. The loop increments its
      overall counter only inside the three category branches, so a question
      outside the enum never counts. */
  function CorrectCount(qs: seq<Question>, answers: map<int, int>): nat {
    if qs == [] then 0
    else
      var q := qs[|qs| - 1];
      CorrectCount(qs[..|qs| - 1], answers) + (if IsCategory(q.category) && IsCorrect(answers, q) then 1 else 0)
  }

  /** `round(($correct / $total) * 100, 2)`, or 0 without questions. The result
      is the nearest hundredth of the exact ratio, halves rounded up. */
  function Percentage(correct: nat, total: nat): (r: nat)
    ensures total == 0 ==> r == 0
    ensures total > 0 ==> -(total as int) <= 2 * (10000 * correct - r * total) < total
    ensures correct <= total ==> r <= 10000
  {
    if total == 0 then 0
    else
      var r := (20000 * correct + total) / (2 * total);
      DivisionBounds(20000 * correct + total, 2 * total);
      assert correct <= total ==> r <= 10000 by {
        if correct <= total {
          DivisionMonotone(20000 * correct + total, 20000 * total + total, 2 * total);
          DivisionUnique(20000 * total + total, 2 * total, 10000);
        }
      }
      r
  }

  lemma DivisionBounds(a: nat, b: nat)
    requires b > 0
    ensures b * (a / b) <= a < b * (a / b) + b
  {
  }

  lemma {:induction false} MulMonotone(b: nat, x: nat, y: nat)
    requires x <= y
    ensures b * x <= b * y
  {
    if x < y {
      MulMonotone(b, x, y - 1);
      assert b * (y - 1) + b == b * y;
    }
  }

  lemma DivisionUnique(a: nat, b: nat, q: nat)
    requires b > 0 && b * q <= a < b * q + b
    ensures a / b == q
  {
    DivisionBounds(a, b);
    var d := a / b;
    if d < q {
      MulMonotone(b, d + 1, q);
    } else if d > q {
      MulMonotone(b, q + 1, d);
    }
  }

  lemma DivisionMonotone(a: nat, a': nat, b: nat)
    requires b > 0 && a <= a'
    ensures a / b <= a' / b
  {
    DivisionBounds(a, b);
    DivisionBounds(a', b);
    var d, d' := a / b, a' / b;
    if d > d' {
      MulMonotone(b, d' + 1, d);
    }
  }

  /** `$percentage >= 65`, taken on the unrounded ratio; without questions
      the percentage is the integer 0, which fails. */
  predicate Passed(correct: nat, total: nat) {
    total > 0 && 100 * correct >= PassMark * total
  }

  /** The report `calculateResults` builds for the given active questions and
      submitted answers. */
  function Results(qs: seq<Question>, answers: map<int, int>): Report {
    var correct := CorrectCount(qs, answers);
    Report(correct, |qs|, Percentage(correct, |qs|),
           Tally(CategoryScore(qs, answers, "TWK"), CategoryTotal(qs, "TWK")),
           Tally(CategoryScore(qs, answers, "TIU"), CategoryTotal(qs, "TIU")),
           Tally(CategoryScore(qs, answers, "TKP"), CategoryTotal(qs, "TKP")),
           Passed(correct, |qs|))
  }

  /** `calculateResults`: the foreach loop over the active questions with its
      seven counters, then the percentage and the pass flag. */
  method CalculateResults(questions: seq<Question>, answers: map<int, int>) returns (r: Report)
    ensures r == Results(questions, answers)
  {
    var correct, twkScore, tiuScore, tkpScore, twkTotal, tiuTotal, tkpTotal := 0, 0, 0, 0, 0, 0, 0;
    var i := 0;
    while i < |questions|
      invariant 0 <= i <= |questions|
      invariant correct == CorrectCount(questions[..i], answers)
      invariant twkScore == CategoryScore(questions[..i], answers, "TWK")
      invariant tiuScore == CategoryScore(questions[..i], answers, "TIU")
      invariant tkpScore == CategoryScore(questions[..i], answers, "TKP")
      invariant twkTotal == CategoryTotal(questions[..i], "TWK")
      invariant tiuTotal == CategoryTotal(questions[..i], "TIU")
      invariant tkpTotal == CategoryTotal(questions[..i], "TKP")
    {
      var question := questions[i];
      var userAnswer := UserAnswer(answers, question.id);
      assert questions[..i + 1][..i] == questions[..i];
      if question.category == "TWK" {
        twkTotal := twkTotal + 1;
        if userAnswer == Some(question.correctAnswer) {
          twkScore := twkScore + 1;
          correct := correct + 1;
        }
      } else if question.category == "TIU" {
        tiuTotal := tiuTotal + 1;
        if userAnswer == Some(question.correctAnswer) {
          tiuScore := tiuScore + 1;
          correct := correct + 1;
        }
      } else if question.category == "TKP" {
        tkpTotal := tkpTotal + 1;
        if userAnswer == Some(question.correctAnswer) {
          tkpScore := tkpScore + 1;
          correct := correct + 1;
        }
      }
      i := i + 1;
    }
    assert questions[..i] == questions;
    var totalQuestions := |questions|;
    var passed := totalQuestions > 0 && 100 * correct >= PassMark * totalQuestions;
    r := Report(correct, totalQuestions, Percentage(correct, totalQuestions),
                Tally(twkScore, twkTotal), Tally(tiuScore, tiuTotal), Tally(tkpScore, tkpTotal), passed);
  }

  /** The three category scores add up to the overall correct count. */
  lemma {:induction false} ScoresSumToCorrect(qs: seq<Question>, answers: map<int, int>)
    ensures CategoryScore(qs, answers, "TWK") + CategoryScore(qs, answers, "TIU") + CategoryScore(qs, answers, "TKP")
            == CorrectCount(qs, answers)
  {
    if qs != [] {
      ScoresSumToCorrect(qs[..|qs| - 1], answers);
    }
  }

  /** No category scores more than it has questions. */
  lemma {:induction false} ScoreWithinTotal(qs: seq<Question>, answers: map<int, int>, c: string)
    ensures CategoryScore(qs, answers, c) <= CategoryTotal(qs, c)
  {
    if qs != [] {
      ScoreWithinTotal(qs[..|qs| - 1], answers, c);
    }
  }

  /** The three category totals never exceed the number of questions, and
      they add up to it exactly when every question is in the enum. */
  lemma {:induction false} TotalsCoverQuestions(qs: seq<Question>)
    ensures CategoryTotal(qs, "TWK") + CategoryTotal(qs, "TIU") + CategoryTotal(qs, "TKP") <= |qs|
    ensures CategoryTotal(qs, "TWK") + CategoryTotal(qs, "TIU") + CategoryTotal(qs, "TKP") == |qs|
            <==> forall i :: 0 <= i < |qs| ==> IsCategory(qs[i].category)
  {
    if qs != [] {
      var init := qs[..|qs| - 1];
      TotalsCoverQuestions(init);
      assert forall i :: 0 <= i < |init| ==> init[i] == qs[i];
    }
  }

  /** The correct count never exceeds the number of questions. */
  lemma {:induction false} CorrectWithinTotal(qs: seq<Question>, answers: map<int, int>)
    ensures CorrectCount(qs, answers) <= |qs|
  {
    if qs != [] {
      CorrectWithinTotal(qs[..|qs| - 1], answers);
    }
  }

  /** Everything a report promises about its own numbers. */
  lemma ReportConsistent(qs: seq<Question>, answers: map<int, int>)
    ensures var r := Results(qs, answers);
      && r.twk.score + r.tiu.score + r.tkp.score == r.correct
      && r.twk.score <= r.twk.total && r.tiu.score <= r.tiu.total && r.tkp.score <= r.tkp.total
      && r.correct <= r.total == |qs|
      && r.percentage <= 10000
      && (r.total == 0 ==> r.percentage == 0 && !r.passed)
      && (r.twk.total + r.tiu.total + r.tkp.total == r.total <==> forall i :: 0 <= i < |qs| ==> IsCategory(qs[i].category))
  {
    ScoresSumToCorrect(qs, answers);
    ScoreWithinTotal(qs, answers, "TWK");
    ScoreWithinTotal(qs, answers, "TIU");
    ScoreWithinTotal(qs, answers, "TKP");
    CorrectWithinTotal(qs, answers);
    TotalsCoverQuestions(qs);
  }

  /** With every question well formed (as the catalog keeps them), the
      categories account for every active question. */
  lemma TotalsMatchCatalog(qs: seq<Question>, answers: map<int, int>)
    requires forall i :: 0 <= i < |qs| ==> WellFormed(qs[i])
    ensures var r := Results(qs, answers); r.twk.total + r.tiu.total + r.tkp.total == r.total == |qs|
  {
    TotalsCoverQuestions(qs);
  }

  /** An empty answer map scores nothing: every question counts as wrong. */
  lemma {:induction false} NoAnswersNoScore(qs: seq<Question>)
    ensures CorrectCount(qs, map[]) == 0
    ensures Results(qs, map[]).percentage == 0 && !Results(qs, map[]).passed
  {
    if qs != [] {
      NoAnswersNoScore(qs[..|qs| - 1]);
    }
  }

  /** An answer outside 0..3 never matches a well-formed question. */
  lemma OutOfRangeAnswerIsWrong(answers: map<int, int>, q: Question)
    requires WellFormed(q) && q.id in answers && !IsAnswerIndex(answers[q.id])
    ensures !IsCorrect(answers, q)
  {
  }

  /** The pass flag and the rounded percentage: a pass always shows at least
      65.00, and a shown percentage below 65.00 is always a fail. */
  lemma PassShowsAtLeastMark(correct: nat, total: nat)
    ensures Passed(correct, total) ==> Percentage(correct, total) >= 100 * PassMark
    ensures Percentage(correct, total) < 100 * PassMark ==> !Passed(correct, total)
  {
    if Passed(correct, total) {
      var a := 20000 * correct + total;
      assert 2 * total * 6500 <= a;
      DivisionMonotone(2 * total * 6500, a, 2 * total);
      DivisionUnique(2 * total * 6500, 2 * total, 6500);
    }
  }

  /** The converse fails: 661 of 1017 shows as 65.00 but is not a pass,
      because the flag is taken on the unrounded 64.995...%. */
  lemma RoundedMarkIsNotAPass()
    ensures Percentage(661, 1017) == 6500 && !Passed(661, 1017)
  {
    DivisionUnique(20000 * 661 + 1017, 2 * 1017, 6500);
  }

  /** The counters after one more question. */
  lemma CountsSnoc(qs: seq<Question>, q: Question, answers: map<int, int>)
    ensures forall c :: CategoryTotal(qs + [q], c) == CategoryTotal(qs, c) + (if q.category == c then 1 else 0)
    ensures forall c :: CategoryScore(qs + [q], answers, c)
                        == CategoryScore(qs, answers, c) + (if q.category == c && IsCorrect(answers, q) then 1 else 0)
    ensures CorrectCount(qs + [q], answers)
            == CorrectCount(qs, answers) + (if IsCategory(q.category) && IsCorrect(answers, q) then 1 else 0)
  {
    assert (qs + [q])[..|qs|] == qs;
  }

  /** A question in the given category whose correct option is `k`. */
  function Sample(id: int, category: string, k: int): Question {
    Question(id, category, "?", ["A", "B", "C", "D"], k, true)
  }

  /** Three questions keyed 1, 2, 0 answered 1, 2, 3: two right, 66.67%, a pass. */
  lemma TwoOfThreeExample()
    ensures var r := Results([Sample(1, "TWK", 1), Sample(2, "TIU", 2), Sample(3, "TKP", 0)],
                             map[1 := 1, 2 := 2, 3 := 3]);
      r.correct == 2 && r.total == 3 && r.percentage == 6667 && r.passed
  {
    TwoOfThreeCount();
    assert Percentage(2, 3) == 6667 by {
      DivisionUnique(20000 * 2 + 3, 2 * 3, 6667);
    }
  }

  lemma TwoOfThreeCount()
    ensures CorrectCount([Sample(1, "TWK", 1), Sample(2, "TIU", 2), Sample(3, "TKP", 0)],
                         map[1 := 1, 2 := 2, 3 := 3]) == 2
  {
    var answers := map[1 := 1, 2 := 2, 3 := 3];
    var q1, q2, q3 := Sample(1, "TWK", 1), Sample(2, "TIU", 2), Sample(3, "TKP", 0);
    assert [q1, q2, q3][..2] == [q1, q2] && [q1, q2][..1] == [q1] && [q1][..0] == [];
    assert CorrectCount([q1], answers) == 1;
    assert CorrectCount([q1, q2], answers) == 2;
  }

  /** No answers against two questions: nothing right, 0.00%, a fail. */
  lemma EmptyAnswersExample()
    ensures var r := Results([Sample(1, "TWK", 1), Sample(2, "TIU", 2)], map[]);
      r.correct == 0 && r.total == 2 && r.percentage == 0 && !r.passed
  {
    NoAnswersNoScore([Sample(1, "TWK", 1), Sample(2, "TIU", 2)]);
  }

  /** Two of two TWK, none of one TIU, one of one TKP: three of four, 75.00%. */
  lemma ByCategoryExample()
    ensures var r := Results([Sample(1, "TWK", 0), Sample(2, "TWK", 3), Sample(3, "TIU", 1), Sample(4, "TKP", 2)],
                             map[1 := 0, 2 := 3, 3 := 0, 4 := 2]);
      && r.twk == Tally(2, 2) && r.tiu == Tally(0, 1) && r.tkp == Tally(1, 1)
      && r.correct == 3 && r.total == 4 && r.percentage == 7500 && r.passed
  {
    var answers := map[1 := 0, 2 := 3, 3 := 0, 4 := 2];
    var q1, q2, q3, q4 := Sample(1, "TWK", 0), Sample(2, "TWK", 3), Sample(3, "TIU", 1), Sample(4, "TKP", 2);
    CountsSnoc([], q1, answers);
    CountsSnoc([q1], q2, answers);
    CountsSnoc([q1, q2], q3, answers);
    CountsSnoc([q1, q2, q3], q4, answers);
    assert [] + [q1] == [q1] && [q1] + [q2] == [q1, q2] && [q1, q2] + [q3] == [q1, q2, q3];
    assert [q1, q2, q3] + [q4] == [q1, q2, q3, q4];
    DivisionUnique(20000 * 3 + 4, 2 * 4, 7500);
  }
}
