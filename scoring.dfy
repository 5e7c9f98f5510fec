/**
 * The scoring rule of the quiz service: which questions of a submission count as
 * answered correctly, and how the count becomes a percentage with two decimals.
 */
module Scoring {
  import opened Entities
  import opened Tables

  /**
   * `BigDecimal` division of `n` by `d` to zero fraction digits with `RoundingMode.HALF_UP`,
   * for non-negative operands: the whole number nearest to n/d, a tie rounding up.
   */
  function HalfUpDivide(n: nat, d: nat): (q: nat)
    requires d > 0
    ensures d * (2 * q - 1) <= 2 * n < d * (2 * q + 1)
  {
    var q := (2 * n + d) / (2 * d);
    assert 2 * d * q <= 2 * n + d < 2 * d * q + 2 * d;
    q
  }

  /** The rounding property determines the quotient: no other number satisfies it. */
  lemma HalfUpDivideUnique(n: nat, d: nat, q: nat)
    requires d > 0
    requires d * (2 * q - 1) <= 2 * n < d * (2 * q + 1)
    ensures q == HalfUpDivide(n, d)
  {
    var h := HalfUpDivide(n, d);
    if q < h {
      assert d * (2 * q + 1) <= d * (2 * h - 1) by {
        assert 2 * q + 1 <= 2 * h - 1;
        MultiplyMonotone(d, 2 * q + 1, 2 * h - 1);
      }
    } else if q > h {
      assert d * (2 * h + 1) <= d * (2 * q - 1) by {
        assert 2 * h + 1 <= 2 * q - 1;
        MultiplyMonotone(d, 2 * h + 1, 2 * q - 1);
      }
    }
  }

  lemma MultiplyMonotone(d: nat, a: int, b: int)
    requires a <= b
    ensures d * a <= d * b
  {
  }

  /**
   * The ratio correct/total divided as `BigDecimal`s to two places, rounding half-up, then
   * multiplied by 100: a whole percent, given here in hundredths.
   */
  function PercentScore(correct: nat, total: nat): (s: Score)
    requires total > 0
    ensures s % 100 == 0
    ensures total * (2 * (s / 100) - 1) <= 200 * correct < total * (2 * (s / 100) + 1)
    ensures correct <= total ==> s <= 10000
    ensures correct == 0 ==> s == 0
    ensures correct == total ==> s == 10000
  {
    var q := HalfUpDivide(100 * correct, total);
    RoundedPercentBounds(correct, total, q);
    100 * q
  }

  lemma RoundedPercentBounds(correct: nat, total: nat, q: nat)
    requires total > 0 && q == HalfUpDivide(100 * correct, total)
    ensures correct <= total ==> q <= 100
    ensures correct == 0 ==> q == 0
    ensures correct == total ==> q == 100
  {
    if correct <= total {
      MultiplyMonotone(200, correct, total);
      if q > 100 {
        MultiplyMonotone(total, 201, 2 * q - 1);
      }
    }
    if correct == 0 && q > 0 {
      MultiplyMonotone(total, 1, 2 * q - 1);
    }
    if correct == total {
      HalfUpDivideUnique(100 * correct, total, 100);
    }
  }

  /** `responseRepository.findByQuestionIdAndIsCorrectTrue(questionId)`, as a set of rows. */
  function CorrectResponses(responses: seq<Response>, questionId: int): set<Response>
  {
    set r | r in responses && r.questionId == questionId && r.isCorrect
  }

  /**
   * `responseRepository.findAllById(ids)`: the existing rows whose id occurs in `ids`;
   * repeated ids collapse and unknown ids contribute nothing.
   */
  function FindAllById(responses: seq<Response>, ids: seq<int>): set<Response>
  {
    set r | r in responses && r.id in ids
  }

  /** The row filter of `findByQuestionIdAndIsCorrectTrue`. */
  function CorrectFor(questionId: int): Response -> bool
  {
    (r: Response) => r.questionId == questionId && r.isCorrect
  }

  /** The row filter of `findAllById`. */
  function SelectedBy(ids: seq<int>): Response -> bool
  {
    (r: Response) => r.id in ids
  }

  /**
   * With unique response ids (the primary key), the sizes `calculateScore` compares are
   * the sizes of the row lists the two repository queries return: the question's correct
   * rows, and the rows whose id occurs in the submission, each row once.
   */
  lemma RowListSizes(responses: seq<Response>, questionId: int, ids: seq<int>)
    requires forall i, j :: 0 <= i < j < |responses| ==> responses[i].id != responses[j].id
    ensures |CorrectResponses(responses, questionId)| == |Filter(responses, CorrectFor(questionId))|
    ensures |FindAllById(responses, ids)| == |Filter(responses, SelectedBy(ids))|
  {
    assert forall i, j :: 0 <= i < j < |responses| ==> responses[i] != responses[j];
    FilterSetCardinality(responses, CorrectFor(questionId));
    FilterSetCardinality(responses, SelectedBy(ids));
    assert CorrectResponses(responses, questionId) == MatchingSet(responses, CorrectFor(questionId));
    assert FindAllById(responses, ids) == MatchingSet(responses, SelectedBy(ids));
  }

  /**
   * The per-question test of `calculateScore`, as written: the question's correct set has
   * as many rows as the WHOLE selection, every selected row is correct, and every selected
   * row belongs to the question. The selection is not narrowed to the question.
   */
  predicate IsAnsweredCorrectly(responses: seq<Response>, question: Question, selected: set<Response>)
  {
    && |CorrectResponses(responses, question.id)| == |selected|
    && (forall r :: r in selected ==> r.isCorrect)
    && (forall r :: r in selected ==> r.questionId == question.id)
  }
  /**
   * The rule on the two row lists `calculateScore` fetches agrees with the rule on sets,
   * when response ids are unique.
   */
  lemma ListRuleIsSetRule(responses: seq<Response>, question: Question, ids: seq<int>)
    requires forall i, j :: 0 <= i < j < |responses| ==> responses[i].id != responses[j].id
    ensures var correctRows := Filter(responses, CorrectFor(question.id));
            var selectedRows := Filter(responses, SelectedBy(ids));
            (&& |correctRows| == |selectedRows|
             && (forall r :: r in selectedRows ==> r.isCorrect)
             && (forall r :: r in selectedRows ==> r.questionId == question.id))
            == IsAnsweredCorrectly(responses, question, FindAllById(responses, ids))
  {
    RowListSizes(responses, question.id, ids);
  }


  /** How many of `questions` count as answered correctly, the counter of `calculateScore`. */
  function CountCorrect(questions: seq<Question>, responses: seq<Response>, selected: set<Response>): (n: nat)
    ensures n <= |questions|
  {
    if questions == [] then 0
    else
      var last := questions[|questions| - 1];
      CountCorrect(questions[..|questions| - 1], responses, selected)
        + (if IsAnsweredCorrectly(responses, last, selected) then 1 else 0)
  }
  /** Counting one more question of the list adds that question's verdict. */
  lemma CountCorrectStep(questions: seq<Question>, i: nat, responses: seq<Response>, selected: set<Response>)
    requires i < |questions|
    ensures CountCorrect(questions[..i + 1], responses, selected)
            == CountCorrect(questions[..i], responses, selected)
               + (if IsAnsweredCorrectly(responses, questions[i], selected) then 1 else 0)
  {
    var prefix := questions[..i + 1];
    assert prefix[..i] == questions[..i] && prefix[i] == questions[i];
  }


  /**
   * The score `calculateScore` returns for the questions of a quiz and the submitted
   * response ids: zero for a quiz without questions, otherwise the rounded percentage.
   */
  function SubmissionScore(questions: seq<Question>, responses: seq<Response>, selectedIds: seq<int>): (s: Score)
    ensures s % 100 == 0 && s <= 10000
    ensures questions == [] ==> s == 0
  {
    if |questions| == 0 then 0
    else PercentScore(CountCorrect(questions, responses, FindAllById(responses, selectedIds)), |questions|)
  }

  /** A subset with as many elements as its superset is the superset. */
  lemma SubsetOfEqualSize<T>(a: set<T>, b: set<T>)
    requires a <= b && |a| == |b|
    ensures a == b
  {
    if a != b {
      var x :| x in b && x !in a;
      assert a <= b - {x};
      assert |b - {x}| == |b| - 1;
      SubsetCardinality(a, b - {x});
    }
  }

  lemma {:induction false} SubsetCardinality<T>(a: set<T>, b: set<T>)
    requires a <= b
    ensures |a| <= |b|
  {
    if a != {} {
      var x :| x in a;
      SubsetCardinality(a - {x}, b - {x});
    }
  }

  /**
   * For a selection drawn from the table, the rule accepts a question exactly when the
   * selection IS that question's correct set: no missing, extra or foreign response.
   */
  lemma AnsweredCorrectlyIffExactSelection(responses: seq<Response>, question: Question, selected: set<Response>)
    requires forall r :: r in selected ==> r in responses
    ensures IsAnsweredCorrectly(responses, question, selected) <==> selected == CorrectResponses(responses, question.id)
  {
    var c := CorrectResponses(responses, question.id);
    if IsAnsweredCorrectly(responses, question, selected) {
      assert selected <= c;
      SubsetOfEqualSize(selected, c);
    }
  }

  /** With an empty selection, exactly the questions without any correct response count. */
  lemma EmptySelectionRule(responses: seq<Response>, question: Question)
    ensures IsAnsweredCorrectly(responses, question, {}) <==> CorrectResponses(responses, question.id) == {}
  {
  }

  /** No question counts exactly when the counter stays zero. */
  lemma {:induction false} CountCorrectZero(questions: seq<Question>, responses: seq<Response>, selected: set<Response>)
    ensures CountCorrect(questions, responses, selected) == 0
        <==> forall i :: 0 <= i < |questions| ==> !IsAnsweredCorrectly(responses, questions[i], selected)
  {
    if questions != [] {
      var init := questions[..|questions| - 1];
      CountCorrectZero(init, responses, selected);
      assert forall i :: 0 <= i < |init| ==> init[i] == questions[i];
    }
  }

  /** Every question counts exactly when the counter reaches the number of questions. */
  lemma {:induction false} CountCorrectAll(questions: seq<Question>, responses: seq<Response>, selected: set<Response>)
    ensures CountCorrect(questions, responses, selected) == |questions|
        <==> forall i :: 0 <= i < |questions| ==> IsAnsweredCorrectly(responses, questions[i], selected)
  {
    if questions != [] {
      var init := questions[..|questions| - 1];
      CountCorrectAll(init, responses, selected);
      assert forall i :: 0 <= i < |init| ==> init[i] == questions[i];
    }
  }

  /**
   * Because the whole selection is tested against every question, a non-empty selection
   * makes at most one question (of a quiz whose question ids differ) count as correct.
   */
  lemma {:induction false} AtMostOneCorrectWhenSelected(questions: seq<Question>, responses: seq<Response>, selected: set<Response>)
    requires selected != {}
    requires forall i, j :: 0 <= i < j < |questions| ==> questions[i].id != questions[j].id
    ensures CountCorrect(questions, responses, selected) <= 1
  {
    if questions != [] {
      var n := |questions| - 1;
      var init := questions[..n];
      if IsAnsweredCorrectly(responses, questions[n], selected) {
        var r :| r in selected;
        forall i | 0 <= i < |init| ensures !IsAnsweredCorrectly(responses, init[i], selected) {
          assert init[i] == questions[i];
          assert r.questionId == questions[n].id;
        }
        CountCorrectZero(init, responses, selected);
      } else {
        AtMostOneCorrectWhenSelected(init, responses, selected);
      }
    }
  }

  /**
   * A selection that spans two questions makes no question count, so such a submission
   * scores zero however many of its answers are right.
   */
  lemma MixedSelectionScoresZero(questions: seq<Question>, responses: seq<Response>, selectedIds: seq<int>, r1: Response, r2: Response)
    requires r1 in FindAllById(responses, selectedIds) && r2 in FindAllById(responses, selectedIds)
    requires r1.questionId != r2.questionId
    ensures SubmissionScore(questions, responses, selectedIds) == 0
  {
    var selected := FindAllById(responses, selectedIds);
    CountCorrectZero(questions, responses, selected);
  }

  /**
   * A quiz of two questions: question 1 has correct responses 10 and 11 (and a wrong 12),
   * question 2 has correct response 20 (and a wrong 21).
   */
  const ExampleQuestions: seq<Question> := [Question(1, 7, "Q1"), Question(2, 7, "Q2")]
  const ExampleResponses: seq<Response> := [
    Response(10, 1, "a", true, 0), Response(11, 1, "b", true, 0), Response(12, 1, "c", false, 0),
    Response(20, 2, "d", true, 0), Response(21, 2, "e", false, 0)]

  /**
   * Because the whole selection is compared with each question, selecting every correct
   * answer of the example, [10, 11, 20], scores 0, and so does [10, 20].
   */
  lemma ExampleFullAnswerScoresZero()
    ensures SubmissionScore(ExampleQuestions, ExampleResponses, [10, 11, 20]) == 0
    ensures SubmissionScore(ExampleQuestions, ExampleResponses, [10, 20]) == 0
  {
    var r10, r20 := ExampleResponses[0], ExampleResponses[3];
    assert r10 in FindAllById(ExampleResponses, [10, 11, 20]) && r20 in FindAllById(ExampleResponses, [10, 11, 20]);
    MixedSelectionScoresZero(ExampleQuestions, ExampleResponses, [10, 11, 20], r10, r20);
    assert r10 in FindAllById(ExampleResponses, [10, 20]) && r20 in FindAllById(ExampleResponses, [10, 20]);
    MixedSelectionScoresZero(ExampleQuestions, ExampleResponses, [10, 20], r10, r20);
  }

  /** The empty selection scores 0 on the example: both questions have correct responses. */
  lemma ExampleEmptySelectionScoresZero()
    ensures SubmissionScore(ExampleQuestions, ExampleResponses, []) == 0
  {
    assert FindAllById(ExampleResponses, []) == {};
    assert ExampleResponses[0] in CorrectResponses(ExampleResponses, 1);
    assert ExampleResponses[3] in CorrectResponses(ExampleResponses, 2);
    CountCorrectZero(ExampleQuestions, ExampleResponses, {});
  }

  /** Selecting exactly question 1's correct set, [10, 11], makes one of two questions count: 50.00. */
  lemma ExampleOneQuestionScoresHalf()
    ensures SubmissionScore(ExampleQuestions, ExampleResponses, [10, 11]) == 5000
  {
    var rs := ExampleResponses;
    var pair := FindAllById(rs, [10, 11]);
    assert pair == {rs[0], rs[1]};
    assert CorrectResponses(rs, 1) == {rs[0], rs[1]};
    assert rs[3] in CorrectResponses(rs, 2) && rs[0] !in CorrectResponses(rs, 2);
    assert IsAnsweredCorrectly(rs, ExampleQuestions[0], pair);
    assert !IsAnsweredCorrectly(rs, ExampleQuestions[1], pair);
    assert ExampleQuestions[..1] == [ExampleQuestions[0]];
    assert CountCorrect(ExampleQuestions, rs, pair) == 1;
    HalfUpDivideUnique(100, 2, 50);
  }
}
