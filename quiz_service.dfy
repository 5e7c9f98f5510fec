/**
 * The quiz service: authoring rules (ownership, unique join codes) and the participation
 * and scoring engine, over in-memory tables of quizzes, questions, responses and
 * participations. Each method is one call of the service, executed atomically.
 */
module Quizzes {
  import opened Wrappers
  import opened Tables
  import opened Entities
  import Scoring
  import opened QuizCodes

  /** Primary keys and join codes differ from row to row. */
  predicate QuizRowsDistinct(a: Quiz, b: Quiz) { a.id != b.id && a.code != b.code }
  predicate QuestionRowsDistinct(a: Question, b: Question) { a.id != b.id }
  predicate ResponseRowsDistinct(a: Response, b: Response) { a.id != b.id }

  /** Distinct keys, and never two rows of one quiz for the same user or the same guest. */
  predicate ParticipationRowsDistinct(a: Participation, b: Participation)
  {
    && a.id != b.id
    && (a.quizId == b.quizId && a.userId.Some? ==> a.userId != b.userId)
    && (a.quizId == b.quizId && a.guestId.Some? ==> a.guestId != b.guestId)
  }

  /** The ownership test: the caller's id equals the quiz's owner; a null caller owns nothing. */
  predicate IsOwner(quiz: Quiz, professorId: Option<int>)
  {
    professorId == Some(quiz.professorId)
  }

  /** The ids of a quiz table. */
  function IdsOf(quizzes: seq<Quiz>): set<int>
  {
    set z | z in quizzes :: z.id
  }

  /** Removing the rows of one quiz id keeps every other id of the table. */
  lemma KeptIds(before: seq<Quiz>, after: seq<Quiz>, quizId: int)
    requires forall z :: z in after <==> z in before && z.id != quizId
    ensures forall id :: id in IdsOf(before) && id != quizId ==> id in IdsOf(after)
  {
    forall id | id in IdsOf(before) && id != quizId ensures id in IdsOf(after) {
      var z :| z in before && z.id == id;
      assert z in after;
    }
  }

  /**
   * The service's invariant on its tables: unique ids (and codes, and one participation
   * per quiz and identity), ids below the identity counters, and questions and
   * participations referring to existing quizzes.
   */
  ghost predicate TablesValid(quizzes: seq<Quiz>, questions: seq<Question>, responses: seq<Response>,
                              participations: seq<Participation>, nextQuizId: nat, nextQuestionId: nat,
                              nextResponseId: nat, nextParticipationId: nat)
  {
    && Pairwise(quizzes, QuizRowsDistinct)
    && Pairwise(questions, QuestionRowsDistinct)
    && Pairwise(responses, ResponseRowsDistinct)
    && Pairwise(participations, ParticipationRowsDistinct)
    && (forall z :: z in quizzes ==> z.id < nextQuizId)
    && (forall q :: q in questions ==> q.id < nextQuestionId)
    && (forall r :: r in responses ==> r.id < nextResponseId)
    && (forall p :: p in participations ==> p.id < nextParticipationId)
    && (forall q :: q in questions ==> q.quizId in IdsOf(quizzes))
    && (forall p :: p in participations ==> p.quizId in IdsOf(quizzes))
  }

  /** Deleting a quiz together with its questions and participations keeps the invariant. */
  lemma RemovalKeepsTablesValid(quizzes: seq<Quiz>, questions: seq<Question>, responses: seq<Response>,
                                participations: seq<Participation>, nextQuizId: nat, nextQuestionId: nat,
                                nextResponseId: nat, nextParticipationId: nat, quizId: int)
    requires TablesValid(quizzes, questions, responses, participations,
                         nextQuizId, nextQuestionId, nextResponseId, nextParticipationId)
    ensures TablesValid(Filter(quizzes, (z: Quiz) => z.id != quizId),
                        Filter(questions, (q: Question) => q.quizId != quizId),
                        responses,
                        Filter(participations, (p: Participation) => p.quizId != quizId),
                        nextQuizId, nextQuestionId, nextResponseId, nextParticipationId)
  {
    var keepQuiz := (z: Quiz) => z.id != quizId;
    var keepQuestion := (q: Question) => q.quizId != quizId;
    var keepParticipation := (p: Participation) => p.quizId != quizId;
    FilterPairwise(quizzes, keepQuiz, QuizRowsDistinct);
    FilterPairwise(questions, keepQuestion, QuestionRowsDistinct);
    FilterPairwise(participations, keepParticipation, ParticipationRowsDistinct);
    KeptIds(quizzes, Filter(quizzes, keepQuiz), quizId);
  }

  class QuizService {
    var quizzes: seq<Quiz>
    var questions: seq<Question>
    var responses: seq<Response>
    var participations: seq<Participation>
    /** The identity columns' next values. */
    var nextQuizId: nat
    var nextQuestionId: nat
    var nextResponseId: nat
    var nextParticipationId: nat

    ghost predicate Valid()
      reads this
    {
      TablesValid(quizzes, questions, responses, participations,
                  nextQuizId, nextQuestionId, nextResponseId, nextParticipationId)
    }

    constructor ()
      ensures Valid()
      ensures quizzes == [] && questions == [] && responses == [] && participations == []
    {
      quizzes, questions, responses, participations := [], [], [], [];
      nextQuizId, nextQuestionId, nextResponseId, nextParticipationId := 1, 1, 1, 1;
    }

    // ----- Repository queries -----

    function QuizIds(): set<int>
      reads this
    {
      IdsOf(quizzes)
    }

    /** `quizRepository.findById`. */
    function QuizById(quizId: int): (r: Option<Quiz>)
      reads this
      ensures r.Some? ==> r.value in quizzes && r.value.id == quizId
      ensures r.None? <==> quizId !in QuizIds()
    {
      Find(quizzes, (z: Quiz) => z.id == quizId)
    }

    /** `quizRepository.findByCode`. */
    function QuizByCode(code: string): (r: Option<Quiz>)
      reads this
      ensures r.Some? ==> r.value in quizzes && r.value.code == code
      ensures r.None? <==> !ExistsByCode(code)
    {
      Find(quizzes, (z: Quiz) => z.code == code)
    }

    /** `quizRepository.existsByCode`. */
    predicate ExistsByCode(code: string)
      reads this
    {
      code in Codes()
    }

    function Codes(): set<string>
      reads this
    {
      set z | z in quizzes :: z.code
    }

    /** `questionRepository.findById`. */
    function QuestionById(questionId: int): (r: Option<Question>)
      reads this
      ensures r.Some? ==> r.value in questions && r.value.id == questionId
      ensures r.None? ==> forall q :: q in questions ==> q.id != questionId
    {
      Find(questions, (q: Question) => q.id == questionId)
    }

    /** `questionRepository.findByQuizId`, in insertion order. */
    function QuestionsOf(quizId: int): (qs: seq<Question>)
      reads this
      ensures forall q :: q in qs <==> q in questions && q.quizId == quizId
    {
      Filter(questions, (q: Question) => q.quizId == quizId)
    }

    /** `participationRepository.existsByQuizIdAndUserId`. */
    predicate ExistsByQuizIdAndUserId(quizId: int, userId: int)
      reads this
    {
      exists p :: p in participations && p.quizId == quizId && p.userId == Some(userId)
    }

    /** `participationRepository.existsByQuizIdAndGuestId`. */
    predicate ExistsByQuizIdAndGuestId(quizId: int, guestId: int)
      reads this
    {
      exists p :: p in participations && p.quizId == quizId && p.guestId == Some(guestId)
    }

    /** The duplicate guards of both participation paths pass for this identity. */
    predicate MayParticipate(quizId: int, userId: Option<int>, guestId: Option<int>)
      reads this
    {
      && !(userId.Some? && ExistsByQuizIdAndUserId(quizId, userId.value))
      && !(guestId.Some? && ExistsByQuizIdAndGuestId(quizId, guestId.value))
    }

    /** The score `calculateScore` computes for a submission on the current tables. */
    function QuizScore(quizId: int, selectedResponseIds: seq<int>): (s: Score)
      reads this
      ensures s % 100 == 0 && s <= 10000
      ensures QuestionsOf(quizId) == [] ==> s == 0
    {
      Scoring.SubmissionScore(QuestionsOf(quizId), responses, selectedResponseIds)
    }

    // ----- Quiz authoring -----

    /**
     * `generateUniqueQuizCode`: draws codes from the given UUIDs, in order, until one is not
     * yet used by any quiz. The UUIDs stand for successive random UUIDs; the precondition says
     * that the draw eventually yields a free code.
     */
    method GenerateUniqueQuizCode(uuids: seq<Uuid>) returns (code: string)
      requires exists k :: 0 <= k < |uuids| && !ExistsByCode(CodeFromUuid(uuids[k]))
      ensures !ExistsByCode(code)
      ensures |code| == 8 && forall c :: c in code ==> c in UpperHexDigits
      ensures exists k :: 0 <= k < |uuids| && code == CodeFromUuid(uuids[k])
                          && forall j :: 0 <= j < k ==> ExistsByCode(CodeFromUuid(uuids[j]))
    {
      ghost var free :| 0 <= free < |uuids| && !ExistsByCode(CodeFromUuid(uuids[free]));
      var i := 0;
      code := CodeFromUuid(uuids[i]);
      while ExistsByCode(code)
        invariant 0 <= i <= free && code == CodeFromUuid(uuids[i])
        invariant forall j :: 0 <= j < i ==> ExistsByCode(CodeFromUuid(uuids[j]))
        decreases free - i
      {
        i := i + 1;
        code := CodeFromUuid(uuids[i]);
      }
    }

    /** `createQuiz`: the caller becomes the owner and the quiz gets a fresh join code. */
    method CreateQuiz(draft: QuizDraft, professorId: int, uuids: seq<Uuid>, createdAt: Timestamp) returns (quiz: Quiz)
      requires Valid()
      requires exists k :: 0 <= k < |uuids| && !ExistsByCode(CodeFromUuid(uuids[k]))
      modifies this
      ensures Valid()
      ensures quizzes == old(quizzes) + [quiz]
      ensures quiz.id == old(nextQuizId) && quiz.id !in old(QuizIds())
      ensures quiz.professorId == professorId
      ensures quiz.title == draft.title && quiz.description == draft.description && quiz.duration == draft.duration
      ensures quiz.createdAt == createdAt
      ensures !old(ExistsByCode(quiz.code))
      ensures exists k :: 0 <= k < |uuids| && quiz.code == CodeFromUuid(uuids[k])
                          && forall j :: 0 <= j < k ==> old(ExistsByCode(CodeFromUuid(uuids[j])))
      ensures |quiz.code| == 8 && forall c :: c in quiz.code ==> c in UpperHexDigits
      ensures questions == old(questions) && responses == old(responses) && participations == old(participations)
      ensures nextQuizId == old(nextQuizId) + 1
      ensures nextQuestionId == old(nextQuestionId) && nextResponseId == old(nextResponseId)
      ensures nextParticipationId == old(nextParticipationId)
    {
      var code := GenerateUniqueQuizCode(uuids);
      quiz := Quiz(nextQuizId, draft.title, draft.description, professorId, code, draft.duration, createdAt);
      PairwiseAppend(quizzes, quiz, QuizRowsDistinct);
      quizzes := quizzes + [quiz];
      nextQuizId := nextQuizId + 1;
    }

    /** `updateQuiz`: the owner may overwrite title, description and duration, and nothing else. */
    method UpdateQuiz(quizId: int, draft: QuizDraft, professorId: Option<int>) returns (r: Result<Quiz, string>)
      requires Valid()
      modifies this
      ensures Valid()
      ensures old(QuizById(quizId)).None? ==> r == Err("Quiz not found")
      ensures old(QuizById(quizId)).Some? && !IsOwner(old(QuizById(quizId)).value, professorId)
              ==> r == Err("Unauthorized to update this quiz")
      ensures r.Err? ==> quizzes == old(quizzes)
      ensures r.Ok? <==> old(QuizById(quizId)).Some? && IsOwner(old(QuizById(quizId)).value, professorId)
      ensures r.Ok? ==> r.value == old(QuizById(quizId)).value.(title := draft.title, description := draft.description, duration := draft.duration)
      ensures r.Ok? ==> |quizzes| == |old(quizzes)|
                        && forall i :: 0 <= i < |quizzes| ==>
                             quizzes[i] == if old(quizzes)[i].id == quizId then r.value else old(quizzes)[i]
      ensures questions == old(questions) && responses == old(responses) && participations == old(participations)
      ensures nextQuizId == old(nextQuizId) && nextQuestionId == old(nextQuestionId)
      ensures nextResponseId == old(nextResponseId) && nextParticipationId == old(nextParticipationId)
    {
      var k := FindIndex(quizzes, (z: Quiz) => z.id == quizId);
      if k.None? {
        return Err("Quiz not found");
      }
      var existing := quizzes[k.value];
      if !IsOwner(existing, professorId) {
        return Err("Unauthorized to update this quiz");
      }
      var updated := existing.(title := draft.title, description := draft.description, duration := draft.duration);
      ghost var before := quizzes;
      quizzes := quizzes[k.value := updated];
      forall i | 0 <= i < |quizzes| && i != k.value ensures before[i].id != quizId {
        assert QuizRowsDistinct(before[i], before[k.value]) || QuizRowsDistinct(before[k.value], before[i]);
      }
      forall i, j | 0 <= i < j < |quizzes| ensures QuizRowsDistinct(quizzes[i], quizzes[j]) {
        assert QuizRowsDistinct(before[i], before[j]);
      }
      assert QuizIds() == old(QuizIds()) by {
        forall id | id in old(QuizIds()) ensures id in QuizIds() {
          var z :| z in before && z.id == id;
          var i :| 0 <= i < |before| && before[i] == z;
          assert quizzes[i].id == id;
        }
      }
      return Ok(updated);
    }

    /**
     * `deleteQuiz`: a null caller skips the ownership check. The quiz's questions and
     * participations go with it (the cascading associations of the quiz entity).
     */
    method DeleteQuiz(quizId: int, professorId: Option<int>) returns (r: Outcome<string>)
      requires Valid()
      modifies this
      ensures Valid()
      ensures old(QuizById(quizId)).None? ==> r == Fail("Quiz not found")
      ensures old(QuizById(quizId)).Some? && professorId.Some? && !IsOwner(old(QuizById(quizId)).value, professorId)
              ==> r == Fail("Unauthorized to delete this quiz")
      ensures r.Fail? ==> quizzes == old(quizzes) && questions == old(questions) && participations == old(participations)
      ensures r.Pass? <==> (old(QuizById(quizId)).Some?
                            && (professorId.None? || IsOwner(old(QuizById(quizId)).value, professorId)))
      ensures r.Pass? ==> (forall z :: z in quizzes <==> z in old(quizzes) && z.id != quizId)
                          && (forall q :: q in questions <==> q in old(questions) && q.quizId != quizId)
                          && (forall p :: p in participations <==> p in old(participations) && p.quizId != quizId)
      ensures responses == old(responses)
      ensures nextQuizId == old(nextQuizId) && nextQuestionId == old(nextQuestionId)
      ensures nextResponseId == old(nextResponseId) && nextParticipationId == old(nextParticipationId)
    {
      var quiz := QuizById(quizId);
      if quiz.None? {
        return Fail("Quiz not found");
      }
      if professorId.Some? && !IsOwner(quiz.value, professorId) {
        return Fail("Unauthorized to delete this quiz");
      }
      RemoveQuiz(quizId);
      return Pass;
    }

    /** `quizRepository.delete(quiz)` with its cascades to questions and participations. */
    method RemoveQuiz(quizId: int)
      requires Valid()
      modifies this`quizzes, this`questions, this`participations
      ensures Valid()
      ensures forall z :: z in quizzes <==> z in old(quizzes) && z.id != quizId
      ensures forall q :: q in questions <==> q in old(questions) && q.quizId != quizId
      ensures forall p :: p in participations <==> p in old(participations) && p.quizId != quizId
    {
      RemovalKeepsTablesValid(quizzes, questions, responses, participations,
                              nextQuizId, nextQuestionId, nextResponseId, nextParticipationId, quizId);
      quizzes := Filter(quizzes, (z: Quiz) => z.id != quizId);
      questions := Filter(questions, (q: Question) => q.quizId != quizId);
      participations := Filter(participations, (p: Participation) => p.quizId != quizId);
    }

    /** `addQuestion`: the owner appends a question to the quiz. */
    method AddQuestion(quizId: int, questionText: string, professorId: Option<int>) returns (r: Result<Question, string>)
      requires Valid()
      modifies this
      ensures Valid()
      ensures old(QuizById(quizId)).None? ==> r == Err("Quiz not found")
      ensures old(QuizById(quizId)).Some? && !IsOwner(old(QuizById(quizId)).value, professorId)
              ==> r == Err("Unauthorized to add questions to this quiz")
      ensures r.Err? ==> questions == old(questions) && nextQuestionId == old(nextQuestionId)
      ensures r.Ok? <==> old(QuizById(quizId)).Some? && IsOwner(old(QuizById(quizId)).value, professorId)
      ensures r.Ok? ==> r.value == Question(old(nextQuestionId), quizId, questionText)
                        && questions == old(questions) + [r.value]
                        && nextQuestionId == old(nextQuestionId) + 1
      ensures quizzes == old(quizzes) && responses == old(responses) && participations == old(participations)
      ensures nextQuizId == old(nextQuizId) && nextResponseId == old(nextResponseId)
      ensures nextParticipationId == old(nextParticipationId)
    {
      var quiz := QuizById(quizId);
      if quiz.None? {
        return Err("Quiz not found");
      }
      if !IsOwner(quiz.value, professorId) {
        return Err("Unauthorized to add questions to this quiz");
      }
      var question := Question(nextQuestionId, quizId, questionText);
      PairwiseAppend(questions, question, QuestionRowsDistinct);
      questions := questions + [question];
      nextQuestionId := nextQuestionId + 1;
      return Ok(question);
    }

    /** `addResponse`: the owner of the question's quiz appends a response to the question. */
    method AddResponse(questionId: int, responseText: string, isCorrect: bool, professorId: Option<int>, createdAt: Timestamp)
      returns (r: Result<Response, string>)
      requires Valid()
      modifies this
      ensures Valid()
      ensures old(QuestionById(questionId)).None? ==> r == Err("Question not found")
      ensures old(QuestionById(questionId)).Some?
              ==> old(QuizById(QuestionById(questionId).value.quizId)).Some?
      ensures old(QuestionById(questionId)).Some?
              && !IsOwner(old(QuizById(QuestionById(questionId).value.quizId)).value, professorId)
              ==> r == Err("Unauthorized to add responses to this question")
      ensures r.Err? ==> responses == old(responses) && nextResponseId == old(nextResponseId)
      ensures r.Ok? <==> (old(QuestionById(questionId)).Some?
                          && IsOwner(old(QuizById(QuestionById(questionId).value.quizId)).value, professorId))
      ensures r.Ok? ==> r.value == Response(old(nextResponseId), questionId, responseText, isCorrect, createdAt)
                        && responses == old(responses) + [r.value]
                        && nextResponseId == old(nextResponseId) + 1
      ensures quizzes == old(quizzes) && questions == old(questions) && participations == old(participations)
      ensures nextQuizId == old(nextQuizId) && nextQuestionId == old(nextQuestionId)
      ensures nextParticipationId == old(nextParticipationId)
    {
      var question := QuestionById(questionId);
      if question.None? {
        return Err("Question not found");
      }
      // question.getQuiz(): the quiz the question's foreign key names, present by Valid()
      var quiz := QuizById(question.value.quizId).value;
      if !IsOwner(quiz, professorId) {
        return Err("Unauthorized to add responses to this question");
      }
      var response := Response(nextResponseId, questionId, responseText, isCorrect, createdAt);
      PairwiseAppend(responses, response, ResponseRowsDistinct);
      responses := responses + [response];
      nextResponseId := nextResponseId + 1;
      return Ok(response);
    }

    // ----- Lookups -----

    /** `getQuizById`. */
    method GetQuizById(quizId: int) returns (r: Result<Quiz, string>)
      ensures r.Err? <==> quizId !in QuizIds()
      ensures r.Err? ==> r.error == "Quiz not found"
      ensures r.Ok? ==> r.value in quizzes && r.value.id == quizId
    {
      var quiz := QuizById(quizId);
      if quiz.None? {
        return Err("Quiz not found");
      }
      return Ok(quiz.value);
    }

    /** `getQuizByCode`: empty when no quiz has this code (compared as stored). */
    method GetQuizByCode(code: string) returns (r: Option<Quiz>)
      ensures r.None? <==> !ExistsByCode(code)
      ensures r.Some? ==> r.value in quizzes && r.value.code == code
    {
      r := QuizByCode(code);
    }

    /** `getQuizParticipations`: only the quiz's owner may list its participations. */
    method GetQuizParticipations(quizId: int, professorId: Option<int>) returns (r: Result<seq<Participation>, string>)
      requires Valid()
      ensures quizId !in QuizIds() ==> r == Err("Quiz not found")
      ensures QuizById(quizId).Some? && !IsOwner(QuizById(quizId).value, professorId)
              ==> r == Err("Unauthorized to view participations for this quiz")
      ensures r.Ok? <==> QuizById(quizId).Some? && IsOwner(QuizById(quizId).value, professorId)
      ensures r.Ok? ==> forall p :: p in r.value <==> p in participations && p.quizId == quizId
      ensures r.Ok? ==> Pairwise(r.value, ParticipationRowsDistinct)
    {
      var quiz := QuizById(quizId);
      if quiz.None? {
        return Err("Quiz not found");
      }
      if !IsOwner(quiz.value, professorId) {
        return Err("Unauthorized to view participations for this quiz");
      }
      FilterPairwise(participations, (p: Participation) => p.quizId == quizId, ParticipationRowsDistinct);
      return Ok(Filter(participations, (p: Participation) => p.quizId == quizId));
    }

    /** `getUserParticipations`: the participations recorded for this user, of any quiz. */
    method GetUserParticipations(userId: int) returns (ps: seq<Participation>)
      requires Valid()
      ensures forall p :: p in ps <==> p in participations && p.userId == Some(userId)
      ensures Pairwise(ps, ParticipationRowsDistinct)
    {
      FilterPairwise(participations, (p: Participation) => p.userId == Some(userId), ParticipationRowsDistinct);
      ps := Filter(participations, (p: Participation) => p.userId == Some(userId));
    }

    // ----- Participation and scoring -----

    /**
     * `calculateScore`: counts the questions of the quiz that the rule of
     * `Scoring.IsAnsweredCorrectly` accepts, then rounds the ratio to a whole percent.
     */
    method CalculateScore(quizId: int, selectedResponseIds: seq<int>) returns (score: Score)
      requires Pairwise(responses, ResponseRowsDistinct)
      ensures score == QuizScore(quizId, selectedResponseIds)
    {
      var qs := QuestionsOf(quizId);
      var totalQuestions := |qs|;
      var correctAnswers := 0;
      ghost var selected := Scoring.FindAllById(responses, selectedResponseIds);
      assert forall i, j :: 0 <= i < j < |responses| ==> responses[i].id != responses[j].id;
      for i := 0 to |qs|
        invariant correctAnswers == Scoring.CountCorrect(qs[..i], responses, selected)
      {
        var question := qs[i];
        var correctResponses := Filter(responses, Scoring.CorrectFor(question.id));
        var selectedResponses := Filter(responses, Scoring.SelectedBy(selectedResponseIds));
        var isCorrect := |correctResponses| == |selectedResponses|
          && (forall r | r in selectedResponses :: r.isCorrect)
          && (forall r | r in selectedResponses :: r.questionId == question.id);
        Scoring.ListRuleIsSetRule(responses, question, selectedResponseIds);
        assert isCorrect == Scoring.IsAnsweredCorrectly(responses, question, selected);
        Scoring.CountCorrectStep(qs, i, responses, selected);
        if isCorrect {
          correctAnswers := correctAnswers + 1;
        }
      }
      assert qs[..|qs|] == qs;
      if totalQuestions == 0 {
        return 0;
      }
      score := Scoring.PercentScore(correctAnswers, totalQuestions);
    }

    /**
     * `submitQuizAnswers`: the quiz must exist, then the user, then the guest must not have
     * participated yet; only then is one scored participation appended.
     */
    method SubmitQuizAnswers(quizId: int, selectedResponseIds: seq<int>, userId: Option<int>, guestId: Option<int>, createdAt: Timestamp)
      returns (r: Result<Participation, string>)
      requires Valid()
      modifies this
      ensures Valid()
      ensures old(quizId !in QuizIds()) ==> r == Err("Quiz not found")
      ensures old(quizId in QuizIds() && userId.Some? && ExistsByQuizIdAndUserId(quizId, userId.value))
              ==> r == Err("User has already participated in this quiz")
      ensures old(quizId in QuizIds() && !(userId.Some? && ExistsByQuizIdAndUserId(quizId, userId.value))
                  && guestId.Some? && ExistsByQuizIdAndGuestId(quizId, guestId.value))
              ==> r == Err("Guest has already participated in this quiz")
      ensures r.Err? ==> participations == old(participations) && nextParticipationId == old(nextParticipationId)
      ensures r.Ok? <==> old(quizId in QuizIds() && MayParticipate(quizId, userId, guestId))
      ensures r.Ok? ==> r.value == Participation(old(nextParticipationId), quizId, userId, guestId,
                                                 old(QuizScore(quizId, selectedResponseIds)), createdAt)
                        && participations == old(participations) + [r.value]
                        && nextParticipationId == old(nextParticipationId) + 1
      ensures quizzes == old(quizzes) && questions == old(questions) && responses == old(responses)
      ensures nextQuizId == old(nextQuizId) && nextQuestionId == old(nextQuestionId)
      ensures nextResponseId == old(nextResponseId)
    {
      var quiz := GetQuizById(quizId);
      if quiz.Err? {
        return Err(quiz.error);
      }
      if userId.Some? && ExistsByQuizIdAndUserId(quizId, userId.value) {
        return Err("User has already participated in this quiz");
      }
      if guestId.Some? && ExistsByQuizIdAndGuestId(quizId, guestId.value) {
        return Err("Guest has already participated in this quiz");
      }
      var score := CalculateScore(quizId, selectedResponseIds);
      var participation := Participation(nextParticipationId, quizId, userId, guestId, score, createdAt);
      Record(participation);
      return Ok(participation);
    }

    /**
     * `registerParticipationByCode`: the code must name a quiz, then the same duplicate
     * guards apply; success appends a participation with score zero.
     */
    method RegisterParticipationByCode(code: string, userId: Option<int>, guestId: Option<int>, createdAt: Timestamp)
      returns (r: Result<Participation, string>)
      requires Valid()
      modifies this
      ensures Valid()
      ensures old(!ExistsByCode(code)) ==> r == Err("Quiz not found")
      ensures old(ExistsByCode(code)) && userId.Some?
              && old(ExistsByQuizIdAndUserId(QuizByCode(code).value.id, userId.value))
              ==> r == Err("User has already participated in this quiz")
      ensures old(ExistsByCode(code)) && old(!(userId.Some? && ExistsByQuizIdAndUserId(QuizByCode(code).value.id, userId.value)))
              && guestId.Some? && old(ExistsByQuizIdAndGuestId(QuizByCode(code).value.id, guestId.value))
              ==> r == Err("Guest has already participated in this quiz")
      ensures r.Err? ==> participations == old(participations) && nextParticipationId == old(nextParticipationId)
      ensures r.Ok? <==> old(ExistsByCode(code)) && old(MayParticipate(QuizByCode(code).value.id, userId, guestId))
      ensures r.Ok? ==> r.value == Participation(old(nextParticipationId), old(QuizByCode(code)).value.id, userId, guestId, 0, createdAt)
                        && participations == old(participations) + [r.value]
                        && nextParticipationId == old(nextParticipationId) + 1
      ensures quizzes == old(quizzes) && questions == old(questions) && responses == old(responses)
      ensures nextQuizId == old(nextQuizId) && nextQuestionId == old(nextQuestionId)
      ensures nextResponseId == old(nextResponseId)
    {
      var quiz := QuizByCode(code);
      if quiz.None? {
        return Err("Quiz not found");
      }
      var quizId := quiz.value.id;
      if userId.Some? && ExistsByQuizIdAndUserId(quizId, userId.value) {
        return Err("User has already participated in this quiz");
      }
      if guestId.Some? && ExistsByQuizIdAndGuestId(quizId, guestId.value) {
        return Err("Guest has already participated in this quiz");
      }
      var participation := Participation(nextParticipationId, quizId, userId, guestId, 0, createdAt);
      Record(participation);
      return Ok(participation);
    }

    // ----- Consequences of the invariant -----

    /** The tables never hold two participations of one quiz for one user, or for one guest. */
    lemma ParticipationUniquePerIdentity(p1: Participation, p2: Participation)
      requires Valid() && p1 in participations && p2 in participations && p1.quizId == p2.quizId
      requires (p1.userId.Some? && p1.userId == p2.userId) || (p1.guestId.Some? && p1.guestId == p2.guestId)
      ensures p1 == p2
    {
      var i :| 0 <= i < |participations| && participations[i] == p1;
      var j :| 0 <= j < |participations| && participations[j] == p2;
      assert i < j ==> ParticipationRowsDistinct(participations[i], participations[j]);
      assert j < i ==> ParticipationRowsDistinct(participations[j], participations[i]);
    }

    /** Join codes are unique, so the lookup by a quiz's code finds that very quiz. */
    lemma QuizByCodeFindsOwner(quiz: Quiz)
      requires Valid() && quiz in quizzes
      ensures QuizByCode(quiz.code) == Some(quiz)
    {
      var found := QuizByCode(quiz.code).value;
      var i :| 0 <= i < |quizzes| && quizzes[i] == found;
      var j :| 0 <= j < |quizzes| && quizzes[j] == quiz;
      assert i < j ==> QuizRowsDistinct(quizzes[i], quizzes[j]);
      assert j < i ==> QuizRowsDistinct(quizzes[j], quizzes[i]);
    }

    /** `participationRepository.save` of a new row that passed the duplicate guards. */
    method Record(p: Participation)
      requires Valid()
      requires p.id == nextParticipationId && p.quizId in QuizIds()
      requires MayParticipate(p.quizId, p.userId, p.guestId)
      modifies this`participations, this`nextParticipationId
      ensures Valid()
      ensures participations == old(participations) + [p]
      ensures nextParticipationId == old(nextParticipationId) + 1
    {
      forall a | a in participations ensures ParticipationRowsDistinct(a, p) {
        assert a.id < p.id;
        assert a.userId.Some? ==> ExistsByQuizIdAndUserId(a.quizId, a.userId.value);
        assert a.guestId.Some? ==> ExistsByQuizIdAndGuestId(a.quizId, a.guestId.value);
      }
      PairwiseAppend(participations, p, ParticipationRowsDistinct);
      participations := participations + [p];
      nextParticipationId := nextParticipationId + 1;
    }
  }

  /**
   * A user who joined a quiz by its code can no longer submit answers to it: the two
   * creation paths share the duplicate guard.
   */
  method JoinThenSubmit(service: QuizService, code: string, userId: int, selectedResponseIds: seq<int>, t1: Timestamp, t2: Timestamp)
    returns (joined: Result<Participation, string>, submitted: Option<Result<Participation, string>>)
    requires service.Valid()
    modifies service
    ensures service.Valid()
    ensures joined.Ok? <==> old(service.ExistsByCode(code)
                                && service.MayParticipate(service.QuizByCode(code).value.id, Some(userId), None))
    ensures joined.Ok? ==> submitted == Some(Err("User has already participated in this quiz"))
    ensures joined.Err? ==> submitted.None?
  {
    joined := service.RegisterParticipationByCode(code, Some(userId), None, t1);
    if joined.Ok? {
      assert joined.value in service.participations;
      var answer := service.SubmitQuizAnswers(joined.value.quizId, selectedResponseIds, Some(userId), None, t2);
      submitted := Some(answer);
    } else {
      submitted := None;
    }
  }
}
