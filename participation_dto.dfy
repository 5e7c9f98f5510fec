/** The flattened participation record returned to clients. */
module ParticipationDtos {
  import opened Wrappers
  import opened Entities

  /** The quiz fields a participation record exposes. */
  datatype QuizSummary = QuizSummary(id: int, title: string, code: string)

  datatype ParticipationDto = ParticipationDto(
    id: int,
    score: Score,
    createdAt: Timestamp,
    quiz: Option<QuizSummary>,
    userId: Option<int>,
    guestId: Option<int>)

  /**
   * `ParticipationDto.fromEntity`. `quiz` is what the entity's lazy quiz association
   * yields, which may be null. The association is loaded by the entity's `quizId`; the
   * model takes it as a separate argument and does not tie it to `p.quizId`.
   */
  function FromEntity(p: Option<Participation>, quiz: Option<Quiz>): (r: Option<ParticipationDto>)
    ensures r.None? <==> p.None?
    ensures r.Some? ==>
      && r.value.id == p.value.id && r.value.score == p.value.score && r.value.createdAt == p.value.createdAt
      && r.value.userId == p.value.userId && r.value.guestId == p.value.guestId
    ensures r.Some? ==> (r.value.quiz.Some? <==> quiz.Some?)
    ensures r.Some? && quiz.Some? ==>
      r.value.quiz.value.id == quiz.value.id && r.value.quiz.value.title == quiz.value.title
      && r.value.quiz.value.code == quiz.value.code
  {
    match p
    case None => None
    case Some(e) =>
      var summary := match quiz
        case None => None
        case Some(q) => Some(QuizSummary(q.id, q.title, q.code));
      Some(ParticipationDto(e.id, e.score, e.createdAt, summary, e.userId, e.guestId))
  }

  /**
   * Only the id, title and code of the quiz reach the record: quizzes that agree on those
   * three give the same record, whatever their description, owner, duration or creation time.
   */
  lemma SummaryExposesOnlyIdTitleCode(p: Participation, q1: Quiz, q2: Quiz)
    requires q1.id == q2.id && q1.title == q2.title && q1.code == q2.code
    ensures FromEntity(Some(p), Some(q1)) == FromEntity(Some(p), Some(q2))
  {
  }

  /**
   * Equal records come from entities with equal id, score, time, user and guest; the
   * entity's `quizId` does not reach the record.
   */
  lemma FromEntityInjective(p1: Participation, p2: Participation, quiz1: Option<Quiz>, quiz2: Option<Quiz>)
    requires FromEntity(Some(p1), quiz1) == FromEntity(Some(p2), quiz2)
    ensures p1.id == p2.id && p1.score == p2.score && p1.createdAt == p2.createdAt
    ensures p1.userId == p2.userId && p1.guestId == p2.guestId
  {
  }
}
