/** The rows of the quiz tables, with the columns the service reads or writes. */
module Entities {
  import opened Wrappers

  /** A creation time set by the `@PrePersist` hooks; the model treats it as an opaque value. */
  type Timestamp = int

  /**
   * A participation score: the unscaled value of a DECIMAL(5,2), i.e. hundredths of a
   * percentage point (3300 stands for 33.00).
   */
  type Score = nat

  datatype Quiz = Quiz(
    id: int,
    title: string,
    description: Option<string>,
    professorId: int,
    code: string,
    duration: Option<int>,
    createdAt: Timestamp)

  /** The fields of a quiz a professor supplies when creating or updating it. */
  datatype QuizDraft = QuizDraft(title: string, description: Option<string>, duration: Option<int>)

  datatype Question = Question(id: int, quizId: int, questionText: string)

  datatype Response = Response(
    id: int,
    questionId: int,
    responseText: string,
    isCorrect: bool,
    createdAt: Timestamp)

  /** `userId` and `guestId` are the nullable foreign keys of the submitting identity. */
  datatype Participation = Participation(
    id: int,
    quizId: int,
    userId: Option<int>,
    guestId: Option<int>,
    score: Score,
    createdAt: Timestamp)
}
