# Quiz backend: participation, scoring and authoring rules in Dafny

This project models the core of a quiz-management backend. Professors author quizzes with
multiple-choice questions. Students or guests join a quiz by its eight-character code or
submit answers to it. The service computes a percentage score and records one participation
per quiz and identity.

The model covers three parts:

- `Quizzes.QuizService`: the quiz service as a class over four in-memory tables (quizzes,
  questions, responses, participations). The repository queries become functions over those
  tables. It models the duplicate-participation guards, scoring, ownership checks and
  join-code generation.
- `Auth.AuthService`: registration and login over a user table.
- `ParticipationDtos.FromEntity`: the participation-to-DTO mapping.

The pure parts sit in their own modules:

- `Scoring`: the per-question rule, the counter and the half-up rounding.
- `QuizCodes`: the UUID string form and the join code taken from it.
- `Tables`: generic filter and lookup queries over a table.

Conventions of the model:

- A Java `null` is `None` and a thrown `RuntimeException` is `Err(message)`, with the source's
  messages.
- A score is the unscaled value of a DECIMAL(5,2). 3300 stands for 33.00.
- Every call runs atomically.
- Each table's identity column is a counter field.
- Creation timestamps, random UUIDs and the password encoder, matcher and token generator
  are parameters or function-valued fields.

## Model

| member | source | states |
|---|---|---|
| `Tables.Filter` | src/main/java/com/quizbackend/repository/ParticipationRepository.java:11-12 | a derived list query returns exactly the rows that match, never more rows than the table |
| `Tables.FindIndex` | src/main/java/com/quizbackend/service/QuizService.java:46-47 | the found position holds a matching row and no earlier row matches; absent means no row matches |
| `Tables.Find` | src/main/java/com/quizbackend/repository/QuizRepository.java:13 | an `Optional` lookup returns a matching row of the table, or is empty exactly when no row matches |
| `Tables.FilterSetCardinality` | src/main/java/com/quizbackend/repository/ParticipationRepository.java:11-12 | in a table without repeated rows, the set of matching rows has as many elements as the list the query returns |
| `Tables.FilterPairwise` | src/main/java/com/quizbackend/entity/Quiz.java:43-47 | deleting rows keeps every pairwise uniqueness property of the rows that remain |
| `Scoring.HalfUpDivide` | src/main/java/com/quizbackend/service/QuizService.java:203-204 | the quotient is the whole number nearest n/d, a tie rounding up |
| `Scoring.HalfUpDivideUnique` | src/main/java/com/quizbackend/service/QuizService.java:203-204 | no other number has that rounding property |
| `Scoring.PercentScore` | src/main/java/com/quizbackend/service/QuizService.java:203-205 | the score is a whole percent, 0 with no correct answer, 100.00 when all are correct, at most 100.00, and the nearest percent to correct/total (ties up) |
| `Scoring.CorrectResponses` | src/main/java/com/quizbackend/service/QuizService.java:186 | the question's response rows flagged correct, as a set |
| `Scoring.FindAllById` | src/main/java/com/quizbackend/service/QuizService.java:187 | the existing response rows whose id occurs in the list, as a set: repeated ids collapse, unknown ids contribute nothing |
| `Scoring.RowListSizes` | src/main/java/com/quizbackend/service/QuizService.java:186-190 | with unique response ids, the sizes compared are those of the lists `findByQuestionIdAndIsCorrectTrue` and `findAllById` return |
| `Scoring.IsAnsweredCorrectly` | src/main/java/com/quizbackend/service/QuizService.java:189-192 | the rule as written: the correct set and the whole selection have equal size, every selected row is correct and belongs to the question |
| `Scoring.ListRuleIsSetRule` | src/main/java/com/quizbackend/service/QuizService.java:186-192 | the rule evaluated on the two fetched row lists agrees with the rule on sets, given unique response ids |
| `Scoring.CountCorrect` | src/main/java/com/quizbackend/service/QuizService.java:183-197 | the counter never exceeds the number of questions |
| `Scoring.SubmissionScore` | src/main/java/com/quizbackend/service/QuizService.java:180-206 | the score is a whole percent in [0, 100], and 0 for a quiz without questions |
| `Scoring.AnsweredCorrectlyIffExactSelection` | src/main/java/com/quizbackend/service/QuizService.java:189-192 | a question counts iff the selection equals its correct set, in both directions |
| `Scoring.EmptySelectionRule` | src/main/java/com/quizbackend/service/QuizService.java:187-192 | with nothing selected, a question counts iff it has no correct response |
| `Scoring.CountCorrectZero` | src/main/java/com/quizbackend/service/QuizService.java:183-197 | the counter is 0 iff no question counts |
| `Scoring.CountCorrectAll` | src/main/java/com/quizbackend/service/QuizService.java:183-197 | the counter equals the number of questions iff every question counts |
| `Scoring.AtMostOneCorrectWhenSelected` | src/main/java/com/quizbackend/service/QuizService.java:185-197 | with a non-empty selection, at most one question of a quiz counts |
| `Scoring.MixedSelectionScoresZero` | src/main/java/com/quizbackend/service/QuizService.java:185-205 | a selection holding responses of two different questions scores 0 |
| `Scoring.ExampleFullAnswerScoresZero` | src/main/java/com/quizbackend/service/QuizService.java:185-205 | on a two-question quiz, selecting every correct answer ([10, 11, 20]) scores 0, and so does [10, 20] |
| `Scoring.ExampleEmptySelectionScoresZero` | src/main/java/com/quizbackend/service/QuizService.java:185-205 | on that quiz, the empty selection scores 0 |
| `Scoring.ExampleOneQuestionScoresHalf` | src/main/java/com/quizbackend/service/QuizService.java:185-205 | on that quiz, selecting exactly the first question's correct set scores 50.00 |
| `QuizCodes.HexDigit` | src/main/java/com/quizbackend/service/QuizService.java:175 | a field value below 16 prints as a lower-case hexadecimal digit |
| `QuizCodes.Digits` | src/main/java/com/quizbackend/service/QuizService.java:175 | a UUID field is printed as exactly n lower-case hexadecimal digits |
| `QuizCodes.UuidString` | src/main/java/com/quizbackend/service/QuizService.java:175 | the UUID string form has 36 characters and starts with the eight digits of the high 32 bits |
| `QuizCodes.ToUpperCase` | src/main/java/com/quizbackend/service/QuizService.java:175 | ASCII upper-casing keeps the length, leaves no lower-case letter, raises each letter to its capital and keeps every other character |
| `QuizCodes.UpperCaseOfHex` | src/main/java/com/quizbackend/service/QuizService.java:175 | upper-casing lower-case hexadecimal digits yields digits from 0-9 and A-F only |
| `QuizCodes.CodeFromUuid` | src/main/java/com/quizbackend/service/QuizService.java:175 | a join code has length 8 and uses only 0-9 and A-F |
| `QuizCodes.CodeIsUuidPrefix` | src/main/java/com/quizbackend/service/QuizService.java:175 | the join code is the upper-cased first eight characters of the UUID string |
| `Quizzes.IsOwner` | src/main/java/com/quizbackend/service/QuizService.java:49 | the ownership test of update, delete, addQuestion, addResponse and getQuizParticipations (lines 49, 64, 87, 100, 157): the caller's id equals the owner's, and a null caller owns nothing |
| `Quizzes.QuizService.QuizById` | src/main/java/com/quizbackend/service/QuizService.java:46-47 | the lookup yields a quiz with that id, or nothing exactly when no quiz has it |
| `Quizzes.QuizService.QuizByCode` | src/main/java/com/quizbackend/repository/QuizRepository.java:13-14 | the lookup yields a quiz with that code, or nothing exactly when none has it |
| `Quizzes.QuizService.ExistsByCode` | src/main/java/com/quizbackend/repository/QuizRepository.java:14 | some quiz carries the code; `QuizByCode` is empty exactly when it does not |
| `Quizzes.QuizService.QuestionById` | src/main/java/com/quizbackend/service/QuizService.java:96-97 | the lookup yields a question with that id, or nothing when none has it |
| `Quizzes.QuizService.QuestionsOf` | src/main/java/com/quizbackend/service/QuizService.java:181 | the questions of a quiz are exactly the rows with its id |
| `Quizzes.QuizService.ExistsByQuizIdAndUserId` | src/main/java/com/quizbackend/repository/ParticipationRepository.java:14 | some participation of the quiz is recorded for the user |
| `Quizzes.QuizService.ExistsByQuizIdAndGuestId` | src/main/java/com/quizbackend/repository/ParticipationRepository.java:15 | some participation of the quiz is recorded for the guest |
| `Quizzes.QuizService.MayParticipate` | src/main/java/com/quizbackend/service/QuizService.java:113-118 | both duplicate guards pass: a present user id, and a present guest id, has no participation in the quiz yet |
| `Quizzes.QuizService.QuizScore` | src/main/java/com/quizbackend/service/QuizService.java:180-206 | a submission's score on the current tables is a whole percent in [0, 100], 0 without questions |
| `Quizzes.QuizService.GenerateUniqueQuizCode` | src/main/java/com/quizbackend/service/QuizService.java:172-178 | the code is the first candidate not in use, is free, and has the join-code shape |
| `Quizzes.QuizService.CreateQuiz` | src/main/java/com/quizbackend/service/QuizService.java:37-43 | one quiz appended with a fresh id, the caller as owner, the draft's fields and a code no quiz had, namely the first candidate draw whose code was free; the quiz identity counter advances by one |
| `Quizzes.QuizService.UpdateQuiz` | src/main/java/com/quizbackend/service/QuizService.java:45-58 | not-found, then ownership; succeeds iff the quiz exists and the caller owns it; only title, description and duration of that one quiz change |
| `Quizzes.QuizService.DeleteQuiz` | src/main/java/com/quizbackend/service/QuizService.java:60-69 | not-found, then ownership unless the caller is null; passes iff the quiz exists and the caller owns it or is null; removes the quiz with its questions and participations |
| `Quizzes.QuizService.RemoveQuiz` | src/main/java/com/quizbackend/entity/Quiz.java:43-47 | the delete removes exactly the quiz's own rows from the three tables and keeps the invariant |
| `Quizzes.RemovalKeepsTablesValid` | src/main/java/com/quizbackend/entity/Quiz.java:43-47 | removing a quiz with its questions and participations keeps unique ids, unique codes, one participation per identity and no dangling quiz reference |
| `Quizzes.QuizService.AddQuestion` | src/main/java/com/quizbackend/service/QuizService.java:84-93 | not-found, then ownership; succeeds iff the quiz exists and the caller owns it; one question appended under the quiz |
| `Quizzes.QuizService.AddResponse` | src/main/java/com/quizbackend/service/QuizService.java:95-106 | question not-found, then ownership of its quiz; succeeds iff the question exists and the caller owns its quiz; one response appended under the question |
| `Quizzes.QuizService.GetQuizById` | src/main/java/com/quizbackend/service/QuizService.java:79-82 | fails with "Quiz not found" iff no quiz has the id, else returns that quiz |
| `Quizzes.QuizService.GetQuizByCode` | src/main/java/com/quizbackend/service/QuizService.java:75-77 | empty iff no quiz has the code, else a quiz with that code |
| `Quizzes.QuizService.GetQuizParticipations` | src/main/java/com/quizbackend/service/QuizService.java:154-162 | not-found, then the owner check; succeeds iff both pass, returning exactly the quiz's participations, each row once |
| `Quizzes.QuizService.GetUserParticipations` | src/main/java/com/quizbackend/service/QuizService.java:164-166 | returns exactly the participations recorded for that user, each row once |
| `Quizzes.QuizService.CalculateScore` | src/main/java/com/quizbackend/service/QuizService.java:180-206 | with unique response ids (the primary key), the loop over the two fetched row lists returns the score of the specification `Scoring.SubmissionScore` |
| `Quizzes.QuizService.SubmitQuizAnswers` | src/main/java/com/quizbackend/service/QuizService.java:108-131 | guards in order (quiz, user, guest), nothing inserted on failure; succeeds iff all three pass, appending exactly one row with the given ids and the computed score |
| `Quizzes.QuizService.RegisterParticipationByCode` | src/main/java/com/quizbackend/service/QuizService.java:133-152 | unknown code fails, then the same guards; succeeds iff all pass, appending one row with score 0 for the code's quiz |
| `Quizzes.QuizService.Record` | src/main/java/com/quizbackend/service/QuizService.java:124-130 | appending a guarded row keeps one participation per quiz and identity |
| `Quizzes.QuizService.ParticipationUniquePerIdentity` | src/main/java/com/quizbackend/service/QuizService.java:112-118 | no two participations of one quiz share a user or a guest |
| `Quizzes.QuizService.QuizByCodeFindsOwner` | src/main/java/com/quizbackend/service/QuizService.java:134-136 | since codes are unique, the code lookup finds exactly the quiz that carries the code |
| `Quizzes.JoinThenSubmit` | src/main/java/com/quizbackend/service/QuizService.java:108-152 | joining succeeds iff the code is known and the user has not participated; after it, the same user's submission fails as a duplicate; a failed join is followed by no submission |
| `Auth.AuthService.FindByUsername` | src/main/java/com/quizbackend/service/AuthService.java:31 | the lookup yields a user of that name, or nothing exactly when none exists |
| `Auth.AuthService.ExistsByUsername` | src/main/java/com/quizbackend/service/AuthService.java:54 | some user has the username |
| `Auth.AuthService.ExistsByEmail` | src/main/java/com/quizbackend/service/AuthService.java:58 | some user has the email address |
| `Auth.Role.Name` | src/main/java/com/quizbackend/service/AuthService.java:39-44 | the enum constant's name carried by the token and the login map |
| `Auth.RoleNameInjective` | src/main/java/com/quizbackend/service/AuthService.java:39-44 | different roles have different names, so the role string identifies the role |
| `Auth.AuthService.Login` | src/main/java/com/quizbackend/service/AuthService.java:30-49 | same error for an unknown user and a wrong password; otherwise the map holds token, user and role name |
| `Auth.AuthService.Register` | src/main/java/com/quizbackend/service/AuthService.java:51-87 | username checked before email, nothing stored on failure; succeeds iff both are free, storing one user with the encoded password; names unique afterwards |
| `Auth.AuthService.GetCurrentUser` | src/main/java/com/quizbackend/service/AuthService.java:89-92 | "User not found" iff no user has the name, else that user |
| `Auth.AuthService.FindByUsernameUnique` | src/main/java/com/quizbackend/service/AuthService.java:54-69 | with unique usernames, the lookup finds the one user with that name |
| `Auth.RegisterThenLogin` | src/main/java/com/quizbackend/service/AuthService.java:30-69 | registration succeeds iff username and email are free; if the matcher accepts encoded passwords, the new user can then log in and receives the stored user |
| `ParticipationDtos.FromEntity` | src/main/java/com/quizbackend/dto/ParticipationDto.java:24-43 | null gives null; id, score, time, user and guest are copied; the summary exists iff the quiz does and carries its id, title and code |
| `ParticipationDtos.SummaryExposesOnlyIdTitleCode` | src/main/java/com/quizbackend/dto/ParticipationDto.java:18-22 | quizzes that agree on id, title and code give the same record |
| `ParticipationDtos.FromEntityInjective` | src/main/java/com/quizbackend/dto/ParticipationDto.java:26-31 | equal records come from entities with equal id, score, time, user and guest |

## Code and described behaviour

- **Scoring compares the whole selection with every question.** The comment above the test
  (`QuizService.java`, line 189) states the intent: all correct responses of the question
  selected and no incorrect ones. That intent narrows the submitted set to each question's
  own responses. The model follows the
  code instead: `calculateScore` fetches the full selection for each question.
  - Any selection that spans two questions therefore scores 0 (`Scoring.MixedSelectionScoresZero`).
  - Take a quiz with question 1 (responses 10 and 11 correct, 12 wrong) and question 2
    (response 20 correct, 21 wrong). Selecting every correct answer, [10, 11, 20], scores 0, not 100.00
    (`Scoring.ExampleFullAnswerScoresZero`).
- **Join and submit share one duplicate guard.** Joining by code records a participation
  with score 0. A later submission by the same user then fails as a duplicate
  (`Quizzes.JoinThenSubmit`). The model keeps both paths as the code has them.

## Left out

- The HTTP controllers, `StudentService` and the Python API test script. These are
  routing and transport only; the controllers' own DTO building repeats `FromEntity`.
- `getQuizzesByProfessor` and `getAllQuizzes`: plain pass-through queries with no rule.
- JWT generation, password hashing and matching: function-valued fields with no
  interpretation. A salting encoder's randomness is not modelled; `encode` is a fixed function.
- Logging in `AuthService`: it has no effect on state or results.
- Timestamps set by the `@PrePersist` hooks: they are method parameters. Clock values are
  not modelled.
- Transactions and concurrent requests: each call is atomic. The race between a duplicate
  check and its insert is not modelled.
- ORM mechanics:
  - the lazy quiz association is a lookup by the foreign key;
  - `save` of a new row is an append with the next identity value;
  - database constraints such as NOT NULL are not modelled.
- Responses of a deleted quiz's questions stay in the response table. `Question.java`,
  which would say whether they cascade, is not part of this model. The response entity
  maps `question_id` as a many-to-one join column (`Response.java`, lines 31-32), a foreign
  key, so the database either removes those responses or refuses the delete. It never
  leaves them dangling, as the model does. This matters for scoring: in the model, a later
  submission naming a stale response id still finds that row, and then no question counts.
  If the source cascades, the id simply vanishes. For example, the selection [stale 10, 20]
  against a question whose correct set is {20} scores 0 in the model and 100.00 in the
  source.
- Text comparison in lookups is exact. A case-insensitive database collation is not modelled.
- Java integer widths: ids and counters are unbounded. A 32-bit wrap-around of identity
  values or of the score counter cannot occur in the model.
- `Quizzes.QuizService.GenerateUniqueQuizCode`: the random draw becomes a finite candidate
  list that must contain a free code. This stands for the loop's probabilistic
  termination; a run that never finds a free code is not modelled.
- `Quizzes.QuizService.CreateQuiz`: the owner id is a plain integer, because a null owner
  is rejected by the NOT NULL column. Questions nested in the create request body are not
  modelled.
- `Quizzes.QuizService.UpdateQuiz`: the title is a non-null string, because a null title
  would fail at the NOT NULL column rather than in the service.
- `Quizzes.QuizService.SubmitQuizAnswers`: the selected ids form a list, never null.
- `Scoring.PercentScore`: BigDecimal scale is not kept. `BigDecimal.ZERO` (scale 0) and a
  computed 0.00 are the same value here.
- `QuizCodes.UpperChar`: upper-casing maps ASCII letters only. That covers every character
  a UUID string contains.
- `Auth.Role`: the four role names are those the registration switch lists; the enum's
  declaration order is unknown.
