/** Quizzes, questions, answers and scored attempts (elearning/quizzes/models.py). */
module QuizzesModels {
  import opened Wrappers
  import opened Tables

  datatype QuestionType = Mcq | TrueFalse

  /** A question belongs to a video; it earns `points` when answered correctly. */
  datatype Question = Question(video: Id, text: string, questionType: QuestionType, points: nat, order: nat)

  datatype Answer = Answer(question: Id, text: string, isCorrect: bool, order: nat)

  /** A quiz is one-to-one with its video; the deadline is optional. */
  datatype Quiz = Quiz(
    video: Id,
    title: string,
    description: string,
    passPercentage: nat,
    timeLimit: nat,
    deadline: Option<Time>,
    isActive: bool)

  const DefaultPassPercentage: nat := 70
  const DefaultTimeLimit: nat := 30
  const DefaultPoints: nat := 1

  /** `QuizAttempt`: `percentage` is `score / totalPoints * 100`, kept exactly. */
  datatype QuizAttempt = QuizAttempt(
    student: Id,
    quiz: Id,
    video: Id,
    score: nat,
    totalPoints: nat,
    percentage: real,
    isPassed: bool,
    completedAt: Option<Time>)

  /** `StudentAnswer`, keyed by (attempt, question). */
  datatype StudentAnswer = StudentAnswer(selectedAnswer: Option<Id>, isCorrect: bool, pointsEarned: nat)

  /** A quiz as `tutor_create_quiz` creates it: absent fields take their defaults, and the quiz
      starts active. */
  function NewQuiz(video: Id, title: string, description: string,
                   passPercentage: Option<nat>, timeLimit: Option<nat>, deadline: Option<Time>): (q: Quiz)
    ensures q.video == video && q.deadline == deadline && q.isActive
    ensures passPercentage.None? ==> q.passPercentage == DefaultPassPercentage
    ensures passPercentage.Some? ==> q.passPercentage == passPercentage.value
    ensures timeLimit.None? ==> q.timeLimit == DefaultTimeLimit
    ensures timeLimit.Some? ==> q.timeLimit == timeLimit.value
  {
    Quiz(video, title, description,
         if passPercentage.Some? then passPercentage.value else DefaultPassPercentage,
         if timeLimit.Some? then timeLimit.value else DefaultTimeLimit,
         deadline, true)
  }

  const DefaultQuestionOrder: nat := 0

  /** A question as `tutor_add_question` creates it: an absent type is multiple choice, absent
      points are 1 and an absent order is 0. */
  function NewQuestion(video: Id, text: string, questionType: Option<QuestionType>,
                       points: Option<nat>, order: Option<nat>): (q: Question)
    ensures q.video == video && q.text == text
    ensures q.questionType == if questionType.Some? then questionType.value else Mcq
    ensures q.points == if points.Some? then points.value else DefaultPoints
    ensures q.order == if order.Some? then order.value else DefaultQuestionOrder
  {
    Question(video, text,
             if questionType.Some? then questionType.value else Mcq,
             if points.Some? then points.value else DefaultPoints,
             if order.Some? then order.value else DefaultQuestionOrder)
  }

  /** An attempt as it is created, before it is scored. */
  function NewAttempt(student: Id, quiz: Id, video: Id): (a: QuizAttempt)
    ensures a.student == student && a.quiz == quiz && a.video == video
    ensures a.score == 0 && a.totalPoints == 0 && a.percentage == 0.0
    ensures !a.isPassed && a.completedAt.None?
  {
    QuizAttempt(student, quiz, video, 0, 0, 0.0, false, None)
  }

  /** `Quiz.is_deadline_passed`: false without a deadline; otherwise strictly after it. */
  function IsDeadlinePassed(q: Quiz, now: Time): (passed: bool)
    ensures q.deadline.None? ==> !passed
    ensures q.deadline.Some? ==> (passed <==> now > q.deadline.value)
  {
    match q.deadline
    case None => false
    case Some(d) => now > d
  }

  /** `Quiz.is_available`. */
  function IsAvailable(q: Quiz, now: Time): (available: bool)
    ensures available <==> q.isActive && (q.deadline.None? || now <= q.deadline.value)
  {
    q.isActive && !IsDeadlinePassed(q, now)
  }

  /** At exactly its deadline an active quiz is still available; one instant later it is not. */
  lemma AvailableUntilDeadline(q: Quiz)
    requires q.isActive && q.deadline.Some?
    ensures IsAvailable(q, q.deadline.value)
    ensures !IsAvailable(q, q.deadline.value + 1)
  {
  }

  /** The points a question contributes to its video's quiz total. */
  function PointsOfVideo(video: Id): (Id, Question) -> int
  {
    (k: Id, q: Question) => if q.video == video then q.points else 0
  }

  /** `Quiz.get_total_points`: the sum of the points of every question of the quiz's video. */
  function TotalPoints(questions: map<Id, Question>, next: Id, video: Id): (total: nat)
  {
    SumBelowNonneg(questions, next, PointsOfVideo(video));
    SumBelow(questions, next, PointsOfVideo(video))
  }

  /** Only one quiz per video (the one-to-one link). */
  predicate OneQuizPerVideo(quizzes: map<Id, Quiz>)
  {
    forall a, b {:trigger VideoOfQuiz(quizzes, a), VideoOfQuiz(quizzes, b)} ::
      a in quizzes && b in quizzes && a != b ==> VideoOfQuiz(quizzes, a) != VideoOfQuiz(quizzes, b)
  }

  /** The video the quiz stored under `k` belongs to. */
  function VideoOfQuiz(quizzes: map<Id, Quiz>, k: Id): Id
    requires k in quizzes
  {
    quizzes[k].video
  }

  /** Adding a quiz for a video that has none keeps one quiz per video. */
  lemma QuizForFreeVideoKeepsOneQuizPerVideo(quizzes: map<Id, Quiz>, id: Id, quiz: Quiz)
    requires OneQuizPerVideo(quizzes) && id !in quizzes
    requires forall k :: k in quizzes ==> quizzes[k].video != quiz.video
    ensures OneQuizPerVideo(quizzes[id := quiz])
  {
    var quizzes' := quizzes[id := quiz];
    forall a, b | a in quizzes' && b in quizzes' && a != b
      ensures VideoOfQuiz(quizzes', a) != VideoOfQuiz(quizzes', b)
    {
      if a != id && b != id {
        assert VideoOfQuiz(quizzes', a) == VideoOfQuiz(quizzes, a);
        assert VideoOfQuiz(quizzes', b) == VideoOfQuiz(quizzes, b);
      }
    }
  }
}
