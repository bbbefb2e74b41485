/** Quiz authoring, quiz gating and quiz scoring (elearning/quizzes/views.py). */
module QuizzesViews {
  import opened Wrappers
  import opened Tables
  import opened CoursesModels
  import opened QuizzesModels
  import opened Store

  /** The tutor teaches the course the video belongs to (`unit__course__tutor=request.user`). */
  predicate TeachesVideo(c: CatalogTables, tutor: Id, video: Id)
    requires CatalogValid(c)
  {
    video in c.videos && c.courses[CourseOfVideo(c, video)].tutor == tutor
  }

  /** The video already has its (one) quiz. */
  predicate HasQuiz(quizzes: map<Id, Quiz>, video: Id)
  {
    exists k :: k in quizzes && quizzes[k].video == video
  }

  /** The course a quiz belongs to, through its video and unit. */
  function CourseOfQuiz(c: CatalogTables, q: QuizzesTables, quiz: Id): Id
    requires CatalogValid(c) && QuizzesValid(c, q) && quiz in q.quizzes
  {
    CourseOfVideo(c, q.quizzes[quiz].video)
  }

  // ----- tutor_create_quiz -----

  /** The quiz form; an absent number takes the model default, an empty deadline is none. */
  datatype QuizForm = QuizForm(
    title: string, description: string, passPercentage: Option<nat>, timeLimit: Option<nat>, deadline: Option<Time>)

  datatype CreateQuizOutcome =
    | VideoNotFound             // not a video of the tutor's: 404
    | QuizExists(quiz: Id)      // redirected to edit the existing quiz
    | CreateQuizPage            // GET: the form
    | QuizCreated(quiz: Id)     // redirected to add questions

  /** `tutor_create_quiz`: a video has at most one quiz; asking for a second one redirects to
      the first and creates nothing. */
  method TutorCreateQuiz(db: Database, tutor: Id, video: Id, isPost: bool, form: QuizForm) returns (outcome: CreateQuizOutcome)
    requires db.Valid()
    modifies db`quizzes
    ensures db.Valid()
    ensures outcome == VideoNotFound <==> !TeachesVideo(db.catalog, tutor, video)
    ensures outcome.QuizExists? <==> TeachesVideo(db.catalog, tutor, video) && HasQuiz(old(db.quizzes.quizzes), video)
    ensures outcome.QuizExists? ==>
      outcome.quiz in old(db.quizzes.quizzes) && old(db.quizzes.quizzes)[outcome.quiz].video == video
    ensures outcome == CreateQuizPage <==> TeachesVideo(db.catalog, tutor, video) && !HasQuiz(old(db.quizzes.quizzes), video) && !isPost
    ensures outcome.QuizCreated? <==> TeachesVideo(db.catalog, tutor, video) && !HasQuiz(old(db.quizzes.quizzes), video) && isPost
    ensures outcome.QuizCreated? ==>
      && outcome.quiz == old(db.quizzes.nextQuizId) && outcome.quiz !in old(db.quizzes.quizzes)
      && db.quizzes == old(db.quizzes).(
           quizzes := old(db.quizzes.quizzes)[outcome.quiz :=
             NewQuiz(video, form.title, form.description, form.passPercentage, form.timeLimit, form.deadline)],
           nextQuizId := outcome.quiz + 1)
    ensures !outcome.QuizCreated? ==> db.quizzes == old(db.quizzes)
  {
    if !TeachesVideo(db.catalog, tutor, video) {
      return VideoNotFound;
    }
    if HasQuiz(db.quizzes.quizzes, video) {
      var k :| k in db.quizzes.quizzes && db.quizzes.quizzes[k].video == video;
      return QuizExists(k);
    }
    if !isPost {
      return CreateQuizPage;
    }
    var id := db.quizzes.nextQuizId;
    var quiz := NewQuiz(video, form.title, form.description, form.passPercentage, form.timeLimit, form.deadline);
    QuizForFreeVideoKeepsOneQuizPerVideo(db.quizzes.quizzes, id, quiz);
    db.quizzes := db.quizzes.(quizzes := db.quizzes.quizzes[id := quiz], nextQuizId := id + 1);
    outcome := QuizCreated(id);
  }

  // ----- tutor_add_question -----

  /** The characters `str.strip` removes (Python's `str.isspace`): the ASCII controls tab to
      carriage return and the four separators 0x1C to 0x1F, the space, NEL, the no-break space, and
      the Unicode space and line/paragraph separators. */
  predicate IsSpace(c: char)
  {
    || '\t' <= c <= '\r'
    || '\U{1C}' <= c <= '\U{1F}'
    || c == ' ' || c == '\U{85}' || c == '\U{A0}' || c == '\U{1680}'
    || '\U{2000}' <= c <= '\U{200A}'
    || c == '\U{2028}' || c == '\U{2029}' || c == '\U{202F}' || c == '\U{205F}' || c == '\U{3000}'
  }

  /** `not text.strip()`: the text is empty or only blanks. */
  predicate IsBlank(text: string)
  {
    forall i :: 0 <= i < |text| ==> IsSpace(text[i])
  }

  /** `str(n)`: the decimal digits of `n`. */
  function NatToString(n: nat): (s: string)
    ensures |s| >= 1
    ensures forall i :: 0 <= i < |s| ==> '0' <= s[i] <= '9'
  {
    var digit := ['0' + (n % 10) as char];
    if n < 10 then digit else NatToString(n / 10) + digit
  }

  /** The number a string of decimal digits denotes, most significant digit first. */
  function DigitsValue(s: string): nat
    requires forall i :: 0 <= i < |s| ==> '0' <= s[i] <= '9'
  {
    if s == [] then 0
    else DigitsValue(s[..|s| - 1]) * 10 + (s[|s| - 1] - '0') as nat
  }

  /** `str(n)` denotes `n`. */
  lemma {:induction false} NatToStringValue(n: nat)
    ensures DigitsValue(NatToString(n)) == n
  {
    var digit := ['0' + (n % 10) as char];
    if n >= 10 {
      var s := NatToString(n / 10);
      assert (s + digit)[..|s|] == s;
      NatToStringValue(n / 10);
    }
  }

  /** Distinct indices are written out differently, so `str(i) in is_correct` singles out the
      index `i`. */
  lemma NatToStringInjective(a: nat, b: nat)
    requires NatToString(a) == NatToString(b)
    ensures a == b
  {
    NatToStringValue(a);
    NatToStringValue(b);
  }

  /** The answers created for a question from the submitted texts: one per non-blank text, in
      submission order. */
  function AnswerRows(question: Id, texts: seq<string>, correct: seq<string>): (rows: seq<Answer>)
    ensures |rows| <= |texts|
  {
    if texts == [] then []
    else
      var n := |texts| - 1;
      var rows := AnswerRows(question, texts[..n], correct);
      if IsBlank(texts[n]) then rows
      else rows + [Answer(question, texts[n], NatToString(n) in correct, n)]
  }

  /** Each created answer belongs to the question, is a non-blank text, remembers that text's
      index among all the texts (blank ones included) and is correct exactly when that index,
      written out, is among the ticked boxes. */
  lemma {:induction false} AnswerRowsAreMarked(question: Id, texts: seq<string>, correct: seq<string>)
    ensures forall r :: r in AnswerRows(question, texts, correct) ==>
      && r.question == question && r.order < |texts| && r.text == texts[r.order] && !IsBlank(r.text)
      && (r.isCorrect <==> NatToString(r.order) in correct)
  {
    if texts != [] {
      var n := |texts| - 1;
      AnswerRowsAreMarked(question, texts[..n], correct);
    }
  }

  /** Every non-blank text becomes an answer. */
  lemma {:induction false} AnswerRowsComplete(question: Id, texts: seq<string>, correct: seq<string>, i: nat)
    requires i < |texts| && !IsBlank(texts[i])
    ensures exists r :: r in AnswerRows(question, texts, correct) && r.order == i
  {
    var n := |texts| - 1;
    var rows := AnswerRows(question, texts[..n], correct);
    if i < n {
      AnswerRowsComplete(question, texts[..n], correct, i);
      var r :| r in rows && r.order == i;
      assert r in AnswerRows(question, texts, correct);
    } else {
      var row := Answer(question, texts[n], NatToString(n) in correct, n);
      assert AnswerRows(question, texts, correct) == rows + [row];
      assert row in rows + [row];
    }
  }

  /** Rows whose `order` increases along the sequence. */
  predicate InOrder(rows: seq<Answer>)
  {
    forall a, b :: 0 <= a < b < |rows| ==> rows[a].order < rows[b].order
  }

  /** The answers are created in submission order. */
  lemma {:induction false} AnswerRowsOrdered(question: Id, texts: seq<string>, correct: seq<string>)
    ensures InOrder(AnswerRows(question, texts, correct))
  {
    if texts != [] {
      var n := |texts| - 1;
      AnswerRowsOrdered(question, texts[..n], correct);
      AnswerRowsAreMarked(question, texts[..n], correct);
      var rows := AnswerRows(question, texts[..n], correct);
      assert forall a :: 0 <= a < |rows| ==> rows[a] in rows;
      if !IsBlank(texts[n]) {
        var all := rows + [Answer(question, texts[n], NatToString(n) in correct, n)];
        assert AnswerRows(question, texts, correct) == all;
        forall a, b | 0 <= a < b < |all| ensures all[a].order < all[b].order {
          if b < |rows| {
            assert all[a] == rows[a] && all[b] == rows[b];
            assert rows[a].order < rows[b].order;
          } else {
            assert all[b].order == n;
            assert all[a] == rows[a] && rows[a] in rows;
            assert rows[a].order < |texts[..n]| == n;
          }
        }
      }
    }
  }

  /** Adding a question of an existing video, and its answers, keeps the quiz tables consistent. */
  lemma AddQuestionKeepsQuizzesValid(c: CatalogTables, q: QuizzesTables, row: Question, texts: seq<string>, correct: seq<string>)
    requires QuizzesValid(c, q) && row.video in c.videos
    ensures var question := q.nextQuestionId;
      var rows := AnswerRows(question, texts, correct);
      QuizzesValid(c, q.(
        questions := q.questions[question := row],
        nextQuestionId := question + 1,
        answers := InsertFrom(q.answers, q.nextAnswerId, rows),
        nextAnswerId := q.nextAnswerId + |rows|))
  {
    var rows := AnswerRows(q.nextQuestionId, texts, correct);
    AnswerRowsAreMarked(q.nextQuestionId, texts, correct);
    InsertFromContents(q.answers, q.nextAnswerId, rows);
    assert forall j :: 0 <= j < |rows| ==> rows[j] in rows;
  }

  /** The question form: the answer texts and the indices of the correct ones, as submitted. */
  datatype QuestionForm = QuestionForm(
    text: string, questionType: Option<QuestionType>, points: Option<nat>, order: Option<nat>,
    answerTexts: seq<string>, correct: seq<string>)

  datatype AddQuestionOutcome =
    | AddQuizNotFound                      // not a quiz of the tutor's: 404
    | AddQuestionPage(suggestedOrder: nat) // GET: the form, suggesting the next order
    | QuestionAdded(question: Id)          // redirected to edit the quiz

  /** The answer loop of `tutor_add_question`: each non-blank text, in turn, becomes an answer
      of `question` under the next answer id. */
  method AddAnswers(db: Database, question: Id, texts: seq<string>, correct: seq<string>)
    modifies db`quizzes
    ensures db.quizzes == old(db.quizzes).(
      answers := InsertFrom(old(db.quizzes.answers), old(db.quizzes.nextAnswerId), AnswerRows(question, texts, correct)),
      nextAnswerId := old(db.quizzes.nextAnswerId) + |AnswerRows(question, texts, correct)|)
  {
    ghost var before := db.quizzes;
    var i := 0;
    while i < |texts|
      invariant 0 <= i <= |texts|
      invariant db.quizzes == before.(
        answers := InsertFrom(before.answers, before.nextAnswerId, AnswerRows(question, texts[..i], correct)),
        nextAnswerId := before.nextAnswerId + |AnswerRows(question, texts[..i], correct)|)
    {
      assert texts[..i + 1][..i] == texts[..i];
      ghost var rows := AnswerRows(question, texts[..i], correct);
      if !IsBlank(texts[i]) {
        var id := db.quizzes.nextAnswerId;
        var answer := Answer(question, texts[i], NatToString(i) in correct, i);
        assert (rows + [answer])[..|rows|] == rows;
        db.quizzes := db.quizzes.(answers := db.quizzes.answers[id := answer], nextAnswerId := id + 1);
      }
      i := i + 1;
    }
    assert texts[..i] == texts;
  }

  /** `tutor_add_question`: a POST adds one question to the quiz's video and then, in a loop,
      one answer per non-blank text. */
  method TutorAddQuestion(db: Database, tutor: Id, quiz: Id, isPost: bool, form: QuestionForm) returns (outcome: AddQuestionOutcome)
    requires db.Valid()
    modifies db`quizzes
    ensures db.Valid()
    ensures outcome == AddQuizNotFound <==>
      quiz !in old(db.quizzes.quizzes) || !TeachesVideo(db.catalog, tutor, old(db.quizzes.quizzes)[quiz].video)
    ensures outcome.AddQuestionPage? <==> !outcome.AddQuizNotFound? && !isPost
    ensures !outcome.QuestionAdded? ==> db.quizzes == old(db.quizzes)
    ensures outcome.AddQuestionPage? ==>
      && quiz in db.quizzes.quizzes
      && var video := db.quizzes.quizzes[quiz].video;
         outcome.suggestedOrder
           == CountBelow(db.quizzes.questions, db.quizzes.nextQuestionId, (k: Id, q: Question) => q.video == video) + 1
    ensures outcome.QuestionAdded? ==>
      var old' := old(db.quizzes);
      var rows := AnswerRows(outcome.question, form.answerTexts, form.correct);
      && outcome.question == old'.nextQuestionId && outcome.question !in old'.questions
      && db.quizzes == old'.(
           questions := old'.questions[outcome.question :=
             NewQuestion(old'.quizzes[quiz].video, form.text, form.questionType, form.points, form.order)],
           nextQuestionId := outcome.question + 1,
           answers := InsertFrom(old'.answers, old'.nextAnswerId, rows),
           nextAnswerId := old'.nextAnswerId + |rows|)
  {
    if quiz !in db.quizzes.quizzes || !TeachesVideo(db.catalog, tutor, db.quizzes.quizzes[quiz].video) {
      return AddQuizNotFound;
    }
    var video := db.quizzes.quizzes[quiz].video;
    if !isPost {
      var count := CountBelow(db.quizzes.questions, db.quizzes.nextQuestionId, (k: Id, q: Question) => q.video == video);
      return AddQuestionPage(count + 1);
    }
    var question := db.quizzes.nextQuestionId;
    var row := NewQuestion(video, form.text, form.questionType, form.points, form.order);
    db.quizzes := db.quizzes.(questions := db.quizzes.questions[question := row], nextQuestionId := question + 1);

    AddQuestionKeepsQuizzesValid(db.catalog, old(db.quizzes), row, form.answerTexts, form.correct);
    AddAnswers(db, question, form.answerTexts, form.correct);
    outcome := QuestionAdded(question);
  }

  // ----- take_quiz -----

  datatype TakeQuizOutcome =
    | TakeQuizNotFound     // 404
    | TakeNotEnrolled      // redirected to the catalogue
    | TakeDeadlinePassed   // redirected to the course
    | TakeQuizInactive     // redirected to the course
    | ShowQuiz             // the questions

  /** `take_quiz`: the quiz must exist and the student must be actively enrolled in its course;
      an unavailable quiz is refused, reporting a passed deadline before an inactive quiz. */
  function TakeQuiz(c: CatalogTables, q: QuizzesTables, p: ProgressTables, student: Id, quiz: Id, now: Time): (o: TakeQuizOutcome)
    requires CatalogValid(c) && QuizzesValid(c, q)
    ensures o == TakeQuizNotFound <==> quiz !in q.quizzes
    ensures o == TakeNotEnrolled <==> quiz in q.quizzes && !HasActiveEnrollment(p, student, CourseOfQuiz(c, q, quiz))
    ensures o == ShowQuiz <==>
      quiz in q.quizzes && HasActiveEnrollment(p, student, CourseOfQuiz(c, q, quiz)) && IsAvailable(q.quizzes[quiz], now)
    ensures o == TakeDeadlinePassed <==>
      quiz in q.quizzes && HasActiveEnrollment(p, student, CourseOfQuiz(c, q, quiz))
      && q.quizzes[quiz].deadline.Some? && now > q.quizzes[quiz].deadline.value
    ensures o == TakeQuizInactive ==> !q.quizzes[quiz].isActive
  {
    if quiz !in q.quizzes then TakeQuizNotFound
    else if !HasActiveEnrollment(p, student, CourseOfQuiz(c, q, quiz)) then TakeNotEnrolled
    else
      var row := q.quizzes[quiz];
      if IsAvailable(row, now) then ShowQuiz
      else if IsDeadlinePassed(row, now) then TakeDeadlinePassed
      else TakeQuizInactive
  }

  // ----- submit_quiz -----

  /** One entry of the submitted `answers` list. */
  datatype Entry = Entry(question: Id, answer: Option<Id>)

  /** The entry names an answer (`if selected_answer_id:`; the id 0 counts as none). */
  predicate Selected(e: Entry)
  {
    e.answer.Some? && e.answer.value != 0
  }

  /** The entry's question exists, and so does its selected answer if it has one. */
  predicate Resolves(questions: map<Id, Question>, answers: map<Id, Answer>, e: Entry)
  {
    e.question in questions && (Selected(e) ==> e.answer.value in answers)
  }

  /** No question is answered twice (each answered entry writes a row keyed by its question). */
  predicate AnsweredOnce(entries: seq<Entry>)
  {
    forall i, j :: 0 <= i < j < |entries| && Selected(entries[i]) && Selected(entries[j]) ==>
      entries[i].question != entries[j].question
  }

  /** The sum of the points of the entries' questions, answered or not. */
  function PointsOf(questions: map<Id, Question>, entries: seq<Entry>): nat
    requires forall e :: e in entries ==> e.question in questions
  {
    if entries == [] then 0
    else
      var n := |entries| - 1;
      PointsOf(questions, entries[..n]) + questions[entries[n].question].points
  }

  /** What an entry earns: its question's points when its selected answer is marked correct. The
      answer is looked up by id alone, whichever question it belongs to. */
  function Earned(questions: map<Id, Question>, answers: map<Id, Answer>, e: Entry): nat
    requires Resolves(questions, answers, e)
  {
    if Selected(e) && answers[e.answer.value].isCorrect then questions[e.question].points else 0
  }

  /** The sum of what the entries earn. */
  function ScoreOf(questions: map<Id, Question>, answers: map<Id, Answer>, entries: seq<Entry>): nat
    requires forall e :: e in entries ==> Resolves(questions, answers, e)
  {
    if entries == [] then 0
    else
      var n := |entries| - 1;
      ScoreOf(questions, answers, entries[..n]) + Earned(questions, answers, entries[n])
  }

  /** The `StudentAnswer` rows of an attempt: one per answered entry, keyed by its question. */
  function Recorded(questions: map<Id, Question>, answers: map<Id, Answer>, attempt: Id, entries: seq<Entry>)
    : map<(Id, Id), StudentAnswer>
    requires forall e :: e in entries ==> Resolves(questions, answers, e)
  {
    if entries == [] then map[]
    else
      var n := |entries| - 1;
      var e := entries[n];
      assert e in entries && Resolves(questions, answers, e);
      var rows := Recorded(questions, answers, attempt, entries[..n]);
      if Selected(e) then
        var correct := answers[e.answer.value].isCorrect;
        rows[(attempt, e.question) := StudentAnswer(e.answer, correct, Earned(questions, answers, e))]
      else rows
  }

  /** Every recorded row belongs to the attempt. */
  lemma {:induction false} RecordedRowsOfAttempt(questions: map<Id, Question>, answers: map<Id, Answer>, attempt: Id,
                                                 entries: seq<Entry>)
    requires forall e :: e in entries ==> Resolves(questions, answers, e)
    ensures forall k :: k in Recorded(questions, answers, attempt, entries) ==> k.0 == attempt
  {
    if entries != [] {
      var n := |entries| - 1;
      assert forall e :: e in entries[..n] ==> e in entries;
      RecordedRowsOfAttempt(questions, answers, attempt, entries[..n]);
    }
  }

  /** A row is recorded for a question exactly when some entry answers it. */
  lemma {:induction false} RecordedOnlyAnswered(questions: map<Id, Question>, answers: map<Id, Answer>, attempt: Id,
                                                entries: seq<Entry>, q: Id)
    requires forall e :: e in entries ==> Resolves(questions, answers, e)
    ensures (attempt, q) in Recorded(questions, answers, attempt, entries) <==>
      exists e :: e in entries && Selected(e) && e.question == q
  {
    if entries != [] {
      var n := |entries| - 1;
      assert forall x :: x in entries <==> x in entries[..n] || x == entries[n];
      RecordedOnlyAnswered(questions, answers, attempt, entries[..n], q);
    }
  }

  /** The entry at `i` makes the loop raise before it writes anything: its question or its
      selected answer does not exist (`DoesNotExist`), or an earlier entry already answered its
      question, so its row clashes with that one on the unique (attempt, question) key. */
  predicate FailsAt(questions: map<Id, Question>, answers: map<Id, Answer>, entries: seq<Entry>, i: int)
    requires 0 <= i < |entries|
  {
    !Resolves(questions, answers, entries[i])
    || (Selected(entries[i]) &&
        exists e :: e in entries[..i] && Selected(e) && e.question == entries[i].question)
  }

  /** How many entries the loop gets through: the index of the first entry that raises, or all of
      them when none does. */
  function Completed(questions: map<Id, Question>, answers: map<Id, Answer>, entries: seq<Entry>): (n: nat)
    ensures n <= |entries|
    ensures forall i :: 0 <= i < n ==> !FailsAt(questions, answers, entries, i)
    ensures n < |entries| ==> FailsAt(questions, answers, entries, n)
    ensures forall e :: e in entries[..n] ==> Resolves(questions, answers, e)
  {
    CompletedFrom(questions, answers, entries, 0)
  }

  /** `Completed`, searching from `k` on. */
  function CompletedFrom(questions: map<Id, Question>, answers: map<Id, Answer>, entries: seq<Entry>, k: nat): (n: nat)
    requires k <= |entries|
    requires forall i :: 0 <= i < k ==> !FailsAt(questions, answers, entries, i)
    ensures k <= n <= |entries|
    ensures forall i :: 0 <= i < n ==> !FailsAt(questions, answers, entries, i)
    ensures n < |entries| ==> FailsAt(questions, answers, entries, n)
    ensures forall e :: e in entries[..n] ==> Resolves(questions, answers, e)
    decreases |entries| - k
  {
    if k == |entries| || FailsAt(questions, answers, entries, k) then
      assert forall e :: e in entries[..k] ==> Resolves(questions, answers, e) by {
        forall e | e in entries[..k] ensures Resolves(questions, answers, e) {
          var i :| 0 <= i < k && e == entries[i];
          assert !FailsAt(questions, answers, entries, i);
        }
      }
      k
    else CompletedFrom(questions, answers, entries, k + 1)
  }

  /** The loop gets through every entry exactly when the submission is processable. */
  lemma CompletedAllIffProcessable(q: QuizzesTables, entries: seq<Entry>)
    ensures Completed(q.questions, q.answers, entries) == |entries| <==> Processable(q, entries)
  {
    var n := Completed(q.questions, q.answers, entries);
    if n == |entries| {
      assert entries[..n] == entries;
      forall i, j | 0 <= i < j < |entries| && Selected(entries[i]) && Selected(entries[j])
        ensures entries[i].question != entries[j].question
      {
        assert entries[i] in entries[..j];
        assert !FailsAt(q.questions, q.answers, entries, j);
      }
    } else {
      assert FailsAt(q.questions, q.answers, entries, n);
      assert entries[n] in entries;
      if Selected(entries[n]) && entries[n] in entries && Resolves(q.questions, q.answers, entries[n]) {
        var e :| e in entries[..n] && Selected(e) && e.question == entries[n].question;
        var j :| 0 <= j < n && entries[j] == e;
        assert !AnsweredOnce(entries);
      }
    }
  }

  /** `total_score / total_points * 100`, or 0 when there are no points. */
  function Percentage(score: nat, total: nat): real
  {
    if total > 0 then score as real / total as real * 100.0 else 0.0
  }

  /** A score never exceeds the points at stake. */
  lemma {:induction false} ScoreAtMostPoints(questions: map<Id, Question>, answers: map<Id, Answer>, entries: seq<Entry>)
    requires forall e :: e in entries ==> Resolves(questions, answers, e)
    ensures ScoreOf(questions, answers, entries) <= PointsOf(questions, entries)
  {
    if entries != [] {
      var n := |entries| - 1;
      assert forall e :: e in entries[..n] ==> e in entries;
      assert entries[n] in entries;
      ScoreAtMostPoints(questions, answers, entries[..n]);
      assert ScoreOf(questions, answers, entries)
          == ScoreOf(questions, answers, entries[..n]) + Earned(questions, answers, entries[n]);
      assert PointsOf(questions, entries) == PointsOf(questions, entries[..n]) + questions[entries[n].question].points;
    }
  }

  /** A percentage of a score within its total lies between 0 and 100. */
  lemma PercentageBounds(score: nat, total: nat)
    requires score <= total
    ensures 0.0 <= Percentage(score, total) <= 100.0
  {
    if total > 0 {
      assert score as real / total as real <= 1.0;
    }
  }

  /** `percentage >= pass_percentage` without division: with points at stake, the score times 100
      reaches the pass mark times the total; with none, only a pass mark of 0 is reached. */
  lemma PassedIffCrossMultiplied(score: nat, total: nat, pass: nat)
    ensures Percentage(score, total) >= pass as real <==>
      if total > 0 then score * 100 >= pass * total else pass == 0
  {
    if total > 0 {
      var t := total as real;
      assert Percentage(score, total) * t == score as real * 100.0;
      assert (score * 100) as real == score as real * 100.0;
      assert (pass * total) as real == pass as real * t;
      if Percentage(score, total) >= pass as real {
        assert Percentage(score, total) * t >= pass as real * t;
      } else {
        assert Percentage(score, total) * t < pass as real * t;
      }
    }
  }

  /** The ids of the questions the entries name. */
  function QuestionIds(entries: seq<Entry>): set<Id>
  {
    set e | e in entries :: e.question
  }

  /** A question's points if its id is in `ids`, else 0. */
  function PointsIn(ids: set<Id>): (Id, Question) -> int
  {
    (k: Id, q: Question) => if k in ids then q.points else 0
  }

  /** Entries naming distinct questions are worth the sum of those questions' points. */
  lemma {:induction false} PointsOfDistinct(questions: map<Id, Question>, next: Id, entries: seq<Entry>)
    requires KeysBelow(questions, next)
    requires forall e :: e in entries ==> e.question in questions
    requires forall i, j :: 0 <= i < j < |entries| ==> entries[i].question != entries[j].question
    ensures PointsOf(questions, entries) == SumBelow(questions, next, PointsIn(QuestionIds(entries)))
  {
    if entries == [] {
      SumBelowZero(questions, next, PointsIn(QuestionIds(entries)));
    } else {
      var n := |entries| - 1;
      var prefix, j := entries[..n], entries[n].question;
      assert forall e :: e in prefix ==> e in entries;
      PointsOfDistinct(questions, next, prefix);
      assert QuestionIds(entries) == QuestionIds(prefix) + {j} by {
        assert forall e :: e in entries <==> e in prefix || e == entries[n];
      }
      assert j !in QuestionIds(prefix) by {
        forall e | e in prefix
          ensures e.question != j
        {
          var i :| 0 <= i < n && prefix[i] == e;
        }
      }
      SumBelowAdd(questions, next, PointsIn(QuestionIds(prefix)), PointsIn({j}), PointsIn(QuestionIds(entries)));
      SumBelowOne(questions, next, j, PointsIn({j}));
    }
  }

  /** A submission naming distinct questions of the quiz's video puts at most the quiz's total
      points (`Quiz.get_total_points`) at stake. */
  lemma SubmissionWithinQuizTotal(questions: map<Id, Question>, next: Id, video: Id, entries: seq<Entry>)
    requires KeysBelow(questions, next)
    requires forall e :: e in entries ==> e.question in questions && questions[e.question].video == video
    requires forall i, j :: 0 <= i < j < |entries| ==> entries[i].question != entries[j].question
    ensures PointsOf(questions, entries) <= TotalPoints(questions, next, video)
  {
    PointsOfDistinct(questions, next, entries);
    var ids := QuestionIds(entries);
    forall k | k in questions
      ensures PointsIn(ids)(k, questions[k]) <= PointsOfVideo(video)(k, questions[k])
    {
      if k in ids {
        var e :| e in entries && e.question == k;
      }
    }
    SumBelowMono(questions, next, PointsIn(ids), PointsOfVideo(video));
  }

  /** Adding a completed attempt under the next id, with answer rows of that attempt only, keeps
      the quiz tables consistent. */
  lemma ScoredAttemptKeepsQuizzesValid(c: CatalogTables, q: QuizzesTables, a: QuizAttempt, rows: map<(Id, Id), StudentAnswer>)
    requires QuizzesValid(c, q)
    requires forall k :: k in rows ==> k.0 == q.nextAttemptId
    ensures QuizzesValid(c, q.(attempts := q.attempts[q.nextAttemptId := a], nextAttemptId := q.nextAttemptId + 1,
                               studentAnswers := q.studentAnswers + rows))
  {
  }

  /** What `submit_quiz` answers. */
  datatype SubmitOutcome =
    | SubmitQuizNotFound   // 404
    | SubmitNotEnrolled    // 403
    | SubmitCrashed        // 500: an entry raised inside the loop; what was written before it stays
    | Scored(attempt: Id, score: nat, totalPoints: nat, percentage: real, isPassed: bool)

  /** The submission can be processed: every question and selected answer exists, and no question
      is answered twice. */
  predicate Processable(q: QuizzesTables, entries: seq<Entry>)
  {
    (forall e :: e in entries ==> Resolves(q.questions, q.answers, e)) && AnsweredOnce(entries)
  }

  /** The loop of `submit_quiz`: adds up the points at stake and the points earned, and records
      each answered entry against the attempt, until an entry raises. The attempt has no rows yet,
      so the (attempt, question) key clashes exactly when an earlier entry answered the question. */
  method RecordEntries(db: Database, attempt: Id, entries: seq<Entry>) returns (totalScore: nat, totalPoints: nat, failed: bool)
    requires forall k :: k in db.quizzes.studentAnswers ==> k.0 != attempt
    modifies db`quizzes
    ensures
      var q := old(db.quizzes);
      var n := Completed(q.questions, q.answers, entries);
      && (failed <==> n < |entries|)
      && db.quizzes == q.(studentAnswers := q.studentAnswers + Recorded(q.questions, q.answers, attempt, entries[..n]))
    ensures !failed ==> forall e :: e in entries ==> Resolves(old(db.quizzes.questions), old(db.quizzes.answers), e)
    ensures !failed ==> totalPoints == PointsOf(old(db.quizzes.questions), entries)
    ensures !failed ==> totalScore == ScoreOf(old(db.quizzes.questions), old(db.quizzes.answers), entries)
  {
    ghost var before := db.quizzes;
    var questions, answers := db.quizzes.questions, db.quizzes.answers;
    totalScore, totalPoints, failed := 0, 0, false;
    var i := 0;
    while i < |entries|
      invariant 0 <= i <= |entries|
      invariant forall j :: 0 <= j < i ==> !FailsAt(questions, answers, entries, j)
      invariant forall e :: e in entries[..i] ==> Resolves(questions, answers, e)
      invariant totalPoints == PointsOf(questions, entries[..i])
      invariant totalScore == ScoreOf(questions, answers, entries[..i])
      invariant db.quizzes == before.(
        studentAnswers := before.studentAnswers + Recorded(questions, answers, attempt, entries[..i]))
    {
      assert entries[..i + 1][..i] == entries[..i];
      var e := entries[i];
      RecordedOnlyAnswered(questions, answers, attempt, entries[..i], e.question);
      if e.question !in questions {
        assert FailsAt(questions, answers, entries, i);
        failed := true;
        return;
      }
      var question := questions[e.question];
      totalPoints := totalPoints + question.points;
      if Selected(e) {
        if e.answer.value !in answers || (attempt, e.question) in db.quizzes.studentAnswers {
          assert FailsAt(questions, answers, entries, i);
          failed := true;
          return;
        }
        var isCorrect := answers[e.answer.value].isCorrect;
        var pointsEarned := if isCorrect then question.points else 0;
        totalScore := totalScore + pointsEarned;
        db.quizzes := db.quizzes.(studentAnswers :=
          db.quizzes.studentAnswers[(attempt, e.question) := StudentAnswer(e.answer, isCorrect, pointsEarned)]);
      }
      assert !FailsAt(questions, answers, entries, i);
      i := i + 1;
    }
    assert entries[..i] == entries;
  }

  /** The attempt-completing part of `submit_quiz`, once the quiz and the enrollment are known:
      an attempt is created, the loop adds up the points at stake and the points earned and records
      each answered entry, then the attempt is completed with its score, percentage and verdict at
      `now`. When an entry raises, the request fails with the new attempt left incomplete and the
      rows of the entries before it kept. */
  method ScoreAttempt(db: Database, student: Id, quiz: Id, entries: seq<Entry>, now: Time) returns (outcome: SubmitOutcome)
    requires db.Valid() && quiz in db.quizzes.quizzes
    modifies db`quizzes
    ensures db.Valid()
    ensures outcome.Scored? <==> Processable(old(db.quizzes), entries)
    ensures outcome == SubmitCrashed <==> !Processable(old(db.quizzes), entries)
    ensures outcome == SubmitCrashed ==>
      var old' := old(db.quizzes);
      var n := Completed(old'.questions, old'.answers, entries);
      db.quizzes == old'.(
        attempts := old'.attempts[old'.nextAttemptId := NewAttempt(student, quiz, old'.quizzes[quiz].video)],
        nextAttemptId := old'.nextAttemptId + 1,
        studentAnswers := old'.studentAnswers + Recorded(old'.questions, old'.answers, old'.nextAttemptId, entries[..n]))
    ensures outcome.Scored? ==>
      var old' := old(db.quizzes);
      var q := old'.quizzes[quiz];
      && outcome.attempt == old'.nextAttemptId && outcome.attempt !in old'.attempts
      && outcome.totalPoints == PointsOf(old'.questions, entries)
      && outcome.score == ScoreOf(old'.questions, old'.answers, entries)
      && outcome.percentage == Percentage(outcome.score, outcome.totalPoints)
      && (outcome.isPassed <==> outcome.percentage >= q.passPercentage as real)
      && db.quizzes == old'.(
           attempts := old'.attempts[outcome.attempt := QuizAttempt(student, quiz, q.video, outcome.score,
             outcome.totalPoints, outcome.percentage, outcome.isPassed, Some(now))],
           nextAttemptId := outcome.attempt + 1,
           studentAnswers := old'.studentAnswers + Recorded(old'.questions, old'.answers, outcome.attempt, entries))
  {
    ghost var c0, q0 := db.catalog, db.quizzes;
    assert QuizzesValid(c0, q0);
    CompletedAllIffProcessable(q0, entries);
    ghost var n := Completed(q0.questions, q0.answers, entries);
    var q := db.quizzes.quizzes[quiz];
    var attempt := db.quizzes.nextAttemptId;
    var started := NewAttempt(student, quiz, q.video);
    db.quizzes := db.quizzes.(attempts := db.quizzes.attempts[attempt := started],
                              nextAttemptId := attempt + 1);

    var totalScore, totalPoints, failed := RecordEntries(db, attempt, entries);
    RecordedRowsOfAttempt(q0.questions, q0.answers, attempt, entries[..n]);
    if failed {
      ScoredAttemptKeepsQuizzesValid(c0, q0, started, Recorded(q0.questions, q0.answers, attempt, entries[..n]));
      return SubmitCrashed;
    }
    assert entries[..n] == entries;
    var percentage := Percentage(totalScore, totalPoints);
    var isPassed := percentage >= q.passPercentage as real;
    var completed := QuizAttempt(student, quiz, q.video, totalScore, totalPoints, percentage, isPassed, Some(now));
    ScoredAttemptKeepsQuizzesValid(c0, q0, completed, Recorded(q0.questions, q0.answers, attempt, entries));
    assert db.quizzes.attempts[attempt := completed] == q0.attempts[attempt := completed];
    db.quizzes := db.quizzes.(attempts := db.quizzes.attempts[attempt := completed]);
    outcome := Scored(attempt, totalScore, totalPoints, percentage, isPassed);
  }

  /** `submit_quiz`: an unknown quiz is a 404 and a student without an active enrollment in its
      course a 403; otherwise the submission is scored, or fails part-way when an entry raises.
      Only the enrollment is checked, not the quiz's availability. */
  method SubmitQuiz(db: Database, student: Id, quiz: Id, entries: seq<Entry>, now: Time) returns (outcome: SubmitOutcome)
    requires db.Valid()
    modifies db`quizzes
    ensures db.Valid()
    ensures outcome == SubmitQuizNotFound <==> quiz !in old(db.quizzes.quizzes)
    ensures outcome == SubmitNotEnrolled <==>
      quiz in old(db.quizzes.quizzes) && !HasActiveEnrollment(db.progress, student, old(CourseOfQuiz(db.catalog, db.quizzes, quiz)))
    ensures outcome == SubmitCrashed <==>
      quiz in old(db.quizzes.quizzes) && HasActiveEnrollment(db.progress, student, old(CourseOfQuiz(db.catalog, db.quizzes, quiz)))
      && !Processable(old(db.quizzes), entries)
    ensures outcome.Scored? <==>
      quiz in old(db.quizzes.quizzes) && HasActiveEnrollment(db.progress, student, old(CourseOfQuiz(db.catalog, db.quizzes, quiz)))
      && Processable(old(db.quizzes), entries)
    ensures outcome == SubmitQuizNotFound || outcome == SubmitNotEnrolled ==> db.quizzes == old(db.quizzes)
    ensures outcome == SubmitCrashed ==>
      var old' := old(db.quizzes);
      var n := Completed(old'.questions, old'.answers, entries);
      db.quizzes == old'.(
        attempts := old'.attempts[old'.nextAttemptId := NewAttempt(student, quiz, old'.quizzes[quiz].video)],
        nextAttemptId := old'.nextAttemptId + 1,
        studentAnswers := old'.studentAnswers + Recorded(old'.questions, old'.answers, old'.nextAttemptId, entries[..n]))
    ensures outcome.Scored? ==>
      var old' := old(db.quizzes);
      var q := old'.quizzes[quiz];
      && outcome.attempt == old'.nextAttemptId && outcome.attempt !in old'.attempts
      && outcome.totalPoints == PointsOf(old'.questions, entries)
      && outcome.score == ScoreOf(old'.questions, old'.answers, entries)
      && outcome.percentage == Percentage(outcome.score, outcome.totalPoints)
      && (outcome.isPassed <==> outcome.percentage >= q.passPercentage as real)
      && db.quizzes == old'.(
           attempts := old'.attempts[outcome.attempt := QuizAttempt(student, quiz, q.video, outcome.score,
             outcome.totalPoints, outcome.percentage, outcome.isPassed, Some(now))],
           nextAttemptId := outcome.attempt + 1,
           studentAnswers := old'.studentAnswers + Recorded(old'.questions, old'.answers, outcome.attempt, entries))
  {
    if quiz !in db.quizzes.quizzes {
      return SubmitQuizNotFound;
    }
    if !HasActiveEnrollment(db.progress, student, CourseOfQuiz(db.catalog, db.quizzes, quiz)) {
      return SubmitNotEnrolled;
    }
    outcome := ScoreAttempt(db, student, quiz, entries, now);
  }
}
