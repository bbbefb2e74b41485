/** The relational store that every view reads and writes: one field per table. */
module Store {
  import opened Wrappers
  import opened Tables
  import opened AccountsModels
  import opened CoursesModels
  import opened QuizzesModels
  import opened PaymentsModels

  /** Every unit, video and material hangs off an existing course, unit and unit. */
  predicate CatalogLinked(courses: map<Id, Course>, units: map<Id, Unit>, videos: map<Id, Video>, materials: map<Id, Material>)
  {
    && (forall u :: u in units ==> units[u].course in courses)
    && (forall v :: v in videos ==> videos[v].unit in units)
    && (forall m :: m in materials ==> materials[m].unit in units)
  }

  /** Every quiz and question hangs off an existing video, every answer off an existing question. */
  predicate QuizzesLinked(videos: map<Id, Video>, quizzes: map<Id, Quiz>, questions: map<Id, Question>, answers: map<Id, Answer>)
  {
    && (forall q :: q in quizzes ==> quizzes[q].video in videos)
    && (forall q :: q in questions ==> questions[q].video in videos)
    && (forall a :: a in answers ==> answers[a].question in questions)
  }

  /** A course's slug. */
  function SlugOf(courses: map<Id, Course>, k: Id): string
    requires k in courses
  {
    courses[k].slug
  }

  /** No two courses share a slug (the column is unique). */
  predicate SlugsUnique(courses: map<Id, Course>)
  {
    forall a, b {:trigger SlugOf(courses, a), SlugOf(courses, b)} ::
      a in courses && b in courses && a != b ==> SlugOf(courses, a) != SlugOf(courses, b)
  }

  /** Writing a course whose slug no other course carries keeps the slugs unique. */
  lemma FreeSlugKeepsSlugsUnique(courses: map<Id, Course>, id: Id, row: Course)
    requires SlugsUnique(courses)
    requires forall k :: k in courses && k != id ==> courses[k].slug != row.slug
    ensures SlugsUnique(courses[id := row])
  {
    var courses' := courses[id := row];
    forall a, b | a in courses' && b in courses' && a != b
      ensures SlugOf(courses', a) != SlugOf(courses', b)
    {
      if a != id && b != id {
        assert SlugOf(courses', a) == SlugOf(courses, a);
        assert SlugOf(courses', b) == SlugOf(courses, b);
      }
    }
  }

  /** The accounts app's tables. */
  datatype AccountsTables = AccountsTables(
    users: map<Id, User>, nextUserId: Id,
    /** `UserSession` rows by their unique session key. */
    userSessions: map<string, UserSession>,
    /** The keys of the framework's own session rows. */
    sessionStore: set<string>)

  /** The course catalogue of the courses app. */
  datatype CatalogTables = CatalogTables(
    categories: map<Id, Category>,
    courses: map<Id, Course>, nextCourseId: Id,
    units: map<Id, Unit>, nextUnitId: Id,
    videos: map<Id, Video>, nextVideoId: Id,
    materials: map<Id, Material>, nextMaterialId: Id)

  /** The per-student progress tables of the courses app, each keyed by its unique columns. */
  datatype ProgressTables = ProgressTables(
    /** Keyed by (student, material). */
    materialViews: map<(Id, Id), MaterialView>,
    /** Keyed by (student, video). */
    videoWatches: map<(Id, Id), VideoWatch>,
    /** Keyed by (student, video, date). */
    attendances: map<(Id, Id, Date), Attendance>,
    /** Keyed by (student, course). */
    enrollments: map<(Id, Id), Enrollment>)

  /** The quizzes app's tables. */
  datatype QuizzesTables = QuizzesTables(
    quizzes: map<Id, Quiz>, nextQuizId: Id,
    questions: map<Id, Question>, nextQuestionId: Id,
    answers: map<Id, Answer>, nextAnswerId: Id,
    attempts: map<Id, QuizAttempt>, nextAttemptId: Id,
    /** Keyed by (attempt, question). */
    studentAnswers: map<(Id, Id), StudentAnswer>)

  /** The payments app's tables. */
  datatype PaymentsTables = PaymentsTables(
    purchases: map<Id, Purchase>, nextPurchaseId: Id,
    transactions: map<Id, Transaction>, nextTransactionId: Id)

  ghost predicate AccountsValid(a: AccountsTables)
  {
    KeysBelow(a.users, a.nextUserId) && UsernamesUnique(a.users)
  }

  ghost predicate CatalogValid(c: CatalogTables)
  {
    && KeysBelow(c.courses, c.nextCourseId)
    && KeysBelow(c.units, c.nextUnitId)
    && KeysBelow(c.videos, c.nextVideoId)
    && KeysBelow(c.materials, c.nextMaterialId)
    && CatalogLinked(c.courses, c.units, c.videos, c.materials)
    && SlugsUnique(c.courses)
    && UnitOrdersUnique(c.units)
    && VideoOrdersUnique(c.videos)
  }

  ghost predicate QuizzesValid(c: CatalogTables, q: QuizzesTables)
  {
    && KeysBelow(q.quizzes, q.nextQuizId)
    && KeysBelow(q.questions, q.nextQuestionId)
    && KeysBelow(q.answers, q.nextAnswerId)
    && KeysBelow(q.attempts, q.nextAttemptId)
    && QuizzesLinked(c.videos, q.quizzes, q.questions, q.answers)
    && OneQuizPerVideo(q.quizzes)
    && (forall k :: k in q.studentAnswers ==> k.0 in q.attempts)
  }

  ghost predicate PaymentsValid(c: CatalogTables, p: PaymentsTables)
  {
    && KeysBelow(p.purchases, p.nextPurchaseId)
    && KeysBelow(p.transactions, p.nextTransactionId)
    && TransactionIdsUnique(p.purchases)
    && (forall k :: k in p.purchases ==> p.purchases[k].course in c.courses)
  }

  /** The course a video belongs to, through its unit. */
  function CourseOfVideo(c: CatalogTables, video: Id): Id
    requires CatalogValid(c) && video in c.videos
  {
    c.units[c.videos[video].unit].course
  }

  /** The course a material belongs to, through its unit. */
  function CourseOfMaterial(c: CatalogTables, material: Id): Id
    requires CatalogValid(c) && material in c.materials
  {
    c.units[c.materials[material].unit].course
  }

  /** `CourseEnrollment.objects.filter(student, course, is_active=True).first()` finds a row. */
  predicate HasActiveEnrollment(p: ProgressTables, student: Id, course: Id)
  {
    (student, course) in p.enrollments && p.enrollments[(student, course)].isActive
  }

  /** The student has a completed purchase of the course. */
  predicate HasCompletedPurchase(p: PaymentsTables, student: Id, course: Id)
  {
    exists k :: k in p.purchases && p.purchases[k].student == student
      && p.purchases[k].course == course && p.purchases[k].status == Completed
  }

  /** The whole database: one field per app (the courses app's catalogue and progress tables
      apart), each holding that app's tables. */
  class Database {
    var accounts: AccountsTables
    var catalog: CatalogTables
    var progress: ProgressTables
    var quizzes: QuizzesTables
    var payments: PaymentsTables

    /** The store's constraints: ids below their counters, foreign keys resolved, and the
        unique columns unique. */
    ghost predicate Valid()
      reads this
    {
      && AccountsValid(accounts)
      && CatalogValid(catalog)
      && QuizzesValid(catalog, quizzes)
      && PaymentsValid(catalog, payments)
    }

    /** An empty store. */
    constructor ()
      ensures Valid()
      ensures accounts.users == map[] && accounts.userSessions == map[] && accounts.sessionStore == {}
      ensures catalog.courses == map[] && progress.enrollments == map[]
      ensures quizzes.quizzes == map[] && payments.purchases == map[]
    {
      accounts := AccountsTables(map[], 1, map[], {});
      catalog := CatalogTables(map[], map[], 1, map[], 1, map[], 1, map[], 1);
      progress := ProgressTables(map[], map[], map[], map[]);
      quizzes := QuizzesTables(map[], 1, map[], 1, map[], 1, map[], 1, map[]);
      payments := PaymentsTables(map[], 1, map[], 1);
    }

    /** `Course.save`: fills a blank slug from the title, then writes the row; the store refuses
        the write when another course already has the resulting slug. */
    method SaveCourse(id: Id, c: Course, slugify: string -> string) returns (saved: bool)
      requires Valid()
      requires id in catalog.courses || id == catalog.nextCourseId
      modifies this`catalog
      ensures Valid()
      ensures saved <==> forall k :: k in old(catalog.courses) && k != id ==> old(catalog.courses)[k].slug != WithSlug(c, slugify).slug
      ensures saved ==> catalog == old(catalog).(
        courses := old(catalog.courses)[id := WithSlug(c, slugify)],
        nextCourseId := if id == old(catalog.nextCourseId) then id + 1 else old(catalog.nextCourseId))
      ensures !saved ==> catalog == old(catalog)
    {
      var row := WithSlug(c, slugify);
      saved := forall k :: k in catalog.courses && k != id ==> catalog.courses[k].slug != row.slug;
      if saved {
        var next := if id == catalog.nextCourseId then id + 1 else catalog.nextCourseId;
        FreeSlugKeepsSlugsUnique(catalog.courses, id, row);
        catalog := catalog.(courses := catalog.courses[id := row], nextCourseId := next);
      }
    }
  }
}
