# E-learning site: quizzes, progress, enrollment gating, payments and accounts

This project models, in Dafny, the decision and bookkeeping logic of a Django e-learning site.
Tutors build courses out of units, videos and materials. Students enroll, either for free or by
paying through a payment processor. They then watch videos, view materials and take quizzes.

The database is one `Store.Database` object. It has one field per app:

- `accounts`: users, user sessions, and the framework's session keys;
- `catalog`: categories, courses, units, videos and materials;
- `progress`: material views, video watches, attendances and enrollments;
- `quizzes`: quizzes, questions, answers, attempts and student answers;
- `payments`: purchases and transactions.

Each table is a `map`. A table with an auto-increment key is a `map<Id, Row>` plus its id
counter. A table with a `unique_together` key is a map keyed by that tuple, so at most one row
per key holds by construction. The other unique columns are stated in `Database.Valid()` and
preserved by every view that writes the store:

- usernames;
- course slugs;
- purchase transaction ids;
- unit order within a course, and video order within a unit;
- one quiz per video.

Each view is a method with an explicit outcome datatype standing for its HTTP answer (404, 403,
a redirect, a page, a JSON reply). Its `modifies` clause names only the app fields it writes.
It states its new state in full, and the cases that reject change nothing.

Python floats (`percentage`, `progress`) are modelled as exact reals. Decimal prices and amounts
are integer cents.

The `submit_quiz` loop is `QuizzesViews.RecordEntries`, a `while` loop proved against the
functions `PointsOf`, `ScoreOf`, `Recorded` and `Completed`. The `tutor_add_question` answer loop is
`QuizzesViews.AddAnswers`, proved against `AnswerRows`. The middleware's revocation loop is
`AccountsMiddleware.RevokeOtherSessions`, proved against `Revoked`.

Some behaviour is modelled as the code has it, not as its comments or field names suggest:

- The payment webhook is not idempotent. A repeated success event appends one more transaction.
- A success event completes a purchase whatever its status, and never sets `completed_at`.
- `submit_quiz` checks enrollment but not availability.
- `submit_quiz` looks up a question by its id alone, so a question of another video counts toward the total points and gets an answer row. It looks up a selected answer by its id alone too, whichever question it belongs to.
- A `submit_quiz` whose loop raises part-way leaves an incomplete attempt (score 0, no completion time) and the answers recorded before the failing entry.
- A video watch can lose its completion on a later ping.
- Editing a course sets the price and the free flag independently.

## Model

| member | source | states |
|---|---|---|
| AccountsDecorators.RoleRequired | elearning/accounts/decorators.py:6-16 | The view runs, and its response is returned, iff the viewer is logged in and their role is in the allowed set. An anonymous viewer is sent to login. A logged-in viewer with another role is sent home. |
| AccountsDecorators.AdminRequiredAdmits | elearning/accounts/decorators.py:18-19 | `admin_required` admits exactly the admins. |
| AccountsDecorators.TutorRequiredAdmits | elearning/accounts/decorators.py:21-22 | `tutor_required` admits exactly tutors and admins, and sends a student home. |
| AccountsDecorators.StudentRequiredAdmits | elearning/accounts/decorators.py:24-25 | `student_required` admits exactly students, and sends an admin home. |
| AccountsModels.ParseRole | elearning/accounts/models.py:6-12 | A parsed role prints back as the same text; text that is not one of the three role names parses to nothing. |
| AccountsModels.ParseRoleName | elearning/accounts/models.py:6-10 | Round trip: parsing a role's stored name gives back that role. |
| AccountsModels.NewUser | elearning/accounts/models.py:12-16 | A new user has the given username, email and role, and is not suspended. |
| AccountsModels.CreateUser | elearning/accounts/views.py:64-69 | `create_user` refuses an empty username. Otherwise the row holds the username and email as the user manager normalises them, the given role, and is not suspended. |
| AccountsModels.ExactlyOneRole | elearning/accounts/models.py:23-30 | Exactly one of `is_admin`, `is_tutor` and `is_student` holds of every user. |
| AccountsModels.NewUserSession | elearning/accounts/models.py:33-40 | A new session row records the given user, device and address, and is active. |
| AccountsModels.RemovingUserKeepsUsernamesUnique | elearning/accounts/views.py:242-243 | Deleting a user keeps the remaining usernames unique. |
| AccountsMiddleware.Truncate | elearning/accounts/middleware.py:11 | `s[:n]` is a prefix of `s` whose length is the smaller of `len(s)` and `n`. |
| AccountsMiddleware.BeforeFirstComma | elearning/accounts/middleware.py:46 | `s.split(',')[0]` is a prefix of `s` with no comma. It is all of `s`, or it is followed by a comma. |
| AccountsMiddleware.ClientIp | elearning/accounts/middleware.py:43-49 | A non-empty `X-Forwarded-For` yields its text before the first comma. Otherwise the result is the peer address, possibly none. |
| AccountsMiddleware.ClientIpTakesFirstHopUntrimmed | elearning/accounts/middleware.py:44-48 | An illustration on fixed inputs, not a general property: the header `" a, b"` gives `" a"`, blanks kept, and an empty header falls back to the peer address. |
| AccountsMiddleware.Revoked | elearning/accounts/middleware.py:14-25 | The revocation keeps every key. Afterwards only the current key can be an active session of the user. Other users' rows and the current row are untouched, and a revoked row differs only in its active flag. |
| AccountsMiddleware.AfterRequest | elearning/accounts/middleware.py:14-41 | The session rows after a request: the revocations, then the upsert of the current key. `OnlyCurrentSessionActive` and `OtherUsersUntouched` state what it leaves. |
| AccountsMiddleware.OnlyCurrentSessionActive | elearning/accounts/middleware.py:14-41 | After a request, the current key is the user's only active session. It is recorded with the request's device and address, and no other key is added. |
| AccountsMiddleware.OtherUsersUntouched | elearning/accounts/middleware.py:14-17 | Another user's session rows are left exactly as they were. |
| AccountsMiddleware.RevokeOtherSessions | elearning/accounts/middleware.py:14-25 | The loop switches off every other active session of the user, and deletes exactly those keys from the session store. Users are unchanged. |
| AccountsMiddleware.ProcessRequest | elearning/accounts/middleware.py:6-41 | An anonymous request, or one without a session key, changes nothing. Otherwise the rows become revoke-then-upsert, with the device info truncated to 255 characters and the client address. A key owned by another user leaves only the revocations. The store stays valid. |
| AccountsViews.DashboardOf | elearning/accounts/views.py:25-30 | After login an admin lands on the admin dashboard and a tutor on the tutor dashboard. Everyone else lands on the student dashboard. |
| AccountsViews.LoginView | elearning/accounts/views.py:8-34 | A user is logged in iff they were not logged in already, it is a POST, the credentials are valid, and the user is not suspended. A suspended user and bad credentials each get their error on the form. |
| AccountsViews.AccountCheck | elearning/accounts/views.py:193-199 | No error iff neither the username nor the email is in use. "Username taken" takes precedence over "email taken". |
| AccountsViews.RegistrationError | elearning/accounts/views.py:46-62 | Registration is checked in order: role, then password confirmation, then username, then email. Each error is reported iff the earlier checks pass and its own fails. |
| AccountsViews.RegistrationRoleIsNotAdmin | elearning/accounts/views.py:46-50 | A registration that passes the checks asks for a student or tutor role, never admin. |
| AccountsViews.AddingCheckedUserKeepsUsernamesUnique | elearning/accounts/views.py:56-69 | Adding a user whose stored username nobody holds keeps usernames unique. |
| AccountsViews.Register | elearning/accounts/views.py:36-74 | A user is created iff not logged in, the validation chain passes, and `create_user` succeeds. It fails iff the username is empty or its normalised form is taken. Exactly one user is added, with the requested role and the normalised username and email, under the next id. Any other outcome reports its error and changes nothing. |
| AccountsViews.AdminCreateTutor | elearning/accounts/views.py:184-213 | The same username and email checks apply, then `create_user`, which fails iff the username is empty or its normalised form is taken. On success exactly one user is added, always a tutor, with the normalised username and email. On any failure nothing changes. |
| AccountsViews.AdminDeleteUser | elearning/accounts/views.py:234-245 | An unknown user gives a 404. An admin deleting their own account is refused. Any other user is removed, and only that user. |
| AccountsViews.Revenue | elearning/accounts/views.py:99-101 | The admin dashboard's total revenue: the sum of the amounts of the completed purchases, 0 when there are none. `RevenueBounds`, `RevenueOnCompletion` and `RevenueIgnoresPendingPurchase` state how it moves. |
| AccountsViews.RevenueBounds | elearning/accounts/views.py:99-101 | Revenue is 0 when no purchase is completed, and never negative when amounts are not. |
| AccountsViews.RevenueOnCompletion | elearning/accounts/views.py:99-101 | Completing a purchase adds its amount to the revenue. Completing it again adds nothing. |
| AccountsViews.RevenueIgnoresPendingPurchase | elearning/accounts/views.py:99-101 | A new pending purchase leaves the revenue unchanged. |
| CoursesModels.NewEnrollment | elearning/courses/models.py:165-166 | A new enrollment is active, with progress 0. |
| CoursesModels.NewMaterialView | elearning/courses/models.py:113 | A new material view is not completed. |
| CoursesModels.NewVideoWatch | elearning/courses/models.py:128-135 | A new video watch has nothing watched and is not completed, not active, and without a completion time. |
| CoursesModels.EnsureEnrolled | elearning/payments/views.py:21-24 | Get-or-create by (student, course): an existing row, active or not, is kept as it is. Otherwise exactly that key is added with a new enrollment. |
| CoursesModels.EnsureActiveEnrolled | elearning/payments/views.py:107-111 | Get-or-create with `is_active=True` in the lookup fails iff an inactive row holds the key. Otherwise it is the plain get-or-create, and the row is active. |
| CoursesModels.EnsureEnrolledIdempotent | elearning/courses/models.py:172 | Repeating either get-or-create changes nothing; at most one row is added. |
| CoursesModels.EnrolledStudents | elearning/courses/models.py:43-45 | `get_enrolled_students` counts the completed purchases of the course. `EnrolledStudentsAtMostPurchases` bounds it. |
| CoursesModels.WithSlug | elearning/courses/models.py:32-35 | A blank slug is filled from the title; any other slug is kept. |
| CoursesModels.SlugIsStable | elearning/courses/models.py:32-35 | Once a course has a slug, later saves keep it whatever the title becomes. |
| CoursesModels.InsertUnit | elearning/courses/models.py:64 | A unit insert is refused iff another unit of the course has its order. Otherwise the unit is added and orders stay unique. |
| CoursesModels.FreshUnitPlaceKeepsOrdersUnique | elearning/courses/models.py:64 | Adding a unit at a free (course, order) place keeps unit orders unique. |
| CoursesModels.InsertVideo | elearning/courses/models.py:84 | A video insert is refused iff another video of the unit has its order. Otherwise the video is added and orders stay unique. |
| CoursesModels.FreshVideoPlaceKeepsOrdersUnique | elearning/courses/models.py:84 | Adding a video at a free (unit, order) place keeps video orders unique. |
| CoursesModels.EnrolledStudentsAtMostPurchases | elearning/courses/models.py:43-45 | The enrolled-students count never exceeds the course's purchases, and is 0 when none is completed. |
| CoursesViews.AdminCreateCourse | elearning/courses/views.py:16-49 | The tutor is checked before the category. A created course is approved and published, takes its slug from its title, and costs 0 when free. A slug clash or a rejection changes nothing. |
| CoursesViews.AdminEditCourse | elearning/courses/views.py:58-90 | Unknown course, a tutor that is not a tutor, or an unknown category gives a 404 and no change. Otherwise the submitted fields replace the old ones and the existing slug is kept. The save clashes iff the old slug is blank and another course already has the slug of the new title; a clash changes nothing. |
| CoursesViews.FreePriceRuleOnlyOnCreate | elearning/courses/views.py:65-66 | Creating a free course stores price 0, but an edit can store a free course with a non-zero price. |
| CoursesViews.EditKeepsSlug | elearning/courses/views.py:63-80 | Editing a course that has a slug never changes the slug, even when the title changes. |
| CoursesViews.Listed | elearning/courses/views.py:225-238 | A course is listed iff it is published and approved, is in the chosen category when one is given, and, for a non-blank query, contains it in its title or description regardless of case. |
| CoursesViews.CourseCatalog | elearning/courses/views.py:224-238 | The catalogue is the set of stored courses that are listed. `FiltersNarrowCatalog` states that the filters only narrow it. |
| CoursesViews.LowerAllIdempotent | elearning/courses/views.py:234-238 | Lower-casing twice is lower-casing once. |
| CoursesViews.SearchIgnoresQueryCase | elearning/courses/views.py:234-238 | The case-insensitive search gives the same answer for a query and its lower-cased form. |
| CoursesViews.OccurrenceIsFound | elearning/courses/views.py:234-238 | A text containing the query verbatim matches it, and every text matches the empty query. |
| CoursesViews.FiltersNarrowCatalog | elearning/courses/views.py:224-238 | The category and search filters only narrow the catalogue, which holds only published, approved courses. |
| CoursesViews.CourseLearn | elearning/courses/views.py:281-307 | A paid course without an active enrollment is refused. A free one creates the enrollment, and an inactive row clashes. A shown page has an active enrollment, and an existing one is left alone. |
| CoursesViews.Pinged | elearning/courses/views.py:325-329 | A ping with non-negative counts overwrites the watch time, progress and last position with the reported values, 0 where one is missing. The watch is then complete iff its progress is at least 90. The active flag and completion time are kept. |
| CoursesViews.LastPingWins | elearning/courses/views.py:325-329 | Two pings in a row leave what the second alone would leave. |
| CoursesViews.CompletionCanBeLost | elearning/courses/views.py:328 | A ping at 95 completes the watch, and a later one at 50 clears it again. |
| CoursesViews.TrackVideoProgress | elearning/courses/views.py:310-331 | Unknown video gives a 404 and no change. Otherwise the student's watch row of the video is created if needed. It fails iff a reported count is negative, keeping only that row. Otherwise the row is overwritten by the ping. Enrollments are untouched. |
| CoursesViews.CourseProgress | elearning/courses/views.py:389-408 | The completed materials and videos of the course over all its items, times 100, or none when the course has no items. `CourseProgressInRange` bounds it between 0 and 100. |
| CoursesViews.CourseProgressInRange | elearning/courses/views.py:390-409 | The recomputed enrollment progress, when there are items, lies between 0 and 100. |
| CoursesViews.ShareInRange | elearning/courses/views.py:404-408 | A count of items at most the total, over a positive total, times 100 lies between 0 and 100. |
| CoursesViews.MaterialAccess | elearning/courses/views.py:350-378 | Refused iff the course is paid, with no active enrollment and no completed purchase. A free course clashes iff an inactive enrollment exists. A granted gate leaves the enrollments as a get-or-create of the student's row leaves them: an existing row is kept, otherwise a new active one is added. |
| CoursesViews.CompleteView | elearning/courses/views.py:380-409 | A first view completes the student's view row and recomputes the enrollment's progress when the course has items; a repeat view changes nothing. `CompleteViewFrame`, `CompleteViewKeepsProgressInRange` and `RepeatViewChangesNothing` state what it touches. |
| CoursesViews.CompleteViewFrame | elearning/courses/views.py:380-409 | A view past the gate completes the student's view row of the material. Watches and attendances are unchanged, and of the enrollments only this one's progress may change. |
| CoursesViews.CompleteViewKeepsProgressInRange | elearning/courses/views.py:388-409 | A view keeps every enrollment's progress between 0 and 100. |
| CoursesViews.ViewMaterialEffect | elearning/courses/views.py:344-415 | Material not found iff the material does not exist. Any outcome other than shown leaves the progress tables unchanged. |
| CoursesViews.GateMaterial | elearning/courses/views.py:350-378 | The enrollment gate's outcome and the new enrollment table are those of `MaterialAccess`. |
| CoursesViews.CompleteMaterialView | elearning/courses/views.py:380-409 | Marks the view completed and recomputes the enrollment progress as `CompleteView` specifies. |
| CoursesViews.ViewMaterial | elearning/courses/views.py:344-415 | The outcome and the new progress tables are those of `ViewMaterialEffect`. The store stays valid. |
| CoursesViews.MaterialGate | elearning/courses/views.py:356-378 | A material is shown iff the student has an active enrollment, or the course is free with no enrollment row, or it is paid with a completed purchase. |
| CoursesViews.RepeatViewChangesNothing | elearning/courses/views.py:380-387 | Viewing a material again right after a shown view changes nothing. |
| CoursesViews.ViewKeepsProgressInRange | elearning/courses/views.py:388-409 | `view_material` keeps every enrollment's progress between 0 and 100. |
| CoursesViews.ViewTouchesOnlyTheStudent | elearning/courses/views.py:380-409 | A shown view leaves the student's view row completed. Watches, attendances, and other students' enrollments and views are unchanged. |
| PaymentsModels.NewPurchase | elearning/payments/models.py:14-22 | A new purchase has the given fields, is pending, and has no completion time. |
| PaymentsModels.AddPurchaseKeepsTransactionIdsUnique | elearning/payments/models.py:19 | Adding a purchase with a fresh transaction id keeps transaction ids unique. |
| PaymentsModels.StatusChangeKeepsTransactionIdsUnique | elearning/payments/models.py:19 | Changing a purchase's status keeps transaction ids unique. |
| PaymentsViews.Checkout | elearning/payments/views.py:16-41 | Unknown or unpublished course gives a 404. A free course is joined by get-or-create and no purchase is made. A paid course with an active enrollment redirects. Only the free path writes. |
| PaymentsViews.CreatePaymentIntent | elearning/payments/views.py:44-78 | Unknown course gives a 404. An active enrollment or a failed processor call gives a 400 and adds no purchase. Otherwise exactly one pending purchase of the course's price, with the intent id, is added. |
| PaymentsViews.LatestWithIntent | elearning/payments/views.py:99-101 | Finds the most recent purchase carrying the intent id, or none iff no purchase carries it. |
| PaymentsViews.LatestWithIntentIgnoresStatus | elearning/payments/views.py:99-105 | Changing a purchase's status does not change which purchase an intent id finds. |
| PaymentsViews.MatchedPurchase | elearning/payments/views.py:96-103 | A purchase is matched only by a verified success event, and it carries the event's intent id. A verified success event matches nothing iff no purchase below the id counter carries that id, which in a valid store is every purchase. |
| PaymentsViews.PurchaseTransaction | elearning/payments/views.py:113-119 | The logged transaction is a course purchase of the purchase's amount, with the event's charge id and "Purchase of" the course title. |
| PaymentsViews.StripeWebhook | elearning/payments/views.py:81-121 | A refused delivery gives 400 iff unverified. Another event type or an unknown intent changes nothing. A success completes the purchase whatever its status, then does get-or-create on an active enrollment and appends one transaction. An inactive enrollment fails after the purchase was saved. |
| PaymentsViews.DeliverTwice | elearning/payments/views.py:103-119 | A success event delivered twice adds one enrollment at most but two transactions. |
| QuizzesModels.NewQuiz | elearning/quizzes/views.py:22-35 | A new quiz is active, for the given video and deadline. It has pass percentage 70 and time limit 30 unless given. |
| QuizzesModels.NewQuestion | elearning/quizzes/views.py:72-83 | A new question is multiple choice, worth 1 point, at order 0, unless given. |
| QuizzesModels.NewAttempt | elearning/quizzes/models.py:73-83 | A new attempt has score, total and percentage 0, is not passed and is not completed. |
| QuizzesModels.IsDeadlinePassed | elearning/quizzes/models.py:58-63 | No deadline is never passed; otherwise it is passed iff now is strictly after it. |
| QuizzesModels.IsAvailable | elearning/quizzes/models.py:65-67 | Available iff active and without a deadline, or not after it. |
| QuizzesModels.AvailableUntilDeadline | elearning/quizzes/models.py:58-67 | An active quiz is available at exactly its deadline and not one second later. |
| QuizzesModels.TotalPoints | elearning/quizzes/models.py:55-56 | `get_total_points`: the sum of the points of the questions of the quiz's video. `PointsOfDistinct` and `SubmissionWithinQuizTotal` relate it to a submission. |
| QuizzesModels.QuizForFreeVideoKeepsOneQuizPerVideo | elearning/quizzes/models.py:39 | Adding a quiz for a video without one keeps one quiz per video. |
| QuizzesViews.TutorCreateQuiz | elearning/quizzes/views.py:13-40 | A video not taught by the tutor gives a 404. A video that already has a quiz gives that quiz and no second one. A POST otherwise adds exactly one quiz with the defaults, and other outcomes change nothing. |
| QuizzesViews.IsSpace | elearning/quizzes/views.py:89 | The characters `str.strip` removes: exactly the 29 code points Python counts as white space. |
| QuizzesViews.IsBlank | elearning/quizzes/views.py:89 | `not text.strip()`: the text is empty or white space only. `AnswerRowsAreMarked` and `AnswerRowsComplete` state that exactly the non-blank texts become answers. |
| QuizzesViews.NatToString | elearning/quizzes/views.py:93 | `str(i)` is a non-empty string of decimal digits. |
| QuizzesViews.NatToStringValue | elearning/quizzes/views.py:93 | The digits of `str(n)` denote `n`. |
| QuizzesViews.NatToStringInjective | elearning/quizzes/views.py:93 | Distinct indices are written differently, so `str(i) in is_correct` marks exactly the index `i`. |
| QuizzesViews.AnswerRows | elearning/quizzes/views.py:88-95 | There are never more answers than submitted texts. |
| QuizzesViews.AnswerRowsAreMarked | elearning/quizzes/views.py:88-95 | Each answer is a non-blank text of the question, with `order` its index among all the texts, blanks included. It is correct iff `str(order)` is among the correct indices. |
| QuizzesViews.AnswerRowsComplete | elearning/quizzes/views.py:88-95 | Every non-blank text yields an answer at its index. |
| QuizzesViews.AnswerRowsOrdered | elearning/quizzes/views.py:88-95 | The answers are created in strictly increasing order of their index. |
| QuizzesViews.AddQuestionKeepsQuizzesValid | elearning/quizzes/views.py:77-95 | Adding a question and its answers keeps the quiz tables valid. |
| QuizzesViews.AddAnswers | elearning/quizzes/views.py:88-95 | The loop inserts exactly the rows of `AnswerRows`, under consecutive fresh ids. |
| QuizzesViews.TutorAddQuestion | elearning/quizzes/views.py:67-104 | Not the tutor's quiz gives a 404. A GET suggests the video's question count plus one. A POST adds one question with defaults and its answers, and nothing else changes. |
| QuizzesViews.TakeQuiz | elearning/quizzes/views.py:116-142 | The quiz is shown iff it exists, the student is actively enrolled, and it is available. A passed deadline is reported before an inactive quiz. |
| QuizzesViews.PointsOf | elearning/quizzes/views.py:169-171 | The sum of the points of the entries' questions, answered or not. `ScoreAtMostPoints` and `PointsOfDistinct` state its bounds. |
| QuizzesViews.ScoreOf | elearning/quizzes/views.py:173-178 | The sum of the points of the questions whose selected answer is marked correct. `ScoreAtMostPoints` bounds it by `PointsOf`. |
| QuizzesViews.Recorded | elearning/quizzes/views.py:173-186 | One answer row per answered entry, keyed by the attempt and the question. `RecordedRowsOfAttempt` and `RecordedOnlyAnswered` state which rows exist. |
| QuizzesViews.RecordedRowsOfAttempt | elearning/quizzes/views.py:180-186 | Every student answer written belongs to the new attempt. |
| QuizzesViews.RecordedOnlyAnswered | elearning/quizzes/views.py:173-186 | A row exists for a question iff some submitted entry for it selected an answer. |
| QuizzesViews.ScoreAtMostPoints | elearning/quizzes/views.py:166-178 | The score never exceeds the total points. |
| QuizzesViews.Percentage | elearning/quizzes/views.py:188 | `total_score / total_points * 100`, or 0 without points. `PercentageBounds` and `PassedIffCrossMultiplied` state its range and the verdict. |
| QuizzesViews.PercentageBounds | elearning/quizzes/views.py:188 | The percentage lies between 0 and 100. |
| QuizzesViews.PassedIffCrossMultiplied | elearning/quizzes/views.py:188-189 | Passed iff `score * 100 >= pass * total` when there are points. With none, passed iff the pass mark is 0. |
| QuizzesViews.PointsOfDistinct | elearning/quizzes/models.py:55-56 | With distinct questions, the submission's points equal the sum of points over those questions. |
| QuizzesViews.SubmissionWithinQuizTotal | elearning/quizzes/models.py:55-56 | A submission of distinct questions of the video is worth at most the quiz's total points. |
| QuizzesViews.ScoredAttemptKeepsQuizzesValid | elearning/quizzes/views.py:160-196 | Adding a scored attempt with its own answers keeps the quiz tables valid. |
| QuizzesViews.Completed | elearning/quizzes/views.py:169-186 | The loop gets through exactly the entries before the first one that raises: an unknown question or answer, or a question already answered. |
| QuizzesViews.CompletedAllIffProcessable | elearning/quizzes/views.py:169-186 | No entry raises iff every question and selected answer exists and no question is answered twice. |
| QuizzesViews.RecordEntries | elearning/quizzes/views.py:166-186 | The loop fails iff some entry raises. Its new rows are exactly `Recorded` of the entries it got through, and nothing else changes. When it does not fail, its totals are the points at stake and the points earned. |
| QuizzesViews.ScoreAttempt | elearning/quizzes/views.py:160-204 | Scores iff the submission is processable. Then exactly one attempt is added, with its score, total, percentage, completion time, and a verdict that holds iff the percentage reaches the pass mark, and its answers are recorded. Otherwise the request fails, leaving an incomplete attempt and the rows of the entries before the failing one. |
| QuizzesViews.SubmitQuiz | elearning/quizzes/views.py:145-204 | Unknown quiz gives a 404. Without an active enrollment the answer is 403, with no attempt and no answers. Otherwise, whether or not the quiz is available, it scores iff the submission is processable, with the attempt and rows `ScoreAttempt` states; else it fails with the residue `ScoreAttempt` states. |
| Store.FreeSlugKeepsSlugsUnique | elearning/courses/models.py:20 | Writing a course with a slug no other course holds keeps slugs unique. |
| Store.Database.SaveCourse | elearning/courses/models.py:32-35 | The save succeeds iff no other course has the resulting slug. It writes the row with the slug rule applied; a refused save changes nothing. |

## Left out

- SubmitQuiz: a malformed JSON body, and an entry without a `question_id` key, are not modelled. Each entry is a question id and an optional answer id.
- TrackVideoProgress: the ping's counts are the whole numbers the integer columns store, the `int()` the ORM applies on save, so a fractional position is stored truncated. A negative count is modelled: it fails the non-negative check on save. A count that `int()` accepts, such as the string `"12"` or a boolean, is stored as that number, and the model's counts already stand for it. So is a progress that is a number or a boolean. Any other value raises after `get_or_create` has inserted the watch row, at the `>= 90` test or at the save, and that error is not modelled. That covers a non-numeric count, a null, a list or an object, and a progress given as a string. An unparsable JSON body is not modelled either. A missing key reads as 0.
- TrackVideoProgress, SubmitQuiz, CreatePaymentIntent, StripeWebhook: the HTTP method check that answers 405 to anything but POST is not modelled. Each method stands for a POST.
- LoginView, Register: the HTTP method check that answers 405 to anything but GET or POST is not modelled. For LoginView a request that is not a POST stands for a GET. Register stands for a POST, or for any request of a logged-in user, which is redirected home first. An anonymous GET, which shows the empty form, is not modelled.
- ProcessRequest: deleting the framework's session row always succeeds here. The source ignores any error from it.
- Case folding in the catalogue search is modelled for ASCII letters only. Unicode case rules are not modelled.
- Percentages and progress are exact reals, not binary floats, so rounding is not modelled. The visible consequence is the pass verdict on a boundary: with 57 of 100 points and a pass mark of 57, the float `57 / 100 * 100` is `56.99999999999999`. The source then stores the attempt as failed, while `Percentage` and `PassedIffCrossMultiplied` say passed. Prices and amounts are integer cents, not decimals. The amount sent to the processor is the price in cents, standing for `int(price * 100)`.
- The payment processor, `slugify`, the clock and `uuid4` are parameters. An intent-creation function stands for the processor, and a verified or refused delivery stands for signature checking. The transaction id is required to be fresh.
- TutorAddQuestion, TutorCreateQuiz, AdminCreateCourse, AdminEditCourse: form fields are typed values here (integer points, orders, minutes and pass marks, prices in cents, ids). The source hands the POST strings to the ORM, which converts them when the row is saved. A value that does not convert raises a server error, and that error is not modelled. Points, orders, pass marks and time limits are natural numbers here. A negative one converts but fails its column's non-negative check when the row is created. That is a server error too, and it is not modelled. The question type is one of the two choices here, but `create` does not check a field's choices, so the source stores any submitted `question_type` string.
- Register, AdminCreateTutor: the user manager's username and email normalisation are parameters. The names `first_name` and `last_name` are not stored in the model.
- Authentication, password hashing, login and logout are not modelled: the authenticated user, if any, is a parameter. The framework's session store is a set of keys.
- Rendering, flash messages, redirects, JSON bodies, pagination and file uploads are not modelled: each view answers an outcome datatype.
- The edit, delete, results and analytics views are not modelled: `tutor_edit_quiz`, `tutor_delete_question`, `quiz_results`, `tutor_quiz_analytics`. They are plain field copies or reads.
- The read-only views are not modelled, apart from the admin revenue sum: the dashboards, `course_detail`, `my_courses`, `payment_history`, `admin_manage_*`. `admin_edit_user` is a plain field copy and is not modelled either.
- AdminDeleteUser: the cascade deletion of the user's rows in other tables is not modelled. Only the user row is removed.
- Concurrency, including two get-or-create calls racing on one unique key, is not modelled. Views run one at a time.
- Insert failures on a unique key (an inactive enrollment, a taken slug or session key) are outcomes that leave the store as the source leaves it after the error, not exceptions.
- Attendance rows are keyed by (student, video, date) and no view in this model writes them. Only their preservation is stated.
