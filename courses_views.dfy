/** The course views (elearning/courses/views.py): the admin's course forms, the public
    catalogue filter, and the student's learning pages with their progress bookkeeping. */
module CoursesViews {
  import opened Wrappers
  import opened Tables
  import opened AccountsModels
  import opened CoursesModels
  import opened PaymentsModels
  import opened Store

  // ----- admin_create_course / admin_edit_course -----

  /** The user `id` exists and is a tutor (`get_object_or_404(User, id=..., role='tutor')`). */
  predicate IsTutorId(users: map<Id, User>, id: Id)
  {
    id in users && users[id].role == Tutor
  }

  /** The creation form as submitted; `price` is in cents and `category` is absent when blank. */
  datatype CourseForm = CourseForm(
    title: string, description: string, tutor: Id, category: Option<Id>, price: int, isFree: bool)

  /** The row `admin_create_course` hands to `save`: approved, published (the column default),
      with a blank slug, and costing nothing when free. */
  function NewCourse(form: CourseForm): Course
  {
    Course(form.title, "", form.description, form.tutor, form.category,
           if form.isFree then 0 else form.price, form.isFree, true, true)
  }

  datatype CreateCourseOutcome =
    | CreateCoursePage          // GET: the form
    | CourseTutorNotFound       // no tutor with that id: 404
    | CourseCategoryNotFound    // a category was named and does not exist: 404
    | CourseSlugTaken           // the slug derived from the title is taken: the insert fails
    | CourseCreated(course: Id)

  /** `admin_create_course`: the tutor is looked up before the category; the new course is
      approved, published, gets its slug from its title, and costs 0 when it is free. */
  method AdminCreateCourse(db: Database, isPost: bool, form: CourseForm, slugify: string -> string)
    returns (outcome: CreateCourseOutcome)
    requires db.Valid()
    modifies db`catalog
    ensures db.Valid()
    ensures outcome == CreateCoursePage <==> !isPost
    ensures outcome == CourseTutorNotFound <==> isPost && !IsTutorId(db.accounts.users, form.tutor)
    ensures outcome == CourseCategoryNotFound <==>
      isPost && IsTutorId(db.accounts.users, form.tutor)
      && form.category.Some? && form.category.value !in db.catalog.categories
    ensures outcome == CourseSlugTaken <==>
      isPost && IsTutorId(db.accounts.users, form.tutor)
      && (form.category.Some? ==> form.category.value in db.catalog.categories)
      && exists k :: k in old(db.catalog.courses) && old(db.catalog.courses)[k].slug == slugify(form.title)
    ensures outcome.CourseCreated? ==>
      && outcome.course == old(db.catalog.nextCourseId) && outcome.course !in old(db.catalog.courses)
      && db.catalog == old(db.catalog).(
           courses := old(db.catalog.courses)[outcome.course := WithSlug(NewCourse(form), slugify)],
           nextCourseId := outcome.course + 1)
      && var c := db.catalog.courses[outcome.course];
         && c.slug == slugify(form.title) && c.tutor == form.tutor && c.isApproved && c.isPublished
         && c.isFree == form.isFree && c.price == (if form.isFree then 0 else form.price)
    ensures !outcome.CourseCreated? ==> db.catalog == old(db.catalog)
  {
    if !isPost {
      return CreateCoursePage;
    }
    if !IsTutorId(db.accounts.users, form.tutor) {
      return CourseTutorNotFound;
    }
    if form.category.Some? && form.category.value !in db.catalog.categories {
      return CourseCategoryNotFound;
    }
    var id := db.catalog.nextCourseId;
    var saved := db.SaveCourse(id, NewCourse(form), slugify);
    if !saved {
      return CourseSlugTaken;
    }
    outcome := CourseCreated(id);
  }

  /** The edit form: a blank tutor or category keeps the current one. */
  datatype EditCourseForm = EditCourseForm(
    title: string, description: string, price: int, isFree: bool, isPublished: bool,
    tutor: Option<Id>, category: Option<Id>)

  /** The fields `admin_edit_course` assigns before saving: price and the free flag are taken as
      submitted, independently of each other. */
  function Edited(c: Course, form: EditCourseForm): Course
  {
    c.(title := form.title, description := form.description, price := form.price,
       isFree := form.isFree, isPublished := form.isPublished,
       tutor := if form.tutor.Some? then form.tutor.value else c.tutor,
       category := if form.category.Some? then form.category else c.category)
  }

  datatype EditCourseOutcome =
    | EditCourseNotFound      // 404
    | EditCoursePage          // GET: the form
    | EditTutorNotFound       // a tutor was named and is not a tutor: 404
    | EditCategoryNotFound    // a category was named and does not exist: 404
    | EditSlugTaken           // a blank slug was filled in with one already taken: the update fails
    | CourseUpdated

  /** `admin_edit_course`: the submitted fields replace the old ones; a course that already has a
      slug keeps it, so only a course whose slug was blank can clash. */
  method AdminEditCourse(db: Database, course: Id, isPost: bool, form: EditCourseForm, slugify: string -> string)
    returns (outcome: EditCourseOutcome)
    requires db.Valid()
    modifies db`catalog
    ensures db.Valid()
    ensures outcome == EditCourseNotFound <==> course !in old(db.catalog.courses)
    ensures outcome == EditCoursePage <==> course in old(db.catalog.courses) && !isPost
    ensures outcome == EditTutorNotFound <==>
      course in old(db.catalog.courses) && isPost && form.tutor.Some? && !IsTutorId(db.accounts.users, form.tutor.value)
    ensures outcome == EditCategoryNotFound <==>
      course in old(db.catalog.courses) && isPost
      && (form.tutor.Some? ==> IsTutorId(db.accounts.users, form.tutor.value))
      && form.category.Some? && form.category.value !in db.catalog.categories
    ensures outcome == EditSlugTaken <==>
      course in old(db.catalog.courses) && isPost
      && (form.tutor.Some? ==> IsTutorId(db.accounts.users, form.tutor.value))
      && (form.category.Some? ==> form.category.value in db.catalog.categories)
      && old(db.catalog.courses)[course].slug == ""
      && exists k :: k in old(db.catalog.courses) && k != course && old(db.catalog.courses)[k].slug == slugify(form.title)
    ensures outcome == CourseUpdated ==>
      && course in old(db.catalog.courses)
      && db.catalog == old(db.catalog).(
           courses := old(db.catalog.courses)[course := WithSlug(Edited(old(db.catalog.courses)[course], form), slugify)])
    ensures outcome != CourseUpdated ==> db.catalog == old(db.catalog)
  {
    if course !in db.catalog.courses {
      return EditCourseNotFound;
    }
    if !isPost {
      return EditCoursePage;
    }
    if form.tutor.Some? && !IsTutorId(db.accounts.users, form.tutor.value) {
      return EditTutorNotFound;
    }
    if form.category.Some? && form.category.value !in db.catalog.categories {
      return EditCategoryNotFound;
    }
    var c := db.catalog.courses[course];
    if c.slug != "" {
      forall k | k in db.catalog.courses && k != course
        ensures db.catalog.courses[k].slug != c.slug
      {
        assert SlugOf(db.catalog.courses, k) != SlugOf(db.catalog.courses, course);
      }
    }
    var saved := db.SaveCourse(course, Edited(c, form), slugify);
    if !saved {
      return EditSlugTaken;
    }
    outcome := CourseUpdated;
  }

  /** Only creation ties the price to the free flag: a created free course costs 0, while an edit
      can store a free course with a price. */
  lemma FreePriceRuleOnlyOnCreate(form: CourseForm, c: Course, edit: EditCourseForm)
    requires edit.isFree && edit.price != 0
    ensures form.isFree ==> NewCourse(form).price == 0
    ensures Edited(c, edit).isFree && Edited(c, edit).price != 0
  {
  }

  /** Editing never changes a course's slug once it has one, whatever the new title. */
  lemma EditKeepsSlug(c: Course, form: EditCourseForm, slugify: string -> string)
    requires c.slug != ""
    ensures WithSlug(Edited(c, form), slugify).slug == c.slug
  {
  }

  // ----- course_catalog -----

  /** ASCII lower-casing of one character. */
  function Lower(ch: char): char
  {
    if 'A' <= ch <= 'Z' then (ch as int + 32) as char else ch
  }

  function LowerAll(s: string): string
  {
    seq(|s|, i requires 0 <= i < |s| => Lower(s[i]))
  }

  /** `query` occurs in `text` from index `i` on, letters compared without regard to case. */
  predicate MatchesAt(text: string, query: string, i: nat)
  {
    i + |query| <= |text| && LowerAll(text[i..i + |query|]) == LowerAll(query)
  }

  /** `icontains`: `query` occurs somewhere in `text`, letters compared without regard to case. */
  predicate ContainsIgnoringCase(text: string, query: string)
  {
    exists i: nat | i <= |text| :: MatchesAt(text, query, i)
  }

  /** The catalogue's filter: published and approved courses, narrowed to the chosen category
      when one is given, and to those whose title or description contains the search text when
      that is not blank. */
  predicate Listed(c: Course, category: Option<Id>, query: string)
  {
    && c.isPublished && c.isApproved
    && (category.Some? ==> c.category == category)
    && (query != "" ==> ContainsIgnoringCase(c.title, query) || ContainsIgnoringCase(c.description, query))
  }

  /** The courses `course_catalog` lists (before pagination). */
  function CourseCatalog(courses: map<Id, Course>, category: Option<Id>, query: string): set<Id>
  {
    set k | k in courses && Listed(courses[k], category, query)
  }

  /** Lower-casing twice is lower-casing once. */
  lemma LowerAllIdempotent(s: string)
    ensures LowerAll(LowerAll(s)) == LowerAll(s)
  {
    assert forall i :: 0 <= i < |s| ==> LowerAll(LowerAll(s))[i] == LowerAll(s)[i];
  }

  /** The search ignores the case of the query. */
  lemma SearchIgnoresQueryCase(text: string, query: string)
    ensures ContainsIgnoringCase(text, query) <==> ContainsIgnoringCase(text, LowerAll(query))
  {
    LowerAllIdempotent(query);
    assert forall i: nat | i <= |text| :: MatchesAt(text, query, i) <==> MatchesAt(text, LowerAll(query), i);
  }

  /** A verbatim occurrence is found, and the blank query is found in any text (so the `if q:`
      guard changes nothing). */
  lemma OccurrenceIsFound(text: string, query: string, i: nat)
    requires i + |query| <= |text| && text[i..i + |query|] == query
    ensures ContainsIgnoringCase(text, query)
    ensures ContainsIgnoringCase(text, "")
  {
    assert MatchesAt(text, query, i);
    assert MatchesAt(text, "", 0);
  }

  /** Filters only narrow the listing, and unpublished or unapproved courses are never listed. */
  lemma FiltersNarrowCatalog(courses: map<Id, Course>, category: Option<Id>, query: string)
    ensures CourseCatalog(courses, category, query) <= CourseCatalog(courses, None, "")
    ensures forall k :: k in CourseCatalog(courses, category, query) ==>
      k in courses && courses[k].isPublished && courses[k].isApproved
  {
  }

  // ----- course_learn -----

  datatype LearnOutcome =
    | LearnCourseNotFound   // 404
    | LearnMustEnroll       // paid and not actively enrolled: redirected to the course page
    | LearnClash            // free, with an inactive enrollment: the insert fails
    | LearnPage             // the course's content

  /** `course_learn`: with an active enrollment the page is shown; otherwise a paid course
      redirects and a free course inserts an enrollment, which fails on an inactive one. */
  method CourseLearn(db: Database, student: Id, course: Id) returns (outcome: LearnOutcome)
    requires db.Valid()
    modifies db`progress
    ensures db.Valid()
    ensures var courses := db.catalog.courses;
      && (outcome == LearnCourseNotFound <==> course !in courses)
      && (outcome == LearnMustEnroll <==>
            course in courses && !courses[course].isFree && !HasActiveEnrollment(old(db.progress), student, course))
      && (outcome == LearnClash <==>
            course in courses && courses[course].isFree
            && EnsureActiveEnrolled(old(db.progress.enrollments), (student, course)).None?)
      && (outcome == LearnPage && courses[course].isFree ==>
            db.progress == old(db.progress).(
              enrollments := EnsureActiveEnrolled(old(db.progress.enrollments), (student, course)).value))
    ensures outcome == LearnPage ==> HasActiveEnrollment(db.progress, student, course)
    ensures outcome == LearnPage && HasActiveEnrollment(old(db.progress), student, course) ==> db.progress == old(db.progress)
    ensures outcome != LearnPage ==> db.progress == old(db.progress)
  {
    if course !in db.catalog.courses {
      return LearnCourseNotFound;
    }
    if !HasActiveEnrollment(db.progress, student, course) {
      if !db.catalog.courses[course].isFree {
        return LearnMustEnroll;
      }
      if (student, course) in db.progress.enrollments {
        return LearnClash;
      }
      db.progress := db.progress.(enrollments := db.progress.enrollments[(student, course) := NewEnrollment()]);
    }
    outcome := LearnPage;
  }

  // ----- track_video_progress -----

  /** The JSON body of a progress ping; a missing key reads as 0. The two counts are the whole
      numbers the integer columns store, the `int()` of the reported numbers. */
  datatype Ping = Ping(watchTime: Option<int>, progress: Option<real>, lastPosition: Option<int>)

  /** The counts fit their non-negative columns: a negative one fails the database check on save. */
  predicate Storable(ping: Ping)
  {
    && (ping.watchTime.Some? ==> ping.watchTime.value >= 0)
    && (ping.lastPosition.Some? ==> ping.lastPosition.value >= 0)
  }

  /** A video counts as watched from 90% on. */
  const CompletionThreshold: real := 90.0

  function NatOrZero(x: Option<int>): nat
    requires x.Some? ==> x.value >= 0
  {
    if x.Some? then x.value else 0
  }

  function RealOrZero(x: Option<real>): real
  {
    if x.Some? then x.value else 0.0
  }

  /** The watch row after a ping: the three reported values overwrite the stored ones, and the
      row is complete exactly when the reported progress reaches the threshold. */
  function Pinged(w: VideoWatch, ping: Ping): (r: VideoWatch)
    requires Storable(ping)
    ensures r.isCompleted <==> r.progress >= CompletionThreshold
    ensures r.watchTime == NatOrZero(ping.watchTime) && r.progress == RealOrZero(ping.progress)
    ensures r.lastPosition == NatOrZero(ping.lastPosition)
    ensures r.isActive == w.isActive && r.completedAt == w.completedAt
  {
    var progress := RealOrZero(ping.progress);
    w.(watchTime := NatOrZero(ping.watchTime), progress := progress,
       lastPosition := NatOrZero(ping.lastPosition), isCompleted := progress >= CompletionThreshold)
  }

  /** Only the latest ping counts: it wipes out whatever earlier pings stored. */
  lemma LastPingWins(w: VideoWatch, first: Ping, second: Ping)
    requires Storable(first) && Storable(second)
    ensures Pinged(Pinged(w, first), second) == Pinged(w, second)
  {
  }

  /** Completion is not monotonic: a ping below the threshold clears it. */
  lemma CompletionCanBeLost(w: VideoWatch)
    ensures Pinged(w, Ping(None, Some(95.0), None)).isCompleted
    ensures !Pinged(Pinged(w, Ping(None, Some(95.0), None)), Ping(None, Some(50.0), None)).isCompleted
  {
  }

  datatype TrackOutcome =
    | TrackVideoNotFound   // 404
    | TrackFailed          // 500: a negative count fails the save; the row `get_or_create` made stays
    | Tracked

  /** `track_video_progress`: the student's watch row for the video is fetched or created, then
      overwritten with the ping. Nothing else changes: enrollment progress is left alone. */
  method TrackVideoProgress(db: Database, student: Id, video: Id, ping: Ping) returns (outcome: TrackOutcome)
    requires db.Valid()
    modifies db`progress
    ensures db.Valid()
    ensures outcome == TrackVideoNotFound <==> video !in db.catalog.videos
    ensures outcome == TrackVideoNotFound ==> db.progress == old(db.progress)
    ensures outcome == TrackFailed <==> video in db.catalog.videos && !Storable(ping)
    ensures outcome == TrackFailed ==>
      var key := (student, video);
      var before := old(db.progress.videoWatches);
      db.progress == old(db.progress).(videoWatches := before[key := if key in before then before[key] else NewVideoWatch()])
    ensures outcome == Tracked ==>
      var key := (student, video);
      var before := old(db.progress.videoWatches);
      db.progress == old(db.progress).(
        videoWatches := before[key := Pinged(if key in before then before[key] else NewVideoWatch(), ping)])
  {
    if video !in db.catalog.videos {
      return TrackVideoNotFound;
    }
    var key := (student, video);
    if key !in db.progress.videoWatches {
      db.progress := db.progress.(videoWatches := db.progress.videoWatches[key := NewVideoWatch()]);
    }
    if !Storable(ping) {
      return TrackFailed;
    }
    var watch := Pinged(db.progress.videoWatches[key], ping);
    db.progress := db.progress.(videoWatches := db.progress.videoWatches[key := watch]);
    outcome := Tracked;
  }

  // ----- view_material -----

  /** The material belongs to a unit of the course. */
  predicate MaterialInCourse(c: CatalogTables, course: Id, m: Material)
  {
    m.unit in c.units && c.units[m.unit].course == course
  }

  /** The video belongs to a unit of the course. */
  predicate VideoInCourse(c: CatalogTables, course: Id, v: Video)
  {
    v.unit in c.units && c.units[v.unit].course == course
  }

  /** The course's materials. */
  function TotalMaterials(c: CatalogTables, course: Id): nat
  {
    CountBelow(c.materials, c.nextMaterialId, (k: Id, m: Material) => MaterialInCourse(c, course, m))
  }

  /** The course's materials the student has a completed view of. */
  function ViewedMaterials(c: CatalogTables, p: ProgressTables, student: Id, course: Id): nat
  {
    CountBelow(c.materials, c.nextMaterialId, (k: Id, m: Material) =>
      MaterialInCourse(c, course, m) && (student, k) in p.materialViews && p.materialViews[(student, k)].isCompleted)
  }

  /** The course's videos. */
  function TotalVideos(c: CatalogTables, course: Id): nat
  {
    CountBelow(c.videos, c.nextVideoId, (k: Id, v: Video) => VideoInCourse(c, course, v))
  }

  /** The course's videos the student has a completed watch of. */
  function CompletedVideos(c: CatalogTables, p: ProgressTables, student: Id, course: Id): nat
  {
    CountBelow(c.videos, c.nextVideoId, (k: Id, v: Video) =>
      VideoInCourse(c, course, v) && (student, k) in p.videoWatches && p.videoWatches[(student, k)].isCompleted)
  }

  /** The recomputed enrollment progress: completed items over all items, times 100; `None` when
      the course has no items, in which case the stored progress is kept. */
  function CourseProgress(c: CatalogTables, p: ProgressTables, student: Id, course: Id): Option<real>
  {
    var total := TotalMaterials(c, course) + TotalVideos(c, course);
    if total > 0 then
      Some((ViewedMaterials(c, p, student, course) + CompletedVideos(c, p, student, course)) as real / total as real * 100.0)
    else None
  }

  /** Each row is counted at most once, because views and watches are keyed by the item: the
      recomputed progress lies between 0 and 100. */
  lemma CourseProgressInRange(c: CatalogTables, p: ProgressTables, student: Id, course: Id)
    ensures CourseProgress(c, p, student, course).Some? ==> 0.0 <= CourseProgress(c, p, student, course).value <= 100.0
  {
    CountBelowMono(c.materials, c.nextMaterialId,
      (k: Id, m: Material) =>
        MaterialInCourse(c, course, m) && (student, k) in p.materialViews && p.materialViews[(student, k)].isCompleted,
      (k: Id, m: Material) => MaterialInCourse(c, course, m));
    CountBelowMono(c.videos, c.nextVideoId,
      (k: Id, v: Video) =>
        VideoInCourse(c, course, v) && (student, k) in p.videoWatches && p.videoWatches[(student, k)].isCompleted,
      (k: Id, v: Video) => VideoInCourse(c, course, v));
    var total := TotalMaterials(c, course) + TotalVideos(c, course);
    if total > 0 {
      ShareInRange(ViewedMaterials(c, p, student, course) + CompletedVideos(c, p, student, course), total);
    }
  }

  /** A part of a positive whole, as a percentage, lies between 0 and 100. */
  lemma ShareInRange(part: nat, whole: nat)
    requires 0 < whole && part <= whole
    ensures 0.0 <= part as real / whole as real * 100.0 <= 100.0
  {
    assert part as real / whole as real <= 1.0;
  }

  /** The outcome of the enrollment gate of `view_material`. */
  datatype Access =
    | Granted(enrollments: map<(Id, Id), Enrollment>)  // the enrollment table once the gate is passed
    | NeedsEnrollment                                    // paid, no active enrollment, no completed purchase
    | EnrollmentClash                                    // free, inactive enrollment: the insert fails

  /** The gate: an active enrollment passes; otherwise a free course inserts an enrollment (which
      clashes with an inactive one), and a paid course with a completed purchase gets or creates
      one by the key alone, so an inactive enrollment is accepted as it is. */
  function MaterialAccess(course: Course, courseId: Id, purchased: bool, p: ProgressTables, student: Id): (a: Access)
    ensures a.Granted? ==> a.enrollments == EnsureEnrolled(p.enrollments, (student, courseId))
    ensures a.Granted? ==> (student, courseId) in a.enrollments
    ensures a.Granted? ==> a.enrollments.Keys == p.enrollments.Keys + {(student, courseId)}
    ensures a.Granted? ==> forall k :: k in p.enrollments ==> a.enrollments[k] == p.enrollments[k]
    ensures a == NeedsEnrollment <==> !HasActiveEnrollment(p, student, courseId) && !course.isFree && !purchased
    ensures a == EnrollmentClash <==> course.isFree && EnsureActiveEnrolled(p.enrollments, (student, courseId)).None?
  {
    var key := (student, courseId);
    if HasActiveEnrollment(p, student, courseId) then Granted(p.enrollments)
    else if course.isFree then
      if key in p.enrollments then EnrollmentClash else Granted(p.enrollments[key := NewEnrollment()])
    else if purchased then Granted(EnsureEnrolled(p.enrollments, key))
    else NeedsEnrollment
  }

  datatype MaterialOutcome =
    | MaterialNotFound     // 404
    | MaterialMustEnroll   // redirected to the course page
    | MaterialClash        // the enrollment insert fails
    | MaterialShown

  /** The student's view row for the material marked completed. */
  function MarkViewed(p: ProgressTables, student: Id, material: Id): ProgressTables
  {
    p.(materialViews := p.materialViews[(student, material) := MaterialView(true)])
  }

  /** The enrollment's progress set to `v`. */
  function WithProgress(p: ProgressTables, key: (Id, Id), v: real): ProgressTables
    requires key in p.enrollments
  {
    p.(enrollments := p.enrollments[key := p.enrollments[key].(progress := v)])
  }

  /** What a view past the gate does: a first view marks the student's view row completed and,
      when the course has items, recomputes the enrollment's progress; a repeat view changes
      nothing. Only those two rows can change. */
  function CompleteView(c: CatalogTables, p: ProgressTables, student: Id, material: Id, course: Id): ProgressTables
    requires (student, course) in p.enrollments
  {
    var key := (student, material);
    if key in p.materialViews && p.materialViews[key].isCompleted then p
    else
      var p2 := MarkViewed(p, student, material);
      match CourseProgress(c, p2, student, course)
      case None => p2
      case Some(v) => WithProgress(p2, (student, course), v)
  }

  /** A view completes the student's view row of the material and touches no other row but the
      enrollment's, whose progress alone may change. */
  lemma CompleteViewFrame(c: CatalogTables, p: ProgressTables, student: Id, material: Id, course: Id)
    requires (student, course) in p.enrollments
    ensures var r := CompleteView(c, p, student, material, course);
      && r.videoWatches == p.videoWatches && r.attendances == p.attendances
      && r.materialViews == p.materialViews[(student, material) := MaterialView(true)]
      && r.enrollments.Keys == p.enrollments.Keys
      && (forall k :: k in p.enrollments && k != (student, course) ==> r.enrollments[k] == p.enrollments[k])
      && r.enrollments[(student, course)] == p.enrollments[(student, course)].(progress := r.enrollments[(student, course)].progress)
  {
    var key := (student, material);
    if key in p.materialViews && p.materialViews[key].isCompleted {
      assert p.materialViews[key] == MaterialView(true);
    } else {
      var p2 := MarkViewed(p, student, material);
      match CourseProgress(c, p2, student, course)
      case None =>
      case Some(v) =>
        assert CompleteView(c, p, student, material, course) == WithProgress(p2, (student, course), v);
    }
  }

  /** A view keeps every enrollment's progress within 0 to 100 when it was there before. */
  lemma CompleteViewKeepsProgressInRange(c: CatalogTables, p: ProgressTables, student: Id, material: Id, course: Id)
    requires (student, course) in p.enrollments
    requires forall k :: k in p.enrollments ==> 0.0 <= p.enrollments[k].progress <= 100.0
    ensures var r := CompleteView(c, p, student, material, course);
      forall k :: k in r.enrollments ==> 0.0 <= r.enrollments[k].progress <= 100.0
  {
    var key := (student, material);
    if !(key in p.materialViews && p.materialViews[key].isCompleted) {
      var p2 := MarkViewed(p, student, material);
      CourseProgressInRange(c, p2, student, course);
    }
  }

  /** What `view_material` does to the progress tables: the gate, then the view itself. */
  function ViewMaterialEffect(c: CatalogTables, pay: PaymentsTables, p: ProgressTables, student: Id, material: Id)
    : (r: (MaterialOutcome, ProgressTables))
    requires CatalogValid(c)
    ensures r.0 == MaterialNotFound <==> material !in c.materials
    ensures r.0 != MaterialShown ==> r.1 == p
  {
    if material !in c.materials then (MaterialNotFound, p)
    else
      var course := CourseOfMaterial(c, material);
      match MaterialAccess(c.courses[course], course, HasCompletedPurchase(pay, student, course), p, student)
      case NeedsEnrollment => (MaterialMustEnroll, p)
      case EnrollmentClash => (MaterialClash, p)
      case Granted(enrollments) => (MaterialShown, CompleteView(c, p.(enrollments := enrollments), student, material, course))
  }

  /** The enrollment gate of `view_material`: `MaterialShown` here means the gate was passed. */
  method GateMaterial(db: Database, student: Id, course: Id) returns (outcome: MaterialOutcome)
    requires course in db.catalog.courses
    modifies db`progress
    ensures var a := MaterialAccess(db.catalog.courses[course], course,
                                    HasCompletedPurchase(db.payments, student, course), old(db.progress), student);
      && (outcome == MaterialShown <==> a.Granted?)
      && (outcome == MaterialMustEnroll <==> a == NeedsEnrollment)
      && (outcome == MaterialClash <==> a == EnrollmentClash)
      && db.progress == if a.Granted? then old(db.progress).(enrollments := a.enrollments) else old(db.progress)
  {
    var enrollment := (student, course);
    if !HasActiveEnrollment(db.progress, student, course) {
      if db.catalog.courses[course].isFree {
        if enrollment in db.progress.enrollments {
          return MaterialClash;
        }
        db.progress := db.progress.(enrollments := db.progress.enrollments[enrollment := NewEnrollment()]);
      } else if HasCompletedPurchase(db.payments, student, course) {
        db.progress := db.progress.(enrollments := EnsureEnrolled(db.progress.enrollments, enrollment));
      } else {
        return MaterialMustEnroll;
      }
    }
    outcome := MaterialShown;
  }

  /** The view itself: get or create the view row, and on a first view complete it and recompute
      the enrollment's progress from the counts. */
  method CompleteMaterialView(db: Database, student: Id, material: Id, course: Id)
    requires (student, course) in db.progress.enrollments
    modifies db`progress
    ensures db.progress == CompleteView(db.catalog, old(db.progress), student, material, course)
  {
    ghost var p0 := db.progress;
    var key := (student, material);
    if key !in db.progress.materialViews {
      db.progress := db.progress.(materialViews := db.progress.materialViews[key := NewMaterialView()]);
    }
    if !db.progress.materialViews[key].isCompleted {
      db.progress := db.progress.(materialViews := db.progress.materialViews[key := MaterialView(true)]);
      assert db.progress == MarkViewed(p0, student, material);
      var total := TotalMaterials(db.catalog, course) + TotalVideos(db.catalog, course);
      var completed := ViewedMaterials(db.catalog, db.progress, student, course)
                     + CompletedVideos(db.catalog, db.progress, student, course);
      if total > 0 {
        var enrollment := (student, course);
        var row := db.progress.enrollments[enrollment];
        db.progress := db.progress.(enrollments :=
          db.progress.enrollments[enrollment := row.(progress := completed as real / total as real * 100.0)]);
      }
    }
  }

  /** `view_material`: an unknown material is a 404; then the gate, then the view. */
  method ViewMaterial(db: Database, student: Id, material: Id) returns (outcome: MaterialOutcome)
    requires db.Valid()
    modifies db`progress
    ensures db.Valid()
    ensures (outcome, db.progress) == ViewMaterialEffect(db.catalog, db.payments, old(db.progress), student, material)
  {
    if material !in db.catalog.materials {
      return MaterialNotFound;
    }
    var course := CourseOfMaterial(db.catalog, material);
    outcome := GateMaterial(db, student, course);
    if outcome == MaterialShown {
      CompleteMaterialView(db, student, material, course);
    }
  }

  /** The gate lets the student through exactly when they hold an active enrollment, or the course
      is free and they hold no enrollment at all, or it is paid and they bought it; refused
      views change nothing. */
  lemma MaterialGate(c: CatalogTables, pay: PaymentsTables, p: ProgressTables, student: Id, material: Id)
    requires CatalogValid(c) && material in c.materials
    ensures var course := CourseOfMaterial(c, material);
      ViewMaterialEffect(c, pay, p, student, material).0 == MaterialShown <==>
        || HasActiveEnrollment(p, student, course)
        || (c.courses[course].isFree && (student, course) !in p.enrollments)
        || (!c.courses[course].isFree && HasCompletedPurchase(pay, student, course))
  {
  }

  /** Viewing a material a second time changes nothing. */
  lemma RepeatViewChangesNothing(c: CatalogTables, pay: PaymentsTables, p: ProgressTables, student: Id, material: Id)
    requires CatalogValid(c)
    ensures var r := ViewMaterialEffect(c, pay, p, student, material);
      r.0 == MaterialShown ==> ViewMaterialEffect(c, pay, r.1, student, material) == r
  {
    var r := ViewMaterialEffect(c, pay, p, student, material);
    if r.0 == MaterialShown {
      var course := CourseOfMaterial(c, material);
      var key := (student, course);
      var a := MaterialAccess(c.courses[course], course, HasCompletedPurchase(pay, student, course), p, student);
      var p1 := p.(enrollments := a.enrollments);
      CompleteViewFrame(c, p1, student, material, course);
      assert r.1.enrollments[key].isActive == p1.enrollments[key].isActive;
      var a' := MaterialAccess(c.courses[course], course, HasCompletedPurchase(pay, student, course), r.1, student);
      assert a' == Granted(r.1.enrollments);
      assert (student, material) in r.1.materialViews && r.1.materialViews[(student, material)].isCompleted;
    }
  }

  /** Enrollment progress stays within 0 to 100 when it was there to begin with. */
  lemma ViewKeepsProgressInRange(c: CatalogTables, pay: PaymentsTables, p: ProgressTables, student: Id, material: Id)
    requires CatalogValid(c)
    requires forall k :: k in p.enrollments ==> 0.0 <= p.enrollments[k].progress <= 100.0
    ensures var p' := ViewMaterialEffect(c, pay, p, student, material).1;
      forall k :: k in p'.enrollments ==> 0.0 <= p'.enrollments[k].progress <= 100.0
  {
    if material in c.materials {
      var course := CourseOfMaterial(c, material);
      var a := MaterialAccess(c.courses[course], course, HasCompletedPurchase(pay, student, course), p, student);
      if a.Granted? {
        var p1 := p.(enrollments := a.enrollments);
        assert forall k :: k in p1.enrollments ==> 0.0 <= p1.enrollments[k].progress <= 100.0;
        CompleteViewKeepsProgressInRange(c, p1, student, material, course);
      }
    }
  }

  /** A shown material has a completed view row, and only the viewing student's rows can change. */
  lemma ViewTouchesOnlyTheStudent(c: CatalogTables, pay: PaymentsTables, p: ProgressTables, student: Id, material: Id)
    requires CatalogValid(c)
    ensures var r := ViewMaterialEffect(c, pay, p, student, material);
      && (r.0 == MaterialShown ==>
            (student, material) in r.1.materialViews && r.1.materialViews[(student, material)].isCompleted)
      && r.1.videoWatches == p.videoWatches && r.1.attendances == p.attendances
      && (forall k :: k in p.enrollments && k.0 != student ==> k in r.1.enrollments && r.1.enrollments[k] == p.enrollments[k])
      && (forall k :: k in p.materialViews && k.0 != student ==> k in r.1.materialViews && r.1.materialViews[k] == p.materialViews[k])
  {
    if material in c.materials {
      var course := CourseOfMaterial(c, material);
      var a := MaterialAccess(c.courses[course], course, HasCompletedPurchase(pay, student, course), p, student);
      if a.Granted? {
        CompleteViewFrame(c, p.(enrollments := a.enrollments), student, material, course);
      }
    }
  }
}
