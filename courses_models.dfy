/** The catalogue (courses, units, videos, materials) and the per-student progress rows
    (elearning/courses/models.py). Tables whose rows are unique per a tuple of columns are maps
    keyed by that tuple, so the uniqueness holds by construction. */
module CoursesModels {
  import opened Wrappers
  import opened Tables
  import opened PaymentsModels

  datatype Category = Category(name: string)

  /** A course; `price` is in cents. */
  datatype Course = Course(
    title: string,
    slug: string,
    description: string,
    tutor: Id,
    category: Option<Id>,
    price: int,
    isFree: bool,
    isApproved: bool,
    isPublished: bool)

  datatype Unit = Unit(course: Id, title: string, order: nat)

  datatype Video = Video(unit: Id, title: string, duration: nat, order: nat, isFree: bool)

  datatype MaterialType = Pdf | Doc | Slide | Other

  datatype Material = Material(unit: Id, title: string, materialType: MaterialType, isFree: bool, isDownloadable: bool)

  /** Keyed by (student, material). */
  datatype MaterialView = MaterialView(isCompleted: bool)

  /** Keyed by (student, video); `progress` is the percentage watched. */
  datatype VideoWatch = VideoWatch(
    watchTime: nat,
    progress: real,
    isCompleted: bool,
    lastPosition: nat,
    isActive: bool,
    completedAt: Option<Time>)

  /** Keyed by (student, video, date). */
  datatype Attendance = Attendance(unit: Id, activeWatchTime: nat, isPresent: bool)

  /** Keyed by (student, course); `progress` is the completion percentage. */
  datatype Enrollment = Enrollment(isActive: bool, progress: real)

  /** A new enrollment is active and at 0% progress. */
  function NewEnrollment(): (e: Enrollment)
    ensures e.isActive && e.progress == 0.0
  {
    Enrollment(true, 0.0)
  }

  /** A new material view is not yet completed. */
  function NewMaterialView(): (v: MaterialView)
    ensures !v.isCompleted
  {
    MaterialView(false)
  }

  /** A new video watch: nothing watched, not completed. */
  function NewVideoWatch(): (w: VideoWatch)
    ensures w.watchTime == 0 && w.progress == 0.0 && w.lastPosition == 0
    ensures !w.isCompleted && !w.isActive && w.completedAt.None?
  {
    VideoWatch(0, 0.0, false, 0, false, None)
  }

  /** `get_or_create` of the enrollment row for `key` = (student, course), looked up by the key
      alone: an existing row, active or not, is kept as it is; otherwise a new one is added. */
  function EnsureEnrolled(enrollments: map<(Id, Id), Enrollment>, key: (Id, Id)): (r: map<(Id, Id), Enrollment>)
    ensures r.Keys == enrollments.Keys + {key}
    ensures key in enrollments ==> r == enrollments
    ensures key !in enrollments ==> r == enrollments[key := NewEnrollment()]
  {
    if key in enrollments then enrollments else enrollments[key := NewEnrollment()]
  }

  /** `get_or_create` of the enrollment row with `is_active=True` in the lookup: an inactive row
      is not found, and the insert then clashes with it on the unique key (`None`). */
  function EnsureActiveEnrolled(enrollments: map<(Id, Id), Enrollment>, key: (Id, Id)): (r: Option<map<(Id, Id), Enrollment>>)
    ensures r.None? <==> key in enrollments && !enrollments[key].isActive
    ensures r.Some? ==> r.value == EnsureEnrolled(enrollments, key) && r.value[key].isActive
  {
    if key in enrollments && !enrollments[key].isActive then None
    else Some(EnsureEnrolled(enrollments, key))
  }

  /** Repeating either get-or-create changes nothing: there is never a second enrollment. */
  lemma EnsureEnrolledIdempotent(enrollments: map<(Id, Id), Enrollment>, key: (Id, Id))
    ensures EnsureEnrolled(EnsureEnrolled(enrollments, key), key) == EnsureEnrolled(enrollments, key)
    ensures EnsureActiveEnrolled(enrollments, key).Some? ==>
      EnsureActiveEnrolled(EnsureActiveEnrolled(enrollments, key).value, key) == EnsureActiveEnrolled(enrollments, key)
    ensures |EnsureEnrolled(enrollments, key)| <= |enrollments| + 1
  {
  }

  /** What `Course.save` stores: a blank slug is filled from the title, any other slug is kept. */
  function WithSlug(c: Course, slugify: string -> string): (r: Course)
    ensures c.slug != "" ==> r == c
    ensures c.slug == "" ==> r == c.(slug := slugify(c.title))
  {
    if c.slug == "" then c.(slug := slugify(c.title)) else c
  }

  /** Once a course has a non-blank slug, saving it again never changes it, whatever its title. */
  lemma SlugIsStable(c: Course, title: string, slugify: string -> string)
    requires WithSlug(c, slugify).slug != ""
    ensures WithSlug(WithSlug(c, slugify).(title := title), slugify).slug == WithSlug(c, slugify).slug
  {
  }

  /** Where a unit sits: its course and its order there. */
  function UnitPlace(units: map<Id, Unit>, k: Id): (Id, nat)
    requires k in units
  {
    (units[k].course, units[k].order)
  }

  /** No two units of one course share an `order`. */
  predicate UnitOrdersUnique(units: map<Id, Unit>)
  {
    forall a, b {:trigger UnitPlace(units, a), UnitPlace(units, b)} ::
      a in units && b in units && a != b ==> UnitPlace(units, a) != UnitPlace(units, b)
  }

  /** Where a video sits: its unit and its order there. */
  function VideoPlace(videos: map<Id, Video>, k: Id): (Id, nat)
    requires k in videos
  {
    (videos[k].unit, videos[k].order)
  }

  /** No two videos of one unit share an `order`. */
  predicate VideoOrdersUnique(videos: map<Id, Video>)
  {
    forall a, b {:trigger VideoPlace(videos, a), VideoPlace(videos, b)} ::
      a in videos && b in videos && a != b ==> VideoPlace(videos, a) != VideoPlace(videos, b)
  }

  /** Inserting a unit under a new id: the store refuses it (`None`) exactly when another unit of
      the same course already has its order; otherwise the orders stay unique. */
  function InsertUnit(units: map<Id, Unit>, id: Id, u: Unit): (r: Option<map<Id, Unit>>)
    requires UnitOrdersUnique(units) && id !in units
    ensures r.None? <==> exists k :: k in units && units[k].course == u.course && units[k].order == u.order
    ensures r.Some? ==> r.value == units[id := u] && UnitOrdersUnique(r.value)
  {
    if exists k :: k in units && units[k].course == u.course && units[k].order == u.order then None
    else
      FreshUnitPlaceKeepsOrdersUnique(units, id, u);
      Some(units[id := u])
  }

  lemma FreshUnitPlaceKeepsOrdersUnique(units: map<Id, Unit>, id: Id, u: Unit)
    requires UnitOrdersUnique(units) && id !in units
    requires forall k :: k in units ==> !(units[k].course == u.course && units[k].order == u.order)
    ensures UnitOrdersUnique(units[id := u])
  {
    var units' := units[id := u];
    forall a, b | a in units' && b in units' && a != b
      ensures UnitPlace(units', a) != UnitPlace(units', b)
    {
      if a != id && b != id {
        assert UnitPlace(units', a) == UnitPlace(units, a);
        assert UnitPlace(units', b) == UnitPlace(units, b);
      }
    }
  }

  /** Inserting a video under a new id: refused exactly when another video of the same unit
      already has its order; otherwise the orders stay unique. */
  function InsertVideo(videos: map<Id, Video>, id: Id, v: Video): (r: Option<map<Id, Video>>)
    requires VideoOrdersUnique(videos) && id !in videos
    ensures r.None? <==> exists k :: k in videos && videos[k].unit == v.unit && videos[k].order == v.order
    ensures r.Some? ==> r.value == videos[id := v] && VideoOrdersUnique(r.value)
  {
    if exists k :: k in videos && videos[k].unit == v.unit && videos[k].order == v.order then None
    else
      FreshVideoPlaceKeepsOrdersUnique(videos, id, v);
      Some(videos[id := v])
  }

  lemma FreshVideoPlaceKeepsOrdersUnique(videos: map<Id, Video>, id: Id, v: Video)
    requires VideoOrdersUnique(videos) && id !in videos
    requires forall k :: k in videos ==> !(videos[k].unit == v.unit && videos[k].order == v.order)
    ensures VideoOrdersUnique(videos[id := v])
  {
    var videos' := videos[id := v];
    forall a, b | a in videos' && b in videos' && a != b
      ensures VideoPlace(videos', a) != VideoPlace(videos', b)
    {
      if a != id && b != id {
        assert VideoPlace(videos', a) == VideoPlace(videos, a);
        assert VideoPlace(videos', b) == VideoPlace(videos, b);
      }
    }
  }

  /** `Course.get_enrolled_students`: the number of completed purchases of the course. */
  function EnrolledStudents(purchases: map<Id, Purchase>, next: Id, course: Id): nat
  {
    CountBelow(purchases, next, (k: Id, p: Purchase) => p.course == course && p.status == Completed)
  }

  /** Only purchases of the course count, and only completed ones. */
  lemma EnrolledStudentsAtMostPurchases(purchases: map<Id, Purchase>, next: Id, course: Id)
    ensures EnrolledStudents(purchases, next, course)
         <= CountBelow(purchases, next, (k: Id, p: Purchase) => p.course == course)
    ensures (forall k :: k in purchases ==> purchases[k].status != Completed) ==>
              EnrolledStudents(purchases, next, course) == 0
  {
    CountBelowMono(purchases, next,
      (k: Id, p: Purchase) => p.course == course && p.status == Completed,
      (k: Id, p: Purchase) => p.course == course);
    if forall k :: k in purchases ==> purchases[k].status != Completed {
      CountBelowMono(purchases, next,
        (k: Id, p: Purchase) => p.course == course && p.status == Completed,
        (k: Id, p: Purchase) => false);
      CountBelowNothing(purchases, next);
    }
  }
}
