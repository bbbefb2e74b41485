/** The role gate wrapped around views (elearning/accounts/decorators.py). */
module AccountsDecorators {
  import opened Wrappers
  import opened AccountsModels

  /** What a gated request yields: the view's own response, or one of the two redirects. */
  datatype Gated<R> = Ran(response: R) | LoginRedirect | HomeRedirect

  /** `role_required(allowed)(view)` applied to a request whose user is `viewer` (`None` for
      an anonymous visitor): anonymous visitors go to the login page, users whose role is not
      allowed go home, and only the others reach the view. */
  function RoleRequired<Req, R>(allowed: set<Role>, view: Req -> R, request: Req, viewer: Option<User>): (g: Gated<R>)
    ensures g.Ran? <==> viewer.Some? && viewer.value.role in allowed
    ensures g.Ran? ==> g.response == view(request)
    ensures viewer.None? ==> g == LoginRedirect
    ensures viewer.Some? && viewer.value.role !in allowed ==> g == HomeRedirect
  {
    match viewer
    case None => LoginRedirect
    case Some(u) => if u.role !in allowed then HomeRedirect else Ran(view(request))
  }

  const AdminRoles: set<Role> := {Admin}
  const TutorRoles: set<Role> := {Tutor, Admin}
  const StudentRoles: set<Role> := {Student}

  function AdminRequired<Req, R>(view: Req -> R, request: Req, viewer: Option<User>): Gated<R>
  {
    RoleRequired(AdminRoles, view, request, viewer)
  }

  function TutorRequired<Req, R>(view: Req -> R, request: Req, viewer: Option<User>): Gated<R>
  {
    RoleRequired(TutorRoles, view, request, viewer)
  }

  function StudentRequired<Req, R>(view: Req -> R, request: Req, viewer: Option<User>): Gated<R>
  {
    RoleRequired(StudentRoles, view, request, viewer)
  }

  /** `admin_required` lets through admins only. */
  lemma AdminRequiredAdmits<Req, R>(view: Req -> R, request: Req, u: User)
    ensures AdminRequired(view, request, Some(u)).Ran? <==> u.IsAdmin()
  {
  }

  /** `tutor_required` lets through tutors and admins, and refuses students. */
  lemma TutorRequiredAdmits<Req, R>(view: Req -> R, request: Req, u: User)
    ensures TutorRequired(view, request, Some(u)).Ran? <==> u.IsTutor() || u.IsAdmin()
    ensures u.IsStudent() ==> TutorRequired(view, request, Some(u)) == HomeRedirect
  {
  }

  /** `student_required` lets through students only: an admin is refused too. */
  lemma StudentRequiredAdmits<Req, R>(view: Req -> R, request: Req, u: User)
    ensures StudentRequired(view, request, Some(u)).Ran? <==> u.IsStudent()
    ensures u.IsAdmin() ==> StudentRequired(view, request, Some(u)) == HomeRedirect
  {
  }
}
