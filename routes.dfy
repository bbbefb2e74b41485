/** The dashboards a login redirects to. */
module Routes {
  datatype Route =
    | AdminDashboard
    | TutorDashboard
    | StudentDashboard
}
