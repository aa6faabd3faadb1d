/** The client-side routes the pages navigate to. */
module Routes {
  const DashboardRoute: string := "/dashboard"
}
