/** The page selection of the single-page client (frontend/src/App.js): the
    application state, the page each state renders, and the handlers the
    rendered pages call. */
module Navigation {
  import opened Wrappers
  import QuestionModel

  type Question = QuestionModel.Question

  datatype AppState = AppState(
    showAdminLogin: bool,
    adminLoggedIn: bool,
    studentPage: bool,
    currentQuestion: Option<Question>,
    showAdminSubmissions: bool,
    showStudentLogin: bool,
    studentEmail: string,
    pendingQuestion: Option<Question>,
    isStudentLoggedIn: bool,
    showProfile: bool,
    savedEmail: Option<string>)   // `localStorage.studentEmail`

  /** The state after the mount effect: a truthy saved email logs the student in. */
  function Init(savedEmail: Option<string>): (s: AppState)
    ensures s.isStudentLoggedIn <==> savedEmail.Some? && savedEmail.value != ""
    ensures s.studentEmail == if s.isStudentLoggedIn then savedEmail.value else ""
    ensures !s.adminLoggedIn && !s.studentPage && s.currentQuestion.None? && s.pendingQuestion.None?
    ensures !s.showAdminLogin && !s.showStudentLogin && !s.showProfile && !s.showAdminSubmissions
    ensures s.savedEmail == savedEmail
  {
    var start := AppState(false, false, false, None, false, false, "", None, false, false, savedEmail);
    match savedEmail
    case Some(e) => if e != "" then start.(studentEmail := e, isStudentLoggedIn := true) else start
    case None => start
  }

  datatype Page =
    | AdminSubmissionsPage
    | AdminDashboardPage
    | SolutionPage(question: Question, email: string)
    | ProfilePage(email: string)
    | StudentDashboardPage(loginPopup: bool)
    | HomePage(adminPopup: bool)

  /** The page rendered: the first of the tests in `App` that holds. */
  function PageOf(s: AppState): (p: Page)
    ensures p.AdminSubmissionsPage? || p.AdminDashboardPage? <==> s.adminLoggedIn
    ensures p.SolutionPage? <==> !s.adminLoggedIn && s.currentQuestion.Some?
    ensures p.SolutionPage? ==> p.question == s.currentQuestion.value && p.email == s.studentEmail
    ensures p.ProfilePage? <==> !s.adminLoggedIn && s.currentQuestion.None? && s.showProfile
    ensures p.StudentDashboardPage? <==> !s.adminLoggedIn && s.currentQuestion.None? && !s.showProfile && s.studentPage
    ensures p.HomePage? <==> !s.adminLoggedIn && s.currentQuestion.None? && !s.showProfile && !s.studentPage
    ensures p.StudentDashboardPage? ==> p.loginPopup == s.showStudentLogin
    ensures p.HomePage? ==> p.adminPopup == s.showAdminLogin
  {
    if s.adminLoggedIn then
      if s.showAdminSubmissions then AdminSubmissionsPage else AdminDashboardPage
    else match s.currentQuestion
      case Some(q) => SolutionPage(q, s.studentEmail)
      case None =>
        if s.showProfile then ProfilePage(s.studentEmail)
        else if s.studentPage then StudentDashboardPage(s.showStudentLogin)
        else HomePage(s.showAdminLogin)
  }

  /** The email handed to the student dashboard. */
  function DashboardEmail(s: AppState): (e: string)
    ensures s.studentEmail != "" ==> e == s.studentEmail
    ensures s.studentEmail == "" ==> e == "student@example.com"
  {
    if s.studentEmail != "" then s.studentEmail else "student@example.com"
  }

  datatype Event =
    | AdminClick | AdminLoginDone | AdminLoginClose | StartCoding            // home page
    | AdminLogout | OpenSubmissions                                          // admin dashboard
    | SubmissionsBack                                                        // admin submissions page
    | SolutionBack                                                           // solution page
    | ProfileBack                                                            // profile page
    | StartProblem(question: Question) | DashboardBack | OpenProfile          // student dashboard
    | StudentLoginDone(email: string) | StudentLoginClose                    // student login popup

  /** The events whose handler is on the rendered page. */
  predicate Available(s: AppState, ev: Event) {
    match PageOf(s)
    case HomePage(popup) => ev.AdminClick? || ev.StartCoding? || (popup && (ev.AdminLoginDone? || ev.AdminLoginClose?))
    case AdminDashboardPage => ev.AdminLogout? || ev.OpenSubmissions?
    case AdminSubmissionsPage => ev.SubmissionsBack?
    case SolutionPage(_, _) => ev.SolutionBack?
    case ProfilePage(_) => ev.ProfileBack?
    case StudentDashboardPage(popup) =>
      ev.StartProblem? || ev.DashboardBack? || ev.OpenProfile? || (popup && (ev.StudentLoginDone? || ev.StudentLoginClose?))
  }

  /** The state after a handler runs; an event with no handler on the page
      cannot happen and leaves the state as it is. */
  function Step(s: AppState, ev: Event): (t: AppState)
    ensures !Available(s, ev) ==> t == s
    ensures t.adminLoggedIn != s.adminLoggedIn ==> ev.AdminLoginDone? || ev.AdminLogout?
    ensures t.isStudentLoggedIn != s.isStudentLoggedIn ==> ev.StudentLoginDone?
  {
    if !Available(s, ev) then s
    else match ev
      case AdminClick => s.(showAdminLogin := true)
      case AdminLoginDone => s.(adminLoggedIn := true)
      case AdminLoginClose => s.(showAdminLogin := false)
      case StartCoding => s.(studentPage := true)
      case AdminLogout => s.(adminLoggedIn := false, showAdminLogin := false)
      case OpenSubmissions => s.(showAdminSubmissions := true)
      case SubmissionsBack => s.(showAdminSubmissions := false)
      case SolutionBack => s.(currentQuestion := None)
      case ProfileBack => s.(showProfile := false)
      case StartProblem(q) =>
        if s.isStudentLoggedIn then s.(currentQuestion := Some(q))
        else s.(pendingQuestion := Some(q), showStudentLogin := true)
      case DashboardBack => s.(studentPage := false, currentQuestion := None, showStudentLogin := false, pendingQuestion := None)
      case OpenProfile => s.(showProfile := true)
      case StudentLoginDone(email) =>
        s.(studentEmail := email, isStudentLoggedIn := true, savedEmail := Some(email), showStudentLogin := false,
           currentQuestion := s.pendingQuestion, pendingQuestion := None)
      case StudentLoginClose => s.(showStudentLogin := false, pendingQuestion := None)
  }

  /** A question waits only while the login popup is open, and the popup is open
      only for a student who has not logged in. */
  ghost predicate Inv(s: AppState) {
    (s.pendingQuestion.Some? ==> s.showStudentLogin) && (s.showStudentLogin ==> !s.isStudentLoggedIn)
  }

  lemma InitEstablishesInv(savedEmail: Option<string>)
    ensures Inv(Init(savedEmail))
  {
  }

  lemma StepKeepsInv(s: AppState, ev: Event)
    requires Inv(s)
    ensures Inv(Step(s, ev))
  {
  }

  /** Admin logout touches the two admin flags and nothing else. */
  lemma AdminLogoutOnlyAdminFlags(s: AppState)
    requires PageOf(s).AdminDashboardPage?
    ensures Step(s, AdminLogout) == s.(adminLoggedIn := false, showAdminLogin := false)
    ensures PageOf(Step(s, AdminLogout)) == PageOf(s.(adminLoggedIn := false, showAdminLogin := false))
  {
  }

  /** A logged-in student who starts a problem goes straight to it. */
  lemma StartWhileLoggedIn(s: AppState, q: Question)
    requires PageOf(s).StudentDashboardPage? && s.isStudentLoggedIn
    ensures PageOf(Step(s, StartProblem(q))) == SolutionPage(q, s.studentEmail)
  {
  }

  /** Otherwise the question waits behind the login popup; logging in then
      opens it, and closing the popup returns to the dashboard without it. */
  lemma StartThenLogin(s: AppState, q: Question, email: string)
    requires PageOf(s).StudentDashboardPage? && !s.isStudentLoggedIn
    ensures var t := Step(s, StartProblem(q));
      && PageOf(t) == StudentDashboardPage(true) && t.pendingQuestion == Some(q) && t.currentQuestion.None?
      && PageOf(Step(t, StudentLoginDone(email))) == SolutionPage(q, email)
      && Step(t, StudentLoginDone(email)).pendingQuestion.None?
      && Step(t, StudentLoginDone(email)).savedEmail == Some(email)
  {
  }

  lemma StartThenClose(s: AppState, q: Question)
    requires PageOf(s).StudentDashboardPage? && !s.isStudentLoggedIn
    ensures var t := Step(Step(s, StartProblem(q)), StudentLoginClose);
      PageOf(t) == StudentDashboardPage(false) && t.pendingQuestion.None? && t.currentQuestion.None?
  {
  }

  /** The email saved at login logs the student in again on the next start. */
  lemma LoginPersists(s: AppState, email: string)
    requires PageOf(s).StudentDashboardPage? && s.showStudentLogin && email != ""
    ensures var t := Init(Step(s, StudentLoginDone(email)).savedEmail);
      t.isStudentLoggedIn && t.studentEmail == email
  {
  }

  /** Leaving the student dashboard returns home with nothing pending. */
  lemma DashboardBackGoesHome(s: AppState)
    requires PageOf(s).StudentDashboardPage?
    ensures var t := Step(s, DashboardBack);
      PageOf(t) == HomePage(s.showAdminLogin) && t.pendingQuestion.None? && !t.showStudentLogin
  {
  }
}
