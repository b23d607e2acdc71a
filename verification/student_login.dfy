/** The student login and registration popup (frontend/src/StudentLogin.jsx):
    the form's mode, the checks made before any request, the request helper's
    reply shape and the message or login each reply leads to. */
module StudentLogin {
  import opened Wrappers
  import opened Text
  import Http

  datatype Mode = Login | Register

  /** The `mode` prop defaults to 'register'; only 'login' selects login. */
  function InitialMode(prop: Option<string>): (m: Mode)
    ensures m == Login <==> prop == Some("login")
  {
    if prop == Some("login") then Login else Register
  }

  datatype Form = Form(email: string, password: string, confirmPassword: string, name: string,
                       username: string, phone: string, gender: string)

  const FillAllMessage := "Please fill in all fields"
  const MismatchMessage := "Passwords do not match"
  const ExistsMessage := "Email or username already exists. Please switch to Login."
  const RegisterFailedMessage := "Unable to register. Please try again."
  const LoginFailedMessage := "Unable to login. Please check your credentials."

  /** The checks before any request: the message they set, or none. */
  function Check(mode: Mode, f: Form): (r: Option<string>)
    ensures mode == Register ==>
      (r.None? <==> f.name != "" && f.username != "" && f.email != "" && f.phone != "" &&
                    f.password != "" && f.confirmPassword != "" && f.password == f.confirmPassword)
    ensures mode == Login ==> (r.None? <==> f.email != "" && f.password != "")
    ensures r.Some? ==> r.value == FillAllMessage || r.value == MismatchMessage
    ensures r == Some(MismatchMessage) ==> mode == Register && f.password != f.confirmPassword
  {
    match mode
    case Register =>
      if f.name == "" || f.username == "" || f.email == "" || f.phone == "" || f.password == "" || f.confirmPassword == ""
      then Some(FillAllMessage)
      else if f.password != f.confirmPassword then Some(MismatchMessage)
      else None
    case Login =>
      if f.email == "" || f.password == "" then Some(FillAllMessage) else None
  }

  /** The gender field takes no part in the checks. */
  lemma GenderNotChecked(mode: Mode, f: Form, g: string)
    ensures Check(mode, f.(gender := g)) == Check(mode, f)
  {
  }

  /** The body POSTed: the registration fields, or the credentials. */
  datatype Request =
    | RegistrationRequest(fullName: string, username: string, email: string, phone: string, gender: string,
                          password: string, confirmPassword: string)
    | LoginRequest(email: string, password: string)

  function RequestOf(mode: Mode, f: Form): Request {
    match mode
    case Register => RegistrationRequest(f.name, f.username, f.email, f.phone, f.gender, f.password, f.confirmPassword)
    case Login => LoginRequest(f.email, f.password)
  }

  function Endpoint(r: Request): string {
    if r.RegistrationRequest? then "/registration" else "/students/login"
  }

  /** The JSON body's fields the popup reads. */
  datatype Data = Data(error: Option<string>, studentId: Option<string>)

  /** What `fetch` did: threw (with its message), or answered with a status and
      a body that parsed, or not. */
  datatype Fetched = Threw(message: string) | Answered(status: int, body: Option<Data>)

  datatype Response = Response(ok: bool, status: int, data: Data)

  /** `makeRequest`: a throw becomes a not-ok reply with status 0 carrying the
      message; an unparsable body becomes `{}`. */
  function MakeRequest(f: Fetched): (r: Response)
    ensures f.Threw? ==> !r.ok && r.status == 0 && r.data.error == Some(f.message)
    ensures f.Answered? ==> r.status == f.status && (r.ok <==> Http.IsOkStatus(f.status))
    ensures f.Answered? && f.body.None? ==> r.data == Data(None, None)
  {
    match f
    case Threw(m) => Response(false, 0, Data(Some(m), None))
    case Answered(status, body) => Response(Http.IsOkStatus(status), status, body.GetOr(Data(None, None)))
  }

  /** What happens besides the message. */
  datatype Effect =
    | NoRequest
    | Failed
    | Registered(sessionEmail: string)                         // onLogin with isTemporarySession
    | LoggedIn(savedEmail: string, savedStudentId: Option<string>)

  datatype Outcome = Outcome(error: string, effect: Effect)

  /** `handleSubmit`: the message is cleared, the checks run, and only then is
      the one request sent; `send` stands for the network. */
  function Submit(mode: Mode, f: Form, send: Request -> Fetched): (o: Outcome)
    ensures Check(mode, f).Some? ==> o == Outcome(Check(mode, f).value, NoRequest)
    ensures Check(mode, f).None? ==> o.effect != NoRequest
    ensures o.effect.Registered? ==> mode == Register && o.effect.sessionEmail == f.email && o.error == ""
    ensures o.effect.LoggedIn? ==> mode == Login && o.effect.savedEmail == f.email && o.error == ""
    ensures o.effect.LoggedIn? ==> (o.effect.savedStudentId.Some? ==> o.effect.savedStudentId.value != "")
    ensures o.effect.Failed? ==> o.error != ""
  {
    match Check(mode, f)
    case Some(message) => Outcome(message, NoRequest)
    case None =>
      var r := MakeRequest(send(RequestOf(mode, f)));
      match mode
      case Register =>
        if r.ok then Outcome("", Registered(f.email))
        else if r.status == 409 then Outcome(ExistsMessage, Failed)
        else Outcome(Or(r.data.error, RegisterFailedMessage), Failed)
      case Login =>
        if r.ok then Outcome("", LoggedIn(f.email, if Truthy(r.data.studentId) then r.data.studentId else None))
        else Outcome(Or(r.data.error, LoginFailedMessage), Failed)
  }

  /** A form that fails the checks never reaches the network. */
  lemma NoRequestWhenInvalid(mode: Mode, f: Form, send1: Request -> Fetched, send2: Request -> Fetched)
    requires Check(mode, f).Some?
    ensures Submit(mode, f, send1) == Submit(mode, f, send2)
  {
  }

  /** The register replies: a 409 says the account exists; any other refusal
      shows the server's error, or the default when it gave none. */
  lemma RegisterReplies(f: Form, send: Request -> Fetched)
    requires Check(Register, f).None?
    ensures var sent := send(RequestOf(Register, f));
      && (sent.Answered? && Http.IsOkStatus(sent.status) ==> Submit(Register, f, send) == Outcome("", Registered(f.email)))
      && (sent.Answered? && sent.status == 409 ==> Submit(Register, f, send) == Outcome(ExistsMessage, Failed))
      && (sent.Answered? && !Http.IsOkStatus(sent.status) && sent.status != 409 && sent.body.None? ==>
            Submit(Register, f, send) == Outcome(RegisterFailedMessage, Failed))
      && (sent.Threw? && sent.message != "" ==> Submit(Register, f, send) == Outcome(sent.message, Failed))
  {
  }

  /** The login replies: the student id is saved only when the reply carries a
      truthy one; a refusal shows the server's error or the default. */
  lemma LoginReplies(f: Form, send: Request -> Fetched)
    requires Check(Login, f).None?
    ensures var sent := send(RequestOf(Login, f));
      && (sent.Answered? && Http.IsOkStatus(sent.status) && sent.body.Some? && Truthy(sent.body.value.studentId) ==>
            Submit(Login, f, send) == Outcome("", LoggedIn(f.email, sent.body.value.studentId)))
      && (sent.Answered? && Http.IsOkStatus(sent.status) && sent.body.None? ==>
            Submit(Login, f, send) == Outcome("", LoggedIn(f.email, None)))
      && (sent.Answered? && !Http.IsOkStatus(sent.status) && sent.body.Some? && Truthy(sent.body.value.error) ==>
            Submit(Login, f, send) == Outcome(sent.body.value.error.value, Failed))
      && (sent.Threw? && sent.message == "" ==> Submit(Login, f, send) == Outcome(LoginFailedMessage, Failed))
  {
  }

  datatype Popup = Popup(mode: Mode, error: string)

  /** The two toggle links switch the mode and clear the message. */
  function Toggle(p: Popup, to: Mode): (q: Popup)
    ensures q.mode == to && q.error == ""
  {
    p.(mode := to, error := "")
  }

  /** The popup after a submit: the message is the outcome's (cleared first). */
  function AfterSubmit(p: Popup, f: Form, send: Request -> Fetched): (q: Popup)
    ensures q.mode == p.mode
    ensures q.error == Submit(p.mode, f, send).error
  {
    p.(error := Submit(p.mode, f, send).error)
  }

  /** A mode that is toggled away and back leaves only the message cleared. */
  lemma ToggleBack(p: Popup, other: Mode)
    ensures Toggle(Toggle(p, other), p.mode) == p.(error := "")
  {
  }
}
