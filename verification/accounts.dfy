/** The two sign-up routes of the backend (backend/index.js): the student account
    register route and the raw registration capture. Password hashing is outside
    the model: the caller passes the hash the route would store. */
module Accounts {
  import opened Wrappers
  import opened Text
  import opened Http
  import opened StudentModel
  import RegistrationModel
  import Ids

  /** A route's effect on one collection, and its reply. */
  datatype Outcome<S, T> = Outcome(state: S, reply: Reply<T>)

  // ------------------------------------------- POST /api/students/register

  datatype RegisterRequest = RegisterRequest(
    email: Option<string>,
    password: Option<string>,
    name: Option<string>,
    username: Option<string>,
    phone: Option<string>,
    gender: Option<string>)

  /** The reply's view of the stored student: everything but the password. */
  datatype StudentView = StudentView(
    id: nat, email: string, name: Option<string>, username: Option<string>,
    phone: Option<string>, gender: Option<Gender>)

  function View(s: Student): StudentView {
    StudentView(s.id, s.email, s.name, s.username, s.phone, s.gender)
  }

  /** The display name: the given name trimmed, or the part of the email before
      the first '@' when that is empty. */
  function DerivedName(email: string, name: Option<string>): (r: string)
    ensures Truthy(name) && !AllSpace(name.value) ==> r == Trim(name.value) && r != ""
    ensures !(Truthy(name) && !AllSpace(name.value)) ==> r == LocalPart(email) && '@' !in r && r <= email
  {
    if Truthy(name) && Trim(name.value) != "" then Trim(name.value) else LocalPart(email)
  }

  predicate EmailTaken(students: seq<Student>, email: string) {
    exists k :: 0 <= k < |students| && students[k].email == email
  }

  predicate UsernameTaken(students: seq<Student>, username: string) {
    exists k :: 0 <= k < |students| && students[k].username == Some(username)
  }

  function StudentIdOf(s: Student): nat {
    s.id
  }

  /** The draft the route saves: a fresh id, the hash in place of the password. */
  function RegisterDraft(students: seq<Student>, req: RegisterRequest, hashed: string): (d: Draft)
    requires Truthy(req.email)
    ensures d.email == req.email && d.password == Some(hashed)
    ensures d.name == Some(DerivedName(req.email.value, req.name))
    ensures d.username == req.username && d.gender == req.gender && d.createdAt == None
    ensures forall k :: 0 <= k < |students| ==> students[k].id != d.id
  {
    Draft(Ids.FreshId(students, StudentIdOf), req.email, Some(hashed), Some(DerivedName(req.email.value, req.name)),
          req.username, req.phone, req.gender, None)
  }

  function RegisterStudent(students: seq<Student>, req: RegisterRequest, hashed: string, now: int): (o: Outcome<seq<Student>, StudentView>)
    ensures !Truthy(req.email) || !Truthy(req.password) <==>
      o == Outcome(students, Refusal(400, "Missing email or password"))
    ensures Truthy(req.email) && Truthy(req.password) && EmailTaken(students, req.email.value) ==>
      o == Outcome(students, Refusal(409, "Email already registered"))
    ensures (&& Truthy(req.email) && Truthy(req.password) && !EmailTaken(students, req.email.value)
             && Truthy(req.username) && UsernameTaken(students, req.username.value)) ==>
      o == Outcome(students, Refusal(409, "Username already taken"))
    ensures o.reply.Refusal? ==> o.state == students
    ensures o.reply.Reply? ==>
      && o.reply.status == 201
      && !EmailTaken(students, o.reply.body.email)
      && exists s :: s in o.state && View(s) == o.reply.body && s.password == hashed && s.updatedAt == now
           && s.name == Some(DerivedName(req.email.value, req.name)) && s.email == req.email.value
    ensures o.reply.Reply? ==> forall s :: s in o.state ==> s in students || View(s) == o.reply.body
    ensures o.reply.Reply? ==>
      && |o.state| == |students| + 1 && o.state[..|students|] == students
      && View(o.state[|students|]) == o.reply.body
    ensures UniqueKeys(students) ==> UniqueKeys(o.state)
  {
    if !Truthy(req.email) || !Truthy(req.password) then Outcome(students, Refusal(400, "Missing email or password"))
    else if EmailTaken(students, req.email.value) then Outcome(students, Refusal(409, "Email already registered"))
    else if Truthy(req.username) && UsernameTaken(students, req.username.value) then
      Outcome(students, Refusal(409, "Username already taken"))
    else
      var d := RegisterDraft(students, req, hashed);
      match Save(students, d, now)
      case Failure(_) => Outcome(students, Refusal(500, "Server error"))
      case Success((out, s)) =>
        assert out == students + [s];
        Outcome(out, Reply(201, View(s)))
  }

  /** Past the route's own checks, the save fails only on a gender outside the
      enum, or on an empty username that another student already holds: the route
      skips the username check for an empty one, but the sparse unique index still
      counts "" as a value. */
  lemma RegisterServerErrorCauses(students: seq<Student>, req: RegisterRequest, hashed: string, now: int)
    requires hashed != ""
    requires RegisterStudent(students, req, hashed, now).reply == Refusal(500, "Server error")
    ensures || (req.gender.Some? && ParseGender(req.gender.value).None?)
            || (req.username == Some("") && UsernameTaken(students, ""))
  {
    var d := RegisterDraft(students, req, hashed);
    if req.gender.None? || ParseGender(req.gender.value).Some? {
      var k :| 0 <= k < |students| && Clashes(students[k], d.email.value, d.username, d.id);
      assert students[k].email != req.email.value;
    }
  }

  lemma EmptyUsernameClash(students: seq<Student>, hashed: string, now: int)
    requires hashed != ""
    requires students == [Student(1, "a@x.io", "h", None, Some(""), None, None, 0, 0)]
    ensures RegisterStudent(students, RegisterRequest(Some("b@x.io"), Some("pw"), None, Some(""), None, None), hashed, now).reply
      == Refusal(500, "Server error")
  {
    var req := RegisterRequest(Some("b@x.io"), Some("pw"), None, Some(""), None, None);
    var d := RegisterDraft(students, req, hashed);
    assert !EmailTaken(students, "b@x.io") by {
      assert students[0].email != "b@x.io";
    }
    assert Clashes(students[0], d.email.value, d.username, d.id);
    assert Save(students, d, now).Failure?;
  }

  // ---------------------------------------------------- POST /api/registration

  datatype CaptureRequest = CaptureRequest(
    fullName: Option<string>,
    username: Option<string>,
    email: Option<string>,
    phone: Option<string>,
    gender: Option<string>,
    password: Option<string>,
    confirmPassword: Option<string>)

  predicate AllGiven(req: CaptureRequest) {
    && Truthy(req.fullName) && Truthy(req.username) && Truthy(req.email) && Truthy(req.phone)
    && Truthy(req.gender) && Truthy(req.password) && Truthy(req.confirmPassword)
  }

  /** `findOne({ $or: [{ email }, { username }] })`; the schema's setters also
      normalise the query values. */
  predicate Registered(regs: seq<RegistrationModel.Registration>, email: string, username: string) {
    exists k :: 0 <= k < |regs| &&
      (regs[k].email == RegistrationModel.CastEmail(email) || regs[k].username == Trim(username))
  }

  function CaptureDraft(req: CaptureRequest, hashed: string): RegistrationModel.Draft {
    RegistrationModel.Draft(req.fullName, req.username, req.email, req.phone, req.gender, Some(hashed))
  }

  /** The save once the route's checks have passed: the schema can still reject the
      cast values, but no stored registration shares the email or username. */
  function CaptureSave(regs: seq<RegistrationModel.Registration>, req: CaptureRequest, hashed: string, now: int)
    : (o: Outcome<seq<RegistrationModel.Registration>, nat>)
    requires AllGiven(req) && !Registered(regs, req.email.value, req.username.value)
    ensures o.reply.Refusal? <==> RegistrationModel.Cast(CaptureDraft(req, hashed), 0, now).None?
    ensures o.reply.Refusal? ==> o == Outcome(regs, Refusal(500, "Server error"))
    ensures o.reply.Reply? ==>
      && o.reply.status == 201
      && |o.state| == |regs| + 1
      && var g := o.state[|regs|];
      && g.id == o.reply.body && g.password == hashed && g.createdAt == now
      && g.email == RegistrationModel.CastEmail(req.email.value) && g.username == Trim(req.username.value)
      && o.state == regs + [g]
    ensures RegistrationModel.UniqueKeys(regs) ==> RegistrationModel.UniqueKeys(o.state)
  {
    var d := CaptureDraft(req, hashed);
    match RegistrationModel.Create(regs, d, now)
    case Failure(e) =>
      assert e == ValidationFailed;
      Outcome(regs, Refusal(500, "Server error"))
    case Success((out, g)) =>
      assert RegistrationModel.Cast(d, g.id, now) == Some(g);
      assert out[|regs|] == g;
      Outcome(out, Reply(201, g.id))
  }

  function CaptureRegistration(regs: seq<RegistrationModel.Registration>, req: CaptureRequest, hashed: string, now: int)
    : (o: Outcome<seq<RegistrationModel.Registration>, nat>)
    ensures !AllGiven(req) <==> o == Outcome(regs, Refusal(400, "All fields are required"))
    ensures AllGiven(req) && req.password != req.confirmPassword ==>
      o == Outcome(regs, Refusal(400, "Passwords do not match"))
    ensures AllGiven(req) && req.password == req.confirmPassword && Registered(regs, req.email.value, req.username.value) ==>
      o == Outcome(regs, Refusal(409, "Email or username already exists"))
    ensures AllGiven(req) && req.password == req.confirmPassword && !Registered(regs, req.email.value, req.username.value) ==>
      o == CaptureSave(regs, req, hashed, now)
  {
    if !AllGiven(req) then Outcome(regs, Refusal(400, "All fields are required"))
    else if req.password != req.confirmPassword then Outcome(regs, Refusal(400, "Passwords do not match"))
    else CaptureChecked(regs, req, hashed, now)
  }

  /** The capture once every field is given and the passwords agree: the
      duplicate check, then the save. */
  function CaptureChecked(regs: seq<RegistrationModel.Registration>, req: CaptureRequest, hashed: string, now: int)
    : (o: Outcome<seq<RegistrationModel.Registration>, nat>)
    requires AllGiven(req)
    ensures Registered(regs, req.email.value, req.username.value) ==>
      o == Outcome(regs, Refusal(409, "Email or username already exists"))
    ensures !Registered(regs, req.email.value, req.username.value) ==> o == CaptureSave(regs, req, hashed, now)
  {
    if Registered(regs, req.email.value, req.username.value) then
      Outcome(regs, Refusal(409, "Email or username already exists"))
    else CaptureSave(regs, req, hashed, now)
  }

  /** A blank full name passes the route's presence check but not the schema's
      trimmed `required`, so the capture answers 500. */
  lemma BlankFullNameIsServerError(regs: seq<RegistrationModel.Registration>, hashed: string, now: int)
    requires regs == []
    ensures CaptureRegistration(regs,
      CaptureRequest(Some("  "), Some("ana"), Some("a@x.io"), Some("123"), Some("Female"), Some("pw"), Some("pw")),
      hashed, now).reply == Refusal(500, "Server error")
  {
    var req := CaptureRequest(Some("  "), Some("ana"), Some("a@x.io"), Some("123"), Some("Female"), Some("pw"), Some("pw"));
    assert AllSpace("  ");
    assert RegistrationModel.CastTrimmed(req.fullName).None?;
    assert RegistrationModel.Cast(CaptureDraft(req, hashed), 0, now).None?;
    assert !Registered(regs, req.email.value, req.username.value);
  }
}
