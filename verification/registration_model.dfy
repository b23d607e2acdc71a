/** The Registration document schema (backend/models/registration.js): the raw
    copy of the client's registration form kept for audit. */
module RegistrationModel {
  import opened Wrappers
  import opened Text
  import opened StudentModel
  import Ids

  datatype Registration = Registration(
    id: nat,
    fullName: string,
    username: string,
    email: string,
    phone: string,
    gender: Gender,
    password: string,
    createdAt: int)

  datatype Draft = Draft(
    fullName: Option<string>,
    username: Option<string>,
    email: Option<string>,
    phone: Option<string>,
    gender: Option<string>,
    password: Option<string>)

  /** The setters of the `email` path: trimmed, then lower-cased. */
  function CastEmail(e: string): string {
    ToLower(Trim(e))
  }

  /** A trimmed required string: present and not blank once trimmed. */
  function CastTrimmed(o: Option<string>): (r: Option<string>)
    ensures r.Some? <==> o.Some? && !AllSpace(o.value)
    ensures r.Some? ==> r.value == Trim(o.value) && r.value != ""
  {
    if o.Some? && Trim(o.value) != "" then Some(Trim(o.value)) else None
  }

  ghost predicate UniqueKeys(regs: seq<Registration>) {
    && (forall i, j :: 0 <= i < j < |regs| ==> regs[i].email != regs[j].email)
    && (forall i, j :: 0 <= i < j < |regs| ==> regs[i].username != regs[j].username)
    && (forall i, j :: 0 <= i < j < |regs| ==> regs[i].id != regs[j].id)
  }

  /** The document the draft casts to, or None when a validator rejects it. */
  function Cast(d: Draft, id: nat, now: int): (r: Option<Registration>)
    ensures r.Some? <==>
      && CastTrimmed(d.fullName).Some? && CastTrimmed(d.username).Some?
      && CastTrimmed(d.email).Some? && CastTrimmed(d.phone).Some?
      && d.gender.Some? && ParseGender(d.gender.value).Some?
      && Truthy(d.password)
    ensures r.Some? ==> r.value.email == CastEmail(d.email.value) && r.value.username == Trim(d.username.value)
    ensures r.Some? ==> r.value.fullName == Trim(d.fullName.value) && r.value.phone == Trim(d.phone.value)
    ensures r.Some? ==> GenderName(r.value.gender) == d.gender.value && r.value.createdAt == now
    ensures r.Some? ==> r.value.password == d.password.value && r.value.id == id
  {
    var fullName := CastTrimmed(d.fullName);
    var username := CastTrimmed(d.username);
    var email := CastTrimmed(d.email);
    var phone := CastTrimmed(d.phone);
    var gender := if d.gender.Some? then ParseGender(d.gender.value) else None;
    if fullName.Some? && username.Some? && email.Some? && phone.Some? && gender.Some? && Truthy(d.password) then
      Some(Registration(id, fullName.value, username.value, ToLower(email.value), phone.value, gender.value,
                        d.password.value, now))
    else None
  }

  /** `new Registration(d).save()`: casting and validation, then the two unique indexes. */
  function Create(regs: seq<Registration>, d: Draft, now: int): (r: Result<(seq<Registration>, Registration), SaveError>)
    ensures Cast(d, 0, now).None? <==> r == Failure(ValidationFailed)
    ensures r.Success? ==> r.value.0 == regs + [r.value.1]
    ensures r.Success? ==> Cast(d, r.value.1.id, now) == Some(r.value.1)
    ensures r.Success? ==> forall k :: 0 <= k < |regs| ==>
      regs[k].email != r.value.1.email && regs[k].username != r.value.1.username && regs[k].id != r.value.1.id
    ensures r.Success? && UniqueKeys(regs) ==> UniqueKeys(r.value.0)
    ensures r == Failure(DuplicateKey) ==>
      exists k :: 0 <= k < |regs| &&
        (regs[k].email == CastEmail(d.email.value) || regs[k].username == Trim(d.username.value))
  {
    var id := Ids.FreshId(regs, (g: Registration) => g.id);
    CastIgnoresId(d, 0, id, now);
    match Cast(d, id, now)
    case None => Failure(ValidationFailed)
    case Some(g) =>
      if Collides(regs, g) then Failure(DuplicateKey)
      else
        AppendFresh(regs, g);
        Success((regs + [g], g))
  }

  /** The lookup the unique indexes make: a stored registration shares the email
      or the username. */
  predicate Collides(regs: seq<Registration>, g: Registration) {
    exists k :: 0 <= k < |regs| && (regs[k].email == g.email || regs[k].username == g.username)
  }

  lemma AppendFresh(regs: seq<Registration>, g: Registration)
    requires !Collides(regs, g)
    requires forall k :: 0 <= k < |regs| ==> regs[k].id != g.id
    ensures forall k :: 0 <= k < |regs| ==>
      regs[k].email != g.email && regs[k].username != g.username && regs[k].id != g.id
    ensures UniqueKeys(regs) ==> UniqueKeys(regs + [g])
  {
    var out := regs + [g];
    assert forall k :: 0 <= k < |regs| ==> out[k] == regs[k];
    assert out[|regs|] == g;
  }

  /** Whether a draft casts does not depend on the id it is given. */
  lemma CastIgnoresId(d: Draft, a: nat, b: nat, now: int)
    ensures Cast(d, a, now).None? <==> Cast(d, b, now).None?
  {
  }
}
