/** The Student document schema (backend/models/Student.js) and the collection's
    unique indexes. */
module StudentModel {
  import opened Wrappers
  import opened Text

  datatype Gender = Male | Female | PreferNotToSay

  function GenderName(g: Gender): string {
    match g
    case Male => "Male"
    case Female => "Female"
    case PreferNotToSay => "Prefer not to say"
  }

  /** The enum validator: one of the three names, matched exactly. */
  function ParseGender(s: string): (r: Option<Gender>)
    ensures r.Some? <==> s in {"Male", "Female", "Prefer not to say"}
    ensures r.Some? ==> GenderName(r.value) == s
  {
    if s == "Male" then Some(Male)
    else if s == "Female" then Some(Female)
    else if s == "Prefer not to say" then Some(PreferNotToSay)
    else None
  }

  datatype Student = Student(
    id: nat,
    email: string,
    password: string,
    name: Option<string>,
    username: Option<string>,
    phone: Option<string>,
    gender: Option<Gender>,
    createdAt: int,
    updatedAt: int)

  /** What a caller asks to save: `gender` is still the raw string. */
  datatype Draft = Draft(
    id: nat,
    email: Option<string>,
    password: Option<string>,
    name: Option<string>,
    username: Option<string>,
    phone: Option<string>,
    gender: Option<string>,
    createdAt: Option<int>)

  datatype SaveError = ValidationFailed | DuplicateKey

  /** The unique indexes: `email` over every student, `username` (sparse) over the
      students that have one. */
  ghost predicate UniqueKeys(students: seq<Student>) {
    && (forall i, j :: 0 <= i < j < |students| ==> students[i].email != students[j].email)
    && (forall i, j :: 0 <= i < j < |students| && students[i].username.Some? ==>
          students[i].username != students[j].username)
    && (forall i, j :: 0 <= i < j < |students| ==> students[i].id != students[j].id)
  }

  predicate Clashes(other: Student, email: string, username: Option<string>, id: nat) {
    other.id != id && (other.email == email || (username.Some? && other.username == username))
  }

  /** The position of the stored student with this id, if any. */
  function IndexOfId(students: seq<Student>, id: nat): (r: Option<nat>)
    ensures r.Some? ==> r.value < |students| && students[r.value].id == id
    ensures r.None? ==> forall k :: 0 <= k < |students| ==> students[k].id != id
  {
    if |students| == 0 then None
    else if students[|students| - 1].id == id then Some(|students| - 1)
    else IndexOfId(students[..|students| - 1], id)
  }

  /** `student.save()`: validates `required` and the gender enum, enforces the unique
      indexes, and the pre-save hook stamps `updatedAt`. A draft whose id is stored
      replaces that document; otherwise it is appended. */
  function Save(students: seq<Student>, d: Draft, now: int): (r: Result<(seq<Student>, Student), SaveError>)
    ensures r.Success? <==>
      && Truthy(d.email) && Truthy(d.password)
      && (d.gender.None? || ParseGender(d.gender.value).Some?)
      && (forall k :: 0 <= k < |students| ==> !Clashes(students[k], d.email.value, d.username, d.id))
    ensures r.Failure? && Truthy(d.email) && Truthy(d.password) && (d.gender.None? || ParseGender(d.gender.value).Some?)
      ==> r.error == DuplicateKey
    ensures r.Success? ==> r.value.1.updatedAt == now && r.value.1.id == d.id
    ensures r.Success? ==> r.value.1.email == d.email.value && r.value.1.username == d.username
    ensures r.Success? ==> r.value.1 in r.value.0
    ensures r.Success? && UniqueKeys(students) ==> UniqueKeys(r.value.0)
    ensures r.Success? ==> forall s :: s in r.value.0 && s.id != d.id ==> s in students
    ensures r.Success? ==> forall s :: s in students && s.id != d.id ==> s in r.value.0
    ensures r.Success? && IndexOfId(students, d.id).None? ==> r.value.0 == students + [r.value.1]
    ensures r.Success? && IndexOfId(students, d.id).Some? ==>
      r.value.0 == students[IndexOfId(students, d.id).value := r.value.1]
  {
    if !Truthy(d.email) || !Truthy(d.password) then Failure(ValidationFailed)
    else if d.gender.Some? && ParseGender(d.gender.value).None? then Failure(ValidationFailed)
    else if exists k :: 0 <= k < |students| && Clashes(students[k], d.email.value, d.username, d.id) then
      Failure(DuplicateKey)
    else
      var gender := if d.gender.Some? then ParseGender(d.gender.value) else None;
      var s := Student(d.id, d.email.value, d.password.value, d.name, d.username, d.phone, gender,
                       d.createdAt.GetOr(now), now);
      match IndexOfId(students, d.id)
      case Some(i) =>
        var out := students[i := s];
        assert out[i] == s;
        assert forall k :: 0 <= k < |out| && k != i ==> out[k] == students[k];
        assert UniqueKeys(students) ==> UniqueKeys(out) by {
          if UniqueKeys(students) {
            ReplaceKeepsUnique(students, i, s);
          }
        }
        Success((out, s))
      case None =>
        var out := students + [s];
        assert out[|students|] == s;
        assert forall k :: 0 <= k < |students| ==> out[k] == students[k];
        Success((out, s))
  }

  lemma ReplaceKeepsUnique(students: seq<Student>, i: nat, s: Student)
    requires UniqueKeys(students)
    requires i < |students| && students[i].id == s.id
    requires forall k :: 0 <= k < |students| ==> !Clashes(students[k], s.email, s.username, s.id)
    ensures UniqueKeys(students[i := s])
  {
    var out := students[i := s];
    forall a, b | 0 <= a < b < |out|
      ensures out[a].email != out[b].email
      ensures out[a].username.Some? ==> out[a].username != out[b].username
      ensures out[a].id != out[b].id
    {
      if a == i {
        assert students[b].id != s.id;
        assert !Clashes(students[b], s.email, s.username, s.id);
      } else if b == i {
        assert students[a].id != s.id;
        assert !Clashes(students[a], s.email, s.username, s.id);
      }
    }
  }
}
