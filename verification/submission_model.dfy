/** The Submission document schema (backend/models/Submission.js). */
module SubmissionModel {
  import opened Wrappers
  import opened Text

  /** Document ids are abstracted to naturals; question and student references
      keep the string form the client sees. */
  type SubmissionId = nat

  const DefaultLanguage := "JavaScript"

  datatype Submission = Submission(
    id: SubmissionId,
    studentEmail: string,
    studentId: Option<nat>,
    questionId: Option<string>,
    questionTitle: string,
    language: string,
    code: string,
    output: Option<string>,
    isCorrect: bool,
    grade: Option<string>,
    isAdminGraded: bool,
    feedback: Option<string>,
    submittedAt: int)

  /** The fields a caller hands to the schema; absent ones take their defaults. */
  datatype Draft = Draft(
    studentEmail: Option<string>,
    studentId: Option<nat>,
    questionId: Option<string>,
    questionTitle: Option<string>,
    language: Option<string>,
    code: Option<string>,
    output: Option<string>,
    isCorrect: Option<bool>,
    grade: Option<string>,
    isAdminGraded: Option<bool>,
    feedback: Option<string>,
    submittedAt: Option<int>)

  datatype Field = StudentEmail | QuestionTitle | Code

  /** Mongoose's `required` rejects a missing string and the empty string. */
  predicate Present(o: Option<string>) {
    Truthy(o)
  }

  /** The required paths the draft leaves empty, in schema order. */
  function MissingFields(d: Draft): (r: seq<Field>)
    ensures StudentEmail in r <==> !Present(d.studentEmail)
    ensures QuestionTitle in r <==> !Present(d.questionTitle)
    ensures Code in r <==> !Present(d.code)
    ensures |r| <= 3
  {
    (if Present(d.studentEmail) then [] else [StudentEmail])
    + (if Present(d.questionTitle) then [] else [QuestionTitle])
    + (if Present(d.code) then [] else [Code])
  }

  /** The document the schema builds from a draft, defaults applied, without validation.
      An upsert with `setDefaultsOnInsert` builds documents this way. */
  function WithDefaults(d: Draft, id: SubmissionId, now: int): (s: Submission)
    ensures s.language == d.language.GetOr(DefaultLanguage)
    ensures !s.isCorrect <== d.isCorrect.None?
    ensures !s.isAdminGraded <== d.isAdminGraded.None?
    ensures s.submittedAt == now <== d.submittedAt.None?
    ensures s.id == id && s.grade == d.grade && s.feedback == d.feedback
    ensures s.output == d.output && s.studentId == d.studentId && s.questionId == d.questionId
    ensures d.isCorrect.Some? ==> s.isCorrect == d.isCorrect.value
    ensures d.isAdminGraded.Some? ==> s.isAdminGraded == d.isAdminGraded.value
    ensures d.submittedAt.Some? ==> s.submittedAt == d.submittedAt.value
    ensures d.studentEmail.Some? ==> s.studentEmail == d.studentEmail.value
    ensures d.questionTitle.Some? ==> s.questionTitle == d.questionTitle.value
    ensures d.code.Some? ==> s.code == d.code.value
  {
    Submission(
      id, d.studentEmail.GetOr(""), d.studentId, d.questionId, d.questionTitle.GetOr(""),
      d.language.GetOr(DefaultLanguage), d.code.GetOr(""), d.output,
      d.isCorrect.GetOr(false), d.grade, d.isAdminGraded.GetOr(false), d.feedback,
      d.submittedAt.GetOr(now))
  }

  /** `new Submission(d).validate()`: fails exactly when a required path is empty. */
  function Create(d: Draft, id: SubmissionId, now: int): (r: Result<Submission, seq<Field>>)
    ensures r.Success? <==> Present(d.studentEmail) && Present(d.questionTitle) && Present(d.code)
    ensures r.Success? ==> r.value == WithDefaults(d, id, now)
    ensures r.Success? ==> Valid(r.value)
    ensures r.Failure? ==> |r.error| > 0
  {
    var missing := MissingFields(d);
    if |missing| == 0 then Success(WithDefaults(d, id, now)) else Failure(missing)
  }

  /** A stored submission satisfies the schema's required constraints. */
  predicate Valid(s: Submission) {
    s.studentEmail != "" && s.questionTitle != "" && s.code != ""
  }
}
