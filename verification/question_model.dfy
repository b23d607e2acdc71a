/** The Question document schema (backend/models/Question.js). The same record
    shape is used by the client, where built-in sample questions carry a numeric
    `id` and no `_id`. */
module QuestionModel {
  import opened Wrappers
  import opened Text

  datatype Question = Question(
    id: Option<string>,          // `_id`
    sampleId: Option<int>,       // `id` of the client's built-in samples
    title: Option<string>,
    difficulty: Option<string>,
    language: Option<string>,
    description: Option<string>,
    testCases: Option<string>,
    expectedOutput: Option<string>,
    solution: Option<string>,
    category: Option<string>,
    kind: Option<string>,        // `type`
    estimatedTime: Option<string>,
    createdAt: Option<int>)

  datatype SolutionError = SolutionMissing | SolutionTooShort

  /** The `solution` path: the trim setter runs first, then `required` and `minlength: 1`. */
  function CastSolution(solution: Option<string>): (r: Result<string, SolutionError>)
    ensures r.Success? <==> solution.Some? && !AllSpace(solution.value)
    ensures r.Success? ==> r.value == Trim(solution.value) && |r.value| >= 1
    ensures solution.None? ==> r == Failure(SolutionMissing)
  {
    match solution
    case None => Failure(SolutionMissing)
    case Some(s) =>
      var t := Trim(s);
      if |t| == 0 then Failure(SolutionTooShort) else Success(t)
  }

  /** `new Question(q).save()`: every field but the solution is an unconstrained
      optional string; `createdAt` defaults to the save time. */
  function Create(q: Question, id: string, now: int): (r: Result<Question, SolutionError>)
    ensures r.Success? <==> q.solution.Some? && !AllSpace(q.solution.value)
    ensures r.Success? ==> r.value.solution == Some(Trim(q.solution.value))
    ensures r.Success? ==> r.value.id == Some(id)
    ensures r.Success? ==> r.value.createdAt == Some(q.createdAt.GetOr(now))
    ensures r.Success? ==> r.value.(id := q.id, solution := q.solution, createdAt := q.createdAt) == q
  {
    match CastSolution(q.solution)
    case Failure(e) => Failure(e)
    case Success(s) => Success(q.(id := Some(id), solution := Some(s), createdAt := Some(q.createdAt.GetOr(now))))
  }

  lemma WhitespaceSolutionRejected(q: Question, id: string, now: int)
    requires q.solution == Some(" \t\n ")
    ensures Create(q, id, now) == Failure(SolutionTooShort)
  {
    assert AllSpace(" \t\n ");
  }
}
