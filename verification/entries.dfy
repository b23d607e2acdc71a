/** A submission as the browser pages handle it: either a server document or a
    record the solution page kept in browser storage (`localSubmissions`). */
module Entries {
  import opened Wrappers
  import opened Text
  import SubmissionModel
  import SubmitClient

  datatype Entry = Entry(
    id: Option<nat>,               // `_id` of a server document
    localId: Option<string>,       // `_localId` of a stored record
    studentEmail: Option<string>,
    questionTitle: Option<string>,
    isCorrect: bool,
    isAdminGraded: bool,
    grade: Option<string>,
    feedback: Option<string>,
    submittedAt: int)

  /** A server document as it arrives in JSON. */
  function FromServer(s: SubmissionModel.Submission): Entry {
    Entry(Some(s.id), None, Some(s.studentEmail), Some(s.questionTitle), s.isCorrect, s.isAdminGraded,
          s.grade, s.feedback, s.submittedAt)
  }

  /** A list of server documents as it arrives in JSON. */
  function EntriesOf(docs: seq<SubmissionModel.Submission>): (r: seq<Entry>)
    ensures |r| == |docs| && forall k :: 0 <= k < |docs| ==> r[k] == FromServer(docs[k])
  {
    if |docs| == 0 then [] else [FromServer(docs[0])] + EntriesOf(docs[1..])
  }

  /** A record stored by the solution page while no server accepted it. */
  function FromLocal(r: SubmitClient.LocalRecord): Entry {
    Entry(None, Some(r.localId), Some(r.studentEmail), r.questionTitle, r.isCorrect, false, r.grade, None,
          r.submittedAt)
  }

  /** `x.studentEmail === email`. */
  predicate HasEmail(e: Entry, email: string) {
    e.studentEmail == Some(email)
  }

  /** An entry kept in browser storage: its `_localId` is truthy. */
  predicate IsLocal(e: Entry) {
    Truthy(e.localId)
  }

  function GradesOf(es: seq<Entry>): (r: seq<Option<string>>)
    ensures |r| == |es| && forall k :: 0 <= k < |es| ==> r[k] == es[k].grade
  {
    if |es| == 0 then [] else [es[0].grade] + GradesOf(es[1..])
  }
}
