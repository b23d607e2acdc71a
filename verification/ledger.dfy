/** The submission routes of the backend (backend/index.js): the graded upsert,
    admin grading, per-student statistics, listing, the per-student aggregate and
    the deletes. The collection is a sequence of documents in insertion order. */
module Ledger {
  import opened Wrappers
  import opened Text
  import opened Http
  import opened SubmissionModel
  import StudentModel
  import Sorting
  import Seqs
  import Ids

  type Store = seq<Submission>

  /** A route's effect: the collection afterwards and the reply it sends. */
  datatype Handled<T> = Handled(store: Store, reply: Reply<T>)

  /** One document per (student, question) pair, and distinct document ids. */
  ghost predicate UniqueKeys(store: Store) {
    && (forall i, j :: 0 <= i < j < |store| ==> KeyOf(store[i]) != KeyOf(store[j]))
    && (forall i, j :: 0 <= i < j < |store| ==> store[i].id != store[j].id)
  }

  function KeyOf(s: Submission): (string, Option<string>) {
    (s.studentEmail, s.questionId)
  }

  function IdOf(s: Submission): nat {
    s.id
  }

  /** The value a `$set` key takes: an `undefined` request field is dropped and the
      stored value stays. */
  function Override<T>(given: Option<T>, stored: T): (r: T)
    ensures given.Some? ==> r == given.value
    ensures given.None? ==> r == stored
  {
    if given.Some? then given.value else stored
  }

  // ---------------------------------------------------------------- difficulty grade

  /** `computeGrade`: the grade follows the question's difficulty, case-insensitively. */
  function ComputeGrade(difficulty: Option<string>): (g: string)
    ensures var d := ToLower(difficulty.GetOr(""));
      && (g == "A+" <==> d == "hard")
      && (g == "A" <==> d == "medium")
      && (g == "B+" <==> d == "easy")
      && (g == "B" <==> d != "hard" && d != "medium" && d != "easy")
  {
    match ToLower(difficulty.GetOr(""))
    case "hard" => "A+"
    case "medium" => "A"
    case "easy" => "B+"
    case _ => "B"
  }

  /** Difficulty is read case-insensitively. */
  lemma ComputeGradeIgnoresCase()
    ensures ComputeGrade(Some("Hard")) == "A+"
    ensures ComputeGrade(Some("MEDIUM")) == "A"
  {
    assert ToLower("Hard") == "hard";
    assert ToLower("MEDIUM") == "medium";
  }

  /** A missing or unknown difficulty falls to "B". */
  lemma ComputeGradeFallback()
    ensures ComputeGrade(Some("Easy")) == "B+"
    ensures ComputeGrade(None) == "B"
    ensures ComputeGrade(Some("Expert")) == "B"
  {
    assert ToLower("Easy") == "easy";
    assert ToLower("Expert") == "expert";
  }

  // ------------------------------------------------------------------- the upsert

  datatype SubmissionRequest = SubmissionRequest(
    studentEmail: Option<string>,
    questionId: Option<string>,
    questionTitle: Option<string>,
    language: Option<string>,
    code: Option<string>,
    output: Option<string>,
    isCorrect: bool,
    difficulty: Option<string>)

  predicate HasRequiredFields(req: SubmissionRequest) {
    Truthy(req.studentEmail) && Truthy(req.questionTitle) && Truthy(req.code)
  }

  function RequestKey(req: SubmissionRequest): (string, Option<string>)
    requires req.studentEmail.Some?
  {
    (req.studentEmail.value, req.questionId)
  }

  /** `Student.findOne({ email })`: the id of the first student with this email, or null. */
  function StudentIdFor(students: seq<StudentModel.Student>, email: string): (r: Option<nat>)
    ensures r.Some? <==> exists k :: 0 <= k < |students| && students[k].email == email
    ensures r.Some? ==> exists k :: 0 <= k < |students| && students[k].email == email && students[k].id == r.value
  {
    match Seqs.IndexWhere(students, (st: StudentModel.Student) => st.email == email)
    case None => None
    case Some(k) => Some(students[k].id)
  }

  /** The update document applied to the stored record with the same key. */
  function Refresh(stored: Submission, req: SubmissionRequest, studentId: Option<nat>, grade: string, now: int): (s: Submission)
    ensures s.id == stored.id && s.feedback == stored.feedback
    ensures s.studentEmail == Override(req.studentEmail, stored.studentEmail)
    ensures s.questionId == (if req.questionId.Some? then req.questionId else stored.questionId)
    ensures s.questionTitle == Override(req.questionTitle, stored.questionTitle)
    ensures s.language == Override(req.language, stored.language)
    ensures s.code == Override(req.code, stored.code)
    ensures s.output == (if req.output.Some? then req.output else stored.output)
    ensures s.studentId == studentId
    ensures s.isCorrect && !s.isAdminGraded && s.grade == Some(grade) && s.submittedAt == now
  {
    stored.(
      studentEmail := Override(req.studentEmail, stored.studentEmail),
      studentId := studentId,
      questionId := if req.questionId.Some? then req.questionId else stored.questionId,
      questionTitle := Override(req.questionTitle, stored.questionTitle),
      language := Override(req.language, stored.language),
      code := Override(req.code, stored.code),
      output := if req.output.Some? then req.output else stored.output,
      isCorrect := true,
      grade := Some(grade),
      isAdminGraded := false,
      submittedAt := now)
  }

  /** The document an upsert inserts: the filter's fields, the update, and the
      schema defaults for what neither sets. */
  function Inserted(req: SubmissionRequest, studentId: Option<nat>, grade: string, now: int, id: SubmissionId): (s: Submission)
    requires req.studentEmail.Some?
    ensures KeyOf(s) == RequestKey(req) && s.id == id
    ensures s.language == req.language.GetOr(DefaultLanguage) && s.feedback == None
    ensures s.isCorrect && !s.isAdminGraded && s.grade == Some(grade) && s.submittedAt == now
  {
    WithDefaults(
      Draft(req.studentEmail, studentId, req.questionId, req.questionTitle, req.language, req.code,
            req.output, Some(true), Some(grade), Some(false), None, Some(now)),
      id, now)
  }

  predicate HasKey(s: Submission, key: (string, Option<string>)) {
    KeyOf(s) == key
  }

  /** `findOneAndUpdate(filter, update, { upsert: true, new: true, setDefaultsOnInsert: true })`
      keyed on (studentEmail, questionId): the first stored record with the key is
      refreshed in place, and without one a new record is appended. */
  function Upsert(store: Store, req: SubmissionRequest, studentId: Option<nat>, grade: string, now: int): (r: (Store, Submission))
    requires req.studentEmail.Some?
    ensures var (out, rec) := r;
      && rec in out && KeyOf(rec) == RequestKey(req)
      && rec.isCorrect && !rec.isAdminGraded && rec.grade == Some(grade) && rec.submittedAt == now
      && rec.studentId == studentId
      && (req.code.Some? ==> rec.code == req.code.value)
      && (req.questionTitle.Some? ==> rec.questionTitle == req.questionTitle.value)
    ensures var (out, rec) := r;
      && (forall k :: 0 <= k < |store| && KeyOf(store[k]) != RequestKey(req) ==> store[k] in out)
      && (forall s :: s in out && s != rec ==> s in store)
    ensures var (out, rec) := r;
      (exists k :: 0 <= k < |store| && KeyOf(store[k]) == RequestKey(req)) ==>
        && |out| == |store|
        && (exists k :: 0 <= k < |store| && KeyOf(store[k]) == RequestKey(req)
              && rec.id == store[k].id && rec.feedback == store[k].feedback)
    ensures var (out, rec) := r;
      (forall k :: 0 <= k < |store| ==> KeyOf(store[k]) != RequestKey(req)) ==>
        && out == store + [rec] && rec.feedback == None
        && rec.language == req.language.GetOr(DefaultLanguage)
        && (forall k :: 0 <= k < |store| ==> store[k].id != rec.id)
    ensures UniqueKeys(store) ==> UniqueKeys(r.0)
    ensures UniqueKeys(store) ==> forall s :: s in r.0 && KeyOf(s) == RequestKey(req) ==> s == r.1
  {
    var key := RequestKey(req);
    match Seqs.IndexWhere(store, (s: Submission) => HasKey(s, key))
    case Some(i) =>
      var rec := Refresh(store[i], req, studentId, grade, now);
      var out := store[i := rec];
      assert out[i] == rec;
      assert forall k :: 0 <= k < |out| && k != i ==> out[k] == store[k];
      assert UniqueKeys(store) ==> UniqueKeys(out) && forall s :: s in out && KeyOf(s) == key ==> s == rec by {
        if UniqueKeys(store) {
          RefreshKeepsUnique(store, i, rec);
        }
      }
      (out, rec)
    case None =>
      var id := Ids.FreshId(store, IdOf);
      var rec := Inserted(req, studentId, grade, now, id);
      var out := store + [rec];
      assert out[|store|] == rec;
      assert forall k :: 0 <= k < |store| ==> out[k] == store[k];
      assert UniqueKeys(store) ==> UniqueKeys(out) && forall s :: s in out && KeyOf(s) == key ==> s == rec by {
        if UniqueKeys(store) {
          AppendKeepsUnique(store, rec);
        }
      }
      (out, rec)
  }

  /** Replacing a record by one with the same key and id keeps the keys unique, and
      leaves no other record with that key. */
  lemma RefreshKeepsUnique(store: Store, i: nat, rec: Submission)
    requires UniqueKeys(store)
    requires i < |store| && KeyOf(store[i]) == KeyOf(rec) && store[i].id == rec.id
    ensures UniqueKeys(store[i := rec])
    ensures forall s :: s in store[i := rec] && KeyOf(s) == KeyOf(rec) ==> s == rec
  {
    var out := store[i := rec];
    forall s | s in out && KeyOf(s) == KeyOf(rec)
      ensures s == rec
    {
      var k :| 0 <= k < |out| && out[k] == s;
      if k != i {
        assert false;
      }
    }
  }

  lemma AppendKeepsUnique(store: Store, rec: Submission)
    requires UniqueKeys(store)
    requires forall k :: 0 <= k < |store| ==> KeyOf(store[k]) != KeyOf(rec) && store[k].id != rec.id
    ensures UniqueKeys(store + [rec])
    ensures forall s :: s in store + [rec] && KeyOf(s) == KeyOf(rec) ==> s == rec
  {
    var out := store + [rec];
    assert forall k :: 0 <= k < |store| ==> out[k] == store[k];
    assert out[|store|] == rec;
  }

  // ------------------------------------------------------ POST /api/submissions

  /** Saves a correct answer: one record per (student, question), re-graded from the
      difficulty on every resubmission. */
  function PostSubmission(store: Store, students: seq<StudentModel.Student>, req: SubmissionRequest, now: int): (h: Handled<Submission>)
    ensures !HasRequiredFields(req) ==> h == Handled(store, Refusal(400, "Missing required fields"))
    ensures HasRequiredFields(req) && !req.isCorrect ==>
      h == Handled(store, Refusal(400, "Only correct answers can be submitted"))
    ensures h.reply.Reply? <==> HasRequiredFields(req) && req.isCorrect
    ensures h.reply.Reply? ==>
      var rec := h.reply.body;
      && h.reply.status == 201 && rec in h.store
      && KeyOf(rec) == RequestKey(req)
      && rec.grade == Some(ComputeGrade(req.difficulty)) && !rec.isAdminGraded && rec.isCorrect
      && rec.submittedAt == now && rec.code == req.code.value && rec.questionTitle == req.questionTitle.value
      && rec.studentId == StudentIdFor(students, req.studentEmail.value)
      && (forall s :: s in h.store && s != rec ==> s in store)
      && (forall k :: 0 <= k < |store| && KeyOf(store[k]) != KeyOf(rec) ==> store[k] in h.store)
    ensures UniqueKeys(store) ==> UniqueKeys(h.store)
    ensures UniqueKeys(store) && h.reply.Reply? ==>
      forall s :: s in h.store && KeyOf(s) == KeyOf(h.reply.body) ==> s == h.reply.body
  {
    if !HasRequiredFields(req) then Handled(store, Refusal(400, "Missing required fields"))
    else if !req.isCorrect then Handled(store, Refusal(400, "Only correct answers can be submitted"))
    else
      var studentId := StudentIdFor(students, req.studentEmail.value);
      var (out, rec) := Upsert(store, req, studentId, ComputeGrade(req.difficulty), now);
      Handled(out, Reply(201, rec))
  }

  // ------------------------------------------- PUT /api/submissions/:id/grade

  /** The grading update: `grade` and `feedback` as given (an absent one is left as
      stored) and the admin mark. Nothing else changes. */
  function Regrade(s: Submission, grade: Option<string>, feedback: Option<string>): (r: Submission)
    ensures r.isAdminGraded
    ensures r.grade == (if grade.Some? then grade else s.grade)
    ensures r.feedback == (if feedback.Some? then feedback else s.feedback)
    ensures r.(grade := s.grade, feedback := s.feedback, isAdminGraded := s.isAdminGraded) == s
  {
    s.(grade := if grade.Some? then grade else s.grade,
       feedback := if feedback.Some? then feedback else s.feedback,
       isAdminGraded := true)
  }

  predicate HasId(s: Submission, id: SubmissionId) {
    s.id == id
  }

  function GradeSubmission(store: Store, id: SubmissionId, grade: Option<string>, feedback: Option<string>): (h: Handled<Submission>)
    ensures (forall k :: 0 <= k < |store| ==> store[k].id != id) <==>
      h == Handled(store, Refusal(404, "Submission not found"))
    ensures h.reply.Reply? ==>
      && h.reply.status == 200 && h.reply.body.id == id
      && |h.store| == |store|
      && (exists k :: 0 <= k < |store| && store[k].id == id
            && h.store == store[k := Regrade(store[k], grade, feedback)]
            && h.reply.body == h.store[k])
    ensures UniqueKeys(store) ==> UniqueKeys(h.store)
  {
    match Seqs.IndexWhere(store, (s: Submission) => HasId(s, id))
    case None => Handled(store, Refusal(404, "Submission not found"))
    case Some(i) =>
      var rec := Regrade(store[i], grade, feedback);
      var out := store[i := rec];
      assert UniqueKeys(store) ==> UniqueKeys(out) by {
        if UniqueKeys(store) {
          RefreshKeepsUnique(store, i, rec);
        }
      }
      Handled(out, Reply(200, rec))
  }

  /** A resubmission after an admin grade replaces the admin's grade with the
      difficulty grade and clears the admin mark, but keeps the admin's feedback. */
  lemma ResubmissionOverridesAdminGrade(store: Store, students: seq<StudentModel.Student>, id: SubmissionId,
                                        grade: string, feedback: string, req: SubmissionRequest, now: int)
    requires UniqueKeys(store)
    requires GradeSubmission(store, id, Some(grade), Some(feedback)).reply.Reply?
    requires var g := GradeSubmission(store, id, Some(grade), Some(feedback)).reply.body;
      HasRequiredFields(req) && req.isCorrect && RequestKey(req) == KeyOf(g)
    ensures var graded := GradeSubmission(store, id, Some(grade), Some(feedback));
      var h := PostSubmission(graded.store, students, req, now);
      && h.reply.Reply? && h.reply.body.id == id
      && h.reply.body.grade == Some(ComputeGrade(req.difficulty))
      && !h.reply.body.isAdminGraded
      && h.reply.body.feedback == Some(feedback)
  {
    var graded := GradeSubmission(store, id, Some(grade), Some(feedback));
    var g := graded.reply.body;
    var h := PostSubmission(graded.store, students, req, now);
    var k :| 0 <= k < |store| && store[k].id == id
      && graded.store == store[k := Regrade(store[k], Some(grade), Some(feedback))]
      && g == graded.store[k];
    var i := Seqs.IndexWhere(graded.store, (s: Submission) => HasKey(s, RequestKey(req)));
    assert HasKey(graded.store[k], RequestKey(req));
    assert i.Some?;
    assert UniqueKeys(graded.store);
    assert i.value == k;
  }

  /** Submitting the same answer twice leaves one record, stamped with the later time. */
  lemma ResubmissionConverges(store: Store, students: seq<StudentModel.Student>, req: SubmissionRequest, t1: int, t2: int)
    requires UniqueKeys(store)
    requires HasRequiredFields(req) && req.isCorrect
    ensures var h1 := PostSubmission(store, students, req, t1);
      var h2 := PostSubmission(h1.store, students, req, t2);
      && |h2.store| == |h1.store|
      && h2.reply.Reply? && h2.reply.body.submittedAt == t2
      && h2.reply.body.id == h1.reply.body.id
      && (forall s :: s in h2.store && KeyOf(s) == RequestKey(req) ==> s == h2.reply.body)
  {
    var h1 := PostSubmission(store, students, req, t1);
    assert h1.reply.body in h1.store;
    var j :| 0 <= j < |h1.store| && h1.store[j] == h1.reply.body;
    assert KeyOf(h1.store[j]) == RequestKey(req);
    var h2 := PostSubmission(h1.store, students, req, t2);
    var k :| 0 <= k < |h1.store| && KeyOf(h1.store[k]) == RequestKey(req)
      && h2.reply.body.id == h1.store[k].id && h2.reply.body.feedback == h1.store[k].feedback;
    assert h1.store[k] in h1.store;
  }

  // ------------------------------------------- GET /api/students/:email/stats

  /** `.sort({ submittedAt: -1 })`: most recent first, ties kept in stored order. */
  function NewestFirst(a: Submission, b: Submission): bool {
    a.submittedAt >= b.submittedAt
  }

  lemma NewestFirstIsTotalPreorder()
    ensures Sorting.TotalPreorder(NewestFirst)
  {
  }

  /** The records newest first; a permutation of the input. */
  function ByRecency(subs: seq<Submission>): (r: seq<Submission>)
    ensures multiset(r) == multiset(subs)
    ensures forall s :: s in r <==> s in subs
    ensures forall i, j :: 0 <= i < j < |r| ==> r[i].submittedAt >= r[j].submittedAt
  {
    NewestFirstIsTotalPreorder();
    var r := Sorting.Sort(NewestFirst, subs);
    Sorting.PermutationMembers(r, subs);
    assert forall i, j :: 0 <= i < j < |r| ==> NewestFirst(r[i], r[j]);
    r
  }

  /** The correct answers one student has saved. */
  function SolvedBy(email: string): Submission -> bool {
    (s: Submission) => s.studentEmail == email && s.isCorrect
  }

  datatype Stats = Stats(solvedCount: nat, recentGrade: Option<string>, submissions: seq<Submission>)

  function StudentStats(store: Store, email: string): (r: Stats)
    ensures multiset(r.submissions) == multiset(Seqs.Filter(store, SolvedBy(email)))
    ensures forall s :: s in r.submissions <==> s in store && s.studentEmail == email && s.isCorrect
    ensures forall i, j :: 0 <= i < j < |r.submissions| ==> r.submissions[i].submittedAt >= r.submissions[j].submittedAt
    ensures r.solvedCount == |r.submissions| == |Seqs.Filter(store, SolvedBy(email))|
    ensures r.recentGrade.Some? <==> |r.submissions| > 0 && Truthy(r.submissions[0].grade)
    ensures r.recentGrade.Some? ==> r.recentGrade == r.submissions[0].grade
    ensures |r.submissions| > 0 ==>
      forall s :: s in store && s.studentEmail == email && s.isCorrect ==> r.submissions[0].submittedAt >= s.submittedAt
  {
    var subs := ByRecency(Seqs.Filter(store, SolvedBy(email)));
    var recent := if |subs| > 0 && Truthy(subs[0].grade) then subs[0].grade else None;
    assert |subs| > 0 ==> forall s :: s in subs ==> subs[0].submittedAt >= s.submittedAt by {
      if |subs| > 0 {
        forall s | s in subs
          ensures subs[0].submittedAt >= s.submittedAt
        {
          var j :| 0 <= j < |subs| && subs[j] == s;
        }
      }
    }
    Stats(|subs|, recent, subs)
  }

  // -------------------------------------------------------- GET /api/submissions

  function ListSubmissions(store: Store, studentEmail: Option<string>): (r: seq<Submission>)
    ensures Truthy(studentEmail) ==> forall s :: s in r <==> s in store && s.studentEmail == studentEmail.value
    ensures !Truthy(studentEmail) ==> multiset(r) == multiset(store)
    ensures forall i, j :: 0 <= i < j < |r| ==> r[i].submittedAt >= r[j].submittedAt
  {
    if Truthy(studentEmail) then
      ByRecency(Seqs.Filter(store, (s: Submission) => s.studentEmail == studentEmail.value))
    else ByRecency(store)
  }

  // ------------------------------------------------------ GET /api/stats/students

  datatype SolvedRow = SolvedRow(studentEmail: string, solvedCount: nat)

  /** `$sort: { solvedCount: -1, studentEmail: 1 }`. */
  function RowOrder(a: SolvedRow, b: SolvedRow): bool {
    a.solvedCount > b.solvedCount || (a.solvedCount == b.solvedCount && StrLe(a.studentEmail, b.studentEmail))
  }

  lemma RowOrderIsTotalPreorder()
    ensures Sorting.TotalPreorder(RowOrder)
  {
    forall a: SolvedRow, b: SolvedRow
      ensures RowOrder(a, b) || RowOrder(b, a)
    {
      StrLeTotal(a.studentEmail, b.studentEmail);
    }
    forall a: SolvedRow, b: SolvedRow, c: SolvedRow | RowOrder(a, b) && RowOrder(b, c)
      ensures RowOrder(a, c)
    {
      if a.solvedCount == b.solvedCount == c.solvedCount {
        StrLeTransitive(a.studentEmail, b.studentEmail, c.studentEmail);
      }
    }
  }

  /** The emails of the correct submissions, in stored order (`$match` then the
      `$group` key). */
  function CorrectEmails(store: Store): (r: seq<string>)
    ensures forall e :: e in r <==> exists s :: s in store && s.isCorrect && s.studentEmail == e
  {
    if |store| == 0 then []
    else
      assert forall s :: s in store <==> s == store[0] || s in store[1..] by {
        assert store == [store[0]] + store[1..];
      }
      (if store[0].isCorrect then [store[0].studentEmail] else []) + CorrectEmails(store[1..])
  }

  predicate Correct(s: Submission) {
    s.isCorrect
  }

  lemma {:induction false} CorrectEmailsLength(store: Store)
    ensures |CorrectEmails(store)| == |Seqs.Filter(store, Correct)|
  {
    if |store| > 0 {
      CorrectEmailsLength(store[1..]);
    }
  }

  /** How many times each email occurs is the number of that student's correct submissions. */
  lemma {:induction false} CorrectEmailsCount(store: Store, e: string)
    ensures multiset(CorrectEmails(store))[e] == |Seqs.Filter(store, SolvedBy(e))|
  {
    if |store| > 0 {
      CorrectEmailsCount(store[1..], e);
    }
  }

  function RowsOf(emails: seq<string>, counts: multiset<string>): (r: seq<SolvedRow>)
    ensures |r| == |emails|
    ensures forall k :: 0 <= k < |r| ==> r[k] == SolvedRow(emails[k], counts[emails[k]])
  {
    if |emails| == 0 then []
    else [SolvedRow(emails[0], counts[emails[0]])] + RowsOf(emails[1..], counts)
  }

  function SumCounts(rows: seq<SolvedRow>): nat {
    if |rows| == 0 then 0 else rows[0].solvedCount + SumCounts(rows[1..])
  }

  /** The `$group` stage: one row per distinct email, counting its correct submissions. */
  ghost predicate HasSolved(store: Store, e: string) {
    exists s :: s in store && s.isCorrect && s.studentEmail == e
  }

  ghost predicate HasRow(rows: seq<SolvedRow>, e: string) {
    exists k :: 0 <= k < |rows| && rows[k].studentEmail == e
  }

  function Group(store: Store): (rows: seq<SolvedRow>)
    ensures forall k :: 0 <= k < |rows| ==>
      rows[k].solvedCount == |Seqs.Filter(store, SolvedBy(rows[k].studentEmail))| && rows[k].solvedCount >= 1
    ensures forall i, j :: 0 <= i < j < |rows| ==> rows[i].studentEmail != rows[j].studentEmail
    ensures forall e :: HasSolved(store, e) <==> HasRow(rows, e)
    ensures SumCounts(rows) == |Seqs.Filter(store, Correct)|
  {
    var emails := CorrectEmails(store);
    var d := Seqs.Distinct(emails);
    var rows := RowsOf(d, multiset(emails));
    GroupCounts(store, emails, d, rows);
    GroupCovers(store, emails, d, rows);
    DistinctSum(emails);
    CorrectEmailsLength(store);
    rows
  }

  lemma GroupCounts(store: Store, emails: seq<string>, d: seq<string>, rows: seq<SolvedRow>)
    requires emails == CorrectEmails(store) && d == Seqs.Distinct(emails) && rows == RowsOf(d, multiset(emails))
    ensures forall k :: 0 <= k < |rows| ==>
      rows[k].solvedCount == |Seqs.Filter(store, SolvedBy(rows[k].studentEmail))| && rows[k].solvedCount >= 1
  {
    forall k | 0 <= k < |rows|
      ensures rows[k].solvedCount == |Seqs.Filter(store, SolvedBy(rows[k].studentEmail))| && rows[k].solvedCount >= 1
    {
      assert rows[k] == SolvedRow(d[k], multiset(emails)[d[k]]);
      CorrectEmailsCount(store, d[k]);
      assert d[k] in emails;
    }
  }

  lemma GroupCovers(store: Store, emails: seq<string>, d: seq<string>, rows: seq<SolvedRow>)
    requires emails == CorrectEmails(store) && d == Seqs.Distinct(emails) && rows == RowsOf(d, multiset(emails))
    ensures forall e :: HasSolved(store, e) <==> HasRow(rows, e)
  {
    forall e | HasSolved(store, e)
      ensures HasRow(rows, e)
    {
      assert e in emails;
      var k :| 0 <= k < |d| && d[k] == e;
      assert rows[k].studentEmail == e;
    }
    forall e | HasRow(rows, e)
      ensures HasSolved(store, e)
    {
      var k :| 0 <= k < |rows| && rows[k].studentEmail == e;
      assert d[k] == e && d[k] in d;
      assert e in emails;
    }
  }

  function SumOver(d: seq<string>, m: multiset<string>): nat {
    if |d| == 0 then 0 else m[d[0]] + SumOver(d[1..], m)
  }

  lemma {:induction false} SumOverRows(d: seq<string>, m: multiset<string>)
    ensures SumCounts(RowsOf(d, m)) == SumOver(d, m)
  {
    if |d| > 0 {
      SumOverRows(d[1..], m);
    }
  }

  lemma {:induction false} SumOverAdd(d: seq<string>, m: multiset<string>, x: string)
    requires forall i, j :: 0 <= i < j < |d| ==> d[i] != d[j]
    ensures SumOver(d, m + multiset{x}) == SumOver(d, m) + (if x in d then 1 else 0)
  {
    if |d| > 0 {
      assert forall i, j :: 0 <= i < j < |d[1..]| ==> d[1..][i] != d[1..][j] by {
        forall i, j | 0 <= i < j < |d[1..]|
          ensures d[1..][i] != d[1..][j]
        {
          assert d[1..][i] == d[i + 1] && d[1..][j] == d[j + 1];
        }
      }
      SumOverAdd(d[1..], m, x);
      assert x in d <==> x == d[0] || x in d[1..] by {
        assert d == [d[0]] + d[1..];
      }
      assert forall j :: 0 <= j < |d[1..]| ==> d[1..][j] == d[j + 1];
      assert d[0] !in d[1..];
    }
  }

  lemma {:induction false} SumOverAppend(d: seq<string>, x: string, m: multiset<string>)
    ensures SumOver(d + [x], m) == SumOver(d, m) + m[x]
  {
    if |d| == 0 {
      assert d + [x] == [x];
    } else {
      assert (d + [x])[1..] == d[1..] + [x];
      SumOverAppend(d[1..], x, m);
    }
  }

  lemma {:induction false} DistinctSum(emails: seq<string>)
    ensures SumCounts(RowsOf(Seqs.Distinct(emails), multiset(emails))) == |emails|
  {
    SumOverRows(Seqs.Distinct(emails), multiset(emails));
    DistinctSumOver(emails);
  }

  lemma {:induction false} DistinctSumOver(emails: seq<string>)
    ensures SumOver(Seqs.Distinct(emails), multiset(emails)) == |emails|
  {
    if |emails| > 0 {
      var n := |emails| - 1;
      var pre := emails[..n];
      var x := emails[n];
      assert emails == pre + [x];
      var d := Seqs.Distinct(pre);
      DistinctSumOver(pre);
      SumOverAdd(d, multiset(pre), x);
      assert multiset(emails) == multiset(pre) + multiset{x};
      if x !in d {
        SumOverAppend(d, x, multiset(emails));
        assert x !in pre;
      }
    }
  }

  lemma {:induction false} SumCountsInsert(x: SolvedRow, rows: seq<SolvedRow>)
    requires Sorting.TotalPreorder(RowOrder) && Sorting.Sorted(RowOrder, rows)
    ensures SumCounts(Sorting.Insert(RowOrder, x, rows)) == x.solvedCount + SumCounts(rows)
  {
    if |rows| > 0 && !RowOrder(x, rows[0]) {
      assert Sorting.Sorted(RowOrder, rows[1..]);
      SumCountsInsert(x, rows[1..]);
    }
  }

  lemma {:induction false} SumCountsSort(rows: seq<SolvedRow>)
    requires Sorting.TotalPreorder(RowOrder)
    ensures SumCounts(Sorting.Sort(RowOrder, rows)) == SumCounts(rows)
  {
    if |rows| > 0 {
      SumCountsSort(rows[1..]);
      SumCountsInsert(rows[0], Sorting.Sort(RowOrder, rows[1..]));
    }
  }

  function EmailOfRow(r: SolvedRow): string {
    r.studentEmail
  }

  /** A permutation of rows with distinct emails has distinct emails. */
  lemma DistinctEmailsPermutation(a: seq<SolvedRow>, b: seq<SolvedRow>)
    requires multiset(a) == multiset(b)
    requires forall i, j :: 0 <= i < j < |a| ==> a[i].studentEmail != a[j].studentEmail
    ensures forall i, j :: 0 <= i < j < |b| ==> b[i].studentEmail != b[j].studentEmail
  {
    assert Seqs.KeysDistinct(a, EmailOfRow);
    Seqs.KeysDistinctPermutation(a, b, EmailOfRow);
  }

  /** Reordering the grouped rows keeps what each row says and which students appear. */
  lemma PermutedRows(store: Store, grouped: seq<SolvedRow>, rows: seq<SolvedRow>)
    requires multiset(rows) == multiset(grouped)
    requires forall k :: 0 <= k < |grouped| ==>
      grouped[k].solvedCount == |Seqs.Filter(store, SolvedBy(grouped[k].studentEmail))| && grouped[k].solvedCount >= 1
    requires forall e :: HasSolved(store, e) <==> HasRow(grouped, e)
    ensures forall k :: 0 <= k < |rows| ==>
      rows[k].solvedCount == |Seqs.Filter(store, SolvedBy(rows[k].studentEmail))| && rows[k].solvedCount >= 1
    ensures forall e :: HasSolved(store, e) <==> HasRow(rows, e)
  {
    Sorting.PermutationMembers(rows, grouped);
    forall e ensures HasSolved(store, e) <==> HasRow(rows, e)
    {
      if HasRow(rows, e) {
        var k :| 0 <= k < |rows| && rows[k].studentEmail == e;
        assert rows[k] in grouped;
      }
      if HasRow(grouped, e) {
        var k :| 0 <= k < |grouped| && grouped[k].studentEmail == e;
        assert grouped[k] in rows;
      }
    }
    forall k | 0 <= k < |rows|
      ensures rows[k].solvedCount == |Seqs.Filter(store, SolvedBy(rows[k].studentEmail))| && rows[k].solvedCount >= 1
    {
      assert rows[k] in grouped;
    }
  }

  /** The per-student aggregate: one row per student with a correct submission, most
      solved first, ties by email. */
  function SolvedPerStudent(store: Store): (rows: seq<SolvedRow>)
    ensures forall i, j :: 0 <= i < j < |rows| ==> RowOrder(rows[i], rows[j])
    ensures forall k :: 0 <= k < |rows| ==>
      rows[k].solvedCount == |Seqs.Filter(store, SolvedBy(rows[k].studentEmail))| && rows[k].solvedCount >= 1
    ensures forall i, j :: 0 <= i < j < |rows| ==> rows[i].studentEmail != rows[j].studentEmail
    ensures forall e :: HasSolved(store, e) <==> HasRow(rows, e)
    ensures SumCounts(rows) == |Seqs.Filter(store, Correct)|
  {
    var grouped := Group(store);
    RowOrderIsTotalPreorder();
    var rows := Sorting.Sort(RowOrder, grouped);
    DistinctEmailsPermutation(grouped, rows);
    SumCountsSort(grouped);
    PermutedRows(store, grouped, rows);
    rows
  }

  /** The aggregate and a student's own statistics agree on the solved count. */
  lemma AggregateAgreesWithStats(store: Store, k: nat)
    requires k < |SolvedPerStudent(store)|
    ensures var row := SolvedPerStudent(store)[k];
      row.solvedCount == StudentStats(store, row.studentEmail).solvedCount
  {
  }

  // ---------------------------------------------------------------- the deletes

  /** `DELETE /api/submissions`: the collection is emptied. */
  function DeleteAll(store: Store): (h: Handled<nat>)
    ensures h.store == [] && h.reply == Reply(200, |store|)
  {
    Handled([], Reply(200, |store|))
  }

  function OwnedBy(email: string): Submission -> bool {
    (s: Submission) => s.studentEmail == email
  }

  function NotOwnedBy(email: string): Submission -> bool {
    (s: Submission) => s.studentEmail != email
  }

  /** `DELETE /api/submissions/by-student`: removes every record of one student and
      reports how many went. */
  function DeleteByStudent(store: Store, studentEmail: Option<string>): (h: Handled<nat>)
    ensures !Truthy(studentEmail) <==> h == Handled(store, Refusal(400, "studentEmail is required"))
    ensures Truthy(studentEmail) ==>
      && (forall s :: s in h.store <==> s in store && s.studentEmail != studentEmail.value)
      && h.reply == Reply(200, |Seqs.Filter(store, OwnedBy(studentEmail.value))|)
      && |h.store| + h.reply.body == |store|
  {
    if !Truthy(studentEmail) then Handled(store, Refusal(400, "studentEmail is required"))
    else
      var e := studentEmail.value;
      var kept := Seqs.Filter(store, NotOwnedBy(e));
      Seqs.FilterPartition(store, OwnedBy(e), NotOwnedBy(e));
      Handled(kept, Reply(200, |store| - |kept|))
  }

  datatype Removal = Removal(students: seq<StudentModel.Student>, store: Store, reply: Reply<(nat, nat)>)

  /** `Student.deleteOne({ email })`: drops the first student with the email and
      reports whether one was found. */
  function DeleteOneStudent(students: seq<StudentModel.Student>, e: string): (r: (seq<StudentModel.Student>, nat))
    ensures r.1 == |students| - |r.0| <= 1
    ensures r.1 == 1 <==> exists k :: 0 <= k < |students| && students[k].email == e
    ensures forall st :: st in r.0 ==> st in students
    ensures StudentModel.UniqueKeys(students) ==> forall st :: st in r.0 ==> st.email != e
  {
    match Seqs.IndexWhere(students, (st: StudentModel.Student) => st.email == e)
    case None => (students, 0)
    case Some(i) =>
      var rest := students[..i] + students[i + 1..];
      assert forall k :: 0 <= k < |rest| ==> rest[k] == if k < i then students[k] else students[k + 1];
      assert StudentModel.UniqueKeys(students) ==> forall k :: 0 <= k < |rest| ==> rest[k].email != e;
      (rest, 1)
  }

  /** `DELETE /api/students/by-email`: the email comes from the query string, else the
      body; one student document with it is removed along with all of its
      submissions. The reply carries both counts. */
  function DeleteStudentByEmail(students: seq<StudentModel.Student>, store: Store,
                                queryEmail: Option<string>, bodyEmail: Option<string>): (r: Removal)
    ensures !Truthy(queryEmail) && !Truthy(bodyEmail) <==>
      r == Removal(students, store, Refusal(400, "email is required"))
    ensures r.reply.Reply? ==>
      var e := if Truthy(queryEmail) then queryEmail.value else bodyEmail.value;
      && r.reply.status == 200
      && (forall s :: s in r.store <==> s in store && s.studentEmail != e)
      && r.reply.body.1 + |r.store| == |store|
      && (r.students, r.reply.body.0) == DeleteOneStudent(students, e)
  {
    if !Truthy(queryEmail) && !Truthy(bodyEmail) then Removal(students, store, Refusal(400, "email is required"))
    else
      var e := if Truthy(queryEmail) then queryEmail.value else bodyEmail.value;
      var kept := Seqs.Filter(store, NotOwnedBy(e));
      Seqs.FilterPartition(store, OwnedBy(e), NotOwnedBy(e));
      var (rest, n) := DeleteOneStudent(students, e);
      Removal(rest, kept, Reply(200, (n, |store| - |kept|)))
  }

  // ------------------------------------------------------------------ a scenario

  /** A student solves an easy question, the difficulty grade is B+; an admin then
      grades it 95 and the stored record shows 95 and the admin mark. */
  lemma EasyAnswerThenAdminGrade(now: int, later: int)
    ensures var req := SubmissionRequest(Some("s@x.io"), Some("q1"), Some("Sum"), None, Some("f()"), None, true, Some("Easy"));
      var h1 := PostSubmission([], [], req, now);
      && h1.reply.Reply? && h1.reply.body.grade == Some("B+") && h1.reply.body.language == "JavaScript"
      && var h2 := GradeSubmission(h1.store, h1.reply.body.id, Some("95"), None);
      && h2.reply.Reply? && h2.reply.body.grade == Some("95") && h2.reply.body.isAdminGraded
      && h2.store == [h2.reply.body]
      && StudentStats(h2.store, "s@x.io").recentGrade == Some("95")
  {
    var req := SubmissionRequest(Some("s@x.io"), Some("q1"), Some("Sum"), None, Some("f()"), None, true, Some("Easy"));
    assert ToLower("Easy") == "easy";
    var h1 := PostSubmission([], [], req, now);
    assert |h1.store| == 1 && h1.store[0] == h1.reply.body;
    var h2 := GradeSubmission(h1.store, h1.reply.body.id, Some("95"), None);
    assert h2.store == [h2.reply.body];
    var stats := StudentStats(h2.store, "s@x.io");
    assert Seqs.Filter(h2.store, SolvedBy("s@x.io")) == h2.store;
    assert |stats.submissions| == 1;
    assert stats.submissions[0] in h2.store;
  }
}
