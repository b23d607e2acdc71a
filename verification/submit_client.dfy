/** The editor's run and submit flow (frontend/src/SolutionPage.js): the gate that
    allows a submission only after a successful run, the ordered endpoint
    candidates tried until one accepts, and the offline fallback that prepends a
    local record.

    The network is an oracle: `Fetch` answers the k-th attempt at a URL.
    Browser storage is passed in and returned as a value. */
module SubmitClient {
  import opened Wrappers
  import opened Text
  import opened Http
  import Seqs
  import Grader

  // ------------------------------------------------------------ editor state

  /** What the output panel shows, by kind. */
  datatype Shown =
    | Blank
    | EmptyCodeNotice
    | RunResult(verdict: Grader.Verdict)
    | SubmitNotice(notice: Notice)

  datatype Notice =
    | RunFirst
    | LoginFirst
    | Submitted(grade: string)
    | SavedOffline
    | SubmitFailed(tried: seq<string>)

  datatype EditorState = EditorState(
    code: string,
    output: Shown,
    hasSubmitted: bool,
    lastRunSuccess: bool,
    isSubmitting: bool)

  /** Typing in the editor: the new code, and both the run and the submission
      flags cleared. */
  function Edit(st: EditorState, code: string): (r: EditorState)
    ensures r.code == code && !r.hasSubmitted && !r.lastRunSuccess
    ensures r.output == st.output && r.isSubmitting == st.isSubmitting
  {
    st.(code := code, hasSubmitted := false, lastRunSuccess := false)
  }

  const StarterCode := "function solution() {\n// Write your solution here\n}"

  /** The reset button: starter code and a blank panel; the run and submission
      flags are left as they were. */
  function ResetCode(st: EditorState): (r: EditorState)
    ensures r.code == StarterCode && r.output == Blank
    ensures r.hasSubmitted == st.hasSubmitted && r.lastRunSuccess == st.lastRunSuccess
    ensures r.isSubmitting == st.isSubmitting
  {
    st.(code := StarterCode, output := Blank)
  }

  /** What the code validator needs besides the code. */
  datatype GradingContext = GradingContext(
    question: Grader.QuestionView, propExpected: Option<string>, ev: Grader.Oracle)

  /** `runCode`: blank code fails at once; otherwise the validator's verdict decides
      and is remembered as the last run's success. */
  function RunCode(st: EditorState, g: GradingContext): (r: (EditorState, bool))
    ensures AllSpace(st.code) ==> r == (st.(output := EmptyCodeNotice, lastRunSuccess := false), false)
    ensures !AllSpace(st.code) ==>
      var v := Grader.Validate(g.question, g.propExpected, st.code, g.ev);
      r == (st.(output := RunResult(v), lastRunSuccess := v.success), v.success)
    ensures r.0.lastRunSuccess == r.1
    ensures r.0.code == st.code && r.0.hasSubmitted == st.hasSubmitted
  {
    if Trim(st.code) == "" then (st.(output := EmptyCodeNotice, lastRunSuccess := false), false)
    else
      var v := Grader.Validate(g.question, g.propExpected, st.code, g.ev);
      (st.(output := RunResult(v), lastRunSuccess := v.success), v.success)
  }

  /** A run can succeed only if the code validator accepts the code. */
  lemma RunSucceedsOnlyIfAccepted(st: EditorState, g: GradingContext)
    ensures RunCode(st, g).1 ==> !AllSpace(st.code) && Grader.Validate(g.question, g.propExpected, st.code, g.ev).success
  {
  }

  // ------------------------------------------------------------ endpoints

  const LocalhostBase := "http://localhost:5000"
  const LoopbackBase := "http://127.0.0.1:5000"
  const ApiPath := "/api/submissions"
  const PlainPath := "/submissions"

  predicate NonEmpty(s: string) { s != "" }

  /** The bases: the configured one, the two local servers, the page's origin,
      with the empty ones dropped (`filter(Boolean)` over a fixed list of four). */
  function Bases(configured: string, origin: string): (r: seq<string>)
    ensures forall x :: x in r <==> x in [configured, LocalhostBase, LoopbackBase, origin] && x != ""
    ensures |r| == 2 + (if configured != "" then 1 else 0) + (if origin != "" then 1 else 0)
    ensures configured != "" ==> r[0] == configured
    ensures origin != "" ==> r[|r| - 1] == origin
  {
    (if configured != "" then [configured] else []) + [LocalhostBase, LoopbackBase] + (if origin != "" then [origin] else [])
  }

  /** Each base followed by the two paths. */
  function BasePaths(bases: seq<string>): (r: seq<string>)
    ensures |r| == 2 * |bases|
    ensures forall k :: 0 <= k < |bases| ==> r[2 * k] == bases[k] + ApiPath && r[2 * k + 1] == bases[k] + PlainPath
  {
    if |bases| == 0 then [] else [bases[0] + ApiPath, bases[0] + PlainPath] + BasePaths(bases[1..])
  }

  /** The candidate URLs in the order they are tried. */
  function Endpoints(configured: string, origin: string): (r: seq<string>)
    ensures |r| >= 4 && r[..4] == [origin + ApiPath, origin + PlainPath, ApiPath, PlainPath]
    ensures var b := Bases(configured, origin);
      && |r| == 4 + 2 * |b|
      && forall k :: 0 <= k < |b| ==> r[4 + 2 * k] == b[k] + ApiPath && r[4 + 2 * k + 1] == b[k] + PlainPath
  {
    [origin + ApiPath, origin + PlainPath, ApiPath, PlainPath] + BasePaths(Bases(configured, origin))
  }

  /** With nothing configured and no origin, eight URLs are tried. */
  lemma EndpointsWithoutOrigin()
    ensures |Endpoints("", "")| == 8
    ensures Endpoints("", "")[4] == LocalhostBase + ApiPath
  {
  }

  // ------------------------------------------------------------ posting

  datatype SubmitReply = SubmitReply(grade: Option<string>)

  /** One attempt: a reply with a status and, when the body parsed, its content;
      or a network failure. */
  datatype FetchResult = Answered(status: int, body: Option<SubmitReply>) | Unreachable

  type Fetch = (nat, string) -> FetchResult

  /** An attempt that ends the loop: an ok status whose body could be read. */
  predicate Accepted(r: FetchResult) {
    r.Answered? && IsOkStatus(r.status) && r.body.Some?
  }

  /** The first attempt, from `from` on, that is accepted. */
  function FirstAccepted(urls: seq<string>, fetch: Fetch, from: nat): (r: Option<nat>)
    requires from <= |urls|
    ensures r.Some? ==>
      && from <= r.value < |urls| && Accepted(fetch(r.value, urls[r.value]))
      && forall k :: from <= k < r.value ==> !Accepted(fetch(k, urls[k]))
    ensures r.None? <==> forall k :: from <= k < |urls| ==> !Accepted(fetch(k, urls[k]))
    decreases |urls| - from
  {
    if from == |urls| then None
    else if Accepted(fetch(from, urls[from])) then Some(from)
    else FirstAccepted(urls, fetch, from + 1)
  }

  /** The URLs attempted: up to and including the accepting one, or all. */
  function Tried(urls: seq<string>, hit: Option<nat>): seq<string>
    requires hit.Some? ==> hit.value < |urls|
  {
    if hit.Some? then urls[..hit.value + 1] else urls
  }

  /** The submit loop: try each URL in order and stop at the first accepted one. */
  method TryEndpoints(urls: seq<string>, fetch: Fetch) returns (hit: Option<nat>, tried: seq<string>)
    ensures hit == FirstAccepted(urls, fetch, 0)
    ensures hit.Some? ==> hit.value < |urls| && tried == urls[..hit.value + 1]
    ensures hit.None? ==> tried == urls
  {
    hit := None;
    tried := [];
    var i := 0;
    while i < |urls|
      invariant 0 <= i <= |urls|
      invariant tried == urls[..i]
      invariant FirstAccepted(urls, fetch, 0) == FirstAccepted(urls, fetch, i)
    {
      tried := tried + [urls[i]];
      if Accepted(fetch(i, urls[i])) {
        hit := Some(i);
        return;
      }
      i := i + 1;
    }
  }

  // ------------------------------------------------------------ submitting

  /** The question fields a submission carries. */
  datatype SubmitQuestion = SubmitQuestion(
    id: Option<string>, title: Option<string>, language: Option<string>, difficulty: Option<string>)

  /** The browser's side of the page: the logged-in email given to the page,
      what storage holds, the configured base and the page's origin. */
  datatype Browser = Browser(
    studentEmail: Option<string>,
    storedEmail: Option<string>,
    storedId: Option<string>,
    configuredBase: Option<string>,
    origin: string)

  /** `(studentEmail && studentEmail.trim()) || storedEmail || ''`. */
  function EmailToUse(b: Browser): (r: string)
    ensures Truthy(b.studentEmail) && !AllSpace(b.studentEmail.value) ==> r == Trim(b.studentEmail.value)
    ensures !(Truthy(b.studentEmail) && !AllSpace(b.studentEmail.value)) ==> r == Or(b.storedEmail, "")
  {
    if Truthy(b.studentEmail) && Trim(b.studentEmail.value) != "" then Trim(b.studentEmail.value)
    else Or(b.storedEmail, "")
  }

  /** The record posted to the server. */
  datatype Payload = Payload(
    studentEmail: string,
    studentId: Option<string>,
    questionId: Option<string>,
    questionTitle: Option<string>,
    language: string,
    code: string,
    output: Shown,
    isCorrect: bool,
    difficulty: Option<string>)

  /** A submission kept in browser storage while no server accepts it. */
  datatype LocalRecord = LocalRecord(
    localId: string,
    studentEmail: string,
    questionId: Option<string>,
    questionTitle: Option<string>,
    language: string,
    code: string,
    output: Shown,
    isCorrect: bool,
    grade: Option<string>,
    submittedAt: int)

  function LanguageOf(q: SubmitQuestion): string {
    Or(q.language, "JavaScript")
  }

  function MakePayload(st: EditorState, b: Browser, q: SubmitQuestion, email: string): (p: Payload)
    ensures p.studentEmail == email && p.isCorrect && p.code == st.code && p.output == st.output
    ensures p.studentId == (if Truthy(b.storedId) then b.storedId else None)
    ensures p.language == (if Truthy(q.language) then q.language.value else "JavaScript")
  {
    Payload(email, if Truthy(b.storedId) then b.storedId else None, q.id, q.title, LanguageOf(q),
            st.code, st.output, true, q.difficulty)
  }

  /** Everything the submit step needs from outside the page. */
  datatype World = World(
    browser: Browser,
    local: seq<LocalRecord>,
    storageWorks: bool,
    fetch: Fetch,
    localId: string,
    now: int)

  datatype SubmitOutcome = SubmitOutcome(
    state: EditorState,
    local: seq<LocalRecord>,
    posted: Option<Payload>,
    tried: seq<string>)

  /** The grade shown after a server accepted: `grade || 'A'`. */
  function ShownGrade(r: FetchResult): string
    requires Accepted(r)
  {
    Or(r.body.value.grade, "A")
  }

  /** The submit button is enabled again once the click is handled. */
  function Idle(o: SubmitOutcome): (r: SubmitOutcome)
    ensures !r.state.isSubmitting && r.local == o.local && r.posted == o.posted && r.tried == o.tried
    ensures r.state.code == o.state.code && r.state.hasSubmitted == o.state.hasSubmitted
    ensures r.state.output == o.state.output && r.state.lastRunSuccess == o.state.lastRunSuccess
  {
    o.(state := o.state.(isSubmitting := false))
  }

  /** `submitSolution`, where `gate` is the last-run flag the call reads. */
  function SubmitSolution(st: EditorState, gate: bool, q: SubmitQuestion, w: World): (o: SubmitOutcome)
    ensures !gate ==> o == SubmitOutcome(st.(output := SubmitNotice(RunFirst)), w.local, None, [])
    ensures gate && EmailToUse(w.browser) == "" ==>
      o == SubmitOutcome(st.(output := SubmitNotice(LoginFirst)), w.local, None, [])
    ensures gate && EmailToUse(w.browser) != "" ==>
      var urls := Endpoints(Or(w.browser.configuredBase, ""), w.browser.origin);
      var hit := FirstAccepted(urls, w.fetch, 0);
      && o.posted == Some(MakePayload(st, w.browser, q, EmailToUse(w.browser)))
      && o.tried == Tried(urls, hit)
      && (hit.Some? ==>
            && o.local == w.local && o.state.hasSubmitted
            && o.state.output == SubmitNotice(Submitted(ShownGrade(w.fetch(hit.value, urls[hit.value])))))
      && (hit.None? && w.storageWorks ==>
            && |o.local| == |w.local| + 1 && o.local[1..] == w.local
            && o.local[0].isCorrect && o.local[0].grade == None
            && o.local[0].studentEmail == EmailToUse(w.browser) && o.local[0].code == st.code
            && o.state.hasSubmitted && o.state.output == SubmitNotice(SavedOffline))
      && (hit.None? && !w.storageWorks ==>
            o.local == w.local && o.state == st.(output := SubmitNotice(SubmitFailed(urls))))
    ensures o.state.code == st.code && o.state.lastRunSuccess == st.lastRunSuccess
    ensures o.state.isSubmitting == st.isSubmitting
    ensures o.posted.None? ==> o.tried == []
  {
    if !gate then SubmitOutcome(st.(output := SubmitNotice(RunFirst)), w.local, None, [])
    else
      var email := EmailToUse(w.browser);
      if email == "" then SubmitOutcome(st.(output := SubmitNotice(LoginFirst)), w.local, None, [])
      else
        var payload := MakePayload(st, w.browser, q, email);
        var urls := Endpoints(Or(w.browser.configuredBase, ""), w.browser.origin);
        var hit := FirstAccepted(urls, w.fetch, 0);
        match hit
        case Some(k) =>
          var grade := ShownGrade(w.fetch(k, urls[k]));
          SubmitOutcome(st.(hasSubmitted := true, output := SubmitNotice(Submitted(grade))), w.local,
                        Some(payload), urls[..k + 1])
        case None =>
          if w.storageWorks then
            var rec := LocalRecord(w.localId, email, q.id, q.title, LanguageOf(q), st.code, st.output,
                                   true, None, w.now);
            SubmitOutcome(st.(hasSubmitted := true, output := SubmitNotice(SavedOffline)), [rec] + w.local,
                          Some(payload), urls)
          else
            SubmitOutcome(st.(output := SubmitNotice(SubmitFailed(urls))), w.local, Some(payload), urls)
  }

  /** Offline, exactly one record is added, in front, and the rest are kept. */
  lemma OfflineAddsOneRecord(st: EditorState, q: SubmitQuestion, w: World)
    requires w.storageWorks && EmailToUse(w.browser) != ""
    requires forall k :: 0 <= k < |Endpoints(Or(w.browser.configuredBase, ""), w.browser.origin)| ==>
      !Accepted(w.fetch(k, Endpoints(Or(w.browser.configuredBase, ""), w.browser.origin)[k]))
    ensures var o := SubmitSolution(st, true, q, w);
      && multiset(o.local) == multiset(w.local) + multiset{o.local[0]}
      && o.state.hasSubmitted
  {
    var o := SubmitSolution(st, true, q, w);
    assert o.local == [o.local[0]] + w.local;
  }

  // ------------------------------------------------------------ the submit button

  /** `handleSubmitClick` as written: it runs the code when the last run did not
      succeed, but then calls the submit step it captured before the run, which
      still reads the old last-run flag. */
  function SubmitClickAsWritten(st: EditorState, g: GradingContext, q: SubmitQuestion, w: World): (o: SubmitOutcome)
    ensures st.isSubmitting ==> o == SubmitOutcome(st, w.local, None, [])
    ensures !st.isSubmitting && !st.lastRunSuccess ==> o.posted.None? && o.local == w.local
    ensures !st.isSubmitting && st.lastRunSuccess ==> o == Idle(SubmitSolution(st.(isSubmitting := true), true, q, w))
  {
    if st.isSubmitting then SubmitOutcome(st, w.local, None, [])
    else
      var busy := st.(isSubmitting := true);
      if busy.lastRunSuccess then
        Idle(SubmitSolution(busy, true, q, w))
      else
        var (ran, ok) := RunCode(busy, g);
        if !ok then SubmitOutcome(ran.(isSubmitting := false), w.local, None, [])
        else
          Idle(SubmitSolution(ran, busy.lastRunSuccess, q, w))
  }

  /** The click as intended: the submit step reads the result of the run the
      click made. */
  function SubmitClick(st: EditorState, g: GradingContext, q: SubmitQuestion, w: World): (o: SubmitOutcome)
    ensures st.isSubmitting ==> o == SubmitOutcome(st, w.local, None, [])
    ensures !st.isSubmitting ==> o.state.isSubmitting == false
    ensures !st.isSubmitting ==>
      var gate := st.lastRunSuccess || RunCode(st, g).1;
      (o.posted.Some? <==> gate && EmailToUse(w.browser) != "")
  {
    if st.isSubmitting then SubmitOutcome(st, w.local, None, [])
    else
      var busy := st.(isSubmitting := true);
      if busy.lastRunSuccess then
        Idle(SubmitSolution(busy, true, q, w))
      else
        var (ran, ok) := RunCode(busy, g);
        if !ok then SubmitOutcome(ran.(isSubmitting := false), w.local, None, [])
        else
          Idle(SubmitSolution(ran, ran.lastRunSuccess, q, w))
  }

  /** As written, a click after an edit can never post, even when the run it makes
      succeeds; as intended, it posts whenever that run succeeds and an email is
      known. */
  lemma StaleRunFlag(st: EditorState, g: GradingContext, q: SubmitQuestion, w: World)
    requires !st.isSubmitting && !st.lastRunSuccess && RunCode(st, g).1
    requires EmailToUse(w.browser) != ""
    ensures SubmitClickAsWritten(st, g, q, w).posted.None?
    ensures SubmitClickAsWritten(st, g, q, w).state.output == SubmitNotice(RunFirst)
    ensures SubmitClick(st, g, q, w).posted.Some?
  {
    assert RunCode(st.(isSubmitting := true), g).1;
  }

  /** Either way, a click never posts code that has not passed a run. */
  lemma ClickPostsOnlyAfterSuccess(st: EditorState, g: GradingContext, q: SubmitQuestion, w: World)
    requires SubmitClick(st, g, q, w).posted.Some?
    ensures st.lastRunSuccess || Grader.Validate(g.question, g.propExpected, st.code, g.ev).success
  {
    if !st.lastRunSuccess {
      RunSucceedsOnlyIfAccepted(st.(isSubmitting := true), g);
    }
  }
}
