/** The admin dashboard (frontend/src/AdminDashboard.jsx): the user and
    submission counters, the question list's source and its edit, create and
    delete updates. */
module AdminDashboard {
  import opened Wrappers
  import opened Text
  import opened Entries
  import Seqs
  import Ledger
  import SubmissionModel
  import QuestionModel

  type Question = QuestionModel.Question

  // ---------------------------------------------------------------- users

  /** The submissions counted: the server's list (when it answered with an
      array) followed by the stored records. */
  function Subs(remote: Option<seq<SubmissionModel.Submission>>, local: seq<Entry>): (r: seq<Entry>)
    ensures remote.None? ==> r == local
    ensures remote.Some? ==> |r| == |remote.value| + |local| && r[|remote.value|..] == local
    ensures remote.Some? ==> forall k :: 0 <= k < |remote.value| ==> r[k] == FromServer(remote.value[k])
  {
    match remote
    case None => local
    case Some(docs) => EntriesOf(docs) + local
  }

  /** A `studentEmail` that is a string with something left after trim. */
  predicate CountedEmail(e: Entry) {
    e.studentEmail.Some? && !AllSpace(e.studentEmail.value)
  }

  /** The emails kept by the map and filter, in list order. */
  function EmailList(subs: seq<Entry>): (r: seq<string>)
    ensures forall x :: x in r <==> exists k :: 0 <= k < |subs| && CountedEmail(subs[k]) && subs[k].studentEmail == Some(x)
  {
    if |subs| == 0 then []
    else
      var rest := EmailList(subs[1..]);
      assert forall x :: (exists k :: 0 <= k < |subs[1..]| && CountedEmail(subs[1..][k]) && subs[1..][k].studentEmail == Some(x)) <==>
                         (exists k :: 1 <= k < |subs| && CountedEmail(subs[k]) && subs[k].studentEmail == Some(x)) by {
        forall x, k | 1 <= k < |subs| && CountedEmail(subs[k]) && subs[k].studentEmail == Some(x)
          ensures 0 <= k - 1 < |subs[1..]| && subs[1..][k - 1] == subs[k]
        {
        }
      }
      if CountedEmail(subs[0]) then [subs[0].studentEmail.value] + rest else rest
  }

  /** `usersSet`: the distinct counted emails. */
  function EmailSet(subs: seq<Entry>): (r: set<string>)
    ensures forall x :: x in r <==> exists k :: 0 <= k < |subs| && CountedEmail(subs[k]) && subs[k].studentEmail == Some(x)
  {
    set x | x in EmailList(subs)
  }

  /** A sequence without repeats has as many elements as its set. */
  lemma {:induction false} CardOfDistinct<T>(s: seq<T>)
    requires forall i, j :: 0 <= i < j < |s| ==> s[i] != s[j]
    ensures |set x | x in s| == |s|
  {
    if |s| > 0 {
      var t := s[1..];
      forall i, j | 0 <= i < j < |t|
        ensures t[i] != t[j]
      {
        assert t[i] == s[i + 1] && t[j] == s[j + 1];
      }
      CardOfDistinct(t);
      assert (set x | x in s) == {s[0]} + (set x | x in t) by {
        assert s == [s[0]] + t;
      }
      assert s[0] !in t;
    }
  }

  /** The user count is the number of different counted emails. */
  lemma UserCountIsDistinctEmails(subs: seq<Entry>)
    ensures |EmailSet(subs)| == |Seqs.Distinct(EmailList(subs))|
  {
    var d := Seqs.Distinct(EmailList(subs));
    CardOfDistinct(d);
    assert (set x | x in d) == EmailSet(subs);
  }

  /** The count does not depend on which list an email came from. */
  lemma EmailSetOfConcat(a: seq<Entry>, b: seq<Entry>)
    ensures EmailSet(a + b) == EmailSet(a) + EmailSet(b)
  {
    forall x | x in EmailSet(a + b)
      ensures x in EmailSet(a) + EmailSet(b)
    {
      var k :| 0 <= k < |a + b| && CountedEmail((a + b)[k]) && (a + b)[k].studentEmail == Some(x);
      if k >= |a| {
        assert (a + b)[k] == b[k - |a|];
      }
    }
    forall x | x in EmailSet(b)
      ensures x in EmailSet(a + b)
    {
      var k :| 0 <= k < |b| && CountedEmail(b[k]) && b[k].studentEmail == Some(x);
      assert (a + b)[|a| + k] == b[k];
    }
    forall x | x in EmailSet(a)
      ensures x in EmailSet(a + b)
    {
      var k :| 0 <= k < |a| && CountedEmail(a[k]) && a[k].studentEmail == Some(x);
      assert (a + b)[k] == a[k];
    }
  }

  /** The truthy emails of the per-student aggregate. */
  function AggregateEmails(rows: seq<Ledger.SolvedRow>): (r: set<string>)
    ensures forall x :: x in r <==> x != "" && exists k :: 0 <= k < |rows| && rows[k].studentEmail == x
  {
    set k | 0 <= k < |rows| && rows[k].studentEmail != "" :: rows[k].studentEmail
  }

  /** The set after the fallback: the aggregate is read only when no submission
      gave an email, and then its truthy emails (untrimmed) are added. */
  function Users(subs: seq<Entry>, aggregate: Option<seq<Ledger.SolvedRow>>): (r: set<string>)
    ensures EmailSet(subs) != {} ==> r == EmailSet(subs)
    ensures EmailSet(subs) == {} && aggregate.Some? ==> r == AggregateEmails(aggregate.value)
    ensures EmailSet(subs) == {} && aggregate.None? ==> r == {}
  {
    var found := EmailSet(subs);
    if found == {} && aggregate.Some? then found + AggregateEmails(aggregate.value) else found
  }

  /** Whatever the aggregate holds, it is ignored once a submission gave an email. */
  lemma FallbackOnlyWhenEmpty(subs: seq<Entry>, a1: Option<seq<Ledger.SolvedRow>>, a2: Option<seq<Ledger.SolvedRow>>)
    requires exists k :: 0 <= k < |subs| && CountedEmail(subs[k])
    ensures Users(subs, a1) == Users(subs, a2)
  {
    var k :| 0 <= k < |subs| && CountedEmail(subs[k]);
    assert subs[k].studentEmail.value in EmailSet(subs);
  }

  // ---------------------------------------------------------------- counters

  datatype Counters = Counters(usersCount: nat, submissionsCount: nat)

  /** How the `/stats/students` fallback went: an array of rows; an answer that
      was not ok or not an array; or a throw from `fetch` or `json()`, which
      skips the rest of the `try` block, the count update included. */
  datatype AggregateReply = Rows(rows: seq<Ledger.SolvedRow>) | NoRows | Threw

  function AggregateRows(a: AggregateReply): (r: Option<seq<Ledger.SolvedRow>>)
    ensures r.Some? <==> a.Rows?
    ensures a.Rows? ==> r.value == a.rows
  {
    if a.Rows? then Some(a.rows) else None
  }

  /** The fallback is requested only when no submission gave an email, and only
      then can its throw skip the count update. */
  predicate FallbackThrew(subs: seq<Entry>, aggregate: AggregateReply) {
    EmailSet(subs) == {} && aggregate.Threw?
  }

  /** The mount effect. The backend count is set first when it is a number; the
      `!usersCount` test reads the first render's 0, so the set is always built,
      and the functional update `c || usersSet.size` keeps a non-zero count. A
      throw in the fallback skips that update, which leaves the same count: the
      backend's, or 0. */
  function InitialLoad(backendCount: Option<nat>, remote: Option<seq<SubmissionModel.Submission>>,
                       local: seq<Entry>, aggregate: AggregateReply): (c: Counters)
    ensures backendCount.Some? && backendCount.value != 0 ==> c.usersCount == backendCount.value
    ensures backendCount.None? || backendCount.value == 0 ==>
      c.usersCount == |Users(Subs(remote, local), AggregateRows(aggregate))|
    ensures FallbackThrew(Subs(remote, local), aggregate) ==> c.usersCount == backendCount.GetOr(0)
    ensures c.submissionsCount == if remote.Some? then |remote.value| else 0
  {
    var afterBackend := backendCount.GetOr(0);
    var subs := Subs(remote, local);
    if FallbackThrew(subs, aggregate) then
      Counters(afterBackend, if remote.Some? then |remote.value| else 0)
    else
      var size := |Users(subs, AggregateRows(aggregate))|;
      Counters(if afterBackend != 0 then afterBackend else size, if remote.Some? then |remote.value| else 0)
  }

  /** `fetchStats`: the set size overwrites the user count, unless the fallback
      threw, which leaves the count the backend request set, or the earlier one
      when that request gave none; the submission count changes only when the
      server answered. */
  function Refresh(prev: Counters, backendCount: Option<nat>, remote: Option<seq<SubmissionModel.Submission>>,
                   local: seq<Entry>, aggregate: AggregateReply): (c: Counters)
    ensures !FallbackThrew(Subs(remote, local), aggregate) ==>
      c.usersCount == |Users(Subs(remote, local), AggregateRows(aggregate))|
    ensures FallbackThrew(Subs(remote, local), aggregate) ==>
      c.usersCount == if backendCount.Some? then backendCount.value else prev.usersCount
    ensures remote.None? ==> c.submissionsCount == prev.submissionsCount
    ensures remote.Some? ==> c.submissionsCount == |remote.value|
  {
    var afterBackend := if backendCount.Some? then prev.(usersCount := backendCount.value) else prev;
    var afterList := if remote.Some? then afterBackend.(submissionsCount := |remote.value|) else afterBackend;
    var subs := Subs(remote, local);
    if FallbackThrew(subs, aggregate) then afterList
    else afterList.(usersCount := |Users(subs, AggregateRows(aggregate))|)
  }

  /** The two loads agree on users unless the backend reported a non-zero count,
      or the fallback threw during a refresh after a non-zero count; and once the
      fallback has not thrown, the refresh ignores the backend count. */
  lemma LoadsAgreeWithoutBackend(prev: Counters, backendCount: Option<nat>, remote: Option<seq<SubmissionModel.Submission>>,
                                 local: seq<Entry>, aggregate: AggregateReply)
    ensures (InitialLoad(backendCount, remote, local, aggregate).usersCount ==
             Refresh(prev, backendCount, remote, local, aggregate).usersCount)
        <== (backendCount.None? || backendCount.value == 0) &&
            (!FallbackThrew(Subs(remote, local), aggregate) || backendCount.Some? || prev.usersCount == 0)
    ensures !FallbackThrew(Subs(remote, local), aggregate) ==>
      Refresh(prev, backendCount, remote, local, aggregate).usersCount ==
      Refresh(prev, None, remote, local, aggregate).usersCount
  {
  }

  /** With the server unreachable and nothing stored, the refresh keeps the count
      it showed before, while a fallback that answered without rows sets 0. */
  lemma UnreachableRefreshKeepsCount(prev: Counters)
    ensures Refresh(prev, None, None, [], Threw).usersCount == prev.usersCount
    ensures Refresh(prev, None, None, [], NoRows).usersCount == 0
  {
    assert EmailSet([]) == {};
  }

  // ---------------------------------------------------------------- question list

  // The description and test-case text of the built-in samples.
  const HelloDescription: string := "Write a JavaScript code to print 'Hello World' in the console. Use console.log() function to display the message."
  const HelloTestCases: string := "No input required\nExpected Output: Hello World"
  const SumDescription: string := "Write a function that takes an array of numbers and returns the sum of all numbers. Example: sum([1, 2, 3, 4, 5]) should return 15."
  const SumTestCases: string := "Input: [1, 2, 3, 4, 5]\nExpected Output: 15\n\nInput: [10, 20, 30]\nExpected Output: 60"
  const EvenOddDescription: string := "Write a function that takes a number and returns 'Even' if the number is even, or 'Odd' if the number is odd."
  const EvenOddTestCases: string := "Input: 4\nExpected Output: Even\n\nInput: 7\nExpected Output: Odd\n\nInput: 0\nExpected Output: Even"

  /** One of the questions shown when neither the server nor browser storage has any. */
  function Sample(n: int, title: string, description: string, testCases: string, expected: string, kind: string,
                  time: string): Question {
    QuestionModel.Question(None, Some(n), Some(title), Some("Easy"), Some("JavaScript"), Some(description),
                           Some(testCases), Some(expected), None, Some("Basics"), Some(kind), Some(time), None)
  }

  function Defaults(): (r: seq<Question>)
    ensures |r| == 3
    ensures forall k :: 0 <= k < 3 ==> r[k].id.None? && r[k].sampleId == Some(k + 1)
  {
    [ Sample(1, "Print Hello World", HelloDescription, HelloTestCases, "Hello World", "Print Statement", "5-10 min"),
      Sample(2, "Calculate Sum of Numbers", SumDescription, SumTestCases, "15", "Array Operations", "10-15 min"),
      Sample(3, "Check Even or Odd", EvenOddDescription, EvenOddTestCases, "Even", "Conditional Logic", "10-15 min") ]
  }

  /** `fetchQuestions`: an ok answer from the server wins, even an empty list;
      then a non-empty stored list; then the samples. */
  function QuestionSource(api: Option<seq<Question>>, stored: Option<seq<Question>>): (r: seq<Question>)
    ensures api.Some? ==> r == api.value
    ensures api.None? && stored.Some? && |stored.value| > 0 ==> r == stored.value
    ensures api.None? && (stored.None? || |stored.value| == 0) ==> r == Defaults()
  {
    match api
    case Some(list) => list
    case None =>
      match stored
      case Some(list) => if |list| > 0 then list else Defaults()
      case None => Defaults()
  }

  /** An empty server list is shown as it is: the fallbacks are never consulted. */
  lemma EmptyServerListShown(stored: Option<seq<Question>>)
    ensures QuestionSource(Some([]), stored) == []
  {
  }

  /** The samples are shown only when the server failed and storage had none. */
  lemma SamplesOnlyAsLastResort(api: Option<seq<Question>>, stored: Option<seq<Question>>)
    requires QuestionSource(api, stored) == Defaults()
    requires api.Some? ==> api.value != Defaults()
    requires stored.Some? ==> stored.value != Defaults()
    ensures api.None? && (stored.None? || |stored.value| == 0)
  {
  }

  /** `q._id === editingQuestion._id`, `undefined` included. */
  function SameId(q: Question, editing: Question): bool {
    q.id == editing.id
  }

  /** The list after saving an edit: on an ok answer each question with the
      edited question's `_id` becomes the server's copy. */
  function EditList(qs: seq<Question>, editing: Question, updated: Question, ok: bool): (r: seq<Question>)
    ensures |r| == |qs|
    ensures forall k :: 0 <= k < |qs| ==> r[k] == if ok && qs[k].id == editing.id then updated else qs[k]
  {
    if !ok || |qs| == 0 then qs
    else [if SameId(qs[0], editing) then updated else qs[0]] + EditList(qs[1..], editing, updated, ok)
  }

  /** Saving the same server copy twice changes nothing more. */
  lemma EditIdempotent(qs: seq<Question>, editing: Question, updated: Question, ok: bool)
    requires updated.id == editing.id
    ensures EditList(EditList(qs, editing, updated, ok), editing, updated, ok) == EditList(qs, editing, updated, ok)
  {
  }

  /** With distinct `_id`s, an edit of a stored question replaces exactly one entry. */
  lemma EditReplacesOne(qs: seq<Question>, p: nat, updated: Question)
    requires p < |qs| && qs[p].id.Some?
    requires Seqs.KeysDistinct(qs, (q: Question) => q.id)
    ensures var r := EditList(qs, qs[p], updated, true);
      r[p] == updated && forall k :: 0 <= k < |qs| && k != p ==> r[k] == qs[k]
  {
  }

  /** A built-in sample has no `_id`, so an ok answer to its edit would replace
      every question that has none. */
  lemma EditOfSampleHitsAllSamples(updated: Question)
    ensures EditList(Defaults(), Defaults()[0], updated, true) == [updated, updated, updated]
  {
  }

  /** Create: an ok answer appends the server's copy. */
  function CreateList(qs: seq<Question>, created: Question, ok: bool): (r: seq<Question>)
    ensures ok ==> |r| == |qs| + 1 && r[..|qs|] == qs && r[|qs|] == created
    ensures !ok ==> r == qs
  {
    if ok then qs + [created] else qs
  }

  /** The value passed to the delete handler, `q._id || q.id`. */
  datatype JsKey = Str(s: string) | Num(n: int) | Undefined

  function DeleteKey(q: Question): JsKey {
    if Truthy(q.id) then Str(q.id.value)
    else if q.sampleId.Some? then Num(q.sampleId.value)
    else Undefined
  }

  /** `q._id !== questionId`. */
  function KeptBy(key: JsKey): Question -> bool {
    (q: Question) => !(match q.id
                       case Some(id) => key == Str(id)
                       case None => key == Undefined)
  }

  /** Delete: on an ok answer the questions whose `_id` equals the key go. */
  function DeleteList(qs: seq<Question>, key: JsKey, ok: bool): (r: seq<Question>)
    ensures !ok ==> r == qs
    ensures ok ==> forall q :: q in r <==> q in qs && KeptBy(key)(q)
    ensures ok && key.Str? ==> forall q :: q in r ==> q.id != Some(key.s)
    ensures |r| <= |qs|
  {
    if ok then Seqs.Filter(qs, KeptBy(key)) else qs
  }

  /** Deleting a question just created, whose `_id` no other question has,
      gives back the list as it was. */
  lemma CreateThenDelete(qs: seq<Question>, created: Question)
    requires Truthy(created.id)
    requires forall k :: 0 <= k < |qs| ==> qs[k].id != created.id
    ensures DeleteList(CreateList(qs, created, true), DeleteKey(created), true) == qs
  {
    var key := DeleteKey(created);
    Seqs.FilterAppend(qs, [created], KeptBy(key));
    Seqs.FilterKeepsAll(qs, KeptBy(key));
    assert Seqs.Filter([created], KeptBy(key)) == [] by {
      Seqs.FilterNone([created], KeptBy(key));
    }
  }

  /** The key of a built-in sample is its number, which no `_id` equals. */
  lemma SampleDeleteKeepsAll(qs: seq<Question>, k: nat)
    requires k < 3
    ensures DeleteList(qs, DeleteKey(Defaults()[k]), true) == qs
  {
    Seqs.FilterKeepsAll(qs, KeptBy(DeleteKey(Defaults()[k])));
  }
}
