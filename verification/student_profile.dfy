/** The student's profile page (frontend/src/StudentProfile.jsx): the stored
    records shown with the server's list, the newest-first merge, the totals,
    the avatar initials and the per-submission grade and feedback display. */
module StudentProfile {
  import opened Wrappers
  import opened Text
  import opened Entries
  import Seqs
  import Sorting
  import Numbers
  import Ledger

  // ---------------------------------------------------------------- lists

  function EmailIs(email: string): Entry -> bool {
    (e: Entry) => HasEmail(e, email)
  }

  /** `localSubmissions`: the stored records whose email is exactly the profile's. */
  function LocalSubmissions(stored: seq<Entry>, email: string): (r: seq<Entry>)
    ensures forall e :: e in r <==> e in stored && HasEmail(e, email)
    ensures forall x :: multiset(r)[x] == if HasEmail(x, email) then multiset(stored)[x] else 0
  {
    forall x ensures multiset(Seqs.Filter(stored, EmailIs(email)))[x] ==
      if HasEmail(x, email) then multiset(stored)[x] else 0
    {
      Seqs.FilterMultiset(stored, EmailIs(email), x);
    }
    Seqs.Filter(stored, EmailIs(email))
  }

  /** The server's list: the stats reply when an email is known and the request
      succeeded, otherwise the initial empty list. */
  function ServerSubmissions(email: string, reply: Option<Ledger.Stats>): seq<Entry> {
    if email != "" && reply.Some? then EntriesOf(reply.value.submissions) else []
  }

  /** `new Date(b.submittedAt) - new Date(a.submittedAt)`: newer first. */
  function NewerFirst(a: Entry, b: Entry): bool {
    a.submittedAt >= b.submittedAt
  }

  lemma NewerFirstIsTotalPreorder()
    ensures Sorting.TotalPreorder(NewerFirst)
  {
  }

  /** `merged`: the server's list and the stored records, newest first. */
  function Merged(server: seq<Entry>, local: seq<Entry>): (r: seq<Entry>)
    ensures multiset(r) == multiset(server + local)
    ensures forall i, j :: 0 <= i < j < |r| ==> r[i].submittedAt >= r[j].submittedAt
  {
    NewerFirstIsTotalPreorder();
    Sorting.Sort(NewerFirst, server + local)
  }

  /** The merge shows each submission of either list, and the first one shown is
      the most recent of all. */
  lemma MergedShowsBoth(server: seq<Entry>, local: seq<Entry>)
    ensures forall e :: e in Merged(server, local) <==> e in server || e in local
    ensures |Merged(server, local)| == |server| + |local|
    ensures |server| + |local| > 0 ==>
      forall e :: e in server || e in local ==> Merged(server, local)[0].submittedAt >= e.submittedAt
  {
    var r := Merged(server, local);
    Sorting.PermutationMembers(r, server + local);
    assert |multiset(r)| == |r| && |multiset(server + local)| == |server + local|;
    forall e | e in server || e in local
      ensures e in r
    {
      assert e in server + local;
    }
    if |r| > 0 {
      forall e | e in r
        ensures r[0].submittedAt >= e.submittedAt
      {
        var j :| 0 <= j < |r| && r[j] == e;
      }
    }
  }

  // ---------------------------------------------------------------- totals

  datatype Totals = Totals(totalSubmissions: nat, problemsSolved: nat, avgGrade: Option<real>, bestGrade: Option<real>)

  function Solved(e: Entry): bool {
    e.isCorrect
  }

  /** `totals`: the count shown, the correct ones among them, and the mean and
      maximum of the grades that read as numbers (null when none does). */
  function ProfileTotals(merged: seq<Entry>): (t: Totals)
    ensures t.totalSubmissions == |merged|
    ensures t.problemsSolved == |Seqs.Filter(merged, Solved)| && t.problemsSolved <= t.totalSubmissions
    ensures t.avgGrade.None? <==> t.bestGrade.None?
    ensures t.avgGrade.None? <==> forall k :: 0 <= k < |merged| ==> !Numbers.Reads(merged[k].grade)
    ensures t.bestGrade.Some? ==> forall k :: 0 <= k < |merged| && Numbers.Reads(merged[k].grade) ==>
      Numbers.GradeNumber(merged[k].grade.value).x <= t.bestGrade.value
    ensures t.bestGrade.Some? ==>
      (exists k :: 0 <= k < |merged| && Numbers.Reads(merged[k].grade) &&
         Numbers.GradeNumber(merged[k].grade.value).x == t.bestGrade.value)
    ensures t.avgGrade.Some? ==> 0.0 <= t.avgGrade.value <= t.bestGrade.value
    ensures t.avgGrade.Some? ==> Numbers.IsMeanOf(t.avgGrade.value, Numbers.NumericGrades(GradesOf(merged)))
  {
    var grades := GradesOf(merged);
    var nums := Numbers.NumericGrades(grades);
    var best := Numbers.Best(nums);
    BestOfGrades(merged);
    AverageBelowBest(nums);
    Totals(|merged|, |Seqs.Filter(merged, Solved)|, Numbers.Average(nums), best)
  }

  /** The mean of non-negative values lies between 0 and their maximum. */
  lemma AverageBelowBest(nums: seq<real>)
    requires forall k :: 0 <= k < |nums| ==> nums[k] >= 0.0
    ensures |nums| > 0 ==> 0.0 <= Numbers.Average(nums).value <= Numbers.Best(nums).value
  {
    if |nums| > 0 {
      Numbers.AverageWithin(nums, 0.0, Numbers.Best(nums).value);
    }
  }

  lemma BestOfGrades(merged: seq<Entry>)
    ensures var nums := Numbers.NumericGrades(GradesOf(merged));
      && (|nums| == 0 <==> forall k :: 0 <= k < |merged| ==> !Numbers.Reads(merged[k].grade))
      && (|nums| > 0 ==>
            && (forall k :: 0 <= k < |merged| && Numbers.Reads(merged[k].grade) ==>
                  Numbers.GradeNumber(merged[k].grade.value).x <= Numbers.Best(nums).value)
            && (exists k :: 0 <= k < |merged| && Numbers.Reads(merged[k].grade) &&
                  Numbers.GradeNumber(merged[k].grade.value).x == Numbers.Best(nums).value))
  {
    var grades := GradesOf(merged);
    var nums := Numbers.NumericGrades(grades);
    if |nums| > 0 {
      var b := Numbers.Best(nums).value;
      forall k | 0 <= k < |merged| && Numbers.Reads(merged[k].grade)
        ensures Numbers.GradeNumber(merged[k].grade.value).x <= b
      {
        assert grades[k] == merged[k].grade;
        var x := Numbers.GradeNumber(merged[k].grade.value).x;
        assert x in nums;
        var i :| 0 <= i < |nums| && nums[i] == x;
      }
      assert b in nums;
      var k :| 0 <= k < |grades| && grades[k].Some? && Numbers.GradeNumber(grades[k].value) == Numbers.Val(b);
      assert Numbers.Reads(merged[k].grade);
    }
  }

  /** Every submission in the server's statistics for a student is correct. */
  lemma ServerListSolved(store: Ledger.Store, email: string)
    ensures var server := EntriesOf(Ledger.StudentStats(store, email).submissions);
      Seqs.Filter(server, Solved) == server
  {
    var stats := Ledger.StudentStats(store, email);
    var server := EntriesOf(stats.submissions);
    forall k | 0 <= k < |server|
      ensures Solved(server[k])
    {
      assert stats.submissions[k] in stats.submissions;
    }
    Seqs.FilterKeepsAll(server, Solved);
  }

  /** The merge neither adds nor loses a correct submission. */
  lemma SolvedOfMerge(server: seq<Entry>, local: seq<Entry>)
    ensures |Seqs.Filter(Merged(server, local), Solved)| ==
            |Seqs.Filter(server, Solved)| + |Seqs.Filter(local, Solved)|
  {
    Seqs.FilterCountPermutation(Merged(server, local), server + local, Solved);
    Seqs.FilterAppend(server, local, Solved);
  }

  /** Over the server's statistics for this student, every listed submission is
      correct, so the profile counts at least the server's solved figure. */
  lemma SolvedAtLeastServerCount(store: Ledger.Store, email: string, stored: seq<Entry>)
    requires email != ""
    ensures var stats := Ledger.StudentStats(store, email);
      var merged := Merged(ServerSubmissions(email, Some(stats)), LocalSubmissions(stored, email));
      ProfileTotals(merged).problemsSolved >= stats.solvedCount
  {
    var stats := Ledger.StudentStats(store, email);
    var server := EntriesOf(stats.submissions);
    var local := LocalSubmissions(stored, email);
    assert ServerSubmissions(email, Some(stats)) == server;
    ServerListSolved(store, email);
    SolvedOfMerge(server, local);
    assert |server| == stats.solvedCount;
  }

  // ---------------------------------------------------------------- initials

  /** `getInitials`: "ST" for a falsy email; otherwise up to two letters of the
      part before the '@', upper-cased, or "ST" when that part has none. */
  function Initials(email: Option<string>): (r: string)
    ensures |r| == 1 || |r| == 2
    ensures forall k :: 0 <= k < |r| ==> 'A' <= r[k] <= 'Z'
    ensures !Truthy(email) ==> r == "ST"
  {
    if !Truthy(email) then "ST"
    else
      var letters := Seqs.Filter(LocalPart(email.value), IsAsciiLetter);
      var head := if |letters| <= 2 then letters else letters[..2];
      var picked := if |head| == 0 then "ST" else head;
      assert forall k :: 0 <= k < |picked| ==> IsAsciiLetter(picked[k]);
      ToUpper(picked)
  }

  /** A local part that starts with two letters gives those two, upper-cased. */
  lemma InitialsOfTwoLetters(email: string, a: char, b: char, rest: string)
    requires IsAsciiLetter(a) && IsAsciiLetter(b)
    requires email != "" && LocalPart(email) == [a, b] + rest
    ensures Initials(Some(email)) == [UpperChar(a), UpperChar(b)]
  {
    Seqs.FilterAppend([a, b], rest, IsAsciiLetter);
    Seqs.FilterKeepsAll([a, b], IsAsciiLetter);
    var letters := Seqs.Filter(LocalPart(email), IsAsciiLetter);
    assert letters[..2] == [a, b];
  }

  /** A local part without letters gives the placeholder. */
  lemma InitialsWithoutLetters(email: string)
    requires email != ""
    requires forall k :: 0 <= k < |LocalPart(email)| ==> !IsAsciiLetter(LocalPart(email)[k])
    ensures Initials(Some(email)) == "ST"
  {
    Seqs.FilterNone(LocalPart(email), IsAsciiLetter);
  }

  /** Letters are kept wherever they stand: before the first one nothing is kept. */
  lemma {:induction false} FilterAroundLetter(pre: string, x: char, post: string)
    requires forall k :: 0 <= k < |pre| ==> !IsAsciiLetter(pre[k])
    requires IsAsciiLetter(x)
    ensures Seqs.Filter(pre + [x] + post, IsAsciiLetter) == [x] + Seqs.Filter(post, IsAsciiLetter)
  {
    Seqs.FilterNone(pre, IsAsciiLetter);
    Seqs.FilterAppend(pre + [x], post, IsAsciiLetter);
    Seqs.FilterSnoc(pre, x, IsAsciiLetter);
  }

  lemma FirstTwoLetters(lp: string, i: nat, j: nat)
    requires i < j < |lp| && IsAsciiLetter(lp[i]) && IsAsciiLetter(lp[j])
    requires forall k :: 0 <= k < j && k != i ==> !IsAsciiLetter(lp[k])
    ensures var letters := Seqs.Filter(lp, IsAsciiLetter);
      |letters| >= 2 && letters[..2] == [lp[i], lp[j]]
  {
    var pre, rest := lp[..i], lp[i + 1..];
    var mid, post := lp[i + 1..j], lp[j + 1..];
    assert lp == pre + [lp[i]] + rest;
    assert rest == mid + [lp[j]] + post;
    assert forall k :: 0 <= k < |pre| ==> !IsAsciiLetter(pre[k]) by {
      forall k | 0 <= k < |pre| ensures !IsAsciiLetter(pre[k]) {
        assert pre[k] == lp[k];
      }
    }
    assert forall k :: 0 <= k < |mid| ==> !IsAsciiLetter(mid[k]) by {
      forall k | 0 <= k < |mid| ensures !IsAsciiLetter(mid[k]) {
        assert mid[k] == lp[i + 1 + k];
      }
    }
    var tail := Seqs.Filter(rest, IsAsciiLetter);
    FilterAroundLetter(pre, lp[i], rest);
    assert Seqs.Filter(lp, IsAsciiLetter) == [lp[i]] + tail;
    FilterAroundLetter(mid, lp[j], post);
    assert tail == [lp[j]] + Seqs.Filter(post, IsAsciiLetter);
  }

  /** The first two letters of the local part give the initials, whatever
      stands before or between them. */
  lemma InitialsOfFirstLetters(email: string, i: nat, j: nat)
    requires email != ""
    requires i < j < |LocalPart(email)|
    requires IsAsciiLetter(LocalPart(email)[i]) && IsAsciiLetter(LocalPart(email)[j])
    requires forall k :: 0 <= k < j && k != i ==> !IsAsciiLetter(LocalPart(email)[k])
    ensures Initials(Some(email)) == [UpperChar(LocalPart(email)[i]), UpperChar(LocalPart(email)[j])]
  {
    var lp := LocalPart(email);
    FirstTwoLetters(lp, i, j);
    var letters := Seqs.Filter(lp, IsAsciiLetter);
    var head := if |letters| <= 2 then letters else letters[..2];
    assert head == [lp[i], lp[j]];
    var up := ToUpper(head);
    assert up[0] == UpperChar(lp[i]) && up[1] == UpperChar(lp[j]);
    assert Initials(Some(email)) == up;
  }

  /** A local part with a single letter gives that letter alone. */
  lemma InitialsOfOneLetter(email: string, i: nat)
    requires email != ""
    requires i < |LocalPart(email)| && IsAsciiLetter(LocalPart(email)[i])
    requires forall k :: 0 <= k < |LocalPart(email)| && k != i ==> !IsAsciiLetter(LocalPart(email)[k])
    ensures Initials(Some(email)) == [UpperChar(LocalPart(email)[i])]
  {
    var lp := LocalPart(email);
    assert lp == lp[..i] + [lp[i]] + lp[i + 1..];
    FilterAroundLetter(lp[..i], lp[i], lp[i + 1..]);
    Seqs.FilterNone(lp[i + 1..], IsAsciiLetter);
  }

  /** Only the part before the first '@' counts: "1a.b2@xy" gives "AB". */
  lemma InitialsIgnoreDomain()
    ensures Initials(Some("1a.b2@xy")) == "AB"
  {
    var lp := LocalPart("1a.b2@xy");
    assert "1a.b2@xy"[5] == '@';
    assert '@' !in "1a.b2";
    assert lp == "1a.b2";
    InitialsOfFirstLetters("1a.b2@xy", 1, 3);
  }

  // ---------------------------------------------------------------- display

  /** `typeof s.feedback === 'string' && s.feedback.trim().length > 0`. */
  predicate HasFeedback(e: Entry) {
    e.feedback.Some? && |Trim(e.feedback.value)| > 0
  }

  /** The grade is neither undefined nor null and not blank after trim. */
  predicate HasGradeValue(e: Entry) {
    e.grade.Some? && Trim(e.grade.value) != ""
  }

  datatype Badge = GradeBadge(grade: string) | Pending

  /** The grade badge: `adminGraded` is the flag or a present grade, and the
      badge shows the grade when `adminGraded && hasGradeValue`. */
  function GradeBadgeOf(e: Entry): (b: Badge)
    ensures b.GradeBadge? <==> e.grade.Some? && !AllSpace(e.grade.value)
    ensures b.GradeBadge? ==> b.grade == e.grade.value
  {
    var adminGraded := e.isAdminGraded || HasGradeValue(e);
    if adminGraded && HasGradeValue(e) then GradeBadge(e.grade.value) else Pending
  }

  /** The admin flag has no say in the badge. */
  lemma BadgeIgnoresAdminFlag(e: Entry, flag: bool)
    ensures GradeBadgeOf(e.(isAdminGraded := flag)) == GradeBadgeOf(e)
  {
  }

  /** The detail line under the title: absent, or the grade (or a dash) with the
      feedback when there is any. */
  datatype Detail = NoDetail | Detail(grade: Option<string>, feedback: Option<string>)

  function DetailOf(e: Entry): (d: Detail)
    ensures d.NoDetail? <==> (e.grade.None? || AllSpace(e.grade.value)) &&
                             (e.feedback.None? || AllSpace(e.feedback.value))
    ensures d.Detail? ==> (d.grade.Some? <==> HasGradeValue(e)) && (d.feedback.Some? <==> HasFeedback(e))
    ensures d.Detail? && d.grade.Some? ==> d.grade == e.grade
    ensures d.Detail? && d.feedback.Some? ==> d.feedback == e.feedback
  {
    if HasFeedback(e) || HasGradeValue(e) then
      Detail(if HasGradeValue(e) then e.grade else None, if HasFeedback(e) then e.feedback else None)
    else NoDetail
  }

  /** The "Offline" badge marks the stored records. */
  predicate OfflineBadge(e: Entry) {
    IsLocal(e)
  }
}
