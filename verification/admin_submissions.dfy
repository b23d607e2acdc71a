/** The admin's submissions page (frontend/src/AdminSubmissionsPage.jsx): the
    merged list, the per-student sidebar, the per-student figures, grading a
    stored record, and the delete-URL fallback list. */
module AdminSubmissions {
  import opened Wrappers
  import opened Text
  import opened Entries
  import Seqs
  import Sorting
  import Numbers
  import Http
  import Ledger
  import SubmitClient

  // ---------------------------------------------------------------- load

  /** What the page shows: the submission list and the server's per-student rows. */
  datatype PageState = PageState(submissions: seq<Entry>, stats: seq<Ledger.SolvedRow>)

  /** `load` as written. A fetched list replaces the shown one; then a non-empty
      stored list is put in front of whatever is shown by then, which, when the
      fetch failed, still holds the stored records of the previous load. */
  function LoadAsWritten(st: PageState, remote: Option<seq<Entry>>, remoteStats: Option<seq<Ledger.SolvedRow>>,
                         local: seq<Entry>): (r: PageState)
    ensures r.stats == (if remoteStats.Some? then remoteStats.value else st.stats)
  {
    var base := if remote.Some? then remote.value else st.submissions;
    PageState(if |local| > 0 then local + base else base,
              if remoteStats.Some? then remoteStats.value else st.stats)
  }

  /** Reloading while the server is unreachable shows every stored record twice. */
  lemma OfflineReloadDuplicates(st: PageState, local: seq<Entry>)
    requires |local| > 0
    ensures var once := LoadAsWritten(st, None, None, local);
      && LoadAsWritten(once, None, None, local).submissions == local + local + st.submissions
      && |LoadAsWritten(once, None, None, local).submissions| > |once.submissions|
  {
    assert local + (local + st.submissions) == local + local + st.submissions;
  }

  /** `load` with the stored records of the previous load replaced rather than
      accumulated: stored records first, then the fetched list, or, when the
      fetch failed, the server entries shown before. */
  function Load(st: PageState, remote: Option<seq<Entry>>, remoteStats: Option<seq<Ledger.SolvedRow>>,
                local: seq<Entry>): (r: PageState)
    ensures |r.submissions| >= |local| && r.submissions[..|local|] == local
    ensures remote.Some? && (forall k :: 0 <= k < |remote.value| ==> !IsLocal(remote.value[k])) ==>
      r.submissions == local + remote.value
    ensures forall e :: e in r.submissions[|local|..] ==> !IsLocal(e)
    ensures forall e :: !IsLocal(e) ==>
      (e in r.submissions <==> e in (if remote.Some? then remote.value else st.submissions) || e in local)
    ensures r.stats == (if remoteStats.Some? then remoteStats.value else st.stats)
  {
    var base := if remote.Some? then remote.value else st.submissions;
    var server := Seqs.Filter(base, NotLocal);
    assert remote.Some? && (forall k :: 0 <= k < |remote.value| ==> !IsLocal(remote.value[k])) ==>
      server == remote.value by {
      if remote.Some? && (forall k :: 0 <= k < |remote.value| ==> !IsLocal(remote.value[k])) {
        Seqs.FilterKeepsAll(remote.value, NotLocal);
      }
    }
    var subs := local + server;
    assert subs[..|local|] == local && subs[|local|..] == server;
    PageState(subs, if remoteStats.Some? then remoteStats.value else st.stats)
  }

  function NotLocal(e: Entry): bool {
    !IsLocal(e)
  }

  /** With stored records that carry their ids, reloading while offline shows the
      same list again. */
  lemma OfflineReloadIsStable(st: PageState, local: seq<Entry>)
    requires forall k :: 0 <= k < |local| ==> IsLocal(local[k])
    ensures var once := Load(st, None, None, local);
      Load(once, None, None, local) == once
  {
    var once := Load(st, None, None, local);
    var server := Seqs.Filter(st.submissions, NotLocal);
    assert once.submissions == local + server;
    Seqs.FilterAppend(local, server, NotLocal);
    Seqs.FilterNone(local, NotLocal);
    Seqs.FilterKeepsAll(server, NotLocal);
    assert [] + server == server;
  }

  // ---------------------------------------------------------------- grouping

  datatype StudentGroup = StudentGroup(email: string, items: seq<Entry>)

  /** The sidebar key: `s.studentEmail || 'Unknown'`. */
  function GroupKey(e: Entry): string {
    Or(e.studentEmail, "Unknown")
  }

  function KeyIs(k: string): Entry -> bool {
    (e: Entry) => GroupKey(e) == k
  }

  function EmailOf(g: StudentGroup): string {
    g.email
  }

  /** The groups partition `es`: distinct keys, each group exactly the entries
      with its key in their original order, and a group for every key. */
  predicate Partition(groups: seq<StudentGroup>, es: seq<Entry>) {
    && Seqs.KeysDistinct(groups, EmailOf)
    && (forall k :: 0 <= k < |groups| ==> groups[k].items == Seqs.Filter(es, KeyIs(groups[k].email)))
    && (forall k :: 0 <= k < |groups| ==> |groups[k].items| > 0)
    && (forall e :: e in es ==> exists k :: 0 <= k < |groups| && groups[k].email == GroupKey(e))
  }

  /** `map.get(email).push(s)`, adding the key first when the map lacks it. */
  function AddToGroups(groups: seq<StudentGroup>, e: Entry): seq<StudentGroup> {
    match Seqs.IndexWhere(groups, (g: StudentGroup) => g.email == GroupKey(e))
    case Some(i) => groups[i := groups[i].(items := groups[i].items + [e])]
    case None => groups + [StudentGroup(GroupKey(e), [e])]
  }

  /** The `Map` the `forEach` builds, in order of each key's first appearance. */
  function GroupInOrder(es: seq<Entry>): (r: seq<StudentGroup>)
    ensures Partition(r, es)
  {
    if |es| == 0 then []
    else
      var init := es[..|es| - 1];
      var e := es[|es| - 1];
      assert es == init + [e];
      var groups := GroupInOrder(init);
      AddKeepsPartition(groups, init, e);
      AddToGroups(groups, e)
  }

  lemma AddKeepsPartition(groups: seq<StudentGroup>, es: seq<Entry>, e: Entry)
    requires Partition(groups, es)
    ensures Partition(AddToGroups(groups, e), es + [e])
  {
    match Seqs.IndexWhere(groups, (g: StudentGroup) => g.email == GroupKey(e))
    case Some(i) => AddToExisting(groups, es, e, i);
    case None => AddNew(groups, es, e);
  }

  lemma AddToExisting(groups: seq<StudentGroup>, es: seq<Entry>, e: Entry, i: nat)
    requires Partition(groups, es)
    requires i < |groups| && groups[i].email == GroupKey(e)
    ensures Partition(groups[i := groups[i].(items := groups[i].items + [e])], es + [e])
  {
    var r := groups[i := groups[i].(items := groups[i].items + [e])];
    assert forall k :: 0 <= k < |r| ==> r[k].email == groups[k].email;
    assert Seqs.KeysDistinct(r, EmailOf);
    forall k | 0 <= k < |r|
      ensures r[k].items == Seqs.Filter(es + [e], KeyIs(r[k].email))
    {
      Seqs.FilterSnoc(es, e, KeyIs(groups[k].email));
      if k != i {
        assert EmailOf(groups[k]) != EmailOf(groups[i]);
      }
    }
    forall x | x in es + [e]
      ensures exists k :: 0 <= k < |r| && r[k].email == GroupKey(x)
    {
      if x != e {
        assert x in es;
        var k :| 0 <= k < |groups| && groups[k].email == GroupKey(x);
        assert r[k].email == GroupKey(x);
      } else {
        assert r[i].email == GroupKey(x);
      }
    }
  }

  lemma AddNew(groups: seq<StudentGroup>, es: seq<Entry>, e: Entry)
    requires Partition(groups, es)
    requires forall k :: 0 <= k < |groups| ==> groups[k].email != GroupKey(e)
    ensures Partition(groups + [StudentGroup(GroupKey(e), [e])], es + [e])
  {
    var key := GroupKey(e);
    var r := groups + [StudentGroup(key, [e])];
    assert Seqs.KeysDistinct(r, EmailOf);
    forall k | 0 <= k < |r|
      ensures r[k].items == Seqs.Filter(es + [e], KeyIs(r[k].email))
    {
      Seqs.FilterSnoc(es, e, KeyIs(r[k].email));
      if k == |groups| {
        forall j | 0 <= j < |es|
          ensures !KeyIs(key)(es[j])
        {
          assert es[j] in es;
        }
        Seqs.FilterNone(es, KeyIs(key));
      }
    }
    forall x | x in es + [e]
      ensures exists k :: 0 <= k < |r| && r[k].email == GroupKey(x)
    {
      if x != e {
        assert x in es;
        var k :| 0 <= k < |groups| && groups[k].email == GroupKey(x);
        assert r[k].email == GroupKey(x);
      } else {
        assert r[|groups|].email == GroupKey(x);
      }
    }
  }

  /** Email order for the sidebar (`localeCompare`, taken as code-point order). */
  function EmailOrder(a: StudentGroup, b: StudentGroup): bool {
    StrLe(a.email, b.email)
  }

  lemma EmailOrderIsTotalPreorder()
    ensures Sorting.TotalPreorder(EmailOrder)
  {
    forall a: StudentGroup, b: StudentGroup
      ensures EmailOrder(a, b) || EmailOrder(b, a)
    {
      StrLeTotal(a.email, b.email);
    }
    forall a: StudentGroup, b: StudentGroup, c: StudentGroup | EmailOrder(a, b) && EmailOrder(b, c)
      ensures EmailOrder(a, c)
    {
      StrLeTransitive(a.email, b.email, c.email);
    }
  }

  /** The sidebar: the groups sorted by email. */
  function Students(es: seq<Entry>): (r: seq<StudentGroup>)
    ensures Partition(r, es)
    ensures Sorting.Sorted(EmailOrder, r)
  {
    var grouped := GroupInOrder(es);
    EmailOrderIsTotalPreorder();
    var r := Sorting.Sort(EmailOrder, grouped);
    PartitionPermutation(grouped, r, es);
    r
  }

  /** Reordering the groups keeps them a partition. */
  lemma PartitionPermutation(a: seq<StudentGroup>, b: seq<StudentGroup>, es: seq<Entry>)
    requires multiset(a) == multiset(b)
    requires Partition(a, es)
    ensures Partition(b, es)
  {
    Seqs.KeysDistinctPermutation(a, b, EmailOf);
    Sorting.PermutationMembers(a, b);
    forall k | 0 <= k < |b|
      ensures b[k].items == Seqs.Filter(es, KeyIs(b[k].email)) && |b[k].items| > 0
    {
      assert b[k] in a;
    }
    forall e | e in es
      ensures exists k :: 0 <= k < |b| && b[k].email == GroupKey(e)
    {
      var j :| 0 <= j < |a| && a[j].email == GroupKey(e);
      assert a[j] in b;
    }
  }

  /** Every submission sits in exactly one group: the one with its key. */
  lemma ExactlyOneGroup(es: seq<Entry>, e: Entry)
    requires e in es
    ensures var groups := Students(es);
      && (exists k :: 0 <= k < |groups| && e in groups[k].items)
      && (forall k :: 0 <= k < |groups| ==> (e in groups[k].items <==> groups[k].email == GroupKey(e)))
      && (forall k, m :: 0 <= k < |groups| && 0 <= m < |groups| && e in groups[k].items && e in groups[m].items ==> k == m)
  {
    var groups := Students(es);
    forall k | 0 <= k < |groups|
      ensures e in groups[k].items <==> groups[k].email == GroupKey(e)
    {
      assert groups[k].items == Seqs.Filter(es, KeyIs(groups[k].email));
    }
    forall k, m | 0 <= k < |groups| && 0 <= m < |groups| && e in groups[k].items && e in groups[m].items
      ensures k == m
    {
    }
  }

  /** Lines 69-73: with no student chosen, the first of the sidebar is. */
  function AutoSelect(selected: string, groups: seq<StudentGroup>): string {
    if selected == "" && |groups| > 0 then groups[0].email else selected
  }

  /** The automatic choice is the smallest key among all submissions, and a
      choice already made is kept. */
  lemma AutoSelectSmallest(es: seq<Entry>, selected: string)
    ensures selected != "" ==> AutoSelect(selected, Students(es)) == selected
    ensures selected == "" && |es| > 0 ==>
      var chosen := AutoSelect(selected, Students(es));
      && (exists k :: 0 <= k < |es| && GroupKey(es[k]) == chosen)
      && forall k :: 0 <= k < |es| ==> StrLe(chosen, GroupKey(es[k]))
  {
    var groups := Students(es);
    if selected == "" && |es| > 0 {
      assert es[0] in es;
      var g :| 0 <= g < |groups| && groups[g].email == GroupKey(es[0]);
      var chosen := groups[0].email;
      assert groups[0].items == Seqs.Filter(es, KeyIs(chosen)) && |groups[0].items| > 0;
      var x := groups[0].items[0];
      assert x in es && GroupKey(x) == chosen;
      forall k | 0 <= k < |es|
        ensures StrLe(chosen, GroupKey(es[k]))
      {
        assert es[k] in es;
        var j :| 0 <= j < |groups| && groups[j].email == GroupKey(es[k]);
        if j > 0 {
          assert EmailOrder(groups[0], groups[j]);
        } else {
          StrLeTotal(chosen, chosen);
        }
      }
    }
  }

  // ---------------------------------------------------------------- filtering

  function ShownFor(selected: string): Entry -> bool {
    (e: Entry) => selected == "" || HasEmail(e, selected)
  }

  /** `filteredSubmissions`: everything when no student is chosen, otherwise the
      entries with exactly that email. */
  function Filtered(es: seq<Entry>, selected: string): (r: seq<Entry>)
    ensures selected == "" ==> r == es
    ensures selected != "" ==> forall e :: e in r <==> e in es && HasEmail(e, selected)
  {
    assert selected == "" ==> Seqs.Filter(es, ShownFor(selected)) == es by {
      if selected == "" {
        Seqs.FilterKeepsAll(es, ShownFor(selected));
      }
    }
    Seqs.Filter(es, ShownFor(selected))
  }

  /** When every submission carries an email, choosing a student in the sidebar
      shows exactly that student's group. */
  lemma ChosenGroupIsShown(es: seq<Entry>, k: nat)
    requires forall j :: 0 <= j < |es| ==> Truthy(es[j].studentEmail)
    requires k < |Students(es)|
    ensures Filtered(es, Students(es)[k].email) == Students(es)[k].items
  {
    var g := Students(es)[k];
    var x := g.items[0];
    assert x in es;
    assert g.email != "" by {
      assert GroupKey(x) == g.email;
    }
    Seqs.FilterAgree(es, ShownFor(g.email), KeyIs(g.email));
  }

  // ---------------------------------------------------------------- figures

  function SolvedBy(email: string): Entry -> bool {
    (e: Entry) => HasEmail(e, email) && e.isCorrect
  }

  function StatFor(email: string): Ledger.SolvedRow -> bool {
    (s: Ledger.SolvedRow) => s.studentEmail == email
  }

  /** `getSolvedCount`: the first server row for the email when there is one,
      otherwise the number of correct entries with that email. */
  function SolvedCount(stats: seq<Ledger.SolvedRow>, es: seq<Entry>, email: string): (r: nat)
    ensures forall k :: (0 <= k < |stats| && stats[k].studentEmail == email &&
      (forall j :: 0 <= j < k ==> stats[j].studentEmail != email)) ==> r == stats[k].solvedCount
    ensures (forall k :: 0 <= k < |stats| ==> stats[k].studentEmail != email) ==>
      r == |Seqs.Filter(es, SolvedBy(email))| && r <= |es|
  {
    match Seqs.IndexWhere(stats, StatFor(email))
    case Some(i) => stats[i].solvedCount
    case None => |Seqs.Filter(es, SolvedBy(email))|
  }

  lemma {:induction false} CountsOverServerList(store: Ledger.Store, email: string)
    ensures |Seqs.Filter(EntriesOf(store), SolvedBy(email))| == |Seqs.Filter(store, Ledger.SolvedBy(email))|
  {
    if |store| > 0 {
      CountsOverServerList(store[1..], email);
      assert EntriesOf(store)[1..] == EntriesOf(store[1..]);
    }
  }

  /** Over the server's own list and aggregate, the figure is the student's
      number of correct submissions whether or not the aggregate has a row. */
  lemma SolvedCountAgreesWithServer(store: Ledger.Store, email: string)
    ensures SolvedCount(Ledger.SolvedPerStudent(store), EntriesOf(store), email) ==
      |Seqs.Filter(store, Ledger.SolvedBy(email))|
  {
    var rows := Ledger.SolvedPerStudent(store);
    CountsOverServerList(store, email);
    if Ledger.HasRow(rows, email) {
      var k :| 0 <= k < |rows| && rows[k].studentEmail == email;
      var i := Seqs.IndexWhere(rows, StatFor(email)).value;
      assert rows[i].studentEmail == email;
    } else {
      assert !Ledger.HasSolved(store, email);
      forall k | 0 <= k < |store|
        ensures !Ledger.SolvedBy(email)(store[k])
      {
        assert store[k] in store;
      }
      Seqs.FilterNone(store, Ledger.SolvedBy(email));
    }
  }

  function GradedBy(email: string): Entry -> bool {
    (e: Entry) => HasEmail(e, email) && e.grade.Some?
  }

  /** The grades `getAverageGrade` reads: those of the entries with the email. */
  function GradesFor(es: seq<Entry>, email: string): (r: seq<Option<string>>)
    ensures forall g :: g in r <==> exists k :: 0 <= k < |es| && GradedBy(email)(es[k]) && g == es[k].grade
    ensures |r| == |Seqs.Filter(es, GradedBy(email))|
    ensures forall k :: 0 <= k < |r| ==> r[k] == Seqs.Filter(es, GradedBy(email))[k].grade
  {
    var chosen := Seqs.Filter(es, GradedBy(email));
    var r := GradesOf(chosen);
    forall g ensures g in r <==> exists k :: 0 <= k < |es| && GradedBy(email)(es[k]) && g == es[k].grade
    {
      if g in r {
        var i :| 0 <= i < |r| && r[i] == g;
        assert chosen[i] in es;
      }
      if exists k :: 0 <= k < |es| && GradedBy(email)(es[k]) && g == es[k].grade {
        var k :| 0 <= k < |es| && GradedBy(email)(es[k]) && g == es[k].grade;
        assert es[k] in chosen;
        var i :| 0 <= i < |chosen| && chosen[i] == es[k];
        assert r[i] == g;
      }
    }
    r
  }

  lemma GradesForReads(es: seq<Entry>, email: string)
    ensures (forall k :: 0 <= k < |GradesFor(es, email)| ==> !Numbers.Reads(GradesFor(es, email)[k])) <==>
      (forall k :: 0 <= k < |es| && HasEmail(es[k], email) ==> !Numbers.Reads(es[k].grade))
  {
    var grades := GradesFor(es, email);
    if exists k :: 0 <= k < |es| && HasEmail(es[k], email) && Numbers.Reads(es[k].grade) {
      var k :| 0 <= k < |es| && HasEmail(es[k], email) && Numbers.Reads(es[k].grade);
      assert GradedBy(email)(es[k]);
      assert es[k].grade in grades;
    }
    if exists k :: 0 <= k < |grades| && Numbers.Reads(grades[k]) {
      var k :| 0 <= k < |grades| && Numbers.Reads(grades[k]);
      assert grades[k] in grades;
    }
  }

  /** `getAverageGrade`: the mean of the student's grades that read as numbers,
      or null when none does; a grade without digits counts as 0. */
  function AverageGrade(es: seq<Entry>, email: string): (r: Option<real>)
    ensures r.None? <==> forall k :: 0 <= k < |es| && HasEmail(es[k], email) ==> !Numbers.Reads(es[k].grade)
    ensures r.Some? ==> r.value >= 0.0
    ensures r.Some? ==> Numbers.IsMeanOf(r.value, Numbers.NumericGrades(GradesFor(es, email)))
  {
    var nums := Numbers.NumericGrades(GradesFor(es, email));
    GradesForReads(es, email);
    NonNegativeAverage(nums);
    Numbers.Average(nums)
  }

  lemma NonNegativeAverage(nums: seq<real>)
    requires forall k :: 0 <= k < |nums| ==> nums[k] >= 0.0
    ensures |nums| > 0 ==> Numbers.Average(nums).value >= 0.0
  {
    if |nums| > 0 {
      Numbers.AverageWithin(nums, 0.0, Numbers.Best(nums).value);
    }
  }

  /** A letter grade such as "B+" is not dropped: it counts as 0, so the
      student has an average even when it is their only grade. */
  lemma LetterGradeIsKept(es: seq<Entry>, email: string, k: nat)
    requires k < |es| && HasEmail(es[k], email) && es[k].grade.Some?
    requires forall j :: 0 <= j < |es[k].grade.value| ==> !Numbers.IsGradeChar(es[k].grade.value[j])
    ensures AverageGrade(es, email).Some?
    ensures 0.0 in Numbers.NumericGrades(GradesFor(es, email))
  {
    Numbers.LetterGradeIsZero(es[k].grade.value);
    assert GradedBy(email)(es[k]);
    assert es[k].grade in GradesFor(es, email);
  }

  // ---------------------------------------------------------------- grading

  /** The entry with its grade and feedback set, and nothing else changed. */
  function Regraded(e: Entry, grade: string, feedback: string): (r: Entry)
    ensures r.grade == Some(grade) && r.feedback == Some(feedback)
    ensures r.(grade := e.grade, feedback := e.feedback) == e
  {
    e.(grade := Some(grade), feedback := Some(feedback))
  }

  /** `k` is the first position holding the stored record `localId`. */
  predicate FirstWith(list: seq<Entry>, localId: string, k: nat) {
    && k < |list| && list[k].localId == Some(localId)
    && forall j :: 0 <= j < k ==> list[j].localId != Some(localId)
  }

  function LocalIdIs(localId: string): Entry -> bool {
    (e: Entry) => e.localId == Some(localId)
  }

  /** Grading a stored record: the first entry with the id gets the grade and
      feedback, every other entry is kept; no such entry, no change. */
  function GradeLocal(list: seq<Entry>, localId: string, grade: string, feedback: string): (r: Option<seq<Entry>>)
    ensures r.None? <==> forall k :: 0 <= k < |list| ==> list[k].localId != Some(localId)
    ensures r.Some? ==> |r.value| == |list| && forall k :: 0 <= k < |list| ==>
      r.value[k] == (if FirstWith(list, localId, k) then Regraded(list[k], grade, feedback) else list[k])
  {
    match Seqs.IndexWhere(list, LocalIdIs(localId))
    case None => None
    case Some(i) =>
      assert FirstWith(list, localId, i);
      assert forall k :: FirstWith(list, localId, k) ==> k == i;
      Some(list[i := Regraded(list[i], grade, feedback)])
  }

  /** Grading the same stored record twice keeps only the second grade and feedback. */
  lemma LastGradeWins(list: seq<Entry>, localId: string, g1: string, f1: string, g2: string, f2: string)
    requires exists k :: 0 <= k < |list| && list[k].localId == Some(localId)
    ensures var once := GradeLocal(list, localId, g1, f1).value;
      GradeLocal(once, localId, g2, f2) == GradeLocal(list, localId, g2, f2)
  {
    var i := Seqs.IndexWhere(list, LocalIdIs(localId)).value;
    var once := list[i := Regraded(list[i], g1, f1)];
    assert GradeLocal(list, localId, g1, f1) == Some(once);
    assert forall k :: 0 <= k < |list| ==> LocalIdIs(localId)(once[k]) == LocalIdIs(localId)(list[k]);
    assert Seqs.IndexWhere(once, LocalIdIs(localId)) == Some(i);
    assert GradeLocal(once, localId, g2, f2) == Some(once[i := Regraded(once[i], g2, f2)]);
    assert once[i := Regraded(once[i], g2, f2)] == list[i := Regraded(list[i], g2, f2)];
  }

  /** The PUT request's fate. */
  datatype Put = PutOk | PutRefused | PutUnreachable

  datatype GradeOutcome = NothingSelected | SavedOffline | SavedOnServer | SavedLocally | GradeFailed

  /** The stored record the selection points at can be graded in place. */
  predicate LocalHit(sel: Entry, list: seq<Entry>) {
    IsLocal(sel) && exists k :: 0 <= k < |list| && list[k].localId == sel.localId
  }

  /** `sendGrade` over the stored list: the stored-record branch first, then the
      PUT, with the same stored-record attempt repeated after a refused or
      failed PUT. */
  function SendGrade(selected: Option<Entry>, list: seq<Entry>, grade: string, feedback: string, put: Put)
    : (r: (GradeOutcome, seq<Entry>))
    ensures selected.None? ==> r == (NothingSelected, list)
    ensures selected.Some? && LocalHit(selected.value, list) ==>
      r == (SavedOffline, GradeLocal(list, selected.value.localId.value, grade, feedback).value)
    ensures selected.Some? && !LocalHit(selected.value, list) ==>
      && r.1 == list
      && r.0 == (if put == PutOk then SavedOnServer else GradeFailed)
  {
    if selected.None? then (NothingSelected, list)
    else
      var sel := selected.value;
      var first := if IsLocal(sel) then GradeLocal(list, sel.localId.value, grade, feedback) else None;
      if first.Some? then (SavedOffline, first.value)
      else
        match put
        case PutOk => (SavedOnServer, list)
        case PutRefused =>
          var again := if IsLocal(sel) then GradeLocal(list, sel.localId.value, grade, feedback) else None;
          (match again
           case Some(l) => (SavedLocally, l)
           case None => (GradeFailed, list))
        case PutUnreachable =>
          var again := if IsLocal(sel) then GradeLocal(list, sel.localId.value, grade, feedback) else None;
          (match again
           case Some(l) => (SavedOffline, l)
           case None => (GradeFailed, list))
  }

  /** The fallbacks after a failed PUT read the same list as the first attempt,
      so they never save: the 'saved locally' outcome cannot occur. */
  lemma FallbacksNeverSave(selected: Option<Entry>, list: seq<Entry>, grade: string, feedback: string, put: Put)
    ensures SendGrade(selected, list, grade, feedback, put).0 != SavedLocally
  {
  }

  // ---------------------------------------------------------------- delete URLs

  const ApiPrefix := "/api"

  function DropLeadingSlash(p: string): (r: string)
    ensures |p| > 0 && p[0] == '/' ==> r == p[1..]
    ensures !(|p| > 0 && p[0] == '/') ==> r == p
  {
    if |p| > 0 && p[0] == '/' then p[1..] else p
  }

  /** The `/api` variant of a relative path as written:
      `/api${p.startsWith('/') ? '' : '/'}${p.replace(/^\//, '')}`. */
  function ApiVariantAsWritten(p: string): string {
    ApiPrefix + (if |p| > 0 && p[0] == '/' then "" else "/") + DropLeadingSlash(p)
  }

  /** For a path with a leading slash the slash is dropped twice over: the
      variant of `/submissions` is `/apisubmissions`. */
  lemma ApiVariantLosesSlash(p: string)
    requires p == "/submissions"
    ensures ApiVariantAsWritten(p) == "/apisubmissions"
    ensures ApiVariantAsWritten(p) != ApiPrefix + p
  {
    assert ApiVariantAsWritten(p) == ApiPrefix + p[1..];
    assert (ApiPrefix + p)[4] == '/';
    assert ApiVariantAsWritten(p)[4] == 's';
  }

  /** The intended variant: exactly one slash between `/api` and the path. */
  function ApiVariant(p: string): (r: string)
    ensures |p| > 0 && p[0] == '/' ==> r == ApiPrefix + p
    ensures !(|p| > 0 && p[0] == '/') ==> r == ApiPrefix + "/" + p
  {
    ApiPrefix + "/" + DropLeadingSlash(p)
  }

  /** The relative URLs: each path, then its `/api` variant. */
  function RelativeUrls(paths: seq<string>, variant: string -> string): (r: seq<string>)
    ensures |r| == 2 * |paths|
    ensures forall k :: 0 <= k < |paths| ==> r[2 * k] == paths[k] && r[2 * k + 1] == variant(paths[k])
  {
    if |paths| == 0 then [] else [paths[0], variant(paths[0])] + RelativeUrls(paths[1..], variant)
  }

  /** One base with every path, plain and under `/api`. */
  function BaseUrls(base: string, paths: seq<string>): (r: seq<string>)
    ensures |r| == 2 * |paths|
    ensures forall k :: 0 <= k < |paths| ==> r[2 * k] == base + paths[k] && r[2 * k + 1] == base + ApiPrefix + paths[k]
  {
    if |paths| == 0 then [] else [base + paths[0], base + ApiPrefix + paths[0]] + BaseUrls(base, paths[1..])
  }

  /** Where base `b`'s block starts when each block holds `width` URLs:
      `width · b`, written as a sum. */
  function Offset(width: nat, b: nat): (r: nat)
  {
    if b == 0 then 0 else width + Offset(width, b - 1)
  }

  lemma {:induction false} OffsetIsProduct(width: nat, b: nat)
    ensures Offset(width, b) == width * b
  {
    if b > 0 {
      OffsetIsProduct(width, b - 1);
      assert width * b == width + width * (b - 1);
    }
  }

  /** Every base with every path, base by base. */
  function AllBaseUrls(bases: seq<string>, paths: seq<string>): (r: seq<string>)
    ensures |r| == Offset(2 * |paths|, |bases|)
  {
    if |bases| == 0 then [] else BaseUrls(bases[0], paths) + AllBaseUrls(bases[1..], paths)
  }

  /** Base `b`'s block holds, for each path `k`, the base with the path and then
      its `/api` form. */
  lemma {:induction false} AllBaseUrlsAt(bases: seq<string>, paths: seq<string>, b: nat, k: nat)
    requires b < |bases| && k < |paths|
    ensures var at := Offset(2 * |paths|, b) + 2 * k;
      && at + 1 < |AllBaseUrls(bases, paths)|
      && AllBaseUrls(bases, paths)[at] == bases[b] + paths[k]
      && AllBaseUrls(bases, paths)[at + 1] == bases[b] + ApiPrefix + paths[k]
  {
    var m := 2 * |paths|;
    var r := AllBaseUrls(bases, paths);
    var rest := AllBaseUrls(bases[1..], paths);
    assert r == BaseUrls(bases[0], paths) + rest;
    if b > 0 {
      AllBaseUrlsAt(bases[1..], paths, b - 1, k);
      assert bases[1..][b - 1] == bases[b];
    }
  }

  /** `tryDeleteVariants`' URL list as written: the relative URLs with the
      as-written `/api` variant, then every base with every path. */
  function DeleteUrlsAsWritten(configured: string, origin: string, paths: seq<string>): seq<string> {
    RelativeUrls(paths, ApiVariantAsWritten) + AllBaseUrls(SubmitClient.Bases(configured, origin), paths)
  }

  /** The URL list with the intended `/api` variant. */
  function DeleteUrls(configured: string, origin: string, paths: seq<string>): (r: seq<string>)
    ensures var bases := SubmitClient.Bases(configured, origin);
      && |r| == 2 * |paths| + Offset(2 * |paths|, |bases|)
      && (forall k :: 0 <= k < |paths| ==> r[2 * k] == paths[k] && r[2 * k + 1] == ApiVariant(paths[k]))
      && r[2 * |paths|..] == AllBaseUrls(bases, paths)
  {
    var rel := RelativeUrls(paths, ApiVariant);
    var abs := AllBaseUrls(SubmitClient.Bases(configured, origin), paths);
    assert (rel + abs)[|rel|..] == abs;
    rel + abs
  }

  /** For the submissions path the second URL tried differs: the list as
      written asks for `/apisubmissions`, the intended one for `/api/submissions`. */
  lemma SecondDeleteUrl(configured: string, origin: string, p: string)
    requires p == "/submissions"
    ensures DeleteUrlsAsWritten(configured, origin, [p])[1] == "/apisubmissions"
    ensures DeleteUrls(configured, origin, [p])[1] == ApiPrefix + p
  {
    ApiVariantLosesSlash(p);
  }

  /** A DELETE request's fate. */
  datatype DeleteReply = Answered(status: int) | NoResponse

  type DeleteFetch = (nat, string) -> DeleteReply

  predicate Deleted(r: DeleteReply) {
    r.Answered? && Http.IsOkStatus(r.status)
  }

  /** The first URL whose DELETE succeeds, from `from` on. */
  function FirstDeleted(urls: seq<string>, fetch: DeleteFetch, from: nat): (r: Option<nat>)
    requires from <= |urls|
    ensures r.Some? ==>
      && from <= r.value < |urls| && Deleted(fetch(r.value, urls[r.value]))
      && forall k :: from <= k < r.value ==> !Deleted(fetch(k, urls[k]))
    ensures r.None? <==> forall k :: from <= k < |urls| ==> !Deleted(fetch(k, urls[k]))
    decreases |urls| - from
  {
    if from == |urls| then None
    else if Deleted(fetch(from, urls[from])) then Some(from)
    else FirstDeleted(urls, fetch, from + 1)
  }

  /** The status of the last answered request among the first `n`, or 0. */
  function LastStatus(urls: seq<string>, fetch: DeleteFetch, n: nat): (r: int)
    requires n <= |urls|
    ensures r != 0 ==> exists k :: 0 <= k < n && fetch(k, urls[k]) == Answered(r)
    ensures (forall k :: 0 <= k < n ==> fetch(k, urls[k]).NoResponse?) ==> r == 0
  {
    if n == 0 then 0
    else match fetch(n - 1, urls[n - 1])
      case Answered(s) => s
      case NoResponse => LastStatus(urls, fetch, n - 1)
  }

  /** The delete loop: stop at the first success; otherwise report the last
      status seen (0 standing for the network error). */
  method TryDelete(urls: seq<string>, fetch: DeleteFetch) returns (deleted: bool, attempts: nat, lastStatus: int)
    ensures deleted <==> FirstDeleted(urls, fetch, 0).Some?
    ensures deleted ==> attempts == FirstDeleted(urls, fetch, 0).value + 1
    ensures !deleted ==> attempts == |urls| && lastStatus == LastStatus(urls, fetch, |urls|)
  {
    deleted := false;
    lastStatus := 0;
    var i := 0;
    while i < |urls|
      invariant 0 <= i <= |urls|
      invariant FirstDeleted(urls, fetch, 0) == FirstDeleted(urls, fetch, i)
      invariant lastStatus == LastStatus(urls, fetch, i)
    {
      var reply := fetch(i, urls[i]);
      if Deleted(reply) {
        deleted := true;
        attempts := i + 1;
        return;
      }
      if reply.Answered? {
        lastStatus := reply.status;
      }
      i := i + 1;
    }
    attempts := |urls|;
  }
}
