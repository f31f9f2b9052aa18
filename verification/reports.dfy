/** The report workflow screen: building requests and submissions from form
    state, choosing assignees, and the per-submission lifecycle
    no submission -> submitted -> returned or approved, with resubmission
    offered only from returned. */
module Reports {
  import opened Types
  import opened Seqs
  import Grid
  import App

  predicate IsAdminOrManager(role: UserRole) {
    role == Admin || role == Manager
  }

  /** The two faces of the screen: the reviewer's list of requests with
      their assignees' rows, and the employee's list of own requests. */
  datatype Screen = ReviewerScreen | EmployeeScreen

  function ScreenFor(role: UserRole): (s: Screen)
    ensures s == EmployeeScreen <==> role == Employee
  {
    if IsAdminOrManager(role) then ReviewerScreen else EmployeeScreen
  }

  /** The blank 3 x 3 sheet a submission form starts with. */
  function InitialSheet(): (g: Types.Grid)
    ensures |g| == 3 && Grid.Rectangular(g)
    ensures forall i, j :: 0 <= i < 3 && 0 <= j < |g[i]| ==> g[i][j] == Grid.EmptyCell
    ensures |g[0]| == 3
  {
    var row := [Grid.EmptyCell, Grid.EmptyCell, Grid.EmptyCell];
    [row, row, row]
  }

  // -----------------------------------------------------------------------
  // Choosing assignees

  /** The first group with the given id: `userGroups.find(...)`. */
  function GroupById(groups: seq<UserGroup>, groupId: string): (r: Option<UserGroup>)
    ensures r.None? <==> forall i :: 0 <= i < |groups| ==> groups[i].id != groupId
    ensures r.Some? ==> exists k :: 0 <= k < |groups| && groups[k] == r.value && r.value.id == groupId
                                  && forall j :: 0 <= j < k ==> groups[j].id != groupId
  {
    Find((g: UserGroup) => g.id == groupId, groups)
  }

  /** Choosing a group in the picker: the current choice followed by the
      group's members not yet chosen, as a `Set` built from both lists
      yields them. An empty choice or an unknown group changes nothing. */
  function SelectGroup(chosen: seq<string>, groups: seq<UserGroup>, groupId: string): (r: seq<string>)
    ensures groupId == "" || GroupById(groups, groupId).None? ==> r == chosen
    ensures groupId != "" && GroupById(groups, groupId).Some? ==>
      var members := GroupById(groups, groupId).value.userIds;
      && NoDup(r)
      && (forall i :: 0 <= i < |r| ==> r[i] in chosen || r[i] in members)
      && (forall i :: 0 <= i < |chosen| ==> chosen[i] in r)
      && (forall i :: 0 <= i < |members| ==> members[i] in r)
      && (forall i, j :: 0 <= i < j < |r| ==> IndexOf(chosen + members, r[i]) < IndexOf(chosen + members, r[j]))
  {
    if groupId == "" then chosen
    else match GroupById(groups, groupId)
      case None => chosen
      case Some(g) =>
        var r := Dedup(chosen + g.userIds);
        assert forall i :: 0 <= i < |chosen| ==> chosen[i] == (chosen + g.userIds)[i];
        assert forall i :: 0 <= i < |g.userIds| ==> g.userIds[i] == (chosen + g.userIds)[|chosen| + i];
        r
  }

  /** A duplicate-free choice keeps its order and the new members follow it. */
  lemma SelectGroupExtends(chosen: seq<string>, members: seq<string>)
    requires NoDup(chosen)
    ensures var r := Dedup(chosen + members);
      |chosen| <= |r| && r[..|chosen|] == chosen
  {
    DedupIntoConcat(chosen, members, []);
    assert [] + chosen == chosen;
    DedupIntoFresh(chosen, []);
  }

  /** Adding the same members a second time adds nothing. */
  lemma DedupAgain(chosen: seq<string>, members: seq<string>)
    ensures Dedup(Dedup(chosen + members) + members) == Dedup(chosen + members)
  {
    var once := Dedup(chosen + members);
    DedupIntoConcat(once, members, []);
    assert [] + once == once;
    DedupIntoFresh(once, []);
    forall x | x in members ensures x in once {
      var i :| 0 <= i < |members| && members[i] == x;
      assert x == (chosen + members)[|chosen| + i];
    }
    DedupIntoPresent(members, once);
  }

  /** Choosing the same group twice is choosing it once. */
  lemma SelectGroupIdempotent(chosen: seq<string>, groups: seq<UserGroup>, groupId: string)
    ensures var once := SelectGroup(chosen, groups, groupId);
      SelectGroup(once, groups, groupId) == once
  {
    if groupId != "" {
      match GroupById(groups, groupId)
      case None =>
      case Some(g) => DedupAgain(chosen, g.userIds);
    }
  }

  /** A user's checkbox: checking appends the id, unchecking removes every
      occurrence of it. */
  function ToggleAssignee(chosen: seq<string>, id: string, checked: bool): (r: seq<string>)
    ensures checked ==> r == chosen + [id]
    ensures !checked ==> id !in r && forall x :: x != id ==> (x in r <==> x in chosen)
    ensures !checked ==> |r| <= |chosen|
    ensures !checked ==> Selects(r, chosen, (x: string) => x != id)
  {
    FilterSelects((x: string) => x != id, chosen);
    if checked then chosen + [id] else Filter((x: string) => x != id, chosen)
  }

  /** The box is shown checked exactly when the id is chosen, so a click
      asks for the opposite; clicks keep the choice duplicate-free. */
  function Click(chosen: seq<string>, id: string): (r: seq<string>)
    ensures id in r <==> id !in chosen
    ensures forall x :: x != id ==> (x in r <==> x in chosen)
    ensures id !in chosen ==> r == chosen + [id]
    ensures id in chosen ==> Selects(r, chosen, (x: string) => x != id)
  {
    ToggleAssignee(chosen, id, id !in chosen)
  }

  lemma ClickKeepsNoDup(chosen: seq<string>, id: string)
    requires NoDup(chosen)
    ensures NoDup(Click(chosen, id))
  {
    if id !in chosen {
    } else {
      FilterNoDup((x: string) => x != id, chosen);
    }
  }

  lemma {:induction false} FilterNoDup<T>(p: T -> bool, s: seq<T>)
    requires NoDup(s)
    ensures NoDup(Filter(p, s))
  {
    if |s| > 0 {
      assert NoDup(s[1..]) by {
        forall i, j | 0 <= i < j < |s[1..]| ensures s[1..][i] != s[1..][j] {
          assert s[1..][i] == s[i + 1] && s[1..][j] == s[j + 1];
        }
      }
      FilterNoDup(p, s[1..]);
      if p(s[0]) {
        var r := Filter(p, s);
        assert s[0] !in s[1..] by {
          forall k | 0 <= k < |s[1..]| ensures s[1..][k] != s[0] {
            assert s[1..][k] == s[k + 1];
          }
        }
        forall i, j | 0 <= i < j < |r| ensures r[i] != r[j] {
          if i == 0 {
            assert r[j] == Filter(p, s[1..])[j - 1];
          } else {
            assert r[i] == Filter(p, s[1..])[i - 1] && r[j] == Filter(p, s[1..])[j - 1];
          }
        }
      }
    }
  }

  /** Clicking the same box twice restores which ids are chosen. */
  lemma ClickTwice(chosen: seq<string>, id: string, x: string)
    ensures x in Click(Click(chosen, id), id) <==> x in chosen
  {
  }

  // -----------------------------------------------------------------------
  // Requests and groups

  datatype RequestForm = RequestForm(title: string, description: string, dueDate: string, chosen: seq<string>)

  /** The request the form describes, owned by the current user, in any
      format. */
  function BuildRequest(f: RequestForm, me: User, now: string): ReportRequest {
    ReportRequest("req-" + now, f.title, f.description, f.dueDate, me.id, f.chosen, AnyFormat)
  }

  /** After a request is created only the title and the choice are cleared;
      description and due date stay filled in. */
  function ResetAfterCreate(f: RequestForm): (r: RequestForm)
    ensures r.title == "" && r.chosen == []
    ensures r.description == f.description && r.dueDate == f.dueDate
  {
    f.(title := "", chosen := [])
  }

  /** Creating a request from the form notifies exactly the chosen ids, each
      as often as it was chosen, and records the current user as author. */
  lemma CreateFromForm(st: App.AppState, f: RequestForm, me: User, now: string)
    ensures var r := App.CreateRequest(st, BuildRequest(f, me, now), now);
      && r.requests[|r.requests| - 1].createdBy == me.id
      && r.requests[|r.requests| - 1].assignedUserIds == f.chosen
      && r.requests[|r.requests| - 1].requiredFormat == AnyFormat
      && multiset(App.Targets(r.notifications[..|f.chosen|])) == multiset(f.chosen)
  {
    App.CreateRequestNotifiesEachAssignee(st, BuildRequest(f, me, now), now);
  }

  predicate CanSaveGroup(name: string, members: seq<string>) {
    name != "" && |members| > 0
  }

  /** Saving the group form adds one group exactly when it has a name and
      at least one member. */
  function SaveGroup(st: App.AppState, name: string, members: seq<string>, now: string): (r: App.AppState)
    ensures |r.groups| == |st.groups| + 1 <==> name != "" && |members| > 0
    ensures |r.groups| == |st.groups| <==> name == "" || members == []
    ensures |r.groups| > |st.groups| ==> r.groups[|st.groups|].name == name && r.groups[|st.groups|].userIds == members
    ensures r.groups[..|st.groups|] == st.groups
    ensures r == st.(groups := r.groups)
  {
    if CanSaveGroup(name, members) then App.CreateGroup(st, name, members, now) else st
  }

  /** A group saved from the form under an unused id can be deleted again,
      restoring the groups as they were. */
  lemma SaveGroupUndo(st: App.AppState, name: string, members: seq<string>, now: string)
    requires forall i :: 0 <= i < |st.groups| ==> st.groups[i].id != "g-" + now
    ensures App.DeleteGroup(SaveGroup(st, name, members, now), "g-" + now) == st
  {
    if CanSaveGroup(name, members) {
      App.DeleteCreatedGroup(st, name, members, now);
    } else {
      FilterKeepsAll((g: UserGroup) => g.id != "g-" + now, st.groups);
    }
  }

  // -----------------------------------------------------------------------
  // Submissions and the lifecycle

  /** The employee's submission for the open request, or nothing when no
      request is open. */
  function BuildSubmission(selected: Option<ReportRequest>, me: User, content: string, sheet: Types.Grid,
                           files: seq<string>, now: string, isoNow: string): (r: Option<ReportSubmission>)
    ensures r.None? <==> selected.None?
    ensures r.Some? ==> (r.value.status == Submitted && r.value.requestId == selected.value.id
      && r.value.userId == me.id && r.value.feedback.None?
      && r.value.content == Some(content) && r.value.tableData == Some(sheet) && r.value.files == Some(files))
  {
    match selected
    case None => None
    case Some(req) =>
      Some(ReportSubmission("sub-" + now, req.id, me.id, Some(isoNow), Submitted,
                            Some(content), Some(sheet), Some(files), None))
  }

  /** The requests an employee is asked for. */
  function MyRequests(reqs: seq<ReportRequest>, me: string): (r: seq<ReportRequest>)
    ensures forall x :: x in r <==> x in reqs && me in x.assignedUserIds
    ensures Selects(r, reqs, (q: ReportRequest) => me in q.assignedUserIds)
  {
    FilterSelects((q: ReportRequest) => me in q.assignedUserIds, reqs);
    Filter((q: ReportRequest) => me in q.assignedUserIds, reqs)
  }

  datatype EmployeeAction = SubmitFirst | Resubmit | Wait

  /** What the employee's row for a request offers. */
  function ActionFor(sub: Option<ReportSubmission>): (a: EmployeeAction)
    ensures a == SubmitFirst <==> sub.None?
    ensures a == Resubmit <==> sub.Some? && sub.value.status == Returned
    ensures a == Wait <==> sub.Some? && sub.value.status != Returned
  {
    match sub
    case None => SubmitFirst
    case Some(s) => if s.status == Returned then Resubmit else Wait
  }

  datatype Decision = SendBack | Accept

  /** The status a review button gives. */
  function DecisionStatus(d: Decision): (s: ReportStatus)
    ensures s == Returned || s == Approved
    ensures s == Returned <==> d == SendBack
  {
    match d
    case SendBack => Returned
    case Accept => Approved
  }

  /** A review button applied to the submission under review, passing the
      typed feedback as it is (even when empty). */
  function Review(st: App.AppState, reviewed: ReportSubmission, d: Decision, feedback: string): (r: App.AppState)
    ensures |r.submissions| == |st.submissions|
    ensures forall i :: 0 <= i < |st.submissions| && st.submissions[i].id == reviewed.id ==>
      r.submissions[i] == st.submissions[i].(status := DecisionStatus(d), feedback := Some(feedback))
    ensures forall i :: 0 <= i < |st.submissions| && st.submissions[i].id == reviewed.id ==>
      (r.submissions[i].status == Returned <==> d == SendBack) && r.submissions[i].status in {Returned, Approved}
    ensures forall i :: 0 <= i < |st.submissions| && st.submissions[i].id != reviewed.id ==>
      r.submissions[i] == st.submissions[i]
    ensures r == st.(submissions := r.submissions)
  {
    App.UpdateSubmissionStatus(st, reviewed.id, DecisionStatus(d), Some(feedback))
  }

  /** The rows of a request on the reviewer's screen: one per assignee,
      with that assignee's submission if there is one. */
  function AssigneeRows(req: ReportRequest, subs: seq<ReportSubmission>): (rows: seq<Option<ReportSubmission>>)
    ensures |rows| == |req.assignedUserIds|
    ensures forall i :: 0 <= i < |rows| ==> (rows[i].None? <==>
      forall j :: 0 <= j < |subs| ==> !App.SamePair(subs[j], req.id, req.assignedUserIds[i]))
    ensures forall i :: 0 <= i < |rows| && rows[i].Some? ==>
      exists k :: 0 <= k < |subs| && subs[k] == rows[i].value && App.SamePair(subs[k], req.id, req.assignedUserIds[i]) &&
        forall j :: 0 <= j < k ==> !App.SamePair(subs[j], req.id, req.assignedUserIds[i])
  {
    seq(|req.assignedUserIds|, i requires 0 <= i < |req.assignedUserIds| =>
      App.Lookup(subs, req.id, req.assignedUserIds[i]))
  }

  /** A submission shows up on the reviewer's row of its author and leaves
      the rows of the other assignees as they were. */
  lemma SubmitShowsOnRow(st: App.AppState, req: ReportRequest, sub: ReportSubmission, now: string, i: nat)
    requires sub.requestId == req.id && i < |req.assignedUserIds|
    ensures var after := AssigneeRows(req, App.SubmitReport(st, sub, now).submissions);
      var before := AssigneeRows(req, st.submissions);
      && (req.assignedUserIds[i] == sub.userId ==> after[i] == Some(sub))
      && (req.assignedUserIds[i] != sub.userId ==> after[i] == before[i])
  {
    App.UpsertLookup(st.submissions, sub, req.id, req.assignedUserIds[i]);
  }

  /** The whole round: a fresh submission leaves the employee waiting; a
      review then offers a resubmission exactly when it sent the report
      back, and the employee sees the reviewer's feedback. */
  lemma Lifecycle(st: App.AppState, selected: ReportRequest, me: User, content: string, sheet: Types.Grid,
                  files: seq<string>, now: string, isoNow: string, d: Decision, feedback: string)
    ensures var sub := BuildSubmission(Some(selected), me, content, sheet, files, now, isoNow).value;
      var st1 := App.SubmitReport(st, sub, now);
      var st2 := Review(st1, sub, d, feedback);
      var seen1 := App.Lookup(st1.submissions, selected.id, me.id);
      var seen2 := App.Lookup(st2.submissions, selected.id, me.id);
      && seen1 == Some(sub) && ActionFor(seen1) == Wait
      && seen2.Some? && seen2.value.feedback == Some(feedback)
      && seen2.value.status == DecisionStatus(d)
      && (ActionFor(seen2) == Resubmit <==> d == SendBack)
  {
    var sub := BuildSubmission(Some(selected), me, content, sheet, files, now, isoNow).value;
    var st1 := App.SubmitReport(st, sub, now);
    App.UpsertLookup(st.submissions, sub, selected.id, me.id);
    App.ReviewLookup(st1, sub.id, DecisionStatus(d), Some(feedback), selected.id, me.id);
  }

  /** Resubmitting a returned report replaces it: the employee then waits
      again and the list of submissions does not grow. */
  lemma ResubmitReplaces(st: App.AppState, sub: ReportSubmission, now: string)
    requires sub.status == Submitted
    requires ActionFor(App.Lookup(st.submissions, sub.requestId, sub.userId)) == Resubmit
    ensures var st1 := App.SubmitReport(st, sub, now);
      && |st1.submissions| == |st.submissions|
      && ActionFor(App.Lookup(st1.submissions, sub.requestId, sub.userId)) == Wait
  {
    App.UpsertLookup(st.submissions, sub, sub.requestId, sub.userId);
  }
}
