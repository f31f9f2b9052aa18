/** The application root: one state record holding every store, and one
    pure transition per event handler. Fresh ids and time stamps, which the
    application draws from the clock and a random generator, are
    parameters: `now` stands for the current time in milliseconds as text. */
module App {
  import opened Types
  import opened Seqs

  const Unassigned: string := "Не назначен"
  const JustNow: string := "Только что"
  const WelcomeTitle: string := "Добро пожаловать"
  const AvatarColors: seq<string> := ["bg-red-500", "bg-yellow-500", "bg-green-500", "bg-blue-500", "bg-purple-500"]

  datatype AppState = AppState(
    users: seq<User>,
    groups: seq<UserGroup>,
    session: Option<User>,
    tasks: seq<Task>,
    projects: seq<Project>,
    notifications: seq<Notification>,
    requests: seq<ReportRequest>,
    submissions: seq<ReportSubmission>,
    view: AppView,
    currentProjectId: string,
    priorityFilter: Option<TaskPriority>)

  /** `currentUser?.name` inside a template string: the name, or the text
      "undefined" when nobody is signed in. */
  function SessionName(st: AppState): string {
    if st.session.Some? then st.session.value.name else "undefined"
  }

  /** `currentUser?.name` compared with a name: an absent session equals
      no string. */
  predicate IsSessionName(st: AppState, name: string) {
    st.session.Some? && st.session.value.name == name
  }

  // ---------------------------------------------------------------------
  // Session and users

  function Login(st: AppState, u: User): (r: AppState)
    ensures r.session == Some(u) && r.view == HomeView
    ensures r == st.(session := r.session, view := r.view)
  {
    st.(session := Some(u), view := HomeView)
  }

  function Logout(st: AppState): (r: AppState)
    ensures r.session.None?
    ensures r == st.(session := None)
  {
    st.(session := None)
  }

  /** Signing out and in again as someone is signing in as that user
      directly; signing out after signing in returns to the stores as they
      were, on the home view. */
  lemma SessionRoundTrip(st: AppState, u: User)
    ensures Login(Logout(st), u) == Login(st, u)
    ensures Logout(Login(st, u)) == st.(session := None, view := HomeView)
  {
  }

  function WelcomeNotice(userId: string, now: string): Notification {
    Notification("n-" + now, WelcomeTitle, "Спасибо за регистрацию!", JustNow, false, Alert, userId, None)
  }

  /** Registration appends the new user, greets them with one unread alert
      addressed to their id, and signs them in. `colorIndex` is the
      random pick among the five avatar colours. */
  function Register(st: AppState, name: string, role: UserRole, password: string,
                    now: string, colorIndex: nat): (r: AppState)
    requires colorIndex < |AvatarColors|
    ensures |r.users| == |st.users| + 1 && r.users[..|st.users|] == st.users
    ensures var u := r.users[|st.users|];
      u.id == now && u.name == name && u.role == role && u.password == Some(password)
      && u.avatarColor in AvatarColors && u.email.None? && u.position.None?
      && r.session == Some(u)
    ensures |r.notifications| == |st.notifications| + 1 && r.notifications[1..] == st.notifications
    ensures var n := r.notifications[0];
      n.toUserId == now && n.kind == Alert && !n.read && n.title == WelcomeTitle
    ensures r.notifications[0] == WelcomeNotice(now, now)
    ensures r.view == HomeView
    ensures r == st.(users := r.users, notifications := r.notifications, session := r.session, view := r.view)
  {
    var u := User(now, name, role, AvatarColors[colorIndex], Some(password), None, None);
    st.(users := st.users + [u],
        notifications := [WelcomeNotice(u.id, now)] + st.notifications,
        session := Some(u),
        view := HomeView)
  }

  /** The fields the profile form submits. */
  datatype ProfilePatch = ProfilePatch(name: string, password: string, email: string, position: string)

  function ApplyProfile(u: User, p: ProfilePatch): User {
    u.(name := p.name, password := Some(p.password), email := Some(p.email), position := Some(p.position))
  }

  /** A profile edit merges the form into the signed-in user and replaces
      every stored user with that id; with nobody signed in nothing happens. */
  function UpdateUser(st: AppState, p: ProfilePatch): (r: AppState)
    ensures st.session.None? ==> r == st
    ensures st.session.Some? ==>
      var u := st.session.value;
      && r.session == Some(ApplyProfile(u, p))
      && |r.users| == |st.users|
      && (forall i :: 0 <= i < |st.users| && st.users[i].id == u.id ==> r.users[i] == ApplyProfile(u, p))
      && (forall i :: 0 <= i < |st.users| && st.users[i].id != u.id ==> r.users[i] == st.users[i])
    ensures r == st.(users := r.users, session := r.session)
  {
    match st.session
    case None => st
    case Some(u) =>
      var v := ApplyProfile(u, p);
      st.(session := Some(v),
          users := seq(|st.users|, i requires 0 <= i < |st.users| => if st.users[i].id == u.id then v else st.users[i]))
  }

  /** Submitting the same profile form twice is submitting it once, and a
      signed-in user who is stored stays stored, under the merged values. */
  lemma UpdateUserIdempotent(st: AppState, p: ProfilePatch)
    ensures UpdateUser(UpdateUser(st, p), p) == UpdateUser(st, p)
    ensures st.session.Some? && st.session.value in st.users ==>
      UpdateUser(st, p).session.value in UpdateUser(st, p).users
  {
    if st.session.Some? {
      var u := st.session.value;
      var v := ApplyProfile(u, p);
      var r1 := UpdateUser(st, p);
      assert ApplyProfile(v, p) == v;
      assert UpdateUser(r1, p).users == r1.users;
      if u in st.users {
        var i :| 0 <= i < |st.users| && st.users[i] == u;
        assert r1.users[i] == v;
      }
    }
  }

  // ---------------------------------------------------------------------
  // Groups and projects

  function CreateGroup(st: AppState, name: string, userIds: seq<string>, now: string): (r: AppState)
    ensures r.groups == st.groups + [UserGroup("g-" + now, name, userIds)]
    ensures r == st.(groups := r.groups)
  {
    st.(groups := st.groups + [UserGroup("g-" + now, name, userIds)])
  }

  /** Deleting a group drops every group with that id and keeps the rest in
      order. */
  function DeleteGroup(st: AppState, groupId: string): (r: AppState)
    ensures forall i :: 0 <= i < |r.groups| ==> r.groups[i].id != groupId && r.groups[i] in st.groups
    ensures forall i :: 0 <= i < |st.groups| && st.groups[i].id != groupId ==> st.groups[i] in r.groups
    ensures Selects(r.groups, st.groups, (g: UserGroup) => g.id != groupId)
    ensures r == st.(groups := r.groups)
  {
    FilterSelects((g: UserGroup) => g.id != groupId, st.groups);
    st.(groups := Filter((g: UserGroup) => g.id != groupId, st.groups))
  }

  /** Deleting a group right after creating it, under an id no stored group
      has, restores the groups as they were. */
  lemma DeleteCreatedGroup(st: AppState, name: string, userIds: seq<string>, now: string)
    requires forall i :: 0 <= i < |st.groups| ==> st.groups[i].id != "g-" + now
    ensures DeleteGroup(CreateGroup(st, name, userIds, now), "g-" + now) == st
  {
    var keep := (g: UserGroup) => g.id != "g-" + now;
    var created := UserGroup("g-" + now, name, userIds);
    FilterConcat(keep, st.groups, [created]);
    FilterKeepsAll(keep, st.groups);
    assert Filter(keep, [created]) == [];
  }

  function CreateProject(st: AppState, name: string, color: string, now: string): (r: AppState)
    ensures |r.projects| == |st.projects| + 1 && r.projects[..|st.projects|] == st.projects
    ensures r.projects[|st.projects|] == Project("p" + now, name, color)
    ensures r.view == ProjectView && r.currentProjectId == "p" + now
    ensures r == st.(projects := r.projects, view := r.view, currentProjectId := r.currentProjectId)
  {
    st.(projects := st.projects + [Project("p" + now, name, color)],
        view := ProjectView,
        currentProjectId := "p" + now)
  }

  /** A project just created under an unused id shows no tasks. */
  lemma NewProjectShowsNoTasks(st: AppState, name: string, color: string, now: string)
    requires forall i :: 0 <= i < |st.tasks| ==> st.tasks[i].projectId != Some("p" + now)
    ensures FilteredTasks(CreateProject(st, name, color, now)) == []
  {
    var r := CreateProject(st, name, color, now);
    FilteredTasksSpec(r);
    FilterKeepsNone((t: Task) => Visible(r, t), r.tasks);
  }

  /** Navigation switches the view, and the project only when a non-empty
      project id is given. */
  function Navigate(st: AppState, view: AppView, projectId: Option<string>): (r: AppState)
    ensures r.view == view
    ensures r.currentProjectId == (if projectId.Some? && projectId.value != "" then projectId.value else st.currentProjectId)
    ensures r == st.(view := r.view, currentProjectId := r.currentProjectId)
  {
    st.(view := view, currentProjectId := OrDefault(projectId, st.currentProjectId))
  }

  /** Leaving a project for another view and coming back to the project
      view without naming a project shows the same project again. */
  lemma NavigateBackToProject(st: AppState, projectId: string, elsewhere: AppView)
    requires projectId != ""
    ensures var there := Navigate(st, ProjectView, Some(projectId));
      Navigate(Navigate(there, elsewhere, None), ProjectView, None) == there
  {
  }

  // ---------------------------------------------------------------------
  // Report requests and submissions

  function RequestNotice(title: string, uid: string, now: string): Notification {
    Notification("n-" + now + "-" + uid, "Запрос отчета", "Требуется сдать отчет: " + title,
                 JustNow, false, Alert, uid, None)
  }

  /** One notice per assignee, each prepended in turn, so the notice of the
      last assignee ends up first. */
  function FanOut(title: string, ids: seq<string>, now: string, ns: seq<Notification>): (r: seq<Notification>)
    ensures |r| == |ids| + |ns|
    ensures r[|ids|..] == ns
    ensures forall k :: 0 <= k < |ids| ==> r[k] == RequestNotice(title, ids[|ids| - 1 - k], now)
  {
    if |ids| == 0 then ns
    else FanOut(title, ids[1..], now, [RequestNotice(title, ids[0], now)] + ns)
  }

  function Targets(ns: seq<Notification>): (ids: seq<string>)
    ensures |ids| == |ns|
    ensures forall i :: 0 <= i < |ns| ==> ids[i] == ns[i].toUserId
  {
    seq(|ns|, i requires 0 <= i < |ns| => ns[i].toUserId)
  }

  function CreateRequest(st: AppState, req: ReportRequest, now: string): (r: AppState)
    ensures r.requests == st.requests + [req]
    ensures |r.notifications| == |st.notifications| + |req.assignedUserIds|
    ensures r.notifications[|req.assignedUserIds|..] == st.notifications
    ensures r == st.(requests := r.requests, notifications := r.notifications)
  {
    st.(requests := st.requests + [req],
        notifications := FanOut(req.title, req.assignedUserIds, now, st.notifications))
  }

  lemma {:induction false} ReversedMultiset(ids: seq<string>, rev: seq<string>)
    requires |rev| == |ids|
    requires forall k :: 0 <= k < |ids| ==> rev[k] == ids[|ids| - 1 - k]
    ensures multiset(rev) == multiset(ids)
  {
    if |ids| > 0 {
      var n := |ids|;
      ReversedMultiset(ids[1..], rev[..n - 1]);
      assert rev == rev[..n - 1] + [rev[n - 1]];
      assert ids == [ids[0]] + ids[1..];
    }
  }

  /** Creating a request sends exactly one unread alert per entry of the
      assignee list, addressed to that entry and naming the request. */
  lemma CreateRequestNotifiesEachAssignee(st: AppState, req: ReportRequest, now: string)
    ensures var r := CreateRequest(st, req, now);
      var sent := r.notifications[..|req.assignedUserIds|];
      && multiset(Targets(sent)) == multiset(req.assignedUserIds)
      && (forall i :: 0 <= i < |sent| ==>
            sent[i].kind == Alert && !sent[i].read
            && sent[i].description == "Требуется сдать отчет: " + req.title)
  {
    var ids := req.assignedUserIds;
    var sent := CreateRequest(st, req, now).notifications[..|ids|];
    ReversedMultiset(ids, Targets(sent));
  }

  predicate SamePair(s: ReportSubmission, requestId: string, userId: string) {
    s.requestId == requestId && s.userId == userId
  }

  /** The index of the first submission for the pair, or the length of
      the list when there is none: `findIndex` with -1 read as "past the
      end". */
  function PairIndex(subs: seq<ReportSubmission>, requestId: string, userId: string): (k: nat)
    ensures k <= |subs|
    ensures forall j :: 0 <= j < k ==> !SamePair(subs[j], requestId, userId)
    ensures k < |subs| ==> SamePair(subs[k], requestId, userId)
  {
    if |subs| == 0 then 0
    else if SamePair(subs[0], requestId, userId) then 0
    else PairIndex(subs[1..], requestId, userId) + 1
  }

  /** `reportSubmissions.find(...)` on the pair: the submission a user's
      screen shows for a request. */
  function Lookup(subs: seq<ReportSubmission>, requestId: string, userId: string): (r: Option<ReportSubmission>)
    ensures r.Some? ==> r.value in subs && SamePair(r.value, requestId, userId)
    ensures r.Some? ==>
      exists k :: 0 <= k < |subs| && subs[k] == r.value && (forall j :: 0 <= j < k ==> !SamePair(subs[j], requestId, userId))
    ensures r.None? <==> forall i :: 0 <= i < |subs| ==> !SamePair(subs[i], requestId, userId)
  {
    var k := PairIndex(subs, requestId, userId);
    if k < |subs| then Some(subs[k]) else None
  }

  ghost predicate UniquePairs(subs: seq<ReportSubmission>) {
    forall i, j :: 0 <= i < j < |subs| ==> !SamePair(subs[j], subs[i].requestId, subs[i].userId)
  }

  /** Resubmission replaces the first submission for the same request and
      user in place; a first submission is appended. */
  function Upsert(subs: seq<ReportSubmission>, sub: ReportSubmission): (r: seq<ReportSubmission>)
    ensures (exists i :: 0 <= i < |subs| && SamePair(subs[i], sub.requestId, sub.userId)) ==>
      |r| == |subs| &&
      exists k :: 0 <= k < |subs| && SamePair(subs[k], sub.requestId, sub.userId)
        && (forall j :: 0 <= j < k ==> !SamePair(subs[j], sub.requestId, sub.userId))
        && r == subs[k := sub]
    ensures (forall i :: 0 <= i < |subs| ==> !SamePair(subs[i], sub.requestId, sub.userId)) ==>
      r == subs + [sub]
  {
    var k := PairIndex(subs, sub.requestId, sub.userId);
    if k < |subs| then subs[k := sub] else subs + [sub]
  }

  /** Upsert keeps the (request, user) pairs unique and leaves the
      submission of every other pair as it was. */
  lemma UpsertKeepsPairsUnique(subs: seq<ReportSubmission>, sub: ReportSubmission)
    requires UniquePairs(subs)
    ensures UniquePairs(Upsert(subs, sub))
  {
  }

  /** A first index is the first index. */
  lemma PairIndexAt(subs: seq<ReportSubmission>, requestId: string, userId: string, k: nat)
    requires k <= |subs|
    requires forall j :: 0 <= j < k ==> !SamePair(subs[j], requestId, userId)
    requires k < |subs| ==> SamePair(subs[k], requestId, userId)
    ensures PairIndex(subs, requestId, userId) == k
  {
  }

  /** After a submission, looking up its pair finds it, and every other pair
      finds what it found before. */
  lemma UpsertLookup(subs: seq<ReportSubmission>, sub: ReportSubmission, requestId: string, userId: string)
    ensures Lookup(Upsert(subs, sub), sub.requestId, sub.userId) == Some(sub)
    ensures (requestId != sub.requestId || userId != sub.userId) ==>
      Lookup(Upsert(subs, sub), requestId, userId) == Lookup(subs, requestId, userId)
  {
    var r := Upsert(subs, sub);
    var k := PairIndex(subs, sub.requestId, sub.userId);
    PairIndexAt(r, sub.requestId, sub.userId, k);
    if requestId != sub.requestId || userId != sub.userId {
      var m := PairIndex(subs, requestId, userId);
      if m < |subs| {
        PairIndexAt(r, requestId, userId, m);
      } else {
        PairIndexAt(r, requestId, userId, |r|);
      }
    }
  }

  function SubmittedNotice(st: AppState, adminId: string, now: string): Notification {
    Notification("n-" + now + "-adm", "Отчет сдан", SessionName(st) + " сдал отчет.",
                 JustNow, false, Assignment, adminId, None)
  }

  /** Submitting stores the submission by upsert and, when some user is an
      admin, prepends one notice addressed to the first admin. */
  function SubmitReport(st: AppState, sub: ReportSubmission, now: string): (r: AppState)
    ensures r.submissions == Upsert(st.submissions, sub)
    ensures (forall i :: 0 <= i < |st.users| ==> st.users[i].role != Admin) ==>
      r.notifications == st.notifications
    ensures (exists i :: 0 <= i < |st.users| && st.users[i].role == Admin) ==>
      |r.notifications| == |st.notifications| + 1 && r.notifications[1..] == st.notifications
      && r.notifications[0].kind == Assignment
      && exists k :: 0 <= k < |st.users| && st.users[k].role == Admin
           && (forall j :: 0 <= j < k ==> st.users[j].role != Admin)
           && r.notifications[0].toUserId == st.users[k].id
           && r.notifications[0] == SubmittedNotice(st, st.users[k].id, now)
    ensures (exists i :: 0 <= i < |st.users| && st.users[i].role == Admin) ==>
      !r.notifications[0].read && r.notifications[0].title == "Отчет сдан"
      && r.notifications[0].description == SessionName(st) + " сдал отчет."
    ensures r == st.(submissions := r.submissions, notifications := r.notifications)
  {
    var subs := Upsert(st.submissions, sub);
    match Find((u: User) => u.role == Admin, st.users)
    case None => st.(submissions := subs)
    case Some(admin) =>
      st.(submissions := subs, notifications := [SubmittedNotice(st, admin.id, now)] + st.notifications)
  }

  function SetReview(s: ReportSubmission, status: ReportStatus, feedback: Option<string>): ReportSubmission {
    s.(status := status, feedback := feedback)
  }

  /** A review decision rewrites status and feedback of the submissions with
      the given id and nothing else. */
  function UpdateSubmissionStatus(st: AppState, submissionId: string, status: ReportStatus,
                                  feedback: Option<string>): (r: AppState)
    ensures |r.submissions| == |st.submissions|
    ensures forall i :: 0 <= i < |st.submissions| ==>
      var s := st.submissions[i];
      var t := r.submissions[i];
      && t.id == s.id && t.requestId == s.requestId && t.userId == s.userId
      && t.submittedAt == s.submittedAt && t.content == s.content
      && t.tableData == s.tableData && t.files == s.files
      && (s.id == submissionId ==> t.status == status && t.feedback == feedback)
      && (s.id != submissionId ==> t == s)
    ensures r == st.(submissions := r.submissions)
  {
    var subs := st.submissions;
    st.(submissions := seq(|subs|, i requires 0 <= i < |subs| =>
          if subs[i].id == submissionId then SetReview(subs[i], status, feedback) else subs[i]))
  }

  /** A review leaves every (request, user) pair finding the same record,
      with the new status when that record carries the reviewed id. */
  lemma ReviewLookup(st: AppState, submissionId: string, status: ReportStatus, feedback: Option<string>,
                     requestId: string, userId: string)
    ensures var before := Lookup(st.submissions, requestId, userId);
      var after := Lookup(UpdateSubmissionStatus(st, submissionId, status, feedback).submissions, requestId, userId);
      && (before.None? <==> after.None?)
      && (before.Some? && before.value.id == submissionId ==> after == Some(SetReview(before.value, status, feedback)))
      && (before.Some? && before.value.id != submissionId ==> after == before)
  {
    var r := UpdateSubmissionStatus(st, submissionId, status, feedback).submissions;
    PairIndexAt(r, requestId, userId, PairIndex(st.submissions, requestId, userId));
  }

  // ---------------------------------------------------------------------
  // Notifications

  /** Marking a notification read sets the flag on every notification with
      that id and changes nothing else. */
  function MarkAsRead(st: AppState, id: string): (r: AppState)
    ensures |r.notifications| == |st.notifications|
    ensures forall i :: 0 <= i < |st.notifications| ==>
      r.notifications[i] == (if st.notifications[i].id == id then st.notifications[i].(read := true)
                             else st.notifications[i])
    ensures r == st.(notifications := r.notifications)
  {
    st.(notifications := MarkRead(st.notifications, id))
  }

  function SendNotification(st: AppState, toUserId: string, title: string, message: string, now: string): (r: AppState)
    ensures |r.notifications| == |st.notifications| + 1 && r.notifications[1..] == st.notifications
    ensures var n := r.notifications[0];
      n.toUserId == toUserId && n.title == title && n.description == message
      && n.kind == Message && !n.read
      && n.fromUserName == (if st.session.Some? then Some(st.session.value.name) else None)
    ensures r == st.(notifications := r.notifications)
  {
    var from := if st.session.Some? then Some(st.session.value.name) else None;
    st.(notifications := [Notification("n-" + now, title, message, JustNow, false, Message, toUserId, from)]
                         + st.notifications)
  }

  /** The bell badge: unread notifications addressed to the signed-in user. */
  function UnreadCount(st: AppState): nat {
    if st.session.None? then 0
    else UnreadFor(st.notifications, st.session.value.id)
  }

  function UnreadFor(ns: seq<Notification>, me: string): nat {
    |Filter((n: Notification) => n.toUserId == me && !n.read, ns)|
  }

  function MarkRead(ns: seq<Notification>, id: string): seq<Notification> {
    seq(|ns|, i requires 0 <= i < |ns| => if ns[i].id == id then ns[i].(read := true) else ns[i])
  }

  lemma {:induction false} MarkReadCount(ns: seq<Notification>, id: string, me: string)
    ensures UnreadFor(MarkRead(ns, id), me) <= UnreadFor(ns, me)
    ensures (exists i :: 0 <= i < |ns| && ns[i].id == id && ns[i].toUserId == me && !ns[i].read) ==>
      UnreadFor(MarkRead(ns, id), me) < UnreadFor(ns, me)
  {
    if |ns| > 0 {
      MarkReadCount(ns[1..], id, me);
      assert MarkRead(ns, id)[1..] == MarkRead(ns[1..], id);
    }
  }

  /** Marking a notification read never raises the badge count, and lowers
      it when the notification was unread and addressed to the signed-in
      user. */
  lemma MarkAsReadLowersUnread(st: AppState, id: string)
    ensures UnreadCount(MarkAsRead(st, id)) <= UnreadCount(st)
    ensures (exists i :: 0 <= i < |st.notifications| && st.notifications[i].id == id
               && !st.notifications[i].read && st.session.Some?
               && st.notifications[i].toUserId == st.session.value.id) ==>
      UnreadCount(MarkAsRead(st, id)) < UnreadCount(st)
  {
    if st.session.Some? {
      assert MarkAsRead(st, id).notifications == MarkRead(st.notifications, id);
      MarkReadCount(st.notifications, id, st.session.value.id);
    }
  }

  // ---------------------------------------------------------------------
  // Tasks

  /** The fields a new task may be given; absent or empty ones take their
      defaults. */
  datatype TaskDraft = TaskDraft(
    title: string,
    description: Option<string>,
    status: Option<TaskStatus>,
    priority: Option<TaskPriority>,
    dueDate: Option<string>,
    assignee: Option<string>)

  function NewTask(st: AppState, d: TaskDraft, freshId: string): Task
    requires st.view == PersonalView ==> st.session.Some?
  {
    var personal := st.view == PersonalView;
    Task(freshId,
         if st.view == ProjectView then Some(st.currentProjectId) else None,
         d.title,
         OrDefault(d.description, ""),
         if d.status.Some? then d.status.value else Todo,
         if d.priority.Some? then d.priority.value else Medium,
         OrDefault(d.dueDate, ""),
         if personal then st.session.value.name else OrDefault(d.assignee, Unassigned),
         [],
         personal)
  }

  /** The condition under which a new task's assignee is notified, before
      the assignee is looked up among the users. */
  predicate NotifiesAssignee(st: AppState, t: Task) {
    !t.isPersonal && t.assignee != Unassigned && !IsSessionName(st, t.assignee)
  }

  function AssignmentNotice(title: string, userId: string, now: string): Notification {
    Notification("n-" + now, "Новая задача", "Вам назначена задача: " + title, JustNow, false, Assignment, userId, None)
  }

  /** Adding a task appends it with its defaults filled in and, for a team
      task assigned to another existing user, prepends one assignment notice
      addressed to the first user carrying that name. */
  function AddTask(st: AppState, d: TaskDraft, freshId: string, now: string): (r: AppState)
    requires st.view == PersonalView ==> st.session.Some?
    ensures |r.tasks| == |st.tasks| + 1 && r.tasks[..|st.tasks|] == st.tasks
    ensures var t := r.tasks[|st.tasks|];
      && t.id == freshId && t.title == d.title && t.comments == []
      && t.status == (if d.status.Some? then d.status.value else Todo)
      && t.priority == (if d.priority.Some? then d.priority.value else Medium)
      && (d.description.None? || d.description.value == "" ==> t.description == "")
      && (d.description.Some? && d.description.value != "" ==> t.description == d.description.value)
      && (d.dueDate.None? || d.dueDate.value == "" ==> t.dueDate == "")
      && (d.dueDate.Some? && d.dueDate.value != "" ==> t.dueDate == d.dueDate.value)
      && (t.isPersonal <==> st.view == PersonalView)
      && (t.projectId.Some? <==> st.view == ProjectView)
      && (t.projectId.Some? ==> t.projectId.value == st.currentProjectId)
      && (t.isPersonal ==> t.assignee == st.session.value.name)
      && (!t.isPersonal && (d.assignee.None? || d.assignee.value == "") ==> t.assignee == Unassigned)
      && (!t.isPersonal && d.assignee.Some? && d.assignee.value != "" ==> t.assignee == d.assignee.value)
    ensures var t := r.tasks[|st.tasks|];
      var notify := NotifiesAssignee(st, t) && exists i :: 0 <= i < |st.users| && st.users[i].name == t.assignee;
      && (!notify ==> r.notifications == st.notifications)
      && (notify ==>
            && |r.notifications| == |st.notifications| + 1 && r.notifications[1..] == st.notifications
            && r.notifications[0].kind == Assignment && !r.notifications[0].read
            && exists k :: 0 <= k < |st.users| && st.users[k].name == t.assignee
                 && (forall j :: 0 <= j < k ==> st.users[j].name != t.assignee)
                 && r.notifications[0].toUserId == st.users[k].id
                 && r.notifications[0] == AssignmentNotice(t.title, st.users[k].id, now))
    ensures r == st.(tasks := r.tasks, notifications := r.notifications)
  {
    var t := NewTask(st, d, freshId);
    var st1 := st.(tasks := st.tasks + [t]);
    if NotifiesAssignee(st, t) then
      match Find((u: User) => u.name == t.assignee, st.users)
      case None => st1
      case Some(u) => st1.(notifications := [AssignmentNotice(t.title, u.id, now)] + st.notifications)
    else st1
  }

  /** Appending a comment signed by the current user to every task with the
      given id. `now` and `isoNow` are the clock readings used for the
      comment id and its creation stamp. */
  function AddComment(st: AppState, taskId: string, text: string, now: string, isoNow: string): (r: AppState)
    requires st.session.Some?
    ensures |r.tasks| == |st.tasks|
    ensures forall i :: 0 <= i < |st.tasks| && st.tasks[i].id != taskId ==> r.tasks[i] == st.tasks[i]
    ensures forall i :: 0 <= i < |st.tasks| && st.tasks[i].id == taskId ==>
      var t := st.tasks[i];
      var u := r.tasks[i];
      && |u.comments| == |t.comments| + 1 && u.comments[..|t.comments|] == t.comments
      && u.comments[|t.comments|].text == text
      && u.comments[|t.comments|].authorName == st.session.value.name
      && u.comments[|t.comments|].authorRole == st.session.value.role
      && u == t.(comments := u.comments)
    ensures r == st.(tasks := r.tasks)
  {
    var me := st.session.value;
    var c := Comment(now, text, me.name, me.role, isoNow, me.avatarColor);
    var ts := st.tasks;
    st.(tasks := seq(|ts|, i requires 0 <= i < |ts| =>
          if ts[i].id == taskId then ts[i].(comments := ts[i].comments + [c]) else ts[i]))
  }

  /** Commenting and moving are independent: they can happen in either
      order with the same result, even on the same task. */
  lemma CommentCommutesWithMove(st: AppState, taskId: string, text: string, now: string, isoNow: string,
                                moved: string, status: TaskStatus)
    requires st.session.Some?
    ensures AddComment(MoveTask(st, moved, status), taskId, text, now, isoNow)
         == MoveTask(AddComment(st, taskId, text, now, isoNow), moved, status)
  {
    var a := AddComment(MoveTask(st, moved, status), taskId, text, now, isoNow);
    var b := MoveTask(AddComment(st, taskId, text, now, isoNow), moved, status);
    assert a.tasks == b.tasks;
  }

  /** Two comments on the same task end up after its old comments, in the
      order they were written. */
  lemma CommentsInOrder(st: AppState, taskId: string, first: string, second: string,
                        now1: string, now2: string, iso1: string, iso2: string, i: nat)
    requires st.session.Some? && i < |st.tasks| && st.tasks[i].id == taskId
    ensures var after := AddComment(AddComment(st, taskId, first, now1, iso1), taskId, second, now2, iso2);
      var before := st.tasks[i].comments;
      && |after.tasks[i].comments| == |before| + 2
      && after.tasks[i].comments[..|before|] == before
      && after.tasks[i].comments[|before|].text == first
      && after.tasks[i].comments[|before| + 1].text == second
  {
    var mid := AddComment(st, taskId, first, now1, iso1);
    assert mid.tasks[i].comments[..|st.tasks[i].comments|] == st.tasks[i].comments;
  }

  /** Moving a task sets the status of every task with that id, whatever its
      previous status; no transition is forbidden. */
  function MoveTask(st: AppState, taskId: string, status: TaskStatus): (r: AppState)
    ensures |r.tasks| == |st.tasks|
    ensures forall i :: 0 <= i < |st.tasks| ==>
      r.tasks[i] == (if st.tasks[i].id == taskId then st.tasks[i].(status := status) else st.tasks[i])
    ensures r == st.(tasks := r.tasks)
  {
    var ts := st.tasks;
    st.(tasks := seq(|ts|, i requires 0 <= i < |ts| => if ts[i].id == taskId then ts[i].(status := status) else ts[i]))
  }

  /** A later move of the same task overrides an earlier one. */
  lemma MoveTaskLastWins(st: AppState, taskId: string, a: TaskStatus, b: TaskStatus)
    ensures MoveTask(MoveTask(st, taskId, a), taskId, b) == MoveTask(st, taskId, b)
  {
    var r1 := MoveTask(MoveTask(st, taskId, a), taskId, b);
    var r2 := MoveTask(st, taskId, b);
    assert r1.tasks == r2.tasks;
  }

  /** Every task with the moved id has the target status afterwards, and the
      sequence of task ids is unchanged; the drag-and-drop lemma of the
      board builds on it. */
  lemma MoveTaskReachesStatus(st: AppState, taskId: string, s: TaskStatus)
    ensures forall t :: t in MoveTask(st, taskId, s).tasks && t.id == taskId ==> t.status == s
    ensures forall i :: 0 <= i < |st.tasks| ==> MoveTask(st, taskId, s).tasks[i].id == st.tasks[i].id
  {
  }

  // ---------------------------------------------------------------------
  // The task list shown by the board and list views

  /** The view's filters, applied one after another as the shell applies
      them. */
  function FilteredTasks(st: AppState): seq<Task> {
    if st.session.None? then []
    else
      var me := st.session.value;
      var byView :=
        if st.view == PersonalView then
          Filter((t: Task) => t.isPersonal && t.assignee == me.name, st.tasks)
        else
          var team := Filter((t: Task) => !t.isPersonal, st.tasks);
          if st.view == MyTasksView then Filter((t: Task) => t.assignee == me.name, team)
          else if st.view == ProjectView then Filter((t: Task) => t.projectId == Some(st.currentProjectId), team)
          else team;
      if st.priorityFilter.Some? then Filter((t: Task) => t.priority == st.priorityFilter.value, byView)
      else byView
  }

  /** Whether a task is shown, as one condition. */
  predicate Visible(st: AppState, t: Task) {
    && st.session.Some?
    && (st.view == PersonalView ==> t.isPersonal && t.assignee == st.session.value.name)
    && (st.view != PersonalView ==> !t.isPersonal)
    && (st.view == MyTasksView ==> t.assignee == st.session.value.name)
    && (st.view == ProjectView ==> t.projectId == Some(st.currentProjectId))
    && (st.priorityFilter.Some? ==> t.priority == st.priorityFilter.value)
  }

  /** The chain of filters selects, in stored order, exactly the tasks that
      satisfy the one visibility condition. */
  lemma FilteredTasksSpec(st: AppState)
    ensures FilteredTasks(st) == Filter((t: Task) => Visible(st, t), st.tasks)
    ensures forall t :: t in FilteredTasks(st) <==> t in st.tasks && Visible(st, t)
  {
    var vis := (t: Task) => Visible(st, t);
    if st.session.None? {
      FilterExt(vis, (t: Task) => false, st.tasks);
      FilterKeepsNone((t: Task) => false, st.tasks);
    } else {
      var me := st.session.value;
      var pid := st.currentProjectId;
      var base: Task -> bool :=
        if st.view == PersonalView then (t: Task) => t.isPersonal && t.assignee == me.name
        else if st.view == MyTasksView then (t: Task) => !t.isPersonal && t.assignee == me.name
        else if st.view == ProjectView then (t: Task) => !t.isPersonal && t.projectId == Some(pid)
        else (t: Task) => !t.isPersonal;
      var team := Filter((t: Task) => !t.isPersonal, st.tasks);
      var byView :=
        if st.view == PersonalView then
          Filter((t: Task) => t.isPersonal && t.assignee == me.name, st.tasks)
        else if st.view == MyTasksView then Filter((t: Task) => t.assignee == me.name, team)
        else if st.view == ProjectView then Filter((t: Task) => t.projectId == Some(pid), team)
        else team;
      if st.view == MyTasksView {
        FilterCompose((t: Task) => !t.isPersonal, (t: Task) => t.assignee == me.name, base, st.tasks);
      } else if st.view == ProjectView {
        FilterCompose((t: Task) => !t.isPersonal, (t: Task) => t.projectId == Some(pid), base, st.tasks);
      } else if st.view == PersonalView {
        FilterExt((t: Task) => t.isPersonal && t.assignee == me.name, base, st.tasks);
      } else {
        FilterExt((t: Task) => !t.isPersonal, base, st.tasks);
      }
      assert byView == Filter(base, st.tasks);
      if st.priorityFilter.Some? {
        var pr := (t: Task) => t.priority == st.priorityFilter.value;
        assert FilteredTasks(st) == Filter(pr, byView);
        FilterCompose(base, pr, vis, st.tasks);
      } else {
        assert FilteredTasks(st) == byView;
        FilterExt(base, vis, st.tasks);
      }
    }
  }
}
