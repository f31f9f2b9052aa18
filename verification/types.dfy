/** The entities of the workflow stores: tasks, users, notifications,
    report requests and submissions, groups and spreadsheet cells.
    Optional fields of the records become `Option`. */
module Types {

  datatype Option<+T> = None | Some(value: T)

  /** `o` if it is present and non-empty, `d` otherwise: the meaning of
      `o || d` when `o` is an optional string (the empty string is falsy). */
  function OrDefault(o: Option<string>, d: string): (r: string)
    ensures o.Some? && o.value != "" ==> r == o.value
    ensures o.None? || o.value == "" ==> r == d
  {
    if o.Some? && o.value != "" then o.value else d
  }

  datatype TaskStatus = Todo | InProgress | Review | Done

  datatype TaskPriority = Low | Medium | High

  datatype UserRole = Admin | Manager | Employee

  datatype User = User(
    id: string,
    name: string,
    role: UserRole,
    avatarColor: string,
    password: Option<string>,
    email: Option<string>,
    position: Option<string>)

  datatype Comment = Comment(
    id: string,
    text: string,
    authorName: string,
    authorRole: UserRole,
    createdAt: string,
    avatarColor: string)

  /** `isPersonal` is optional in the record; an absent flag reads as false
      everywhere it is tested, so it is a plain bool here. */
  datatype Task = Task(
    id: string,
    projectId: Option<string>,
    title: string,
    description: string,
    status: TaskStatus,
    priority: TaskPriority,
    dueDate: string,
    assignee: string,
    comments: seq<Comment>,
    isPersonal: bool)

  datatype Project = Project(id: string, name: string, color: string)

  datatype NoteKind = Assignment | CommentNote | Alert | Message

  datatype Notification = Notification(
    id: string,
    title: string,
    description: string,
    time: string,
    read: bool,
    kind: NoteKind,
    toUserId: string,
    fromUserName: Option<string>)

  datatype ReportStatus = Pending | Submitted | Returned | Approved

  datatype ReportFormat = AnyFormat | Excel | Text

  datatype ReportRequest = ReportRequest(
    id: string,
    title: string,
    description: string,
    dueDate: string,
    createdBy: string,
    assignedUserIds: seq<string>,
    requiredFormat: ReportFormat)

  /** Style flags of a spreadsheet cell; each one may be absent. */
  datatype CellStyle = CellStyle(
    bold: Option<bool>,
    italic: Option<bool>,
    backgroundColor: Option<string>)

  datatype TableCell = TableCell(value: string, style: Option<CellStyle>)

  type Grid = seq<seq<TableCell>>

  datatype ReportSubmission = ReportSubmission(
    id: string,
    requestId: string,
    userId: string,
    submittedAt: Option<string>,
    status: ReportStatus,
    content: Option<string>,
    tableData: Option<Grid>,
    files: Option<seq<string>>,
    feedback: Option<string>)

  datatype UserGroup = UserGroup(id: string, name: string, userIds: seq<string>)

  /** The screens of the application shell. */
  datatype AppView = HomeView | MyTasksView | InboxView | ReportsView | ProjectView | PersonalView
}
