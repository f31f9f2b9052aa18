# Task and report workflow stores, modelled in Dafny

The application is a task-management workspace. Users sign in, move tasks
across a Kanban board, comment on them, and exchange notifications.
Managers request reports from employees. Employees answer with text, a
small spreadsheet and file names. Managers then return or approve each
submission.

The state lives in plain arrays in the application shell. Every handler
replaces one or two of those arrays with a new one. This model writes the
state as one immutable record (`App.AppState`) and each handler as a pure
function from the old record to the new one. Every handler carries a frame
condition: the functional-update equation `r == st.(field := r.field)`
says that no other field changes.

The screens around the stores are modelled the same way:

- the sign-in and registration guards;
- the task dialog's form and payload;
- the inbox filter and composer;
- the board columns and drag-and-drop;
- the home-page counts;
- the report workflow, including the submission lifecycle;
- the spreadsheet editor.

The editor's actions return `Some(grid)` when they hand a new grid to their
owner and `None` when they do nothing.

Modules, one per source file or concern:

- `Types` — the records and enums of `types.ts`.
- `Seqs` — `filter`, `find`/`findIndex`, and the first-occurrence
  de-duplication `Array.from(new Set(xs))`.
- `Strings` — `split` on one character, `join`, and `trim` over the
  ECMAScript white-space set.
- `Constants` — the board columns and label tables.
- `App` — the handlers of the application shell.
- `Grid` — the spreadsheet editor.
- `Reports` — the report workflow screen.
- `Board`, `Auth`, `TaskForm`, `Inbox`, `Home` — the other screens.

The program's clock, random choices and network calls are parameters of
the model:

- `now` is the `Date.now()` text used to build ids.
- `isoNow` is an ISO timestamp.
- `freshId` is the random task id.
- `colorIndex` is the random avatar-colour pick.
- `generator` is the text generator behind the "describe" button.
- `hour` is the hour of the day.

## Model

| member | source | states |
|---|---|---|
| Constants.ColumnsCoverEachStatusOnce | constants.ts:4-9 | the board columns are to-do, in progress, review, done in that order, and each status occurs exactly once |
| Constants.LabelTablesTotal | constants.ts:11-28 | the priority label and colour tables and the status label table are defined for every enum value, and each status label equals its column title |
| Strings.Trim | components/ExcelGrid.tsx:44 | the result is the input minus a leading and a trailing run of white space, neither end of it is white space, and it is empty exactly when the input is all white space |
| Strings.Split | components/ExcelGrid.tsx:32 | splitting yields one more piece than there are separators, and no piece contains the separator |
| Strings.JoinSplit | components/ExcelGrid.tsx:32 | joining the pieces of a split with the separator gives back the text |
| Strings.SplitJoin | components/ExcelGrid.tsx:38 | splitting separator-free pieces joined by the separator gives back the pieces |
| Seqs.Dedup | components/ReportsView.tsx:93-94 | the set-built list is duplicate-free, holds exactly the elements of the input, and lists them in the order of their first occurrences, as a JavaScript `Set` iterates |
| Seqs.DedupIntoConcat | components/ReportsView.tsx:93 | building a set from `a` and then `b` is building it from `a + b` |
| Seqs.DedupIntoOrder | components/ReportsView.tsx:93-94 | adding elements to a set keeps insertion order: the newly added elements come in the order of their first occurrence in the input |
| Seqs.FilterSelects | components/HomeView.tsx:11 | `filter` reads its input at exactly the passing positions, in increasing order: the result is the order-preserving subsequence of passing elements |
| App.Login | App.tsx:103-106 | signing in makes the user the session and opens the home view; nothing else changes |
| App.Logout | App.tsx:127-129 | signing out clears the session and leaves the view and all stores as they were |
| App.SessionRoundTrip | App.tsx:103-129 | signing out and in as someone is signing in as them directly; signing in and out returns to the stores as they were, on the home view |
| App.Register | App.tsx:108-125 | one user is appended under id `now` with the given name, role, password and one of the five avatar colours, and no email or position; one unread welcome alert addressed to that id, with the fixed thank-you text and no sender, is prepended; the user is signed in on the home view |
| App.UpdateUser | App.tsx:131-137 | without a session nothing changes; otherwise the form is merged into the session user and every stored user with that id is replaced by the merged user, the others untouched |
| App.UpdateUserIdempotent | App.tsx:131-137 | submitting the same profile twice is submitting it once, and a stored signed-in user stays stored under the merged values |
| App.CreateGroup | App.tsx:140-147 | one group `g-<now>` with the given name and members is appended and nothing else changes |
| App.DeleteGroup | App.tsx:149-151 | every group with the id is dropped and every other group kept, in their stored order |
| App.DeleteCreatedGroup | App.tsx:140-151 | deleting a group right after creating it under an unused id restores the groups exactly |
| App.CreateProject | App.tsx:264-273 | one project `p<now>` is appended and becomes the current project in the project view |
| App.NewProjectShowsNoTasks | App.tsx:264-273 | a project created under an id no task refers to shows an empty task list |
| App.Navigate | App.tsx:306-311 | the view always switches; the current project changes only for a non-empty project id |
| App.NavigateBackToProject | App.tsx:306-311 | leaving a project for another view and returning to the project view without an id shows the same project |
| App.FanOut | App.tsx:156-168 | prepending one notice per assignee in turn leaves the notice of the k-th from last assignee at position k, above the old notifications |
| App.CreateRequest | App.tsx:154-171 | the request is appended and exactly one notice per assignee entry is put in front of the unchanged old notifications |
| App.CreateRequestNotifiesEachAssignee | App.tsx:156-168 | the new notices are addressed to the assignee list as a multiset (each entry once per occurrence), each an unread alert naming the request |
| App.PairIndex | App.tsx:175 | `findIndex` on the (request, user) pair: the first matching index, or the length when none matches |
| App.Lookup | components/ReportsView.tsx:305 | the submission found for a pair is the first stored submission of that pair, and none is found exactly when no submission has the pair |
| App.Upsert | App.tsx:175-182 | a submission whose pair is stored replaces the first such entry at its index without changing the length; otherwise it is appended |
| App.UpsertKeepsPairsUnique | App.tsx:175-182 | if no two submissions share a (request, user) pair before an upsert, none do after it |
| App.UpsertLookup | App.tsx:175-182 | after an upsert the submitted pair finds the new submission and every other pair finds what it found before |
| App.SubmitReport | App.tsx:173-200 | submissions are upserted; with some admin present exactly one unread assignment notice to the first admin is prepended, titled "Отчет сдан" and saying that the signed-in user handed in a report; with none present the notifications are untouched |
| App.UpdateSubmissionStatus | App.tsx:202-207 | submissions with the id get the new status and feedback, keeping content, table, files, request, user and time; all other submissions are unchanged |
| App.ReviewLookup | App.tsx:202-207 | after a review every pair still finds a submission exactly when it did before, the reviewed one now carrying the new status and feedback |
| App.MarkAsRead | App.tsx:210-212 | every notification with the id becomes read and nothing else changes |
| App.MarkAsReadLowersUnread | App.tsx:336 | marking read never raises the badge count, and lowers it when the notification was the signed-in user's and unread |
| App.SendNotification | App.tsx:214-226 | one unread message to the recipient, from the signed-in user's name, is prepended |
| App.AddTask | App.tsx:229-262 | one task is appended with the given title; a typed non-empty description, due date, status and priority are stored, and empty or missing ones default to empty, to-do and medium; it is personal exactly in the personal view, where its assignee is the signed-in user; a team task keeps a typed non-empty assignee and is otherwise "unassigned"; it has a project exactly in the project view; one unread assignment notice to the first user of that name, whose text names the task's title, is prepended exactly when the task is a team task whose assignee is neither "unassigned" nor the signed-in user and some user has that name |
| App.AddComment | App.tsx:275-295 | each task with the id gets one comment by the signed-in user appended after its old comments; all other tasks and fields are unchanged |
| App.CommentCommutesWithMove | App.tsx:275-299 | commenting and moving tasks give the same result in either order |
| App.CommentsInOrder | App.tsx:275-295 | two comments on one task end up after its old comments in the order written |
| App.MoveTask | App.tsx:297-299 | every task with the id gets the new status whatever its old one; the task list keeps its length and all other tasks and fields |
| App.MoveTaskLastWins | App.tsx:297-299 | two moves of the same task are the same as the last move alone |
| App.MoveTaskReachesStatus | App.tsx:297-299 | after a move every task with the id has the target status, and the order of task ids is unchanged |
| App.FilteredTasksSpec | App.tsx:314-333 | the chain of filters keeps, in stored order, exactly the tasks meeting one visibility condition (session, personal or team, own tasks, project, priority) |
| Grid.Normalize | components/ExcelGrid.tsx:17-19 | normalising keeps the grid's shape, turns a bare string into a style-less cell with that text, and keeps a structured cell as it is |
| Grid.NormalizeLift | components/ExcelGrid.tsx:17-19 | normalising a grid already made of cells gives the same grid |
| Grid.UpdateCell | components/ExcelGrid.tsx:21-26 | read-only does nothing; otherwise the patch is merged into the one cell, the shape is kept and every other cell is unchanged |
| Grid.ToggleStyle | components/ExcelGrid.tsx:64-69 | without a selection or when read-only nothing happens; otherwise the chosen flag's truthiness flips and the cell's text, other flag, colour, the shape and all other cells stay |
| Grid.ToggleTwice | components/ExcelGrid.tsx:64-69 | toggling the same flag twice restores its truthiness and the cell's text, keeps the shape and every other cell |
| Grid.SetColor | components/ExcelGrid.tsx:71-76 | without a selection or when read-only nothing happens; otherwise only the selected cell's background colour is set, its flags and text kept |
| Grid.SetColorIdempotent | components/ExcelGrid.tsx:71-76 | choosing the same colour twice is choosing it once |
| Grid.ColorCommutesWithToggle | components/ExcelGrid.tsx:64-76 | colouring then toggling bold or italic gives the same grid as toggling then colouring |
| Grid.AddRow | components/ExcelGrid.tsx:51-56 | read-only does nothing; otherwise one row of empty cells as wide as the first row is appended below the unchanged rows |
| Grid.AddColumn | components/ExcelGrid.tsx:58-62 | read-only does nothing; otherwise one empty cell is appended to every row and the row count stays |
| Grid.EditsKeepRectangular | components/ExcelGrid.tsx:64-76 | toggling a style or setting a colour keeps a rectangular sheet rectangular |
| Grid.GrowKeepsRectangular | components/ExcelGrid.tsx:51-62 | on a rectangular grid, adding a row adds one row of the same width and adding a column widens every row by one; both stay rectangular |
| Grid.PasteRow | components/ExcelGrid.tsx:39-46 | the fields of one line land, trimmed, in the cells of its row from the start column on that exist; nothing else changes |
| Grid.PasteLines | components/ExcelGrid.tsx:36-47 | the pasted lines from some index on are written each into its own row; the result is described cell by cell by one closed form |
| Grid.Paste | components/ExcelGrid.tsx:28-49 | read-only does nothing; otherwise the shape is kept and each existing cell takes the trimmed field at its offset from the start cell when that line and field exist, and is untouched otherwise |
| Grid.PasteBlock | components/ExcelGrid.tsx:40-44 | the cell at the start offset by line i and field j receives exactly the trimmed j-th field of line i |
| Grid.PasteKeepsStyles | components/ExcelGrid.tsx:44 | a paste changes no cell's style |
| Grid.PasteIgnoresTrailingNewline | components/ExcelGrid.tsx:37 | one newline after a non-empty last line makes no difference to a paste |
| Reports.InitialSheet | components/ReportsView.tsx:48-52 | the submission sheet starts as a rectangular 3 x 3 grid of empty cells |
| Reports.ScreenFor | components/ReportsView.tsx:61 | employees get the employee screen; administrators and managers get the reviewer screen |
| Reports.SelectGroup | components/ReportsView.tsx:88-96 | an empty or unknown group id leaves the choice alone; otherwise the choice becomes duplicate-free, holds exactly the old choice and the first matching group's members, and lists them in the order of their first occurrence in the old choice followed by those members |
| Reports.SelectGroupExtends | components/ReportsView.tsx:93-94 | a duplicate-free choice keeps its entries in place with the new members after them |
| Reports.SelectGroupIdempotent | components/ReportsView.tsx:88-96 | choosing the same group twice is the same as choosing it once |
| Reports.ToggleAssignee | components/ReportsView.tsx:421-424 | checking appends the id; unchecking removes every occurrence of it and keeps every other id, in order and with its multiplicity (an order-preserving subsequence) |
| Reports.Click | components/ReportsView.tsx:420-424 | a click on a box shown checked exactly when the id is chosen flips whether the id is chosen and nothing else: checking appends the id at the end, unchecking keeps the other ids in order |
| Reports.ClickKeepsNoDup | components/ReportsView.tsx:420-424 | clicking boxes keeps the choice free of duplicates |
| Reports.ClickTwice | components/ReportsView.tsx:420-424 | two clicks on the same box restore which ids are chosen |
| Reports.ResetAfterCreate | components/ReportsView.tsx:76 | after a request is created only the title and the choice are cleared; description and due date stay filled in |
| Reports.CreateFromForm | components/ReportsView.tsx:63-73 | a request built from the form is authored by the current user, carries the chosen ids and any format, and creating it notifies the chosen ids as a multiset |
| Reports.SaveGroup | components/ReportsView.tsx:79-86 | a group is added exactly when the name is non-empty and there is at least one member, with that name and those members, after the unchanged old groups |
| Reports.SaveGroupUndo | components/ReportsView.tsx:79-86 | deleting a group just saved from the form under an unused id restores the groups, whether or not the form was accepted |
| Reports.BuildSubmission | components/ReportsView.tsx:98-112 | with no request open there is no submission; otherwise it is a submitted report of the current user for the open request with the typed content, sheet and files and no feedback |
| Reports.MyRequests | components/ReportsView.tsx:235 | an employee sees exactly the requests whose assignee list holds their id |
| Reports.ActionFor | components/ReportsView.tsx:318-344 | a first submission is offered exactly when there is none, a resubmission exactly when the submission was returned, and nothing for submitted or approved ones |
| Reports.DecisionStatus | components/ReportsView.tsx:532-551 | the two review buttons give returned and approved respectively |
| Reports.Review | components/ReportsView.tsx:532-551 | the reviewed submission takes the pressed button's status (returned exactly for "send back") and the typed feedback, keeping every other field; all other submissions and stores are unchanged |
| Reports.AssigneeRows | components/ReportsView.tsx:190-192 | the reviewer sees one row per assignee, empty exactly when that assignee has not submitted, and otherwise holding that assignee's first stored submission for the request |
| Reports.SubmitShowsOnRow | components/ReportsView.tsx:190-192 | a submission appears on its author's row and leaves the other assignees' rows as they were |
| Reports.Lifecycle | components/ReportsView.tsx:98-112 | after submitting the employee waits; after a review they see its status and feedback and are offered a resubmission exactly when it was returned |
| Reports.ResubmitReplaces | components/ReportsView.tsx:328-335 | resubmitting a returned report replaces it without growing the list and puts the employee back to waiting |
| Board.ColumnTasks | components/BoardView.tsx:36-37 | a column shows exactly the tasks of its status, in stored order |
| Board.BoardPartition | components/BoardView.tsx:36-37 | the four columns together hold as many cards as there are tasks |
| Board.CardInItsColumn | components/BoardView.tsx:36-37 | a task is a card of a column exactly when the column's status is the task's status, and that status has one column |
| Board.Drop | components/BoardView.tsx:26-32 | a drop moves the dragged task to the column's status and ends the drag only when a non-empty id is being dragged; otherwise nothing changes |
| Board.DragAndDrop | components/BoardView.tsx:16-32 | dragging a task onto a column puts every task with that id in that column, keeps the card count, and a second drop does nothing |
| Auth.InitialChoice | components/AuthView.tsx:15 | the sign-in screen starts with the first user chosen, or no one when there are no users |
| Auth.LoginSubmit | components/AuthView.tsx:26-38 | the error is cleared first; a sign-in happens exactly when the first user with the chosen id has the typed password; the wrong-password error shows exactly when that user exists with another password; an unknown id does neither |
| Auth.NoPasswordNoLogin | components/AuthView.tsx:32 | a user with no stored password never signs in and gets the wrong-password error |
| Auth.LoginOpensSession | components/AuthView.tsx:30-33 | whoever signs in is a known user with the chosen id and typed password and gets the session on the home view |
| Auth.RegisterSubmit | components/AuthView.tsx:40-45 | registration goes ahead exactly when the name and the password each trim to something non-empty, and passes them on untrimmed |
| Auth.UntouchedRoleIsEmployee | components/AuthView.tsx:21 | a registration whose role was left alone registers an employee |
| Auth.BlankRegistrationRefused | components/AuthView.tsx:42 | registration is refused exactly when the name or the password consists of white space only |
| Auth.RegisterCreatesUser | components/AuthView.tsx:40-45 | an accepted registration creates and signs in a user with the typed name, role and password, who can later sign in with that password when the new id was free |
| TaskForm.InitialForm | components/TaskModal.tsx:15-22 | the dialog starts blank with the requested status or to-do, medium priority, not generating |
| TaskForm.OnOpenChange | components/TaskModal.tsx:24-38 | opening with a requested status selects it; closing resets every field, the priority to medium and the status to to-do |
| TaskForm.ReopenIsFresh | components/TaskModal.tsx:24-38 | closing and reopening with a status gives the blank form with that status, whatever was typed before |
| TaskForm.DescriptionFrom | services/geminiService.ts:5-23 | the generator never fails its caller: an answer's text, the empty string for an answer without text, a fixed apology on failure |
| TaskForm.Generate | components/TaskModal.tsx:42-48 | without a title nothing happens; otherwise only the description changes, to what the generator gives for the title |
| TaskForm.GenerateLastWins | components/TaskModal.tsx:42-48 | of two presses the later reply wins, whatever the first reply was (the button, TaskModal.tsx:93, is disabled while a reply is pending, so replies never overlap); asking never touches title, status, priority, assignee or due date |
| TaskForm.Payload | components/TaskModal.tsx:52-59 | the saved draft carries every field as typed and a non-empty assignee: the typed one or "me" |
| TaskForm.Submit | components/TaskModal.tsx:50-61 | a submit saves the payload once and then closes |
| TaskForm.SavedTaskFromForm | components/TaskModal.tsx:52-59 | a team task saved from the dialog keeps its status, priority and title, and is "unassigned" only when that name was typed |
| Inbox.MyNotifications | components/InboxView.tsx:21 | the inbox lists exactly the notifications addressed to the user, in stored order |
| Inbox.Recipients | components/InboxView.tsx:91 | the recipient list holds every user except the sender |
| Inbox.InitialComposer | components/InboxView.tsx:14-17 | the composer starts hidden with empty title and body and the first user's id as recipient, whether or not that user is offered in the list |
| Inbox.Open | components/InboxView.tsx:37-39 | the compose button shows the dialog for an administrator only and changes nothing else |
| Inbox.Dismiss | components/InboxView.tsx:79 | the close button hides the dialog and keeps recipient, title and body |
| Inbox.DraftSurvivesDismiss | components/InboxView.tsx:79 | closing without sending and opening again shows the old title and body |
| Inbox.InitialRecipientIsSelf | components/InboxView.tsx:15 | when the composing administrator is the first user and another user is offered, a message sent without touching the list goes to the administrator, while the list shows another user as chosen |
| Inbox.Send | components/InboxView.tsx:23-31 | sending happens exactly when recipient, title and body are all non-empty, and then closes the dialog and clears title and body, keeping the recipient |
| Inbox.SentMessageArrives | components/InboxView.tsx:23-31 | a sent message is first in the recipient's inbox above the old ones, and every other user's inbox is unchanged |
| Inbox.Click | components/InboxView.tsx:153 | clicking marks a notification read only while it is unread |
| Inbox.ClickLowersBadge | components/InboxView.tsx:153 | a click never raises the badge count and lowers it for an unread notification of the user |
| Inbox.AllReadMeansNoUnread | components/InboxView.tsx:65 | the all-read banner shows exactly when the user has notifications and the unread count is zero |
| Home.MyTasks | components/HomeView.tsx:11 | of the tasks it is handed, the home page lists exactly those assigned to the user's name, in stored order |
| Home.HomeInput | App.tsx:345 | the shell hands the home page exactly its team tasks, in stored order |
| Home.HomeListsTeamTasksOnly | App.tsx:345 | the home page (HomeView.tsx:11) lists exactly the user's team tasks; personal tasks, though assigned to the owner's name, never appear |
| Home.CountsAddUp | components/HomeView.tsx:12-13 | completed plus pending equals the number of the user's tasks among those handed over (the team tasks, App.tsx:345) |
| Home.Greeting | components/HomeView.tsx:15-20 | morning exactly before 12, afternoon exactly from 12 to before 18, evening exactly from 18 |
| Home.ShortList | components/HomeView.tsx:57 | at most the first five of the user's tasks, in order |

## Left out

- Rendering is not modelled: markup, CSS classes, icons, open and closed flags of modal dialogs other than the inbox composer, and the DOM plumbing of drag and clipboard events. A drop is "move this id to this status". A paste is "paste this text at this cell".
- Clock, randomness and ids are not modelled. `Date.now()`, `Math.random()` and `toISOString()` are parameters. The fake file names of the upload button are part of the `files` parameter of a submission.
- The text generator is not modelled, because it is a network call. It is a `generator` function parameter whose reply is an answer or a failure. The "generating" spinner between request and reply is not modelled: the two state updates around the `await` are one step.
- React state batching and stale closures are not modelled. Each handler is one atomic transition. For example, `handleAddTask` writes `notifications` from the closure rather than functionally.
- The analytics tab is not modelled. Its bar heights are floating-point percentages used only for styling.
- Date display and overdue comparisons are not modelled. They depend on locale and clock.
- The sidebar, list view, project dialog, task-detail dialog and profile dialog are presentation. The profile merge itself is modelled as `App.UpdateUser`.
- Status badge texts of the report lists are display only and are not modelled.
- Grid.UpdateCell: requires the cell to exist unless the grid is read-only. The program would write past the end of a row for a column beyond it, but every caller passes a rendered cell.
- Grid.SetColor: requires the selected cell to exist. The program reads the selected cell's style and would fail on a stale selection.
- Grid.ToggleStyle: requires the selected cell to exist. The program reads the selected cell and would fail on a stale selection.
- Grid.AddRow: requires a first row unless the grid is read-only. The program reads the first row's width and fails on an empty grid.
- App.AddComment: requires a session. The handler dereferences the signed-in user unconditionally.
- App.AddTask: requires a session in the personal view, for the same reason.

## Findings

| source | as written | input that shows it | evidently intended | confidence | as-written member | corrected member |
|---|---|---|---|---|---|---|
| components/InboxView.tsx:15 | the composer's recipient starts as the first user's id, although the recipient list (line 91) leaves out the sender | the admin who composes is the first user, as in the initial users, and sends without touching the list: the list shows another user, but the message goes to the admin | the recipient starts as the first user the list offers | medium; not executed | Inbox.InitialRecipientIsSelf | Inbox.CorrectedComposer |
