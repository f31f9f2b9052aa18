/** The new-task dialog: its form state, the reset on close, the
    description generator, and the payload handed to the task store. */
module TaskForm {
  import opened Types
  import App

  const Me: string := "Я"

  const GenerationFailed: string := "Не удалось сгенерировать описание. Пожалуйста, попробуйте позже."

  datatype Form = Form(
    title: string,
    description: string,
    status: TaskStatus,
    priority: TaskPriority,
    assignee: string,
    dueDate: string,
    generating: bool)

  /** The form a dialog starts with: empty fields, the requested status or
      to-do, medium priority. */
  function InitialForm(initialStatus: Option<TaskStatus>): (f: Form)
    ensures f.status == (if initialStatus.Some? then initialStatus.value else Todo)
    ensures f.title == "" && f.description == "" && f.assignee == "" && f.dueDate == ""
    ensures f.priority == Medium && !f.generating
  {
    Form("", "", if initialStatus.Some? then initialStatus.value else Todo, Medium, "", "", false)
  }

  /** What the form holds after the dialog opens or closes: opening with a
      requested status selects it, closing clears everything. */
  function OnOpenChange(f: Form, isOpen: bool, initialStatus: Option<TaskStatus>): (r: Form)
    ensures isOpen && initialStatus.Some? ==> r == f.(status := initialStatus.value)
    ensures isOpen && initialStatus.None? ==> r == f
    ensures !isOpen ==> r == InitialForm(None)
  {
    var shown := if isOpen && initialStatus.Some? then f.(status := initialStatus.value) else f;
    if !isOpen then Form("", "", Todo, Medium, "", "", false) else shown
  }

  /** Whatever was typed, closing and reopening the dialog with a requested
      status shows a blank form with that status. */
  lemma ReopenIsFresh(f: Form, s: TaskStatus)
    ensures OnOpenChange(OnOpenChange(f, false, None), true, Some(s)) == InitialForm(Some(s))
  {
  }

  /** The reply of the text generator: the text (absent when the service
      answered without one), or a failure. */
  datatype GeneratorReply = Answer(text: Option<string>) | Failure

  /** The generator never fails its caller: a failure becomes a fixed
      apology and an answer without text the empty string. */
  function DescriptionFrom(reply: GeneratorReply): (d: string)
    ensures reply.Failure? ==> d == GenerationFailed
    ensures reply.Answer? && reply.text.Some? ==> d == reply.text.value
    ensures reply.Answer? && reply.text.None? ==> d == ""
  {
    match reply
    case Failure => GenerationFailed
    case Answer(t) => if t.Some? then t.value else ""
  }

  /** Asking for a description: nothing happens without a title; otherwise
      the description becomes what the generator gives for the title. */
  function Generate(f: Form, generator: string -> GeneratorReply): (r: Form)
    ensures f.title == "" ==> r == f
    ensures f.title != "" ==> r == f.(description := DescriptionFrom(generator(f.title)), generating := false)
  {
    if f.title == "" then f
    else f.(description := DescriptionFrom(generator(f.title)), generating := false)
  }

  /** Each press stores the reply it awaited, so of two presses the later
      reply wins; the button is disabled while a reply is pending, so the
      replies do not overlap. Asking never touches the title, status,
      priority, assignee or due date. */
  lemma GenerateLastWins(f: Form, first: string -> GeneratorReply, generator: string -> GeneratorReply)
    ensures Generate(Generate(f, first), generator) == Generate(f, generator)
    ensures var r := Generate(f, generator);
      r.title == f.title && r.status == f.status && r.priority == f.priority
      && r.assignee == f.assignee && r.dueDate == f.dueDate
  {
  }

  /** The draft the dialog saves: every field as typed, the assignee falling
      back to "me" when left empty. */
  function Payload(f: Form): (d: App.TaskDraft)
    ensures d.title == f.title && d.description == Some(f.description)
    ensures d.status == Some(f.status) && d.priority == Some(f.priority) && d.dueDate == Some(f.dueDate)
    ensures d.assignee.Some? && d.assignee.value != ""
    ensures f.assignee != "" ==> d.assignee == Some(f.assignee)
    ensures f.assignee == "" ==> d.assignee == Some(Me)
  {
    App.TaskDraft(f.title, Some(f.description), Some(f.status), Some(f.priority), Some(f.dueDate),
                  Some(if f.assignee != "" then f.assignee else Me))
  }

  /** The calls a submit makes, in order. */
  datatype Call = Save(draft: App.TaskDraft) | Close

  function Submit(f: Form): (calls: seq<Call>)
    ensures |calls| == 2 && calls[0].Save? && calls[1] == Close
    ensures calls[0].draft == Payload(f)
  {
    [Save(Payload(f)), Close]
  }

  /** A team task saved from the dialog keeps the chosen status and
      priority, and its assignee is what was typed or "me", so it is
      "unassigned" only when that very name was typed. */
  lemma SavedTaskFromForm(st: App.AppState, f: Form, freshId: string, now: string)
    requires st.view != PersonalView
    ensures var t := App.AddTask(st, Payload(f), freshId, now).tasks[|st.tasks|];
      && t.status == f.status && t.priority == f.priority && t.title == f.title
      && t.assignee == (if f.assignee != "" then f.assignee else Me)
      && (t.assignee == App.Unassigned <==> f.assignee == App.Unassigned)
  {
  }
}
