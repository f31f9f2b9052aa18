/** The Kanban board: one column per status, and drag-and-drop between
    columns as a status move. */
module Board {
  import opened Types
  import opened Seqs
  import opened Constants
  import App

  /** The cards of one column: the tasks with that status, in stored order. */
  function ColumnTasks(tasks: seq<Task>, status: TaskStatus): (r: seq<Task>)
    ensures forall t :: t in r <==> t in tasks && t.status == status
    ensures Selects(r, tasks, (t: Task) => t.status == status)
  {
    FilterSelects((t: Task) => t.status == status, tasks);
    Filter((t: Task) => t.status == status, tasks)
  }

  /** The number of cards across the given columns. */
  function CardCount(tasks: seq<Task>, cols: seq<ColumnDefinition>): nat {
    if |cols| == 0 then 0
    else |ColumnTasks(tasks, cols[0].id)| + CardCount(tasks, cols[1..])
  }

  lemma {:induction false} ColumnTasksCons(t: Task, rest: seq<Task>, status: TaskStatus)
    ensures |ColumnTasks([t] + rest, status)| == (if t.status == status then 1 else 0) + |ColumnTasks(rest, status)|
  {
    assert ([t] + rest)[1..] == rest;
  }

  lemma CardCountColumns(tasks: seq<Task>)
    ensures CardCount(tasks, Columns) == |ColumnTasks(tasks, Todo)| + |ColumnTasks(tasks, InProgress)|
                                        + |ColumnTasks(tasks, Review)| + |ColumnTasks(tasks, Done)|
  {
    var c := Columns;
    assert c[1..][1..][1..][1..] == [];
    assert CardCount(tasks, c[1..][1..][1..]) == |ColumnTasks(tasks, Done)|;
    assert CardCount(tasks, c[1..][1..]) == |ColumnTasks(tasks, Review)| + |ColumnTasks(tasks, Done)|;
  }

  /** One more task adds exactly one card, in the column of its status. */
  lemma CardCountCons(t: Task, rest: seq<Task>)
    ensures CardCount([t] + rest, Columns) == 1 + CardCount(rest, Columns)
  {
    CardCountColumns([t] + rest);
    CardCountColumns(rest);
    ColumnTasksCons(t, rest, Todo);
    ColumnTasksCons(t, rest, InProgress);
    ColumnTasksCons(t, rest, Review);
    ColumnTasksCons(t, rest, Done);
  }

  /** Every task is a card in exactly one column, so the columns together
      show each task once. */
  lemma {:induction false} BoardPartition(tasks: seq<Task>)
    ensures CardCount(tasks, Columns) == |tasks|
  {
    if |tasks| == 0 {
      CardCountColumns(tasks);
    } else {
      BoardPartition(tasks[1..]);
      assert tasks == [tasks[0]] + tasks[1..];
      CardCountCons(tasks[0], tasks[1..]);
    }
  }

  /** A task is a card of a column exactly when that column is its status. */
  lemma CardInItsColumn(tasks: seq<Task>, t: Task)
    requires t in tasks
    ensures forall i :: 0 <= i < |Columns| ==> (t in ColumnTasks(tasks, Columns[i].id) <==> Columns[i].id == t.status)
    ensures Count(t.status, ColumnIds(Columns)) == 1
  {
    ColumnsCoverEachStatusOnce();
  }

  /** The id of the card being dragged; `None` is `null`. */
  datatype Drag = Drag(dragged: Option<string>)

  function DragStart(taskId: string): (d: Drag)
    ensures d.dragged == Some(taskId)
  {
    Drag(Some(taskId))
  }

  /** `if (draggedTaskId)`: a drag is in progress only for a non-empty id. */
  predicate Dragging(d: Drag) {
    d.dragged.Some? && d.dragged.value != ""
  }

  /** Dropping on a column moves the dragged task to that column's status
      and ends the drag; without a drag nothing happens. */
  function Drop(st: App.AppState, d: Drag, status: TaskStatus): (r: (App.AppState, Drag))
    ensures Dragging(d) ==> r.0 == App.MoveTask(st, d.dragged.value, status) && r.1.dragged.None?
    ensures !Dragging(d) ==> r.0 == st && r.1 == d
  {
    if Dragging(d) then (App.MoveTask(st, d.dragged.value, status), Drag(None)) else (st, d)
  }

  /** Dragging a card onto a column puts every task with that id in the
      column, keeps the number of cards, and a second drop does nothing. */
  lemma DragAndDrop(st: App.AppState, taskId: string, status: TaskStatus)
    requires taskId != ""
    ensures var (after, d) := Drop(st, DragStart(taskId), status);
      && (forall t :: t in after.tasks && t.id == taskId ==> t in ColumnTasks(after.tasks, status))
      && CardCount(after.tasks, Columns) == |st.tasks|
      && Drop(after, d, status) == (after, d)
  {
    var (after, d) := Drop(st, DragStart(taskId), status);
    App.MoveTaskReachesStatus(st, taskId, status);
    BoardPartition(after.tasks);
  }
}
