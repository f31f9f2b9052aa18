/** The board columns and the label and colour tables for the task enums. */
module Constants {
  import opened Types
  import opened Seqs

  datatype ColumnDefinition = ColumnDefinition(id: TaskStatus, title: string, color: string)

  /** The Kanban columns, left to right. */
  const Columns: seq<ColumnDefinition> := [
    ColumnDefinition(Todo, "Сделать", "bg-gray-200"),
    ColumnDefinition(InProgress, "В работе", "bg-blue-200"),
    ColumnDefinition(Review, "На проверке", "bg-yellow-200"),
    ColumnDefinition(Done, "Готово", "bg-green-200")
  ]

  const PriorityLabels: map<TaskPriority, string> := map[
    Low := "Низкий",
    Medium := "Средний",
    High := "Высокий"
  ]

  const PriorityColors: map<TaskPriority, string> := map[
    Low := "bg-green-100 text-green-800",
    Medium := "bg-yellow-100 text-yellow-800",
    High := "bg-red-100 text-red-800"
  ]

  const StatusLabels: map<TaskStatus, string> := map[
    Todo := "Сделать",
    InProgress := "В работе",
    Review := "На проверке",
    Done := "Готово"
  ]

  function ColumnIds(cols: seq<ColumnDefinition>): (ids: seq<TaskStatus>)
    ensures |ids| == |cols|
    ensures forall i :: 0 <= i < |cols| ==> ids[i] == cols[i].id
  {
    seq(|cols|, i requires 0 <= i < |cols| => cols[i].id)
  }

  /** The columns list every status exactly once, in workflow order. */
  lemma ColumnsCoverEachStatusOnce()
    ensures ColumnIds(Columns) == [Todo, InProgress, Review, Done]
    ensures forall s: TaskStatus :: Count(s, ColumnIds(Columns)) == 1
  {
    var ids := ColumnIds(Columns);
    assert ids == [Todo, InProgress, Review, Done];
    forall s: TaskStatus ensures Count(s, ids) == 1 {
      assert ids[1..] == [InProgress, Review, Done];
      assert ids[1..][1..] == [Review, Done];
      assert ids[1..][1..][1..] == [Done];
      assert Count(s, [Done]) == (if s == Done then 1 else 0);
      assert Count(s, [Review, Done]) == (if s == Review then 1 else 0) + Count(s, [Done]);
      assert Count(s, [InProgress, Review, Done])
        == (if s == InProgress then 1 else 0) + Count(s, [Review, Done]);
    }
  }

  /** Every label and colour table is total over its enum, and the status
      label of each status is the title of its board column. */
  lemma LabelTablesTotal()
    ensures forall p: TaskPriority :: p in PriorityLabels && p in PriorityColors
    ensures forall s: TaskStatus :: s in StatusLabels
    ensures forall i :: 0 <= i < |Columns| ==> StatusLabels[Columns[i].id] == Columns[i].title
  {
    forall p: TaskPriority ensures p in PriorityLabels && p in PriorityColors {
      match p
      case Low =>
      case Medium =>
      case High =>
    }
    forall s: TaskStatus ensures s in StatusLabels {
      match s
      case Todo =>
      case InProgress =>
      case Review =>
      case Done =>
    }
  }
}
