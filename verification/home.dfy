/** The home screen: the user's tasks, their completed and pending counts,
    the greeting and the short list. */
module Home {
  import opened Types
  import opened Seqs

  /** The tasks assigned to the user by name, in stored order. */
  function MyTasks(tasks: seq<Task>, myName: string): (r: seq<Task>)
    ensures forall t :: t in r <==> t in tasks && t.assignee == myName
    ensures Selects(r, tasks, (t: Task) => t.assignee == myName)
  {
    FilterSelects((t: Task) => t.assignee == myName, tasks);
    Filter((t: Task) => t.assignee == myName, tasks)
  }

  /** The tasks the shell hands to the home page: its team tasks, in
      stored order. */
  function HomeInput(tasks: seq<Task>): (r: seq<Task>)
    ensures forall t :: t in r <==> t in tasks && !t.isPersonal
    ensures Selects(r, tasks, (t: Task) => !t.isPersonal)
  {
    FilterSelects((t: Task) => !t.isPersonal, tasks);
    Filter((t: Task) => !t.isPersonal, tasks)
  }

  /** The home page lists exactly the user's team tasks: personal tasks,
      though assigned to their owner's name, never show there. */
  lemma HomeListsTeamTasksOnly(tasks: seq<Task>, myName: string)
    ensures forall t :: t in MyTasks(HomeInput(tasks), myName) <==> t in tasks && !t.isPersonal && t.assignee == myName
    ensures MyTasks(HomeInput(tasks), myName) == Filter((t: Task) => !t.isPersonal && t.assignee == myName, tasks)
  {
    FilterCompose((t: Task) => !t.isPersonal, (t: Task) => t.assignee == myName,
                  (t: Task) => !t.isPersonal && t.assignee == myName, tasks);
  }

  function Completed(mine: seq<Task>): (n: nat)
    ensures n <= |mine|
  {
    |Filter((t: Task) => t.status == Done, mine)|
  }

  function Pending(mine: seq<Task>): (n: nat)
    ensures n <= |mine|
  {
    |Filter((t: Task) => t.status != Done, mine)|
  }

  /** Every task of the user is either completed or pending. */
  lemma CountsAddUp(tasks: seq<Task>, myName: string)
    ensures Completed(MyTasks(tasks, myName)) + Pending(MyTasks(tasks, myName)) == |MyTasks(tasks, myName)|
  {
    FilterPartition((t: Task) => t.status == Done, (t: Task) => t.status != Done, MyTasks(tasks, myName));
  }

  const Morning: string := "Доброе утро"
  const Afternoon: string := "Добрый день"
  const Evening: string := "Добрый вечер"

  /** The greeting for the hour of the day (0 to 23). */
  function Greeting(hour: nat): (g: string)
    requires hour < 24
    ensures g == Morning <==> hour < 12
    ensures g == Afternoon <==> 12 <= hour < 18
    ensures g == Evening <==> 18 <= hour
  {
    if hour < 12 then Morning
    else if hour < 18 then Afternoon
    else Evening
  }

  /** The short list: the first five of the user's tasks, fewer if there
      are fewer. */
  function ShortList(mine: seq<Task>): (r: seq<Task>)
    ensures |r| == if |mine| < 5 then |mine| else 5
    ensures forall i :: 0 <= i < |r| ==> r[i] == mine[i]
  {
    if |mine| <= 5 then mine else mine[..5]
  }
}
