/** The state of the ToDo component and its event handlers. Each handler is
    one atomic update of the four pieces of state; `Valid()` is the
    invariant they all keep: the two hand-maintained counters equal the
    values derived from the list, ids are unique and no text is blank. */
module Component {
  import opened Seqs
  import opened Text
  import opened Tasks

  /** `const updatedTasks = [...tasks]` followed by the destructuring swap
      of slots `k` and `k + 1` of that copy: the list with the two
      neighbours exchanged, the input itself untouched. */
  method SwappedCopy(tasks: seq<Task>, k: nat) returns (updated: seq<Task>)
    requires k + 1 < |tasks|
    ensures updated == SwapAdjacent(tasks, k)
  {
    var updatedTasks := new Task[|tasks|](i requires 0 <= i < |tasks| => tasks[i]);
    updatedTasks[k], updatedTasks[k + 1] := updatedTasks[k + 1], updatedTasks[k];
    updated := updatedTasks[..];
  }

  class ToDo {
    /** The ordered task list. */
    var tasks: seq<Task>
    /** The pending text of the input field. */
    var newTask: string
    /** The "Total Tasks" counter. */
    var totalTasks: int
    /** The "Completed Tasks" counter. */
    var cmpTask: int

    ghost predicate Valid()
      reads this
    {
      && totalTasks == |tasks|
      && cmpTask == |Completed(tasks)|
      && UniqueIds(tasks)
      && TextsNonBlank(tasks)
    }

    /** The initial state: six incomplete seed tasks, an empty input, the
        total counter at the list's length and the completed counter at 0. */
    constructor ()
      ensures Valid()
      ensures tasks == Seed && newTask == "" && totalTasks == 6 && cmpTask == 0
    {
      tasks := Seed;
      newTask := "";
      totalTasks := |Seed|;
      cmpTask := 0;
      new;
      SeedValid();
    }

    /** handleInputChange: the input field's value becomes the pending text. */
    method HandleInputChange(value: string)
      requires Valid()
      modifies this`newTask
      ensures Valid() && newTask == value
    {
      newTask := value;
    }

    /** addNewTask. `id` stands for the `Date.now()` the source reads; it
        must not be in use when a task is actually added. */
    method AddNewTask(id: int)
      requires Valid()
      requires !IsBlank(newTask) ==> id !in Ids(tasks)
      modifies this
      ensures Valid()
      ensures IsBlank(old(newTask)) ==>
        && tasks == old(tasks) && newTask == old(newTask)
        && totalTasks == old(totalTasks) && cmpTask == old(cmpTask)
      ensures !IsBlank(old(newTask)) ==>
        && tasks == [Task(id, old(newTask), false)] + old(tasks)
        && newTask == ""
        && totalTasks == old(totalTasks) + 1
        && cmpTask == old(cmpTask)
    {
      TrimEmptyIffBlank(newTask);
      if Trim(newTask) != "" {
        var added := Task(id, newTask, false);
        ghost var before := tasks;
        tasks := [added] + tasks;
        newTask := "";
        totalTasks := totalTasks + 1;
        assert tasks[1..] == before;
        UniqueIdsCons(added, before);
      }
    }

    /** deleteTask: every task holding `id` goes, the others keep their
        order, and both counters are recomputed from the new list. */
    method DeleteTask(id: int)
      requires Valid()
      modifies this
      ensures Valid()
      ensures tasks == WithoutId(old(tasks), id)
      ensures newTask == old(newTask)
      ensures id !in Ids(old(tasks)) ==>
        tasks == old(tasks) && totalTasks == old(totalTasks) && cmpTask == old(cmpTask)
      ensures id in Ids(old(tasks)) ==> totalTasks == old(totalTasks) - 1
    {
      ghost var before := tasks;
      var updatedTasks := WithoutId(tasks, id);
      tasks := updatedTasks;
      totalTasks := |updatedTasks|;
      cmpTask := |Completed(updatedTasks)|;
      UniqueIdsFilter(before, OtherId(id));
      if id !in Ids(before) {
        DeleteAbsent(before, id);
      } else {
        DeletePresent(before, id);
      }
    }

    /** moveUp: on a copy of the list, the task holding `id` and its
        predecessor change places; nothing happens when it is first or
        absent. The counters are left alone, and stay right. */
    method MoveUp(id: int)
      requires Valid()
      modifies this
      ensures Valid()
      ensures tasks == MovedUp(old(tasks), id)
      ensures multiset(tasks) == multiset(old(tasks))
      ensures totalTasks == old(totalTasks) && cmpTask == old(cmpTask)
      ensures newTask == old(newTask)
    {
      MoveUpKeepsInvariant(tasks, id);
      var index := IndexOf(tasks, id);
      if index > 0 {
        tasks := SwappedCopy(tasks, index - 1);
      }
    }

    /** moveDown, for an id the list holds: on a copy of the list, the task
        and its successor change places; nothing happens when it is last. */
    method MoveDown(id: int)
      requires Valid()
      requires id in Ids(tasks)
      modifies this
      ensures Valid()
      ensures tasks == MovedDown(old(tasks), id)
      ensures multiset(tasks) == multiset(old(tasks))
      ensures totalTasks == old(totalTasks) && cmpTask == old(cmpTask)
      ensures newTask == old(newTask)
    {
      MoveDownKeepsInvariant(tasks, id);
      var index := IndexOf(tasks, id);
      if index < |tasks| - 1 {
        tasks := SwappedCopy(tasks, index);
      }
    }

    /** completeTask: the task holding `id` has its flag flipped, then the
        list is stably partitioned (incomplete tasks first) and the
        completed counter recomputed. The source also stores the flipped
        list before the partition; the partition is what remains. */
    method CompleteTask(id: int)
      requires Valid()
      modifies this
      ensures Valid()
      ensures tasks == Reorder(Toggled(old(tasks), id))
      ensures Partitioned(tasks)
      ensures totalTasks == old(totalTasks) && newTask == old(newTask)
      ensures id in Ids(old(tasks)) ==>
        cmpTask == old(cmpTask) + (if old(tasks)[IndexOf(old(tasks), id)].completed then -1 else 1)
    {
      CompleteKeepsInvariant(tasks, id);
      if id in Ids(tasks) {
        ToggleCount(tasks, id);
      }
      var updatedTasks := Toggled(tasks, id);
      tasks := updatedTasks;
      ReorderTasks(updatedTasks);
      cmpTask := |Completed(updatedTasks)|;
    }

    /** reorderTasks: the given list, incomplete tasks first and completed
        ones after, each group in its own order, becomes the task list.
        It is not an event handler: only `completeTask` calls it, so it
        neither requires nor, on its own, keeps `Valid()` (the counters are
        not touched); `CompleteTask` re-establishes the invariant. */
    method ReorderTasks(updatedTasks: seq<Task>)
      modifies this`tasks
      ensures tasks == Reorder(updatedTasks)
    {
      var incompleteTasks := Incomplete(updatedTasks);
      var completedTasks := Completed(updatedTasks);
      tasks := incompleteTasks + completedTasks;
    }

    /** deleteAll: the list is emptied and both counters go to 0. */
    method DeleteAll()
      requires Valid()
      modifies this
      ensures Valid()
      ensures tasks == [] && totalTasks == 0 && cmpTask == 0
      ensures newTask == old(newTask)
    {
      tasks := [];
      totalTasks := 0;
      cmpTask := 0;
    }

    /** resetCmp: every task becomes incomplete, in place, and the completed
        counter goes to 0. */
    method ResetCmp()
      requires Valid()
      modifies this
      ensures Valid()
      ensures tasks == Cleared(old(tasks))
      ensures Completed(tasks) == [] && cmpTask == 0
      ensures totalTasks == old(totalTasks) && newTask == old(newTask)
    {
      ghost var before := tasks;
      var updatedTasks := Cleared(tasks);
      tasks := updatedTasks;
      cmpTask := 0;
      SameIdsAndTexts(before, updatedTasks);
      ClearedNoneCompleted(before);
    }
  }
}
