/**
 * The state of the Home screen: the task list and the text of the input
 * box, and the handlers that overwrite them. Each handler's ensures give
 * the new list as the matching function's result in module Tasks, and the
 * handler returns, as a value, the alert the screen would show.
 */
module Home {
  import opened JsString
  import opened Tasks

  class TaskStore {
    /** The `tasks` state: newest task first. */
    var tasks: seq<Task>
    /** The `text` state: what the input box holds. */
    var text: string

    /** The screen mounts with no tasks and an empty input box. */
    constructor ()
      ensures tasks == [] && text == ""
    {
      tasks := [];
      text := "";
    }

    /** Typing into the input box. */
    method ChangeText(s: string)
      modifies this
      ensures text == s && tasks == old(tasks)
    {
      text := s;
    }

    /**
     * addTask, with `freshId` standing for the clock-derived id. Blank input
     * is ignored and leaves both the list and the input box as they were;
     * otherwise the new task is prepended, the box is cleared and a success
     * alert is raised.
     */
    method AddTask(freshId: string) returns (event: Option<Event>)
      modifies this
      ensures tasks == Added(old(tasks), old(text), freshId)
      ensures AllSpace(old(text)) ==> text == old(text) && event == None
      ensures !AllSpace(old(text)) ==> text == "" && event == Some(TaskAdded)
      ensures UniqueIds(old(tasks)) && !HasId(old(tasks), freshId) ==> UniqueIds(tasks)
    {
      if |Trim(text)| == 0 {
        return None;
      }
      if UniqueIds(tasks) && !HasId(tasks, freshId) {
        AddKeepsIdsUnique(tasks, text, freshId);
      }
      tasks := [Task(freshId, Trim(text), false)] + tasks;
      text := "";
      event := Some(TaskAdded);
    }

    /**
     * toggleTask: nothing happens for an unknown id; otherwise the entries
     * with the id get the negated flag of the first of them, and the alert
     * says which state the task is now in.
     */
    method ToggleTask(id: string) returns (event: Option<Event>)
      modifies this
      ensures tasks == Toggled(old(tasks), id) && text == old(text)
      ensures event == ToggleEvent(old(tasks), id)
      ensures !HasId(old(tasks), id) ==> tasks == old(tasks) && event == None
      ensures UniqueIds(old(tasks)) ==> UniqueIds(tasks)
    {
      var found := Find(tasks, id);
      if found.None? {
        return None;
      }
      var newCompleted := !found.value.completed;
      event := Some(if newCompleted then TaskCompleted else TaskPending);
      if UniqueIds(tasks) {
        ToggleKeepsIdsUnique(tasks, id);
      }
      tasks := SetCompleted(tasks, id, newCompleted);
    }

    /**
     * deleteTask: every entry with the id is dropped; the deletion alert is
     * raised whether or not one was found.
     */
    method DeleteTask(id: string) returns (event: Event)
      modifies this
      ensures tasks == Deleted(old(tasks), id) && text == old(text)
      ensures event == TaskDeleted
      ensures !HasId(old(tasks), id) ==> tasks == old(tasks)
      ensures UniqueIds(old(tasks)) ==> UniqueIds(tasks)
    {
      if !HasId(tasks, id) {
        DeleteAbsent(tasks, id);
      }
      if UniqueIds(tasks) {
        DeleteKeepsIdsUnique(tasks, id);
      }
      tasks := Deleted(tasks, id);
      event := TaskDeleted;
    }

    /**
     * loadTasks, given what storage returned for the key and the decoder:
     * only a non-empty stored value that decodes replaces the list.
     */
    method LoadTasks(stored: Option<string>, parse: string -> Option<seq<Task>>)
      modifies this
      ensures tasks == Loaded(old(tasks), stored, parse) && text == old(text)
      ensures stored.None? || stored.value == "" ==> tasks == old(tasks)
    {
      if stored.Some? && stored.value != "" {
        var decoded := parse(stored.value);
        if decoded.Some? {
          tasks := decoded.value;
        }
      }
    }
  }

  /**
   * A session on a fresh screen: add "Buy milk", complete it, delete it.
   */
  method BuyMilkSession() returns (store: TaskStore)
    ensures store.tasks == [] && store.text == ""
  {
    store := new TaskStore();
    store.ChangeText("Buy milk");
    assert SkipForward("Buy milk", 0) == 0 && SkipBackward("Buy milk", 0, 8) == 8;
    assert Trim("Buy milk") == "Buy milk";
    var added := store.AddTask("1");
    assert added == Some(TaskAdded);
    assert store.tasks == [Task("1", "Buy milk", false)];
    assert PendingCount(store.tasks) == 1;
    var toggled := store.ToggleTask("1");
    assert Find([Task("1", "Buy milk", false)], "1") == Some(Task("1", "Buy milk", false));
    assert toggled == Some(TaskCompleted);
    assert store.tasks == [Task("1", "Buy milk", true)];
    assert PendingCount(store.tasks) == 0;
    var deleted := store.DeleteTask("1");
    assert store.tasks == [];
  }
}
