/**
 * The state of the to-do screen's App component and its event handlers. The
 * component's useState hooks become the fields of a class; AsyncStorage becomes a
 * key-value map written synchronously; the stored JSON text is taken to be the list it
 * encodes.
 */
module TaskApp {
  import opened Wrappers
  import opened JsString
  import opened TaskList

  /** The single storage key the list is saved under and loaded from. */
  const StorageKey: string := "tasks"

  /** The alert shown when the entered task is blank. */
  const EmptyTaskAlert: string := "Task cannot be empty"

  class App {
    /** The text in the "Enter task" input. */
    var task: string
    /** The task list shown by the FlatList. */
    var tasks: seq<Task>
    /** The id of the entry the edit dialog is for; None is the source's null. */
    var editTaskId: Option<string>
    /** The text in the "Update task" input of the edit dialog. */
    var editTaskText: string
    /** Whether the edit dialog is shown. */
    var modalVisible: bool
    /** The device's key-value storage, of which the screen uses the slot StorageKey. */
    var storage: map<string, seq<Task>>

    /** The memory and the saved image agree: the slot holds exactly the list shown. */
    predicate Persisted()
      reads this
    {
      StorageKey in storage && storage[StorageKey] == tasks
    }

    /** A fresh mount: the useState initial values, over whatever the device has stored. */
    constructor (storage: map<string, seq<Task>>)
      ensures task == [] && tasks == [] && editTaskId == None && editTaskText == []
      ensures !modalVisible && this.storage == storage
    {
      task := [];
      tasks := [];
      editTaskId := None;
      editTaskText := [];
      modalVisible := false;
      this.storage := storage;
    }

    /** loadTasks: a stored list replaces the one in memory; with nothing stored the
        list stays as it was. */
    method LoadTasks()
      modifies this`tasks
      ensures tasks == if StorageKey in storage then storage[StorageKey] else old(tasks)
      ensures StorageKey in storage ==> Persisted()
    {
      if StorageKey in storage {
        tasks := storage[StorageKey];
      }
    }

    /** saveTasks: writes the given list under StorageKey and touches no other key. */
    method SaveTasks(updatedTasks: seq<Task>)
      modifies this`storage
      ensures storage == old(storage)[StorageKey := updatedTasks]
      ensures StorageKey in storage && storage[StorageKey] == updatedTasks
      ensures forall k :: k != StorageKey ==> (k in storage <==> k in old(storage))
      ensures forall k :: k != StorageKey && k in storage ==> storage[k] == old(storage)[k]
    {
      storage := storage[StorageKey := updatedTasks];
    }

    /** The "Enter task" input's onChangeText. */
    method ChangeTask(text: string)
      modifies this`task
      ensures task == text
    {
      task := text;
    }

    /** addTask, with `id` standing for Date.now().toString(). A blank input raises the
        alert and changes nothing; otherwise the untrimmed input is appended under `id`,
        the new list is saved, and the input is cleared. */
    method AddTask(id: string) returns (alert: Option<string>)
      modifies this`tasks, this`storage, this`task
      ensures IsBlank(old(task)) ==> alert == Some(EmptyTaskAlert)
      ensures IsBlank(old(task)) ==> tasks == old(tasks) && storage == old(storage) && task == old(task)
      ensures !IsBlank(old(task)) ==> alert == None
      ensures !IsBlank(old(task)) ==> tasks == AddEntry(old(tasks), id, old(task))
      ensures !IsBlank(old(task)) ==> storage == old(storage)[StorageKey := tasks] && task == []
      ensures !IsBlank(old(task)) ==> Persisted()
      ensures old(Persisted()) ==> Persisted()
      ensures old(DistinctIds(tasks)) && !HasId(old(tasks), id) ==> DistinctIds(tasks)
    {
      if Trim(task) == [] {
        alert := Some(EmptyTaskAlert);
        return;
      }
      alert := None;
      var updatedTasks := AddEntry(tasks, id, task);
      ghost var keepsDistinct := DistinctIds(tasks) && !HasId(tasks, id);
      if keepsDistinct {
        AddEntryKeepsDistinct(tasks, id, task);
      }
      assert keepsDistinct ==> DistinctIds(updatedTasks);
      tasks := updatedTasks;
      SaveTasks(updatedTasks);
      task := [];
    }

    /** openEditModal: opens the dialog for entry `id`, prefilled with `taskText`. */
    method OpenEditModal(id: string, taskText: string)
      modifies this`editTaskId, this`editTaskText, this`modalVisible
      ensures editTaskId == Some(id) && editTaskText == taskText && modalVisible
    {
      editTaskId := Some(id);
      editTaskText := taskText;
      modalVisible := true;
    }

    /** The "Update task" input's onChangeText. */
    method ChangeEditTaskText(text: string)
      modifies this`editTaskText
      ensures editTaskText == text
    {
      editTaskText := text;
    }

    /** saveEditTask: every entry with the edited id takes the dialog's text (none does
        when the id is unknown or null), the new list is saved, and the dialog is closed
        and reset. */
    method SaveEditTask()
      modifies this`tasks, this`storage, this`modalVisible, this`editTaskId, this`editTaskText
      ensures tasks == EditEntries(old(tasks), old(editTaskId), old(editTaskText))
      ensures old(editTaskId).None? || !HasId(old(tasks), old(editTaskId).value) ==> tasks == old(tasks)
      ensures old(DistinctIds(tasks)) ==> DistinctIds(tasks)
      ensures storage == old(storage)[StorageKey := tasks] && Persisted()
      ensures !modalVisible && editTaskId == None && editTaskText == []
    {
      var updatedTasks := EditEntries(tasks, editTaskId, editTaskText);
      ghost var unknown := editTaskId.None? || !HasId(tasks, editTaskId.value);
      if unknown {
        EditEntriesUnknownId(tasks, editTaskId, editTaskText);
      }
      ghost var distinct := DistinctIds(tasks);
      EditEntriesKeepsIds(tasks, editTaskId, editTaskText);
      assert distinct ==> DistinctIds(updatedTasks);
      assert unknown ==> updatedTasks == tasks;
      tasks := updatedTasks;
      SaveTasks(updatedTasks);
      modalVisible := false;
      editTaskId := None;
      editTaskText := [];
    }

    /** The dialog's Cancel button (and its onRequestClose): hides the dialog and keeps
        the edit id and text as they were. */
    method Cancel()
      modifies this`modalVisible
      ensures !modalVisible
    {
      modalVisible := false;
    }

    /** deleteTask: drops every entry with `id`, keeping the others in order, and saves
        the new list. */
    method DeleteTask(id: string)
      modifies this`tasks, this`storage
      ensures tasks == RemoveId(old(tasks), id)
      ensures !HasId(tasks, id) && Subsequence(tasks, old(tasks))
      ensures !HasId(old(tasks), id) ==> tasks == old(tasks)
      ensures old(DistinctIds(tasks)) ==> DistinctIds(tasks)
      ensures old(DistinctIds(tasks)) && HasId(old(tasks), id) ==> |tasks| == |old(tasks)| - 1
      ensures storage == old(storage)[StorageKey := tasks] && Persisted()
    {
      var updatedTasks := RemoveId(tasks, id);
      RemoveIdSubsequence(tasks, id);
      if !HasId(tasks, id) {
        RemoveIdAbsent(tasks, id);
      }
      if DistinctIds(tasks) {
        RemoveIdKeepsDistinct(tasks, id);
        if HasId(tasks, id) {
          RemoveIdPresent(tasks, id);
        }
      }
      tasks := updatedTasks;
      SaveTasks(updatedTasks);
    }
  }

  /** Restarting the app: a new mount over the same storage, followed by the load its
      effect runs. When the last state was saved, the restarted screen shows the same
      list. */
  method Restart(app: App) returns (next: App)
    requires app.Persisted()
    ensures next.tasks == app.tasks && next.storage == app.storage
    ensures next.task == [] && next.editTaskId == None && next.editTaskText == []
    ensures !next.modalVisible
  {
    next := new App(app.storage);
    next.LoadTasks();
  }

  /** A blank entry on a fresh screen raises the alert and adds nothing. */
  method BlankEntrySession()
  {
    var app := new App(map[]);
    app.LoadTasks();
    app.ChangeTask(" \t ");
    var alert := app.AddTask("1");
    assert alert == Some(EmptyTaskAlert) && app.tasks == [] && app.storage == map[];
  }

  /** A first launch on an empty device: two tasks are added, in order, and saved. */
  method AddSession()
  {
    var app := new App(map[]);
    app.LoadTasks();
    app.ChangeTask("Buy milk");
    assert !IsWhitespace(app.task[0]);
    var alert := app.AddTask("1");
    assert app.tasks == [Task("1", "Buy milk")];
    app.ChangeTask("Walk dog");
    assert !IsWhitespace(app.task[0]);
    alert := app.AddTask("2");
    assert app.storage[StorageKey] == [Task("1", "Buy milk"), Task("2", "Walk dog")];
  }

  /** A launch over what the first one saved: the first task is edited through the
      dialog, and the edited list is saved. */
  method EditSession()
  {
    var saved := [Task("1", "Buy milk"), Task("2", "Walk dog")];
    var app := new App(map[StorageKey := saved]);
    app.LoadTasks();
    app.OpenEditModal("1", "Buy milk");
    app.ChangeEditTaskText("Buy oat milk");
    app.SaveEditTask();
    assert IsEdited(saved[0], Some("1")) && !IsEdited(saved[1], Some("1"));
    assert app.storage[StorageKey] == [Task("1", "Buy oat milk"), Task("2", "Walk dog")];
    assert !app.modalVisible && app.editTaskId == None;
  }

  /** A launch over the edited list: the list is loaded, the second
      task is deleted, and a restart shows the shorter list. */
  method SecondSession()
  {
    var saved := [Task("1", "Buy oat milk"), Task("2", "Walk dog")];
    var app := new App(map[StorageKey := saved]);
    app.LoadTasks();
    assert app.tasks == saved;
    app.DeleteTask("2");
    assert saved[1..] == [Task("2", "Walk dog")] && saved[1..][1..] == [];
    assert RemoveId(saved[1..], "2") == [];
    assert app.tasks == [Task("1", "Buy oat milk")];
    var restarted := Restart(app);
    assert restarted.tasks == [Task("1", "Buy oat milk")];
  }
}
