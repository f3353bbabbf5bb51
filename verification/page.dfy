/** The page as a state machine: the list, the stored snapshot, the count
    text on screen and the add form, with one function per event handler.
    Every handler that changes the list saves it in full and, except
    `editTask`, refreshes the count; each keeps the list well formed and
    the count text in step with it. */
module Page {
  import opened Wrappers
  import opened Text
  import opened TaskList
  import opened Persistence

  /** The add form: text input, priority select and date input values. */
  datatype Form = Form(text: string, priority: string, due: string)

  /** Everything the handlers read or write. */
  datatype App = App(tasks: seq<Task>, stored: Option<Snapshot>, countText: string, form: Form)

  /** The count text on screen agrees with the list. */
  predicate CountShown(app: App)
  {
    app.countText == CountMessage(app.tasks)
  }

  /** The stored snapshot is the list as `saveTasks` would write it now. */
  predicate Persisted(app: App)
  {
    app.stored == Some(Save(app.tasks))
  }

  /** `saveTasks` followed by `updateTaskCount`. */
  function Commit(app: App, ts: seq<Task>): (r: App)
    ensures r.tasks == ts && Persisted(r) && CountShown(r) && r.form == app.form
  {
    App(ts, Some(Save(ts)), CountMessage(ts), app.form)
  }

  /** The `DOMContentLoaded` handler: load the stored list (an absent key
      gives an empty one) and show its count; storage is not rewritten. */
  function Startup(stored: Option<Snapshot>, form: Form): (app: App)
    ensures app.tasks == Load(stored) && app.stored == stored && CountShown(app) && app.form == form
    ensures stored.None? ==> app.tasks == [] && app.countText == "Nenhuma tarefa"
  {
    var ts := Load(stored);
    App(ts, stored, CountMessage(ts), form)
  }

  /** `addTask`, from the Enter key: blank text changes nothing at all;
      otherwise one new task goes at the end, the list is saved, the count
      refreshed and the text and date inputs emptied (the priority stays). */
  function AddTask(app: App): (r: App)
    ensures Trim(app.form.text) == [] ==> r == app
    ensures Trim(app.form.text) != [] ==>
              && r.tasks == app.tasks + [NewTask(Trim(app.form.text), false, app.form.priority, app.form.due)]
              && Persisted(r) && CountShown(r)
              && r.form == Form([], app.form.priority, [])
    ensures AllWellFormed(app.tasks) ==> AllWellFormed(r.tasks)
  {
    match TaskFromInput(app.form.text, app.form.priority, app.form.due)
    case None => app
    case Some(t) =>
      var ts := Append(app.tasks, t);
      AppendKeepsWellFormed(app.tasks, t);
      Commit(app, ts).(form := Form([], app.form.priority, []))
  }

  /** The complete button of task `i`. */
  function CompleteClick(app: App, i: nat): (r: App)
    requires i < |app.tasks|
    ensures r.tasks == Toggle(app.tasks, i) && Persisted(r) && CountShown(r) && r.form == app.form
    ensures AllWellFormed(app.tasks) ==> AllWellFormed(r.tasks)
  {
    Commit(app, Toggle(app.tasks, i))
  }

  /** The delete button of task `i`, with the confirm dialog's answer: a
      declined confirm changes nothing. */
  function DeleteClick(app: App, i: nat, confirmed: bool): (r: App)
    requires i < |app.tasks|
    ensures !confirmed ==> r == app
    ensures confirmed ==> r.tasks == Remove(app.tasks, i) && Persisted(r) && CountShown(r) && r.form == app.form
    ensures AllWellFormed(app.tasks) ==> AllWellFormed(r.tasks)
  {
    if confirmed then Commit(app, Remove(app.tasks, i)) else app
  }

  /** "Limpar concluídas", with the confirm dialog's answer: a declined
      confirm changes nothing. */
  function ClearCompletedClick(app: App, confirmed: bool): (r: App)
    ensures !confirmed ==> r == app
    ensures confirmed ==> r.tasks == ClearCompleted(app.tasks) && Persisted(r) && CountShown(r) && r.form == app.form
    ensures AllWellFormed(app.tasks) ==> AllWellFormed(r.tasks)
  {
    var cleared := ClearCompleted(app.tasks);
    assert forall k :: 0 <= k < |cleared| ==> cleared[k] in app.tasks by {
      forall k | 0 <= k < |cleared| ensures cleared[k] in app.tasks {
        ClearCompletedMembers(app.tasks, cleared[k]);
      }
    }
    if confirmed then Commit(app, ClearCompleted(app.tasks)) else app
  }

  /** The edit button of task `i`, with the three prompt answers. An
      abandoned edit changes nothing and saves nothing; an accepted one
      replaces the task and saves, but leaves the count text alone. */
  function EditClick(app: App, i: nat, newText: Option<string>, newDue: Option<string>, newPriority: Option<string>): (r: App)
    requires i < |app.tasks|
    ensures newText.None? || Trim(newText.value) == [] ==> r == app
    ensures newText.Some? && Trim(newText.value) != [] ==>
              && r.tasks == Replace(app.tasks, i, EditTask(app.tasks[i], newText, newDue, newPriority).value)
              && Persisted(r) && r.countText == app.countText && r.form == app.form
    ensures CountShown(app) ==> CountShown(r)
    ensures AllWellFormed(app.tasks) ==> AllWellFormed(r.tasks)
  {
    match EditTask(app.tasks[i], newText, newDue, newPriority)
    case None => app
    case Some(t) =>
      var ts := Replace(app.tasks, i, t);
      CompletedCountReplace(app.tasks, i, t);
      CountMessageOfCounts(ts, app.tasks);
      assert AllWellFormed(app.tasks) ==> AllWellFormed(ts) by {
        if AllWellFormed(app.tasks) {
          assert WellFormed(app.tasks[i]);
        }
      }
      app.(tasks := ts, stored := Some(Save(ts)))
  }

  /** After a handler has saved, reloading the page shows the same list,
      provided every task survives the save. */
  lemma ReloadRestoresList(app: App, form: Form)
    requires Persisted(app)
    requires forall k :: 0 <= k < |app.tasks| ==> StableTask(app.tasks[k])
    ensures Startup(app.stored, form).tasks == app.tasks
  {
    LoadAfterSave(app.tasks);
  }
}
