/** `saveTasks` / `loadTasks`: the list written to and read back from the
    single storage key "tasks", with the JSON array modelled as a sequence
    of records. */
module Persistence {
  import opened Wrappers
  import opened Text
  import opened DueDate
  import opened TaskList

  /** One stored task; `dueDate` is display text, not a structured date. */
  datatype Record = Record(text: string, completed: bool, priority: string, dueDate: string)

  type Snapshot = seq<Record>

  /** The due text stored for a task: the element's text with its first
      "Vence em: " removed, wherever it stands, or nothing when there is no
      element. */
  function StoredDue(due: Option<string>): (d: string)
    ensures due.None? ==> d == []
    ensures forall x :: due == Some(Prefix + x) ==> d == x
    ensures forall i: nat :: due.Some? && FirstOccurrence(due.value, Prefix, i) ==>
              d == due.value[..i] + due.value[i + |Prefix|..]
    ensures due.Some? && !IsInfix(Prefix, due.value) ==> d == due.value
  {
    match due
    case None => []
    case Some(x) =>
      assert forall y :: x == Prefix + y ==> OccursAt(x, Prefix, 0) && x[|Prefix|..] == y;
      ReplaceFirst(x, Prefix, [])
  }

  /** The record `saveTasks` writes for one list item. */
  function SaveTask(t: Task): (r: Record)
    ensures r.text == t.text && r.completed == t.completed
    ensures '-' !in t.priority ==> r.priority == t.priority
    ensures r.dueDate == StoredDue(t.due)
  {
    assert '-' !in t.priority ==> PriorityOfClass(PriorityClass(t.priority)) == t.priority by {
      if '-' !in t.priority { PriorityRoundTrip(t.priority); }
    }
    Record(t.text, t.completed, PriorityOfClass(PriorityClass(t.priority)), StoredDue(t.due))
  }

  /** `saveTasks`: one record per list item, in list order. */
  function Save(ts: seq<Task>): (snap: Snapshot)
    ensures |snap| == |ts|
    ensures forall k :: 0 <= k < |ts| ==> snap[k] == SaveTask(ts[k])
  {
    seq(|ts|, k requires 0 <= k < |ts| => SaveTask(ts[k]))
  }

  /** The list item `loadTasks` rebuilds from one record, through the same
      path as a newly added task: the due text is formatted again. */
  function LoadRecord(r: Record): (t: Task)
    ensures t.text == r.text && t.completed == r.completed && t.priority == r.priority
    ensures t.due.None? <==> r.dueDate == []
    ensures t.due.Some? ==> t.due.value == FormatDueDate(r.dueDate)
  {
    NewTask(r.text, r.completed, r.priority, r.dueDate)
  }

  /** `loadTasks`: an absent key loads as the empty list, a snapshot as one
      task per record, in order. */
  function Load(stored: Option<Snapshot>): (ts: seq<Task>)
    ensures stored.None? ==> ts == []
    ensures stored.Some? ==> |ts| == |stored.value|
    ensures stored.Some? ==> forall k :: 0 <= k < |ts| ==> ts[k] == LoadRecord(stored.value[k])
  {
    var snap := stored.GetOr([]);
    seq(|snap|, k requires 0 <= k < |snap| => LoadRecord(snap[k]))
  }

  /** Stored due text that survives a load: none, a "dd/mm/yyyy" display
      date, or free text that holds no label and no three date components. */
  predicate StableDueText(d: string)
  {
    || d == []
    || IsDisplayDate(d)
    || (!IsInfix(Prefix, d) && |DateParts(d)| != 3)
  }

  /** A record that survives a load: its due text is stable and its
      priority has no '-'. */
  predicate StableRecord(r: Record)
  {
    StableDueText(r.dueDate) && '-' !in r.priority
  }

  /** The due element of a task that survives a save: none, a labelled
      display date, or free text that holds no label and no three date
      components. */
  predicate StableDue(due: Option<string>)
  {
    match due
    case None => true
    case Some(x) =>
      || (|x| >= |Prefix| && x[..|Prefix|] == Prefix && IsDisplayDate(x[|Prefix|..]))
      || (x != [] && !IsInfix(Prefix, x) && |DateParts(x)| != 3)
  }

  /** A task that survives a save: its due element is stable and its
      priority has no '-'. */
  predicate StableTask(t: Task)
  {
    StableDue(t.due) && '-' !in t.priority
  }

  /** Storing the due element of a reloaded record gives back the record's
      due text. */
  lemma StoredDueOfLoaded(d: string)
    requires StableDueText(d)
    ensures StoredDue(NewTask([], false, [], d).due) == d
  {
    if d != [] {
      if IsDisplayDate(d) {
        FormatDisplayDate(d);
      }
    }
  }

  /** Loading a stable snapshot and saving it again writes the same snapshot. */
  lemma SaveAfterLoad(snap: Snapshot)
    requires forall k :: 0 <= k < |snap| ==> StableRecord(snap[k])
    ensures Save(Load(Some(snap))) == snap
  {
    var ts := Load(Some(snap));
    forall k | 0 <= k < |snap|
      ensures SaveTask(ts[k]) == snap[k]
    {
      StoredDueOfLoaded(snap[k].dueDate);
      assert ts[k].due == NewTask([], false, [], snap[k].dueDate).due;
    }
  }

  /** Reloading the stored due text of a stable due element rebuilds it. */
  lemma LoadedOfStoredDue(due: Option<string>)
    requires StableDue(due)
    ensures NewTask([], false, [], StoredDue(due)).due == due
  {
    match due
    case None =>
    case Some(x) =>
      if |x| >= |Prefix| && x[..|Prefix|] == Prefix && IsDisplayDate(x[|Prefix|..]) {
        var d := x[|Prefix|..];
        assert x == Prefix + d;
        assert StoredDue(due) == d;
        FormatDisplayDate(d);
        assert d != [] by { DisplayDateParts(d); }
      }
  }

  /** Saving a list of stable tasks and loading the snapshot rebuilds the
      same list: the round trip a page reload performs. */
  lemma LoadAfterSave(ts: seq<Task>)
    requires forall k :: 0 <= k < |ts| ==> StableTask(ts[k])
    ensures Load(Some(Save(ts))) == ts
  {
    var r := Load(Some(Save(ts)));
    forall k | 0 <= k < |ts|
      ensures r[k] == ts[k]
    {
      LoadedOfStoredDue(ts[k].due);
      assert r[k].due == NewTask([], false, [], StoredDue(ts[k].due)).due;
    }
  }
}
