/** The task list lifted out of the page: each `<li>` becomes a `Task`, the
    `#taskList` element an ordered `seq<Task>`, and each operation a pure
    function from one list to the next. Dialog answers arrive as
    parameters. */
module TaskList {
  import opened Wrappers
  import opened Text
  import opened DueDate

  /** One list item: the text of its `.task-text` span, whether it carries
      the `completed` class, the stem `p` of its `p-priority` class, and
      the text of its `.task-due` span (`None` when it has none). */
  datatype Task = Task(text: string, completed: bool, priority: string, due: Option<string>)

  /** The only priorities the edit dialog accepts. */
  const ValidPriorities: seq<string> := ["high", "medium", "low"]

  /** The class name that records a priority on the list item. */
  function PriorityClass(p: string): string
  {
    p + "-priority"
  }

  /** The priority read back from the class name: the part before its first '-'. */
  function PriorityOfClass(c: string): string
  {
    Split(c, '-')[0]
  }

  /** A priority without '-' is read back from its class name unchanged. */
  lemma PriorityRoundTrip(p: string)
    requires '-' !in p
    ensures PriorityOfClass(PriorityClass(p)) == p
  {
    var parts := [p, "priority"];
    assert parts[1..] == ["priority"];
    assert Join(parts, '-') == PriorityClass(p);
    SplitOfJoin(parts, '-');
  }

  /** A task as every operation leaves it: non-empty trimmed text and, when
      there is a due-date element, non-empty due text. */
  predicate WellFormed(t: Task)
  {
    t.text != [] && IsTrimmed(t.text) && (t.due.Some? ==> t.due.value != [])
  }

  predicate AllWellFormed(ts: seq<Task>)
  {
    forall k :: 0 <= k < |ts| ==> WellFormed(ts[k])
  }

  /** The list item `addTaskToDOM` builds: a due-date element exists only
      for a non-empty due date, and shows it formatted. */
  function NewTask(text: string, completed: bool, priority: string, dueDate: string): (t: Task)
    ensures t.text == text && t.completed == completed && t.priority == priority
    ensures t.due.None? <==> dueDate == []
    ensures t.due.Some? ==> t.due.value == FormatDueDate(dueDate) && t.due.value != []
  {
    Task(text, completed, priority, if dueDate == [] then None else Some(FormatDueDate(dueDate)))
  }

  /** `addTask`'s guard: input that trims to nothing adds no task; any
      other input becomes a new, uncompleted, well-formed task holding the
      trimmed text. */
  function TaskFromInput(text: string, priority: string, dueDate: string): (r: Option<Task>)
    ensures r.None? <==> Trim(text) == []
    ensures r.Some? ==> r.value == NewTask(Trim(text), false, priority, dueDate) && WellFormed(r.value)
  {
    var trimmed := Trim(text);
    if trimmed == [] then None else Some(NewTask(trimmed, false, priority, dueDate))
  }

  /** Appending a task keeps every earlier task where it was. */
  function Append(ts: seq<Task>, t: Task): (r: seq<Task>)
    ensures |r| == |ts| + 1 && r[|ts|] == t
    ensures forall k :: 0 <= k < |ts| ==> r[k] == ts[k]
  {
    ts + [t]
  }

  /** Appending a well-formed task to a well-formed list keeps it well formed. */
  lemma AppendKeepsWellFormed(ts: seq<Task>, t: Task)
    requires WellFormed(t)
    ensures AllWellFormed(ts) ==> AllWellFormed(Append(ts, t))
  {
  }

  /** The complete button: flips the completed flag of task `i` and of no
      other; text, priority, due date and order stay as they were. */
  function Toggle(ts: seq<Task>, i: nat): (r: seq<Task>)
    requires i < |ts|
    ensures |r| == |ts|
    ensures r[i].completed == !ts[i].completed
    ensures r[i].text == ts[i].text && r[i].priority == ts[i].priority && r[i].due == ts[i].due
    ensures forall k :: 0 <= k < |ts| && k != i ==> r[k] == ts[k]
  {
    ts[i := ts[i].(completed := !ts[i].completed)]
  }

  /** Toggling the same task twice restores the list. */
  lemma ToggleTwice(ts: seq<Task>, i: nat)
    requires i < |ts|
    ensures Toggle(Toggle(ts, i), i) == ts
  {
    var r := Toggle(Toggle(ts, i), i);
    assert forall k :: 0 <= k < |ts| ==> r[k] == ts[k];
  }

  /** The delete button once confirmed: task `i` goes, the others keep their
      relative order. */
  function Remove(ts: seq<Task>, i: nat): (r: seq<Task>)
    requires i < |ts|
    ensures |r| == |ts| - 1
    ensures forall k :: 0 <= k < i ==> r[k] == ts[k]
    ensures forall k :: i <= k < |r| ==> r[k] == ts[k + 1]
    ensures multiset(r) + multiset{ts[i]} == multiset(ts)
  {
    assert ts == ts[..i] + [ts[i]] + ts[i + 1..];
    ts[..i] + ts[i + 1..]
  }

  /** Replaces task `i` with `t`, leaving the others alone. */
  function Replace(ts: seq<Task>, i: nat, t: Task): (r: seq<Task>)
    requires i < |ts|
    ensures |r| == |ts| && r[i] == t
    ensures forall k :: 0 <= k < |ts| && k != i ==> r[k] == ts[k]
  {
    ts[i := t]
  }

  /** The number of tasks marked completed. */
  function CompletedCount(ts: seq<Task>): (n: nat)
    ensures n <= |ts|
    ensures n == 0 <==> forall k :: 0 <= k < |ts| ==> !ts[k].completed
    ensures n == |ts| <==> forall k :: 0 <= k < |ts| ==> ts[k].completed
  {
    if ts == [] then 0
    else (if ts[0].completed then 1 else 0) + CompletedCount(ts[1..])
  }

  /** Counting completed tasks distributes over concatenation. */
  lemma {:induction false} CompletedCountAppend(a: seq<Task>, b: seq<Task>)
    ensures CompletedCount(a + b) == CompletedCount(a) + CompletedCount(b)
    decreases |a|
  {
    if a == [] {
      assert a + b == b;
    } else {
      assert (a + b)[0] == a[0] && (a + b)[1..] == a[1..] + b;
      CompletedCountAppend(a[1..], b);
    }
  }

  /** Swapping one task for another with the same flag keeps the count. */
  lemma {:induction false} CompletedCountReplace(ts: seq<Task>, i: nat, t: Task)
    requires i < |ts| && t.completed == ts[i].completed
    ensures CompletedCount(Replace(ts, i, t)) == CompletedCount(ts)
    decreases i
  {
    var r := Replace(ts, i, t);
    if i == 0 {
      assert r[1..] == ts[1..];
    } else {
      assert r[1..] == Replace(ts[1..], i - 1, t);
      CompletedCountReplace(ts[1..], i - 1, t);
    }
  }

  /** The count message depends only on the two counts. */
  lemma CountMessageOfCounts(a: seq<Task>, b: seq<Task>)
    requires |a| == |b| && CompletedCount(a) == CompletedCount(b)
    ensures CountMessage(a) == CountMessage(b)
  {
  }

  /** Clear completed, once confirmed: the tasks without the completed
      flag, in their original order. */
  function ClearCompleted(ts: seq<Task>): (r: seq<Task>)
    ensures |r| == |ts| - CompletedCount(ts)
    ensures forall k :: 0 <= k < |r| ==> !r[k].completed
  {
    if ts == [] then []
    else if ts[0].completed then ClearCompleted(ts[1..])
    else [ts[0]] + ClearCompleted(ts[1..])
  }

  /** Clearing keeps exactly the uncompleted tasks: nothing else is dropped
      and nothing is invented. */
  lemma {:induction false} ClearCompletedMembers(ts: seq<Task>, t: Task)
    ensures t in ClearCompleted(ts) <==> t in ts && !t.completed
    decreases |ts|
  {
    if ts != [] {
      ClearCompletedMembers(ts[1..], t);
      assert ts == [ts[0]] + ts[1..];
    }
  }

  /** Clearing a concatenation clears each half in place, so the remaining
      tasks keep their relative order. */
  lemma {:induction false} ClearCompletedAppend(a: seq<Task>, b: seq<Task>)
    ensures ClearCompleted(a + b) == ClearCompleted(a) + ClearCompleted(b)
    decreases |a|
  {
    if a == [] {
      assert a + b == b;
    } else {
      var ab := a + b;
      assert ab[0] == a[0] && ab[1..] == a[1..] + b;
      if a[0].completed {
        calc {
          ClearCompleted(ab);
          ClearCompleted(a[1..] + b);
          { ClearCompletedAppend(a[1..], b); }
          ClearCompleted(a[1..]) + ClearCompleted(b);
          ClearCompleted(a) + ClearCompleted(b);
        }
      } else {
        calc {
          ClearCompleted(ab);
          [a[0]] + ClearCompleted(a[1..] + b);
          { ClearCompletedAppend(a[1..], b); }
          [a[0]] + (ClearCompleted(a[1..]) + ClearCompleted(b));
          ([a[0]] + ClearCompleted(a[1..])) + ClearCompleted(b);
          ClearCompleted(a) + ClearCompleted(b);
        }
      }
    }
  }

  /** A list without completed tasks is left as it is. */
  lemma {:induction false} ClearCompletedNoop(ts: seq<Task>)
    requires CompletedCount(ts) == 0
    ensures ClearCompleted(ts) == ts
    decreases |ts|
  {
    if ts != [] {
      ClearCompletedNoop(ts[1..]);
    }
  }

  /** `updateTaskCount`: "Nenhuma tarefa" for an empty list, "Todas as
      tarefas concluídas!" when every task is completed, otherwise
      "{remaining} de {total} tarefas restantes". */
  function CountMessage(ts: seq<Task>): (msg: string)
    ensures |ts| == 0 ==> msg == "Nenhuma tarefa"
    ensures |ts| > 0 && CompletedCount(ts) == |ts| ==> msg == "Todas as tarefas concluídas!"
    ensures CompletedCount(ts) < |ts| ==> msg == Remaining(|ts| - CompletedCount(ts), |ts|)
  {
    var total := |ts|;
    var completed := CompletedCount(ts);
    var remaining := Remaining(total - completed, total);
    if total == 0 then "Nenhuma tarefa"
    else if completed == total then "Todas as tarefas concluídas!"
    else remaining
  }

  /** "{remaining} de {total} tarefas restantes". */
  function Remaining(remaining: nat, total: nat): string
  {
    NatToString(remaining) + " de " + NatToString(total) + " tarefas restantes"
  }

  /** The message starts with a digit exactly when some task remains, so
      the three cases never produce the same text. */
  lemma CountMessageDistinguishes(ts: seq<Task>)
    ensures '0' <= CountMessage(ts)[0] <= '9' <==> CompletedCount(ts) < |ts|
    ensures CountMessage(ts)[0] == 'N' <==> |ts| == 0
    ensures CountMessage(ts)[0] == 'T' <==> |ts| > 0 && CompletedCount(ts) == |ts|
  {
    var msg := CountMessage(ts);
    if |ts| == 0 {
      assert msg == "Nenhuma tarefa";
      assert msg[0] == 'N';
    } else if CompletedCount(ts) == |ts| {
      assert msg == "Todas as tarefas concluídas!";
      assert msg[0] == 'T';
    } else {
      var n := NatToString(|ts| - CompletedCount(ts));
      assert msg == Remaining(|ts| - CompletedCount(ts), |ts|);
      assert msg[0] == n[0];
    }
  }

  /** Three tasks, one of them completed: "2 de 3 tarefas restantes". */
  lemma CountMessageExample(ts: seq<Task>)
    requires |ts| == 3 && CompletedCount(ts) == 1
    ensures CountMessage(ts) == "2 de 3 tarefas restantes"
  {
    assert CountMessage(ts) == Remaining(2, 3);
    RemainingExample();
  }

  /** The remaining-tasks text for 2 of 3. */
  lemma RemainingExample()
    ensures Remaining(2, 3) == "2 de 3 tarefas restantes"
  {
    assert NatToString(2) == [DigitChar(2)] == "2";
    assert NatToString(3) == [DigitChar(3)] == "3";
  }

  /** `filterTasks` for one row: "active" shows the tasks not completed,
      "completed" the completed ones, any other filter shows every task. */
  predicate Visible(filter: string, t: Task)
  {
    if filter == "active" then !t.completed
    else if filter == "completed" then t.completed
    else true
  }

  /** The tasks a filter leaves on screen, in list order. */
  function Shown(ts: seq<Task>, filter: string): (r: seq<Task>)
    ensures |r| <= |ts|
    ensures forall t :: t in r <==> t in ts && Visible(filter, t)
  {
    if ts == [] then []
    else if Visible(filter, ts[0]) then [ts[0]] + Shown(ts[1..], filter)
    else Shown(ts[1..], filter)
  }

  /** Filtering a concatenation filters each half in place, so the shown
      tasks keep their relative order. */
  lemma {:induction false} ShownAppend(a: seq<Task>, b: seq<Task>, filter: string)
    ensures Shown(a + b, filter) == Shown(a, filter) + Shown(b, filter)
    decreases |a|
  {
    if a == [] {
      assert a + b == b;
    } else {
      var ab := a + b;
      assert ab[0] == a[0] && ab[1..] == a[1..] + b;
      if Visible(filter, a[0]) {
        calc {
          Shown(ab, filter);
          [a[0]] + Shown(a[1..] + b, filter);
          { ShownAppend(a[1..], b, filter); }
          [a[0]] + (Shown(a[1..], filter) + Shown(b, filter));
          ([a[0]] + Shown(a[1..], filter)) + Shown(b, filter);
          Shown(a, filter) + Shown(b, filter);
        }
      } else {
        calc {
          Shown(ab, filter);
          Shown(a[1..] + b, filter);
          { ShownAppend(a[1..], b, filter); }
          Shown(a[1..], filter) + Shown(b, filter);
          Shown(a, filter) + Shown(b, filter);
        }
      }
    }
  }

  /** The "active" filter shows exactly the tasks clear-completed would keep. */
  lemma {:induction false} ActiveShowsUncleared(ts: seq<Task>)
    ensures Shown(ts, "active") == ClearCompleted(ts)
    decreases |ts|
  {
    if ts != [] {
      ActiveShowsUncleared(ts[1..]);
    }
  }

  /** The "completed" filter shows as many tasks as are completed, and with
      the "active" filter accounts for every task once; so the remaining
      number in the count message is what "active" shows. */
  lemma {:induction false} FiltersPartition(ts: seq<Task>)
    ensures |Shown(ts, "completed")| == CompletedCount(ts)
    ensures |Shown(ts, "active")| == |ts| - CompletedCount(ts)
    decreases |ts|
  {
    if ts != [] {
      FiltersPartition(ts[1..]);
    }
  }

  /** Any filter other than "active" and "completed" shows the whole list. */
  lemma {:induction false} OtherFilterShowsAll(ts: seq<Task>, filter: string)
    requires filter != "active" && filter != "completed"
    ensures Shown(ts, filter) == ts
    decreases |ts|
  {
    if ts != [] {
      OtherFilterShowsAll(ts[1..], filter);
      assert ts == [ts[0]] + ts[1..];
    }
  }

  /** The text the edit dialog pre-fills for the due date: the due-date
      element's text, label included, or nothing. */
  function DuePrefill(t: Task): string
  {
    t.due.GetOr([])
  }

  /** `editTask` on one list item, with the three prompt answers (`None`
      for a cancelled prompt). A cancelled or blank text abandons the edit
      before the other prompts. Otherwise the text becomes the trimmed
      answer; a cancelled due prompt keeps the due date, a blank one removes
      it, anything else is formatted as typed; the priority changes only to
      one of "high", "medium" or "low". The completed flag is never touched. */
  function EditTask(t: Task, newText: Option<string>, newDue: Option<string>, newPriority: Option<string>): (r: Option<Task>)
    ensures r.None? <==> newText.None? || Trim(newText.value) == []
    ensures r.Some? ==> r.value.text == Trim(newText.value) && r.value.completed == t.completed
    ensures r.Some? && newDue.None? ==> r.value.due == t.due
    ensures r.Some? && newDue.Some? && Trim(newDue.value) == [] ==> r.value.due.None?
    ensures r.Some? && newDue.Some? && Trim(newDue.value) != [] ==> r.value.due == Some(FormatDueDate(newDue.value))
    ensures r.Some? && newPriority.Some? && newPriority.value in ValidPriorities ==> r.value.priority == newPriority.value
    ensures r.Some? && (newPriority.None? || newPriority.value !in ValidPriorities) ==> r.value.priority == t.priority
    ensures r.Some? && WellFormed(t) ==> WellFormed(r.value)
  {
    match newText
    case None => None
    case Some(text) =>
      if Trim(text) == [] then None
      else
        var due :=
          match newDue
          case None => t.due
          case Some(d) => if Trim(d) == [] then None else Some(FormatDueDate(d));
        var priority :=
          match newPriority
          case Some(p) => if p in ValidPriorities then p else t.priority
          case None => t.priority;
        Some(Task(Trim(text), t.completed, priority, due))
  }

  /** Accepting the pre-filled due text of a labelled date labels it a
      second time. */
  lemma EditAcceptingDuePrefill(t: Task, x: string, newText: string, newPriority: Option<string>)
    requires t.due == Some(Prefix + x) && IsDisplayDate(x)
    requires Trim(newText) != []
    ensures EditTask(t, Some(newText), Some(DuePrefill(t)), newPriority).value.due == Some(Prefix + (Prefix + x))
  {
    FormatDisplayDate(x);
    FormatRepeatsLabel(x);
    assert Trim(Prefix + x) != [] by {
      TrimEmptyIff(Prefix + x);
      assert !IsSpace((Prefix + x)[0]);
    }
  }

  /** The priority prompt asks for "alta", "media" or "baixa", yet those
      answers leave the priority unchanged. */
  lemma EditIgnoresPortuguesePriority(t: Task, newText: string, newDue: Option<string>, answer: string)
    requires Trim(newText) != []
    requires answer in ["alta", "media", "baixa"]
    ensures EditTask(t, Some(newText), newDue, Some(answer)).value.priority == t.priority
  {
    PortugueseNotValid(answer);
  }

  /** None of the words the priority prompt asks for is accepted. */
  lemma PortugueseNotValid(answer: string)
    requires answer in ["alta", "media", "baixa"]
    ensures answer !in ValidPriorities
  {
    if answer == "alta" {
      assert answer[0] == 'a' && |answer| == 4;
    } else if answer == "media" {
      assert |answer| == 5;
    } else {
      assert |answer| == 5;
    }
    assert "high"[0] == 'h' && |"high"| == 4 && |"medium"| == 6 && |"low"| == 3;
  }
}
