# Task list (AppRouteTracker `script.js`) in Dafny

This project models the task-list logic of `script.js`, a browser to-do list.
The list items on the page are the real store. Here they are an ordered
`seq<Task>`. Each task has four parts:

- the text;
- the `completed` flag;
- the priority, which the page keeps as a `<p>-priority` class;
- the text of the optional due-date element.

Every page operation becomes a pure function. Answers from `confirm` dialogs
arrive as `bool` parameters. Answers from `prompt` dialogs arrive as
`Option<string>` parameters, with `None` standing for Cancel.

Modules, one per concern of the script:

- `Wrappers` (wrappers.dfy): `Option`.
- `Text` (text.dfy): the JavaScript string primitives the script uses.
  These are `trim` (with the ECMAScript white-space set), `split` on one
  character, `padStart`, `replace` with a string pattern, and the decimal
  rendering of a count. `Split` is paired with `Join` as its inverse, and the
  rendering with its digit value.
- `DueDate` (due_date.dfy): `formatDueDate`. Also how it treats day-first
  input, year-first input and other input.
- `TaskList` (task_list.dfy): the `Task` record and the list operations.
  These are add (`addTask` guard plus `addTaskToDOM`), toggle, delete, clear
  completed, the three-prompt edit, the count message (`updateTaskCount`) and
  the filter visibility predicate (`filterTasks`).
- `Persistence` (persistence.dfy): `saveTasks` and `loadTasks`, as a mapping
  between the list and a sequence of stored records. It proves both round
  trips for the tasks that can survive them.
- `Page` (page.dfy): the event handlers over one page state. The state holds
  the list, the stored snapshot, the count text and the add form. Every
  handler that changes the list saves it. All handlers except edit also
  refresh the count. Declined dialogs change nothing.

Points of `script.js` behaviour the model follows closely:

- Corrupt stored JSON makes `JSON.parse` throw (script.js:150). An absent key,
  or a stored value that parses to `null` or another falsy value, loads as the
  empty list; the model covers the absent key (`Load(None)`).
- The priority is a plain string. Any string the select or the snapshot
  supplies is kept, and saving reads it back as the part before its first `-`
  (script.js:142).
- A cancelled or blank text prompt abandons the whole edit before the due and
  priority prompts are shown (script.js:83-85).
- A save/load round trip holds only for some tasks. It holds when the due text
  is absent, a labelled `dd/mm/yyyy` date, or free text that contains no label
  and no three date components, and when the priority has no `-`. Accepting
  the pre-filled due text in the edit dialog adds the label a second time
  (script.js:79-98).

## Model

| member | source | states |
|---|---|---|
| Text.Trim | script.js:18 | the result has no white space at either end, and it is the input with only white space removed in front and behind |
| Text.TrimOfTrimmed | script.js:18 | trimming text that is already trimmed changes nothing, so trimming is idempotent |
| Text.TrimEmptyIff | script.js:22 | text trims to the empty string exactly when every character is white space |
| Text.Split | script.js:120-122 | splitting gives at least one piece and no piece contains the separator |
| Text.JoinOfSplit | script.js:120-122 | joining the pieces of a split with the separator gives back the input |
| Text.SplitOfJoin | script.js:120-122 | splitting a join of separator-free pieces gives back those pieces, so the split is the unique such decomposition |
| Text.PadStart | script.js:125-126 | the result has length max(length, width), ends with the input and starts with only fill characters |
| Text.ReplaceFirst | script.js:137 | without an occurrence the input is returned as it is; otherwise only the first occurrence is replaced |
| Text.NatToString | script.js:188 | the rendering of a count is a non-empty digit string without leading zeros, and it is "0" only for zero |
| Text.NatToStringValue | script.js:188 | reading the digits back gives the count |
| DueDate.FormatDueDate | script.js:118-131 | input comes back unchanged exactly when the chosen split does not give three components |
| DueDate.FormattedIsLabelled | script.js:124-128 | when the split gives three components, the result starts with "Vence em: " and is longer than the input by at least the label |
| DueDate.FormatDayFirst | script.js:120-128 | a day/month/year input gives the label, the padded day, the padded month and the unchanged year |
| DueDate.FormatYearFirst | script.js:120-128 | a year-month-day input comes out in day/month/year order, with the same label and padding |
| DueDate.FormatYearFirstExample | script.js:118-128 | "2024-03-05" gives "Vence em: 05/03/2024" |
| DueDate.FormatDayFirstExample | script.js:118-128 | "5/3/2024" gives "Vence em: 05/03/2024" |
| DueDate.SlashTakesPrecedence | script.js:120-130 | a string with exactly one '/' is split on '/' into two components whatever '-' it holds, so "2024-03/05" passes through unchanged |
| DueDate.FormatDisplayDate | script.js:124-128 | a dd/mm/yyyy date whose day and month have two characters only gains the label |
| DueDate.FormatRepeatsLabel | script.js:118-131 | formatting is not idempotent: formatting a labelled date again repeats the label |
| TaskList.PriorityRoundTrip | script.js:142 | a priority without '-' is read back unchanged from its class name |
| TaskList.NewTask | script.js:31-46 | a list item has a due-date element exactly when the due date is non-empty, and that element shows the formatted date |
| TaskList.TaskFromInput | script.js:18-23 | input that trims to nothing adds no task; any other input gives a well-formed, uncompleted task with the trimmed text |
| TaskList.Append | script.js:73 | the new task goes at the end and every earlier task stays where it was |
| TaskList.Toggle | script.js:55-56 | only the chosen task's completed flag flips; its other fields, the other tasks, the length and the order stay the same |
| TaskList.ToggleTwice | script.js:55-56 | toggling the same task twice restores the list |
| TaskList.Remove | script.js:65-67 | exactly the chosen task is removed and the others keep their relative order |
| TaskList.CompletedCount | script.js:184 | the count is zero exactly when no task is completed and equals the length exactly when all are |
| TaskList.ClearCompleted | script.js:173-176 | no completed task remains, and the length drops by exactly the completed count |
| TaskList.ClearCompletedMembers | script.js:175-176 | a task is kept exactly when it was in the list and is not completed |
| TaskList.ClearCompletedAppend | script.js:175-176 | clearing works piecewise over a concatenation, so the kept tasks keep their original order |
| TaskList.ClearCompletedNoop | script.js:175-176 | a list with no completed task is left as it is |
| TaskList.CountMessage | script.js:182-194 | the message is "Nenhuma tarefa" for no tasks, "Todas as tarefas concluídas!" when all are completed, and "{remaining} de {total} tarefas restantes" otherwise |
| TaskList.CountMessageDistinguishes | script.js:188-194 | the message starts with 'N', 'T' or a digit in exactly the three cases, so no two cases print the same text |
| TaskList.CountMessageExample | script.js:182-194 | three tasks with one completed give "2 de 3 tarefas restantes" |
| TaskList.Shown | script.js:156-171 | a filter shows exactly the tasks the visibility predicate accepts |
| TaskList.ShownAppend | script.js:158-169 | filtering a concatenation filters each half in place, so every filter keeps the list order |
| TaskList.ActiveShowsUncleared | script.js:160-163 | the "active" filter shows exactly the tasks that clear-completed would keep, in order |
| TaskList.FiltersPartition | script.js:160-166 | "completed" shows as many tasks as are completed, and "active" shows the remaining number from the count message |
| TaskList.OtherFilterShowsAll | script.js:167-168 | any other filter value shows the whole list |
| TaskList.EditTask | script.js:83-112 | a cancelled or blank text abandons the edit; otherwise the text is trimmed, the due date is kept, removed or reformatted as the second answer says, the priority changes only to high, medium or low, the completed flag is kept, and well-formedness is preserved |
| TaskList.EditAcceptingDuePrefill | script.js:78-98 | accepting the pre-filled due text of a labelled date labels it a second time |
| TaskList.EditIgnoresPortuguesePriority | script.js:108-109 | the answers "alta", "media" and "baixa" that the prompt asks for leave the priority unchanged |
| Persistence.StoredDue | script.js:136-137 | no due element stores ""; otherwise the first "Vence em: " is cut out wherever it stands (so "ab Vence em: c" stores "ab c"), and text without a label is stored as it is |
| Persistence.SaveTask | script.js:136-144 | the record keeps the text and the flag, the priority (when it has no '-') and the stored due text |
| Persistence.Save | script.js:133-146 | one record per task, in list order |
| Persistence.LoadRecord | script.js:151-152 | a record rebuilds a task with its text, flag and priority; it has a due element exactly when the stored due text is non-empty, and that element shows the stored text formatted again |
| Persistence.Load | script.js:149-154 | an absent key loads as the empty list; a snapshot loads as one task per record, in order |
| Persistence.SaveAfterLoad | script.js:133-154 | loading a snapshot whose due texts are empty, dd/mm/yyyy dates or plain text, and saving it again, writes the same snapshot |
| Persistence.LoadAfterSave | script.js:133-154 | saving a list of stable tasks and loading the snapshot rebuilds the same list |
| Page.Startup | script.js:1-3 | the page shows the loaded list with a matching count and leaves the add form as it is; an absent key shows "Nenhuma tarefa" |
| Page.AddTask | script.js:13-29 | blank input changes nothing; otherwise one task is appended, the list is saved, the count is refreshed and the text and date inputs are emptied; well-formedness is kept |
| Page.CompleteClick | script.js:55-59 | toggles the task, saves and refreshes the count; well-formedness is kept |
| Page.DeleteClick | script.js:65-71 | a declined confirm changes nothing; a confirmed one removes the task, saves, refreshes the count and leaves the add form alone |
| Page.EditClick | script.js:83-115 | an abandoned edit changes nothing and saves nothing; an accepted one replaces the task and saves; the count text stays correct without a refresh |
| Page.ClearCompletedClick | script.js:173-180 | a declined confirm changes nothing; a confirmed one keeps the uncompleted tasks, saves, refreshes the count and leaves the add form alone |
| Page.ReloadRestoresList | script.js:133-154 | after a handler has saved, reloading the page shows the same list when every task is stable |

## Left out

- DOM construction, class lists, `style.display` and event-listener wiring (script.js:1-11, 32-53) are not modelled. The list is abstract, and filtering is only a visibility predicate.
- HTML parsing is left out. Task text and the formatted due text are put into the page through `innerHTML` (script.js:43-46), while edit writes the due text through `textContent` (script.js:98, 102). Text that contains markup or character references ("<b>", "a &amp; b") would not read back unchanged. The model treats both as plain text, so `Persistence.LoadAfterSave` and `Page.ReloadRestoresList` hold only for due and task text free of '<' and '&'.
- `localStorage` and JSON are left out. The snapshot is a sequence of typed records. Corrupt JSON, a stored value that parses to a falsy value other than an absent key (`null`, `false`, `0`, `""`, which load as the empty list), a stored value that is not an array, and records with missing fields are not modelled. Missing fields would fall back to the default priority 'medium' and an empty due date.
- `confirm` and `prompt` are not modelled. Their answers are parameters.
- Strings are sequences of Unicode scalar values, while JavaScript counts UTF-16 code units. `padStart` on a day or month containing characters outside the Basic Multilingual Plane would pad differently.
- Priority strings containing white space are not modelled. The page's `classList.add` throws on them.
- TaskList.EditTask: for a task whose priority contains '-' (possible only from a hand-edited snapshot), the page removes the wrong class and keeps two priority classes. The model simply replaces the priority.
- Persistence.SaveTask: only states the stored priority for priorities without '-'. For others it is the part before the first '-', which the body computes but the contract does not state.
