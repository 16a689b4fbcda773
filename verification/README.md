# Task and note stores

A model of the two record stores of a small personal record-keeping
utility: the task store (`TaskManager` and `Task`) and the note store
(`NoteManager` and `Note`). Each store keeps an ordered list of records in
memory. It validates a candidate record before appending it, and it
deletes, searches and updates records in that list. It saves the whole
list to a JSON file and replaces the list wholesale when it loads that file.

Each store is modelled as a pure state transformer over `seq<Task>` or
`seq<Note>`:

- A mutating call returns a `Step`: the list the call leaves, plus an
  `Outcome`. The outcome is either `Applied(saved)`, or `Refused(msg)`
  carrying the message the source prints (task store) or raises as
  `ValueError` (note store).
- `saved` records whether the call goes on to rewrite the file.
- A query returns `Ok(matches)` or `Err(msg)`.
- The file is an abstract `Doc`: no file, not JSON, or a JSON object whose
  list key holds flat records (`map<string, Val>`).
- Ids and field values are `Val = IntV | StrV`. This keeps the "ID must be
  a number" check meaningful.

Modules, in dependency order:

- `Outcomes`: the result shapes, plus `Collect`, which builds a validator
  run's error list.
- `Text`: `str.strip()` and `str.join`.
- `Dates`: what `datetime.strptime(s, "%Y-%m-%d")` accepts.
- `Lists`: the list comprehension, `next(...)` and `list.remove`.
- `Documents`: values and files.
- `Persistence`: `save_to_file` and `load_from_file`, shared by both stores, which differ only in the list key and the record mapping.
- `Validation`: the shared shape of both `validate_all` methods.
- `TaskEntity` and `TaskManager`.
- `NoteEntity` and `NoteManager`.

The model follows what the code does, including behaviour a reader might
not expect:

- The default deadline `"No Deadline"` never validates. An `add_task` that
  leaves the deadline at its default is therefore always refused.
- `Task` defines no `__eq__`. So `delete_task`'s comparison is object
  identity, and a newly built task never matches a stored one:
  `delete_task` never removes anything.
- `delete_task_by_id` does not rewrite the file. Every other task mutation
  does, and so does every note mutation.
- The note validators run in the order category, date, id.
- The note category check reports "Topic must be a non-empty string.".
- The note id message has no final period; the task id message has one.

A reader might expect `"No Deadline"` to be an accepted sentinel value.
The code does not exempt it from the date check, so the model follows the
code: `TaskEntity.DefaultDeadlineInvalid` and
`TaskManager.AddWithDefaultDeadlineRefused` state the consequence.

Dates follow the grammar of CPython's `_strptime`:

- `%Y` is exactly four digits.
- `%m` is `1[0-2]`, `0[1-9]` or `[1-9]`.
- `%d` is `3[01]`, `[12][0-9]`, `0[1-9]`, `[1-9]` or a space followed by
  `[1-9]`.
- The whole string must match.
- Year 0 is refused by `datetime`.
- The day must lie within the month under the Gregorian leap-year rule.

So `"2024-2-9"` and `"2024-02- 9"` are dates.

## Model

| member | source | states |
|---|---|---|
| Outcomes.Collect | src/task_manager.py:168-177 | the error list has at most one entry per validator, and is empty exactly when every validator passed |
| Outcomes.CollectMembers | src/task_manager.py:170-177 | a message is in the error list exactly when some validator returned it |
| Text.StripLeft | src/task_manager.py:189 | `lstrip` keeps the longest suffix not starting with whitespace; everything it drops is whitespace |
| Text.StripRight | src/task_manager.py:189 | `rstrip` keeps the longest prefix not ending with whitespace; everything it drops is whitespace |
| Text.StripEmptyIffBlank | src/task_manager.py:189 | `s.strip()` is empty exactly when every character of `s` is whitespace (the empty string included) |
| Text.JoinShort | src/task_manager.py:180 | joining one, two or three messages with the bar separator puts it only between consecutive messages |
| Dates.DaysInMonth | src/task_manager.py:195 | months 1, 3, 5, 7, 8, 10 and 12 have 31 days, months 4, 6, 9 and 11 have 30, and February has 29 days in Gregorian leap years and 28 otherwise |
| Dates.ParseDate | src/task_manager.py:193-198 | whatever the `%Y-%m-%d` grammar accepts is a real calendar date with a year of at least 1 |
| Dates.MonthTokens | src/task_manager.py:195 | the two-digit spelling of a month is among the spellings `%m` accepts for it |
| Dates.DayTokens | src/task_manager.py:195 | the two-digit spelling of a day is among the spellings `%d` accepts for it |
| Dates.Spellings | src/task_manager.py:195 | the zero-padded text of a real date is one of its spellings |
| Dates.ParsedYearDigits | src/task_manager.py:195 | a year token `%Y` accepts is exactly the four digits of the year it yields |
| Dates.ParsedMonthToken | src/task_manager.py:195 | a month token `%m` accepts is one of the spellings of the month it yields: two digits, or one digit for months 1 to 9 |
| Dates.ParsedDayToken | src/task_manager.py:195 | a day token `%d` accepts is one of the spellings of the day it yields: two digits, or one digit or a space and a digit for days 1 to 9 |
| Dates.ParsedDateSpelled | src/task_manager.py:193-198 | every accepted text is a spelling of the date it yields, so a text with any other separator or shape is refused |
| Dates.ParseSpelling | src/task_manager.py:193-198 | every spelling of a real date is accepted and yields that date |
| Dates.ParseDateExactly | src/task_manager.py:193-198 | the check yields date `d` for text `s` exactly when `d` is a real date and `s` spells it |
| Dates.ParseFormattedDate | src/task_manager.py:193-198 | every real date written as zero-padded `YYYY-MM-DD` is accepted and parses back to the same date |
| Dates.NoDeadlineIsNotADate | src/task_manager.py:193-197 | the text "No Deadline" is not accepted as a date |
| Dates.DateShapes | src/note_manager.py:113-118 | leap days only in leap years; unpadded and space-padded fields accepted; year 0, month 13 and day 32 refused |
| Lists.Filter | src/task_manager.py:79 | the comprehension keeps only matching elements and every matching element; empty exactly when nothing matches |
| Lists.FilterAppend | src/note_manager.py:51 | the matches of a concatenation are the matches of the first part followed by those of the second, so list order is kept |
| Lists.FilterMultiset | src/note_manager.py:51 | every matching element occurs in the result exactly as often as in the list; no other element occurs |
| Lists.FilterCounts | src/note_manager.py:51 | for every element at once: its count in the result is its count in the list when it matches, zero otherwise |
| Lists.Positions | src/task_manager.py:79 | the positions listed are strictly increasing, each holds a matching element, and every matching position below the bound is listed |
| Lists.FilterPrefix | src/task_manager.py:79 | the comprehension over a prefix of the list is the list read at that prefix's matching positions, in order |
| Lists.FilterSelects | src/task_manager.py:79 | the comprehension yields the list read at its matching positions in increasing order, each element as often as the list holds it when it matches and never otherwise |
| Lists.FirstIndex | src/task_manager.py:68 | `next(...)` finds nothing exactly when no element matches; otherwise it finds the first matching position |
| Lists.RemoveAt | src/task_manager.py:69 | removing the found element shortens the list by one and keeps the other elements in order |
| Lists.RemoveFirstAt | src/task_manager.py:57 | a stand-in for `list.remove` of an object given by identity: a list not holding the object is returned unchanged, and one holding it loses exactly one element |
| Validation.Report | src/task_manager.py:179-181 | a run is valid exactly when every validator passed |
| Validation.ReportThreeValid | src/note_manager.py:98-100 | a three-validator run is valid exactly when none of the three failed |
| Validation.ReportThree | src/task_manager.py:167-181 | for each of the eight pass/fail combinations: the header followed by each failing message once, in run order, joined by the bar separator |
| Persistence.ToDicts | src/task_manager.py:9-11 | one record per item, in list order, each the item's `to_dict` |
| Persistence.FromDicts | src/note_manager.py:20 | succeeds exactly when every record converts; the results line up with the records, one for one |
| Persistence.Save | src/task_manager.py:8-14 | the file holds one key, the store's list key ("tasks" or "Notes"), with one record per item, in order |
| Persistence.Load | src/task_manager.py:17-27 | a missing file, a corrupt file, a missing list key and a record missing a key each keep the previous list; the first two have their own messages, and both key cases give "Json structure missing."; otherwise the list becomes exactly the file's records, converted, and nothing is saved |
| Persistence.LoadSaved | src/note_manager.py:8-26 | when the record mapping round-trips, loading what was saved gives back the same list |
| Documents.NatText | src/note_manager.py:53 | the text is the decimal form of the number: digits only, no leading zero, and its digits denote the number |
| Documents.Show | src/note_manager.py:53 | the f-string shows a string as itself, and an integer as its decimal digits, preceded by "-" exactly when it is negative |
| TaskEntity.ValidateId | src/task_manager.py:183-186 | passes exactly when the id is an integer; the failure is "ID must be a number." |
| TaskEntity.ValidateDeadline | src/task_manager.py:193-198 | passes exactly when the deadline parses under `%Y-%m-%d`; the failure is "Date must be in YYYY-MM-DD format." |
| TaskEntity.ValidateTask | src/task_manager.py:188-191 | passes exactly when the name is not all whitespace; the failure is "Task must be a non-empty string." |
| TaskEntity.ValidateAll | src/task_manager.py:167-181 | valid exactly when the id is an integer, the name is not blank and the deadline is a date |
| TaskEntity.ValidateAllMessages | src/task_manager.py:167-198 | each of the seven failing combinations gives "Invalid Entry: " and the failing messages in the order id, task, deadline, joined by the bar separator |
| TaskEntity.DefaultDeadlineInvalid | src/task_manager.py:193-197 | a task whose deadline is "No Deadline" never validates |
| TaskEntity.ToDict | src/task_manager.py:148-155 | the record has exactly the keys id, task, description, deadline and status; the id is kept as it is, and the name, description, deadline and status sit as strings under "task", "description", "deadline" and "status" |
| TaskEntity.FromDict | src/task_manager.py:157-165 | succeeds exactly when all five keys are present and the four text fields hold strings; the result's record agrees with the input on those keys |
| TaskEntity.FromToDict | src/task_manager.py:148-165 | `from_dict(to_dict(t))` is `t`, field for field |
| TaskEntity.MarkDone | src/task_manager.py:200-202 | the status becomes "Done" and no other field changes |
| TaskEntity.MarkUndone | src/task_manager.py:204-212 | the status becomes "Not done" and no other field changes; a "Not done" task is returned as it is |
| TaskEntity.MarkUndoneIdempotent | src/task_manager.py:204-212 | marking undone twice is the same as marking undone once |
| TaskManager.FirstWithId | src/task_manager.py:68 | the position found holds the id, and no earlier position does |
| TaskManager.AddTask | src/task_manager.py:36-48 | a taken id is refused with "This id already exists." whatever the candidate; an invalid candidate is refused with its validation message; otherwise exactly the new task is appended and the file is rewritten; a refusal leaves the list unchanged |
| TaskManager.AddWithDefaultDeadlineRefused | src/task_manager.py:36-48 | an add that leaves the deadline at its default is always refused and leaves the list unchanged |
| TaskManager.AddTaskKeepsIdsUnique | src/task_manager.py:39-44 | adding keeps ids unique |
| TaskManager.DeleteTask | src/task_manager.py:50-61 | the list never changes and the answer is always "Task not found.", because a new object is identical to no stored one |
| TaskManager.DeleteTaskById | src/task_manager.py:63-72 | an absent id is refused with "No task by this id." and the list is unchanged; otherwise exactly the first task with the id is removed, the rest keep their order, and the file is not rewritten |
| TaskManager.DeleteTaskByIdRemovesId | src/task_manager.py:63-69 | with unique ids, the id disappears, every other task stays, and ids stay unique |
| TaskManager.SearchByTask | src/task_manager.py:74-81 | reports "No exisiting task entries with this name." exactly when no task has the name; otherwise returns tasks that all have the name, and every task with the name |
| TaskManager.SearchByDeadline | src/task_manager.py:83-90 | reports "No task entries with this deadline." exactly when no task has the deadline; otherwise returns tasks that all have the deadline, and every such task |
| TaskManager.AllDoneTasks | src/task_manager.py:92-100 | reports "No finished tasks." exactly when no status is "Done"; otherwise returns tasks that are all "Done", and every such task |
| TaskManager.AllNotDoneTasks | src/task_manager.py:102-110 | reports "All tasks are completed." exactly when no status is "Not done"; otherwise returns tasks that are all "Not done", and every such task |
| TaskManager.SearchByTaskSelects | src/task_manager.py:79 | a successful name search yields exactly the tasks with the name, in list order, each as often as the list holds it |
| TaskManager.SearchByDeadlineSelects | src/task_manager.py:88 | a successful deadline search yields exactly the tasks with the deadline, in list order, each as often as the list holds it |
| TaskManager.AllDoneTasksSelects | src/task_manager.py:98 | a successful finished listing yields exactly the "Done" tasks, in list order, each as often as the list holds it |
| TaskManager.AllNotDoneTasksSelects | src/task_manager.py:108 | a successful unfinished listing yields exactly the "Not done" tasks, in list order, each as often as the list holds it |
| TaskManager.SearchAfterAdd | src/task_manager.py:74-81 | after a successful add, a name search returns its earlier matches followed by the new task if the name matches, and its earlier answer otherwise |
| TaskManager.SearchAppended | src/task_manager.py:74-81 | appending one task to the list adds it to the end of a name search's matches if it matches, and leaves the answer unchanged otherwise |
| TaskManager.MarkTaskDone | src/task_manager.py:112-122 | an absent id is refused with "Task doesn't exist."; otherwise only the first task with the id changes, it becomes "Done" in status only, and the file is rewritten |
| TaskManager.MarkTaskUndone | src/task_manager.py:124-134 | an absent id is refused with "Task doesn't exist."; otherwise only the first task with the id changes, it becomes "Not done" in status only, and the file is rewritten |
| TaskManager.MarkUndoneOnUndoneKeepsList | src/task_manager.py:124-134 | marking a "Not done" task undone leaves the list as it was, yet still succeeds and rewrites the file |
| TaskManager.MarkedTaskIsListed | src/task_manager.py:92-134 | a task just marked done appears in the finished listing, and one just marked undone in the unfinished listing |
| TaskManager.MarkKeepsIdsUnique | src/task_manager.py:112-134 | status changes keep ids unique |
| TaskManager.LoadSavedTasks | src/task_manager.py:8-27 | loading what was saved gives back the same tasks |
| TaskManager.ReloadAfterAdd | src/task_manager.py:36-48 | after a successful add, reloading the file gives the list the add left in memory |
| TaskManager.ReloadAfterDeleteById | src/task_manager.py:63-72 | deleting by id does not reach the file, so reloading brings the deleted task back |
| NoteEntity.ValidateId | src/note_manager.py:103-106 | passes exactly when the id is an integer; the failure is "ID must be a number", with no final period |
| NoteEntity.ValidateDate | src/note_manager.py:113-118 | passes exactly when the date parses under `%Y-%m-%d`; the failure is "Date must be in YYYY-MM-DD format." |
| NoteEntity.ValidateCategory | src/note_manager.py:108-111 | passes exactly when the category is not all whitespace; the failure is "Topic must be a non-empty string." |
| NoteEntity.ValidateAll | src/note_manager.py:86-100 | valid exactly when the category is not blank, the date is a date and the id is an integer |
| NoteEntity.ValidateAllMessages | src/note_manager.py:86-118 | each of the seven failing combinations gives "Invalid note entry: " and the failing messages in the order category, date, id, joined by the bar separator |
| NoteEntity.ToDict | src/note_manager.py:67-74 | the record has exactly the keys id, category, date, topic and note; the id is kept as it is, and the category, date, topic and note sit as strings under "category", "date", "topic" and "note" |
| NoteEntity.FromDict | src/note_manager.py:76-84 | succeeds exactly when all five keys are present and the four text fields hold strings; the result's record agrees with the input on those keys |
| NoteEntity.FromToDict | src/note_manager.py:67-84 | `from_dict(to_dict(n))` is `n`, field for field |
| NoteEntity.Get | src/note_manager.py:51 | `getattr` of a field name is the value `to_dict` stores under that name |
| NoteManager.FirstWithId | src/note_manager.py:46 | the position found holds the id, and no earlier position does |
| NoteManager.DisplayAllNotes | src/note_manager.py:28-31 | fails with "No note entries." exactly when the list is empty; otherwise returns the list itself |
| NoteManager.AddNote | src/note_manager.py:33-40 | a taken id is refused with "This id already exists." whatever the candidate; an invalid candidate is refused with its validation message; otherwise exactly the new note is appended and the file is rewritten; a refusal leaves the list unchanged |
| NoteManager.AddNoteKeepsIdsUnique | src/note_manager.py:35-39 | adding keeps ids unique |
| NoteManager.DeleteNoteById | src/note_manager.py:42-48 | an absent id is refused with "No note entry with this id." and the list is unchanged; otherwise exactly the first note with the id is removed, the rest keep their order, and the file is rewritten |
| NoteManager.DeleteNoteByIdRemovesId | src/note_manager.py:42-47 | with unique ids, the id disappears, every other note stays, and ids stay unique |
| NoteManager.SearchByAttribute | src/note_manager.py:50-54 | fails with "No entries found for <name> = <value>" exactly when no note's field equals the value; otherwise returns notes that all match, and every matching note |
| NoteManager.SearchByAttributeSelects | src/note_manager.py:51-54 | a successful search yields exactly the notes whose field equals the value, in list order, each as often as the list holds it |
| NoteManager.SearchAfterAdd | src/note_manager.py:50-54 | after a successful add, a search returns its earlier matches followed by the new note if it matches, and its earlier answer otherwise |
| NoteManager.LoadSavedNotes | src/note_manager.py:8-26 | loading what was saved gives back the same notes |
| NoteManager.ReloadAfterMutation | src/note_manager.py:33-48 | after a successful add or delete, reloading the file gives the list the call left in memory |

## Left out

- File I/O and JSON encoding: `open`, `json.dump` and `json.load` are library calls. The file is the abstract `Doc` value, and the default file names are not modelled.
- JSON documents of other shapes: the model's `Json` document is always an object whose list key holds a list of flat objects. The source iterates whatever the list key holds, so an empty object or an empty string under it (`{"tasks": {}}`, `{"tasks": ""}`) loads successfully and empties the list, like an empty list. These raise `TypeError` while loading, and nothing catches it: a top level that is not an object; a number, a boolean or `null` under the list key; a non-empty object or string under it, whose keys or characters are then read as records; and a list holding something other than objects (`{"tasks": [1]}`).
- All printed text other than failure messages: "Task added.", "Data saved.", "Marked as done.", the listing headers, and `__repr__`. These are display only. A query returns its matches instead of printing them.
- `display_tasks`: it only prints the list.
- `TaskManager.__init__` and `NoteManager.__init__`: they only start from an empty list, which is the empty sequence here.
- Python typing corner cases beyond the id check:
  - `bool` counting as `int`.
  - Ids or field values that are floats, `None` or containers.
  - A non-string task name is outside the model, which types names as strings. The source reports it as "Task must be a non-empty string.", because the `isinstance` test comes before `strip()`.
  - A non-string note category makes `.strip()` raise `AttributeError`, which nothing catches.
  - A non-string deadline or date makes `strptime` raise `TypeError`, which `validate_deadline` and `validate_date` do not catch.
  - `getattr` on an unknown attribute name: `NoteEntity.Attr` has only the five field names.
- TaskEntity.FromDict: refuses a record whose text field holds a number, where the source would build a task holding that number. Text fields are strings in this model.
- NoteEntity.FromDict: refuses a record whose text field holds a number, for the same reason.
- Persistence.Load: the loaded list is neither validated nor checked for unique ids, as in the source. So the unique-ids lemmas assume uniqueness rather than derive it from a load.
- Dates.ParseDate: accepts only ASCII digits, where the `\d` of `strptime`'s pattern also matches other Unicode decimal digits.
- Dates.ParseDate: ignores `strptime`'s case-insensitive matching, which does not matter for a digits-only format.
- Lists.RemoveFirstAt: its contract gives the length but not the order of what is left. `delete_task` reaches it only when a newly built object is one of the stored ones, which never happens. `TaskManager.DeleteTask` states the full behaviour.
- Shared results: `display_all_notes` returns the store's own list object, and `search_by_attribute` returns the stored `Note` objects. A caller who changes them changes the store, bypassing validation and the id check. The model returns values, so this sharing is not modelled, and the unique-ids lemmas assume callers do not change returned lists or notes.
