# The task book, modelled in Dafny

This project models the core of a small task manager. It has three parts:

- a Flask backend (`app.py`) that keeps active tasks, archived tasks and categories in module-level lists;
- two browser front ends:
  - the legacy `static/script.js`;
  - the modular `static/js/modules/*.js` (task list, contacts, categories, calendar, utilities, attachments);
- a Telegram bot (`telegram_service.py`) that creates tasks from quoted messages, lists a chat's tasks for the week, keeps a request history and sends reminders.

The modules follow the source files:

| Dafny module | file | source |
|---|---|---|
| `Common` | common.dfy | shared string helpers: JavaScript `trim`, Python `strip`, `toLowerCase`, `indexOf`, `split`/`join`, the extension after the last '.', decimal printing |
| `StableSort` | stable_sort.dfy | `Array.prototype.sort`, which is stable: a comparator-driven insertion sort in place on an array, specified by a function on sequences |
| `Gregorian` | gregorian.dfy | the calendar arithmetic behind JavaScript's `Date` and Python's `datetime`: leap years, month lengths, day numbers and weekdays |
| `TaskModel` | task_model.dfy | the JSON task shared by the task views, with the task comparator, children, dependency labels and the nested rendering of `renderTask` |
| `TaskList` | task_list.dfy | `static/js/modules/tasks.js` |
| `LegacyScript` | legacy_script.dfy | `static/script.js` |
| `Backend` | backend.dfy | `app.py` |
| `TelegramBot` | telegram_bot.dfy | `telegram_service.py` |
| `Contacts` | contacts.dfy | `static/js/modules/contacts.js` |
| `Categories` | categories.dfy | `static/js/modules/categories.js` |
| `Calendar` | calendar.dfy | `static/js/modules/calendar.js` |
| `Utils` | utils.dfy | `static/js/modules/utils.js` |
| `Files` | files.dfy | `static/js/modules/files.js` |

Each file's form follows the source:

- State that the source changes in place is a `class`:
  - the backend's lists (`Backend.Store`);
  - the view state: `TaskList.TaskView`, `LegacyScript.LegacyView`, `Contacts.ContactView`, `Categories.CategoryView` and `Calendar.CalendarNav`;
  - the bot's files and reminder set (`TelegramBot.Bot`).
- Each method states its whole new state.
- The in-place sorts keep an `array` (`StableSort.InsertionSort`).
- Loops stay loops and are proved against a specification function:
  - the `for` loops of `renderCalendar`;
  - `formatRelativeTime` and `getFileType`;
  - `filterContacts` over an array of `hidden` flags;
  - the update loop of `update_task`;
  - the `successCount` loop of `addMultipleTasks`.
- Filters, lookups and string utilities are functions, with lemmas relating them to their partners.

Timestamps are integers: milliseconds on the JavaScript side, seconds on the bot side. `script.js` renders its nested task list with the same `renderTask` logic as `tasks.js` (script.js:159-164, 196-205). Both are modelled by `TaskModel.RenderTask`.

## Model

| member | source | states |
|---|---|---|
| Common.ExtensionSpec | static/js/modules/files.js:170 | the extension is the lower-cased text after the last '.', the whole name when there is none, and does not depend on the name's letter case (also utils.js:232) |
| Common.IndexOf | static/script.js:82-83 | `indexOf`: -1 exactly when the value is absent, otherwise the first position holding it |
| StableSort.InsertionSort | static/js/modules/tasks.js:188-199 | the in-place sort leaves the array equal to the stable sort of its old contents |
| StableSort.SortPermutes | static/js/modules/tasks.js:188 | sorting is a permutation of the input |
| StableSort.SortIsSorted | static/js/modules/tasks.js:188 | with a comparator that is a total preorder the result is ordered by it |
| StableSort.SortIdempotent | static/js/modules/tasks.js:188 | sorting a sorted list changes nothing |
| Gregorian.DaysInMonth | static/js/modules/calendar.js:23 | `new Date(y, m + 1, 0).getDate()`: every month has 28 to 31 days |
| Gregorian.YearLength | static/js/modules/calendar.js:23 | a year has 366 days exactly when it is a leap year, else 365, and the month lengths add up to it |
| Gregorian.NextDayIsNext | static/js/modules/calendar.js:22 | the next calendar day is a valid date one day number later, with the weekday advanced by one modulo 7 |
| Gregorian.EpochIsThursday | static/js/modules/calendar.js:22 | day number 0 is 1970-01-01, a Thursday, which anchors `getDay()` |
| TaskModel.TaskCompareIsComparator | static/js/modules/tasks.js:188-199 | the task comparator is a total preorder, so the sort is well defined |
| TaskModel.SortedTaskOrder | static/js/modules/tasks.js:188-199 | in a sorted list incomplete tasks come first; within equal completion dated tasks come before undated ones, in ascending date |
| TaskModel.SortTasksSpec | static/js/modules/tasks.js:188-199 | the sorted task list is a permutation of the filtered list and ordered by the comparator |
| TaskModel.Children | static/js/modules/tasks.js:202 | the subtasks are exactly the tasks whose `parent_id` is strictly (`===`) the task's numeric id, searched in the whole active list; the id as text does not match |
| TaskModel.TextParentNotNested | static/js/modules/tasks.js:202-326 | as written, a task whose `parent_id` is its parent's id as text (as tasks.js:114 sends it) is never among that parent's subtasks, and the parent is not preselected in its edit dialog |
| TaskModel.TextParentExample | static/js/modules/subtasks.js:255 | a subtask saved with `parent_id` "3" under task 3 leaves task 3 without subtasks as written, and is task 3's only subtask as intended |
| TaskModel.ChildrenIntended | static/js/modules/tasks.js:202 | corrected: the subtasks are exactly the tasks whose `parent_id` names the id as a number or as its decimal text, in list order |
| TaskModel.ChildrenIntendedSpec | static/js/modules/tasks.js:202 | the corrected subtasks keep every subtask the strict comparison finds, add those whose `parent_id` is text, and equal the strict ones when every `parent_id` is a number |
| TaskModel.OneParent | static/js/modules/tasks.js:202 | under the corrected comparison a `parent_id` names one task id only, so a task nests under one parent |
| TaskModel.Find | static/js/modules/tasks.js:204 | the lookup finds a task exactly when one has the id |
| TaskModel.FindFirst | static/js/modules/tasks.js:204 | `find` returns the first task with the id |
| TaskModel.DependencyNames | static/js/modules/tasks.js:203-205 | one label per dependency id, in order |
| TaskModel.DependencyLabelSpec | static/js/modules/tasks.js:203-206 | dependency labels are joined with ", "; a known id shows the first matching task's text, an unknown id shows "ID n", no dependencies give "" |
| TaskModel.ParentCandidates | static/js/modules/tasks.js:324-325 | parent choices are exactly the top-level tasks other than the edited one |
| TaskModel.RenderTask | static/js/modules/tasks.js:201-268 | a rendered task carries its level, its dependency label and one subtask node per child at level + 1 |
| TaskModel.RenderList | static/js/modules/tasks.js:273 | one top-level node per shown task, at level 0 |
| TaskModel.ChildShownTwice | static/js/modules/tasks.js:201-273 | a shown subtask whose numeric `parent_id` is a shown task's id appears twice: at the top level and nested under its parent |
| TaskList.DaysUntilIsCeiling | static/js/modules/tasks.js:182 | the day difference is the ceiling of the millisecond difference divided by one day |
| TaskList.DayWindowSpec | static/js/modules/tasks.js:182-183 | for N >= 0 a dated task is kept exactly when it lies in (now - (N+1) days, now + N days], both day bounds included; a negative N keeps no dated task |
| TaskList.VisibleSource | static/js/modules/tasks.js:160 | every visible task comes from the archive in archive mode and from the active list otherwise; with no filters the source list is shown unchanged |
| TaskList.VisibleCategory | static/js/modules/tasks.js:163-165 | with an active category every visible task has exactly that category, and every source task of that category that passes the days filter is visible |
| TaskList.VisibleDays | static/js/modules/tasks.js:168-185 | the days filter is skipped in archive mode, never drops an undated task, keeps everything for 0, and otherwise keeps only tasks in the window |
| TaskList.PercentSpec | static/js/modules/tasks.js:524 | progress is 0 without tasks, the quotient rounded to the nearest percent otherwise, within 0..100 and 100 when all are done |
| TaskList.QuickAddLinesSpec | static/js/modules/tasks.js:574-580 | a blank text sends nothing; otherwise the lines are the non-blank pieces of the trimmed text between newlines, in order |
| TaskList.CountAccepted | static/js/modules/tasks.js:581-590 | the success count never exceeds the number of lines |
| TaskList.CountAcceptedAll | static/js/modules/tasks.js:590 | the count equals the number of lines exactly when the server accepted every line |
| TaskList.SendLines | static/js/modules/tasks.js:583-594 | every line is sent once, in order, and the count is the number the server accepted |
| TaskList.AddMultipleTasks | static/js/modules/tasks.js:573-603 | a blank text sends nothing; otherwise all lines are sent and the list is refreshed exactly when at least one was accepted |
| TaskList.AddTaskBodySpec | static/js/modules/tasks.js:375-386 | a blank text sends nothing; a sent text is the input with the whitespace cut off both ends, a non-empty slice of it; the date and the category are null exactly when their field is empty and as typed otherwise; the description is passed through |
| TaskList.TaskView.ToggleArchive | static/js/modules/tasks.js:465-466 | the archive flag flips and nothing else changes |
| TaskList.TaskView.ApplyDaysFilter | static/js/modules/tasks.js:544-550 | a numeric input becomes the days filter; a non-numeric one leaves it |
| TaskList.TaskView.ResetFilters | static/js/modules/tasks.js:553-557 | the category filter is cleared and the days filter and its input are set to 0 |
| TaskList.TaskView.Render | static/js/modules/tasks.js:160-199 | the shown list is the stable sort of the filtered list: a permutation of it, ordered by the comparator |
| TaskList.ResetShowsAll | static/js/modules/tasks.js:553-558 | after a reset the whole source list is visible |
| LegacyScript.LegacyVisibleSpec | static/script.js:144-148 | archive mode shows the archive unfiltered; otherwise an active category keeps exactly the active tasks of that category, and no category keeps all |
| LegacyScript.AddTaskBodySpec | static/script.js:328-345 | nothing is sent for a blank text or when no category exists; a task gets the input with the whitespace cut off both ends, the date as typed or null for an empty field, the active category or else the first one, no description, no dependencies and no files |
| LegacyScript.SpliceIndex | static/script.js:85 | `splice`'s start index: a start inside the array is used as is, and every result is a valid position |
| LegacyScript.ReorderAsWritten | static/script.js:82-86 | the drop reorder as written keeps the list length |
| LegacyScript.ReorderAsWrittenPermutes | static/script.js:82-86 | as written, a drop onto a category only rearranges the list (same multiset), and when the dragged name is a category it is exactly the intended move |
| LegacyScript.AsWrittenIsMove | static/script.js:82-86 | the copy-and-splice removes at the clamped `indexOf` of the dragged text and reinserts at the clamped `indexOf` of the target |
| LegacyScript.MoveSpec | static/script.js:84-86 | moving one element is a permutation that puts it at the target index and keeps the others in order |
| LegacyScript.ReorderSpec | static/script.js:81-86 | the corrected reorder moves the dragged category to the target's index and keeps the rest in order; an unknown dragged name changes nothing |
| LegacyScript.ReorderAsWrittenMovesLast | static/script.js:82-86 | as written, dropping a name that is not a category moves the last category to the target's index |
| LegacyScript.ReorderAsWrittenExample | static/script.js:82-86 | for ["a","b","c"], dropping "x" on "a" gives ["c","a","b"] as written and no change as intended |
| LegacyScript.LegacyView.SelectCategory | static/script.js:63-66 | a click on a category makes it the active category |
| LegacyScript.LegacyView.ShowAll | static/script.js:408-410 | "show all" clears the active category |
| LegacyScript.LegacyView.ToggleArchive | static/script.js:426-427 | the archive flag flips |
| LegacyScript.LegacyView.DeleteCategory | static/script.js:106-115 | a successful delete of the active category clears it and the list becomes the one `fetchCategories` reloads (kept when that load fails); an error changes nothing |
| LegacyScript.LegacyView.DropCategory | static/script.js:77-95 | empty or equal names and a refused request leave the categories; otherwise they become the list reordered as the code does it (`ReorderAsWritten`), unknown dragged names included |
| LegacyScript.LegacyView.Render | static/script.js:144-157 | the shown list is the stable sort of the filtered list, a permutation of it in comparator order |
| Backend.NextIdFresh | app.py:59 | the new id is 1 for an empty list and otherwise one more than the largest existing id, so it is larger than every id |
| Backend.AddKeepsIdsDistinct | app.py:59-64 | appending the new task keeps the ids pairwise distinct |
| Backend.Store.AddTask | app.py:54-66 | a missing body or empty text is refused with 400; otherwise the task is appended and returned with 201, with the fresh id, the text as given, not completed, no description and no date unless given, the category as given (even null) or the first category or 'Без категории' when there are none, and `parent_id` as sent |
| Backend.MergeIdempotent | app.py:77 | applying the same update twice equals applying it once, and an empty update changes nothing |
| Backend.IndexOfId | app.py:75-76 | the update finds the first task with the id, or none |
| Backend.UpdateTouchesOne | app.py:75-79 | an update changes only the first task with the id and keeps the list length |
| Backend.Store.UpdateTask | app.py:72-80 | an unknown id gives 404 and no change; otherwise the first task with the id is merged with the payload |
| Backend.WithoutId | app.py:89 | the filtered list keeps exactly the tasks with another id |
| Backend.WithoutIdSpec | app.py:89 | deleting is idempotent, and deleting an absent id changes nothing |
| Backend.Store.DeleteTask | app.py:86-91 | the active list loses every task with the id; the archive and categories are untouched |
| Backend.Store.DeleteArchivedTask | app.py:97-102 | the archive loses every task with the id; the active list is untouched |
| Backend.Completed | app.py:111 | the completed tasks of the list |
| Backend.Incomplete | app.py:112 | the incomplete tasks of the list |
| Backend.ArchiveSpec | app.py:110-113 | archiving loses and duplicates no task, leaves no completed task active, and a second archive moves nothing |
| Backend.Store.ArchiveCompleted | app.py:108-116 | the active list keeps its incomplete tasks and the completed ones are appended to the archive in order |
| Backend.Store.AddCategory | app.py:126-135 | a missing or empty name and a duplicate are refused with 400; otherwise the name is appended with 201 |
| Backend.RemoveFirst | app.py:146 | `list.remove` shortens the list by one |
| Backend.FirstIndex | app.py:146 | the position `list.remove` cuts at is the first occurrence |
| Backend.RemoveFirstSpec | app.py:146 | removing drops exactly one copy, the first, and keeps the rest in order |
| Backend.Store.DeleteCategory | app.py:141-149 | a category used by an active task is refused with 400; an unknown one gives 404; otherwise its first occurrence is removed |
| Backend.Store.ReorderCategories | app.py:155-163 | a missing or empty list is refused with 400; any other list replaces the categories unchecked |
| Backend.UploadedTasks | app.py:178-187 | one stored task per uploaded item, none with a parent link, since the rebuilt dictionaries carry only the six task keys |
| Backend.UploadSpec | app.py:178-187 | every uploaded task lands in an existing category, or 'Без категории' when there is none; items without an id all get the same id, one above the replaced list's largest; a given id, text, description, completion or date is kept, and missing ones default to an empty text and description, not completed and no date |
| Backend.Store.UploadTasks | app.py:169-189 | a missing file or a non-list is refused with 400; otherwise the uploaded tasks replace the active list |
| TelegramBot.Digits2Value2 | telegram_service.py:139 | a two-digit field printed back is the field read |
| TelegramBot.FormatDateTime | telegram_service.py:495 | `%d.%m.%Y %H:%M` always prints 16 characters |
| TelegramBot.ParseDateTime | telegram_service.py:139 | a parsed date is a real calendar date and time |
| TelegramBot.ParseFormat | telegram_service.py:139 | parsing a printed date and time gives it back |
| TelegramBot.FormatParse | telegram_service.py:139 | printing a parsed string gives the string back, so the format accepts one spelling per moment |
| TelegramBot.Pieces | telegram_service.py:133 | the pieces between quotes hold no quote and are not blank |
| TelegramBot.ParseTask | telegram_service.py:130-149 | a parse succeeds exactly when there are at least two pieces and the second is a valid date and time; the first piece is then the text |
| TelegramBot.CreationMessageRoundTrip | telegram_service.py:126-149 | the message `"text" "DD.MM.YYYY HH:MM"` is a creation attempt and parses back to that text and moment |
| TelegramBot.MaxIdOrZero | telegram_service.py:161 | the largest id, 0 for an empty list |
| TelegramBot.NewBotTask | telegram_service.py:160-171 | the created task has an id above all others, the parsed text and moment, the sender's chat and is not completed |
| TelegramBot.WeekTasksSpec | telegram_service.py:184-204 | the week's tasks are exactly the dated, incomplete tasks addressed to the chat directly or through one of its groups, due within 7 days, in file order |
| TelegramBot.IndexOfChat | telegram_service.py:334-335 | the history entry of a chat is the first with its id, or none |
| TelegramBot.UpsertSpec | telegram_service.py:333-352 | logging keeps one entry per chat: an existing entry is updated in place, keeping the old username and name when the new ones are empty; otherwise an entry is appended with the name defaulting to the chat id |
| TelegramBot.LookupUsernameSpec | telegram_service.py:380-389 | the lookup finds nothing exactly when no entry has a non-empty username equal to the given one without leading '@'s; what it finds is the chat id and name of a matching entry |
| TelegramBot.LookupFirst | telegram_service.py:381-386 | the lookup returns the chat and name of the first matching entry |
| TelegramBot.LookupIgnoresAt | telegram_service.py:380 | a leading '@' in the searched name does not matter |
| TelegramBot.LookupSameKey | telegram_service.py:380-382 | two names that match the same entries look up the same result |
| TelegramBot.Recipients | telegram_service.py:265-269 | the recipients are `chat_ids` when non-empty, else `[chat_id]` when it is set and non-zero, else none |
| TelegramBot.Ids | telegram_service.py:303 | the set of ids recorded for a batch of notices |
| TelegramBot.FireRecords | telegram_service.py:271-303 | every fired task was not yet recorded and has recipients, and exactly the fired ids are added to the sent set |
| TelegramBot.FireDistinct | telegram_service.py:272-303 | one check fires each task id at most once |
| TelegramBot.FireCoversReady | telegram_service.py:271-278 | every task in its reminder window ends up recorded |
| TelegramBot.FireOnlyReady | telegram_service.py:265-278 | every notice is for a ready task of the file, carrying that task's id and sent to that task's recipients |
| TelegramBot.FireSpec | telegram_service.py:262-304 | one reminder check sends notices only for ready tasks, to their recipients, each id at most once and never one recorded before, records exactly those ids, and leaves every ready task recorded |
| TelegramBot.SecondPassSilent | telegram_service.py:272-303 | a second check at the same moment sends nothing |
| TelegramBot.FireNone | telegram_service.py:271-272 | with every ready task already recorded, nothing fires |
| TelegramBot.Drop | telegram_service.py:440 | Python's `s[n:]`, empty past the end |
| TelegramBot.SetNameButtonNeverPrompts | telegram_service.py:440-442 | as written, the button branch always yields a non-empty name, so the prompt is never sent |
| TelegramBot.SetNameButtonAsWritten | telegram_service.py:440 | as written, the bare button sets the name "e)" |
| TelegramBot.SetNameButtonIntended | telegram_service.py:440-442 | skipping the whole 27-character label, the bare button gives an empty name and the prompt |
| TelegramBot.NotSetNameCommand | telegram_service.py:439 | a text not starting with '/' is not the `/setname` command |
| TelegramBot.ClassifyGetId | telegram_service.py:435 | `/getid` and its button, in any case, ask for the id |
| TelegramBot.ClassifySetNameCommand | telegram_service.py:439-440 | `/setname name` sets the stripped name |
| TelegramBot.ClassifyBareSetName | telegram_service.py:439-441 | a bare `/setname` gives the empty name, so the bot asks for one |
| TelegramBot.ClassifySetNameButton | telegram_service.py:439-440 | the button, in any letter case, sets the stripped text from index 25 on, which is never empty, so the button never prompts; the bare button sets the name "e)" |
| TelegramBot.ClassifyMyTasks | telegram_service.py:448 | `/mytasks` and its button, in any case, list the week's tasks |
| TelegramBot.ClassifyNewTask | telegram_service.py:459 | `/new_task` and its button, in any case, show the format help |
| TelegramBot.ClassifyHelp | telegram_service.py:475 | `/help`, in any case, shows the menu help |
| TelegramBot.ClassifyOther | telegram_service.py:491-503 | a plain word with fewer than two quotes shows the main menu |
| TelegramBot.ClassifyQuoted | telegram_service.py:491-492 | a message starting with a quote and holding two quotes is a creation attempt with its parse |
| TelegramBot.ClassifyCreationMessage | telegram_service.py:491-495 | a well-formed creation message creates exactly its task |
| TelegramBot.DisplayName | telegram_service.py:421-423 | the display name is never empty: the stripped first and last name, else the username, else `str(chat_id)` |
| TelegramBot.Bot.LogRequest | telegram_service.py:326-352 | the history becomes its upsert with the request |
| TelegramBot.Bot.CreateTask | telegram_service.py:151-173 | the new task is appended to the task file |
| TelegramBot.Bot.TasksForWeek | telegram_service.py:184-204 | the loop collects exactly the week's tasks of the chat |
| TelegramBot.Bot.FindByUsername | telegram_service.py:374-389 | the loop returns the first entry matching the username, or none |
| TelegramBot.Bot.CheckReminders | telegram_service.py:253-304 | the loop's notices and sent set are those of `Fire`, so (by FireSpec) it reminds only and all unrecorded ready tasks, to their recipients |
| TelegramBot.Bot.HandleUpdate | telegram_service.py:418-503 | the new history and task file and the reply are the outcome `Respond` gives for the update; users and the reminder set are unchanged |
| TelegramBot.Bot.Dispatch | telegram_service.py:427-503 | the `if`/`elif` chain leaves the history, task file and reply that `Act` gives for the command; users and reminders are unchanged |
| TelegramBot.Respond | telegram_service.py:418-503 | exactly a text message gets a reply, sent to its own chat; any other update changes nothing; the task file is only appended to, by at most one task |
| TelegramBot.Act | telegram_service.py:427-503 | a logged text message always gets the reply of its command, sent to its chat, and the task file grows by at most one task at its end |
| TelegramBot.RespondHistory | telegram_service.py:424-444 | the history keeps one entry per chat, and after a text message the sender's entry holds that text and moment |
| TelegramBot.RespondTasks | telegram_service.py:490-494 | a task is added only for a creation that parses; it gets an id above every existing one, belongs to the sender's chat and is not completed |
| TelegramBot.RespondAll | telegram_service.py:416-503 | a batch gives at most one reply per update and only appends to the task file |
| TelegramBot.RespondAllHistory | telegram_service.py:416-444 | across a batch the history keeps one entry per chat |
| TelegramBot.Bot.HandleUpdates | telegram_service.py:414-503 | the replies, history and tasks are those of the updates handled in order (`RespondAll`); the offset ends one past the last update, unchanged by an empty batch |
| Contacts.SearchSpec | static/js/modules/contacts.js:31-39 | no query keeps every contact; a query keeps exactly the contacts whose lower-cased name, username or group contains the lower-cased query, and the query's case does not matter |
| Contacts.SearchConcat | static/js/modules/contacts.js:31 | searching two lists and appending equals searching their concatenation, so the order is kept |
| Contacts.LexAntisymmetric | static/js/modules/contacts.js:47-49 | the string order is antisymmetric, and equality is the only tie |
| Contacts.LexTransitive | static/js/modules/contacts.js:47-49 | the string order is transitive |
| Contacts.ContactCompareIsComparator | static/js/modules/contacts.js:42-51 | the contact comparator, ascending or descending, is a total preorder |
| Contacts.SortContactsSpec | static/js/modules/contacts.js:42-51 | the sorted list is a permutation ordered by the chosen field, with a missing value as '', and reversed for descending; with no field the list is unchanged |
| Contacts.ClickSortSpec | static/js/modules/contacts.js:96-102 | clicking the current field flips the order; another field is selected ascending; two clicks on the same field restore the state |
| Contacts.Distinct | static/js/modules/contacts.js:306 | `[...new Set(...)]` has no duplicates and the same members |
| Contacts.DistinctSnoc | static/js/modules/contacts.js:306 | adding a value already present changes nothing; a new value is appended |
| Contacts.DistinctOrder | static/js/modules/contacts.js:306 | the distinct values keep their first-occurrence order |
| Contacts.GroupValues | static/js/modules/contacts.js:306 | `filter(Boolean)` keeps exactly the non-empty groups |
| Contacts.GroupOptionsSpec | static/js/modules/contacts.js:306 | group options are the distinct non-empty groups, in first-occurrence order |
| Contacts.AddContactRequestSpec | static/js/modules/contacts.js:138-144 | a blank username, or one not starting with '@', sends nothing; a sent username is the trimmed input |
| Contacts.FilterContacts | static/js/modules/contacts.js:319-334 | option 0 is never touched; each other option in turn is hidden exactly when the trimmed lower-cased term is non-empty and not in its lower-cased text, until a matching option raises in the highlight (an invalid pattern with a non-blank term): the loop then stops, later options keep their flags, and the call reports the raise |
| Contacts.ShowMatching | static/js/modules/contacts.js:326-334 | the `forEach` sets each flag from the match, stopping right after the first matching option when the highlight raises |
| Contacts.MatchBeforeSpec | static/js/modules/contacts.js:326-334 | "an option before index k matched" holds exactly when some option from index 1 to k - 1 matches the query |
| Contacts.MatchBeforeMonotone | static/js/modules/contacts.js:326-334 | once an option has matched, every later option comes after a match |
| Contacts.BlankTermShowsAll | static/js/modules/contacts.js:328 | a blank term shows every option |
| Contacts.ContactView.SetSearch | static/js/modules/contacts.js:88-90 | the search box stores its trimmed text |
| Contacts.ContactView.ClickHeader | static/js/modules/contacts.js:94-103 | a header click applies the sort toggle |
| Contacts.ContactView.Render | static/js/modules/contacts.js:26-51 | the rendered list is the stable sort of the search result, a permutation of it |
| Categories.Names | static/js/modules/categories.js:186 | the names of the categories, in order |
| Categories.FindCategory | static/js/modules/categories.js:186 | `find` by name returns a category exactly when one has the name, and then the first one |
| Categories.CategoryColor | static/js/modules/categories.js:304-306 | the category's color, or '#e5e7eb' when the category is unknown or has no color |
| Categories.AddCategoryRequestSpec | static/js/modules/categories.js:95-104 | a blank name sends nothing; a request carries the trimmed name and the chosen color or '#e5e7eb' |
| Categories.ToggleCategoryTwice | static/js/modules/categories.js:262 | clicking the active category clears it, any other click selects it, and two clicks on the same category restore a cleared or equal filter |
| Categories.CategoryView.Refresh | static/js/modules/categories.js:11-22 | a successful load replaces the categories, a failed one keeps them |
| Categories.CategoryView.FilterByCategory | static/js/modules/categories.js:261-262 | the filter becomes the toggle of the clicked category |
| Categories.CategoryView.DeleteCategory | static/js/modules/categories.js:135-151 | without confirmation or on a server error nothing changes; a successful delete of the active category clears the filter |
| Categories.CategoryView.OpenEdit | static/js/modules/categories.js:185-201 | only a known category becomes the one being edited |
| Categories.CategoryView.SaveChanges | static/js/modules/categories.js:213-252 | nothing changes without an edited category, for a blank name or on a server error; a rename of the active category moves the filter to the new name and closes the editor |
| Categories.CategoryView.Drop | static/js/modules/categories.js:290-297 | a dropped name becomes the filter only if such a category exists |
| Calendar.StartDay | static/js/modules/calendar.js:26 | Sunday maps to 6 and any other weekday w to w - 1, so the column is in 0..6 with Monday first |
| Calendar.MonthStart | static/js/modules/calendar.js:22-26 | the number of blank cells is in 0..6 |
| Calendar.DayOffset | static/js/modules/calendar.js:22 | day d of a month is d - 1 days after the first |
| Calendar.ColumnIsWeekday | static/js/modules/calendar.js:22-26 | each day's cell sits in the column of its own weekday |
| Calendar.LastDayOfMonth | static/js/modules/calendar.js:23 | `daysInMonth` is the last valid day, and the day after it is the first of the next month |
| Calendar.DayKeyShape | static/js/modules/calendar.js:54 | the key is the year, a dash, the two-digit month and a dash with the two-digit day, which read back as month + 1 and the day |
| Calendar.DayKeyInjective | static/js/modules/calendar.js:54 | two days of one month have different keys of equal length |
| Calendar.DayTasksSpec | static/js/modules/calendar.js:55-57 | a day's tasks are exactly the tasks whose date starts with its key, and no task appears on two days of a month |
| Calendar.CellCap | static/js/modules/calendar.js:66-72 | a cell shows the first three of its tasks at most, and '+k еще' with k the rest exactly when there are more than three |
| Calendar.RenderGrid | static/js/modules/calendar.js:47-75 | the grid is `startDay` blank cells followed by one cell per day of the month |
| Calendar.BlankCells | static/js/modules/calendar.js:48-50 | the first loop emits `startDay` blank cells |
| Calendar.DayCells | static/js/modules/calendar.js:53-75 | the second loop emits the cell of each day 1..`daysInMonth` in order |
| Calendar.TodayMarkedOnce | static/js/modules/calendar.js:59-61 | exactly today's cell is marked as today |
| Calendar.NavigationSpec | static/js/modules/calendar.js:101-111 | next and prev move one month, wrapping the month and carrying the year, and each undoes the other |
| Calendar.CalendarNav.Prev | static/js/modules/calendar.js:101-104 | the previous-month button applies the backward step |
| Calendar.CalendarNav.Next | static/js/modules/calendar.js:107-110 | the next-month button applies the forward step |
| Calendar.CalendarNav.Today | static/js/modules/calendar.js:113-117 | the today button returns to the current month and year |
| Calendar.MonthName | static/js/modules/calendar.js:259-265 | a month name exists exactly for indices 0..11 and is the fixed, non-empty name |
| Utils.Variants | static/js/modules/utils.js:48-56 | each known word has three forms |
| Utils.FormIndexAsWritten | static/js/modules/utils.js:47-62 | the form index as written is one of the three forms |
| Utils.FormIndex | static/js/modules/utils.js:47-62 | the Russian plural rule picks one of three forms |
| Utils.FormIndexAsWrittenWrong | static/js/modules/utils.js:47-62 | the table as written agrees with the Russian rule exactly when n mod 100 is in 5..19 |
| Utils.DeclensionAsWrittenExample | static/js/modules/utils.js:47-62 | as written, 1 day is declined 'дня'; the intended form is 'день' |
| Utils.DeclensionIntendedSpec | static/js/modules/utils.js:46-66 | the corrected declension gives the singular after 1 (not 11), the few-form after 2..4 (not 12..14) and the many-form otherwise |
| Utils.UnitVariants | static/js/modules/utils.js:48-56 | every unit of `formatRelativeTime` has its three forms |
| Utils.DeclensionUnknownWord | static/js/modules/utils.js:58-65 | a word outside the table is returned unchanged |
| Utils.FirstUnitFrom | static/js/modules/utils.js:35-40 | the chosen unit is the first, from years down to seconds, that fits at least once |
| Utils.Phrase | static/js/modules/utils.js:38 | a relative-time phrase starts with the decimal digits of its number and a space, which read back as the number, and ends with " назад" |
| Utils.RelativeTimeJustNow | static/js/modules/utils.js:20-42 | the text is 'только что' exactly for an invalid date or a difference under one second, future dates included |
| Utils.RelativeTimeUnit | static/js/modules/utils.js:23-38 | otherwise some unit fits, and the phrase counts the whole units of the first one that does |
| Utils.FirstUnitBounds | static/js/modules/utils.js:25-38 | for at least one second the first fitting unit exists; its count n is at least 1 with n units ≤ the difference < n + 1 units, and every larger unit is longer than the difference |
| Utils.FormatRelativeTime | static/js/modules/utils.js:20-43 | the loop over the units returns the relative-time text |
| Utils.FirstUnitIs | static/js/modules/utils.js:35-40 | the first fitting unit is unique |
| Utils.EscapeRegExpChar | static/js/modules/utils.js:106-108 | one special character gets a backslash before it, any other character is kept |
| Utils.EscapeRegExpConcat | static/js/modules/utils.js:106-108 | escaping a joined text escapes each part on its own, so with EscapeRegExpChar it is fixed character by character |
| Utils.EscapeRegExpSpec | static/js/modules/utils.js:106-108 | escaping puts a backslash before each special character: unescaping gives the input back, the length grows by the number of specials, and a text without specials is unchanged |
| Utils.TruncateTextSpec | static/js/modules/utils.js:257-260 | a short text is unchanged; a long one is its first `maxLength` characters followed by the ellipsis |
| Utils.IsEmptySpec | static/js/modules/utils.js:175-181 | null and undefined are empty; a string exactly when blank; an array exactly when it has no elements; an object exactly when it has no keys; any other value is not |
| Utils.FirstTypeFrom | static/js/modules/utils.js:241-243 | the type found is the first table holding the extension |
| Utils.FileTypeSpec | static/js/modules/utils.js:231-245 | the type is the first of image, document, archive, audio, video whose table holds the extension, else 'other', and does not depend on the name's letter case |
| Utils.GetFileType | static/js/modules/utils.js:231-245 | the loop over the tables returns the file type |
| Utils.FirstTypeIs | static/js/modules/utils.js:241-243 | the first table holding the extension is unique |
| Utils.HyphenateCaseNoUpper | static/js/modules/utils.js:169 | a text without capitals gets no hyphen inserted |
| Utils.CollapseSeparatorsClean | static/js/modules/utils.js:170 | after collapsing, no whitespace or '_' is left |
| Utils.CollapseRunsClean | static/js/modules/utils.js:170 | when the replacement is not itself a separator, no separator is left after a run-collapsing replace |
| Utils.CollapseRunsKeeps | static/js/modules/utils.js:170 | a text without separators is unchanged by a run-collapsing replace |
| Utils.HyphenateConcat | static/js/modules/utils.js:169 | the `([a-z])([A-Z])` replace over two joined texts hyphenates each on its own, with one '-' added exactly where a lower-case letter meets a capital |
| Utils.CollapseRunsConcat | static/js/modules/utils.js:170 | the `[\s_]+` replace over two joined texts collapses each on its own, the second continuing a run exactly when the first ends in a separator |
| Utils.ToKebabCaseBoundary | static/js/modules/utils.js:168-172 | a '-' goes between a lower-case letter and a following capital, and each side is kebab-cased on its own |
| Utils.ToKebabCaseRun | static/js/modules/utils.js:168-172 | a whole run of whitespace and '_' between non-separators becomes one '-', and each side is kebab-cased on its own |
| Utils.CamelConcat | static/js/modules/utils.js:164 | the `[-_\s]+(.)?` replace over two joined texts handles each on its own, the second starting after a run exactly when the first ends in a separator |
| Utils.ToCamelCaseRun | static/js/modules/utils.js:163-165 | a separator run is dropped and the character after it upper-cased, with the separator-free text before it kept |
| Utils.ToCamelCaseTrailing | static/js/modules/utils.js:163-165 | a separator run at the end is dropped with nothing added |
| Utils.LowerCharClean | static/js/modules/utils.js:171 | lower-casing creates no separator and leaves no capital |
| Utils.ToKebabCaseSpec | static/js/modules/utils.js:168-172 | kebab case holds no whitespace, '_' or capital letter, and applying it twice equals applying it once |
| Utils.ToCamelCaseSpec | static/js/modules/utils.js:163-165 | camel case holds no '-', '_' or whitespace and is never longer than the input |
| Utils.ToCamelCaseKeeps | static/js/modules/utils.js:164 | a text without separators is unchanged |
| Utils.ToCamelCaseIdempotent | static/js/modules/utils.js:164 | applying camel case twice equals applying it once |
| Files.LookupIcon | static/js/modules/files.js:171-189 | the table lookup finds an icon exactly when the extension is listed, and it is that entry's icon |
| Files.FileIconSpec | static/js/modules/files.js:169-190 | a listed extension gets its icon, any other the folder icon, and the name's letter case does not matter |
| Files.FileIconExamples | static/js/modules/files.js:170-172 | "a.pdf" and "A.PDF" both get the document icon |
| Files.SizeExponent | static/js/modules/files.js:196 | the exponent is the largest power of 1024 not above the size |
| Files.FileSizeLabelSpec | static/js/modules/files.js:192-197 | the size 0 is '0 Bytes'; sizes below 1024 are Bytes, below 1024² KB, and from 1024⁴ on the unit is missing |
| Files.PowerMonotone | static/js/modules/files.js:196 | powers of 1024 grow with the exponent |

## Left out

- DOM construction, HTML templates, event wiring, `alert`/`confirm` and modals are not modelled. A confirmation, a server answer or a reloaded list is a parameter of the method that needs it.
- `fetch`, the Telegram HTTP API, threads, timers and `time.sleep` are not modelled. Their outcomes are parameters.
- Persistence (`load_data`/`save_data` and the bot's JSON files) is not modelled. The stores are fields that start from the loaded lists.
- Interleaving of concurrent asynchronous refreshes is not modelled. Each handler runs to completion.
- Exceptions are not modelled: a malformed JSON body, a file that is not JSON, or a missing `id` key on a stored task. Each handler's `except` branch is not modelled.
- Date parsing and locale formatting (`new Date(string)`, `toLocale*`, `formatDateTime`, `fromisoformat`) are left out. Dates are integer timestamps.
- The calendar keeps a task's date as its string, since it matches string prefixes. Today's date is a parameter.
- Calendar navigation before `initCalendarGlobals` has run (an undefined month) is not modelled. `renderCalendar` always draws the current month (calendar.js:17-19), which the grid's parameters reflect.
- TelegramBot.ParseDateTime: accepts exactly two-digit day, month, hour and minute, four-digit years and a single space between date and time. `strptime` also accepts single-digit fields and any run of whitespace where the format has a space (such as "01.02.2025  10:00"); those inputs are refused by the model.
- `toLowerCase`/`lower`/`toUpperCase` map only ASCII and the basic Cyrillic alphabet (including Ё). Other scripts and the special cases of Unicode case mapping are not modelled.
- Contacts.LexCompare: `localeCompare` collation is abstracted as code-point order, a total order on strings.
- TaskList.PercentSpec: `Math.round` of a floating-point quotient is modelled by exact integer rounding. Half cases that floating point rounds differently are not captured.
- Files.FileSizeLabelSpec: only the unit of `formatFileSize` is modelled. The number in front of the unit is a rounded float, and the exponent is computed exactly rather than by `Math.log`.
- `formatFileSize` in utils.js (utils.js:248-254) is not part of this model.
- Files.FileIcon: object keys inherited from `Object.prototype` (such as "constructor") are treated as unlisted extensions, whereas JavaScript would return the inherited member.
- TaskModel.RenderTask: it takes a fuel bound, the number of tasks, because a cycle of `parent_id`s would make the source recurse forever. Deeper nesting than that is not rendered.
- Utils.Declension: the number is a natural, since it is only called with counts of at least 1.
- Utils.FormatRelativeTime: it uses the declension as written (see Findings), so its phrases carry the source's word forms.
- Contacts.FilterContacts: the `<mark>` highlight of matching text (contacts.js:331-333) is not modelled, only the `hidden` flags and whether it raises. Whether `new RegExp` accepts the term as a pattern is the parameter `patternValid`; the regular-expression grammar is not modelled. The early return for a missing select element is DOM lookup and is not modelled.
- Utils.TruncateTextSpec: lengths count characters (code points), while JavaScript's `length` and `substring` count UTF-16 code units. A text with characters outside the Basic Multilingual Plane (emoji) is therefore cut at a different place than in the browser.
- Backend.Store.AddTask: the task's fields are the keys the front ends send (the six task keys and `parent_id`). `app.py` stores any other key of the body too; such keys are not modelled.
- Backend.Store.UpdateTask: likewise, a payload key other than the six task keys, `id` and `parent_id` is merged by `dict.update` but not modelled.
- The first, shadowed `handle_updates` (telegram_service.py:39-124) is not modelled. Python keeps the later definition.
- The bot's message texts, `_format_task_message` and file attachments of reminders are not modelled. Replies are a datatype naming what is sent.
- `searchTasks` (tasks.js:487-501) filters rendered DOM text and is not modelled.
- The rest of utils.js is not part of this model: `formatDateTime`, `debounce`, `throttle`, `generateId`, `deepClone`, `mergeObjects`, `formatNumber`, `getUrlParams`/`setUrlParams`, `copyToClipboard`, `highlightText`, `promiseWithTimeout`, `randomInt` and `checkWebPSupport`.
- `ui.js`, `subtasks.js`, `speech-recognition.js` and `main.js` are not part of this model. Only the form in which `subtasks.js` sends a parent id (as text, subtasks.js:255) is taken into account, as `Common.IdRef`.

## Findings

| source | as written | input that shows it | evidently intended | confidence | as-written member | corrected member |
|---|---|---|---|---|---|---|
| static/js/modules/utils.js:47-62 | `cases = [2, 0, 1, 1, 1, 2]` indexes variants ordered [few, many, one], so 1 picks the few-form and 2..4 pick the many-form | `declension(1, 'день')` gives 'дня' | 'день' for 1, 'дня' for 2..4, 'дней' for 5..20 (the Russian plural rule) | not executed | Utils.FormIndexAsWrittenWrong, Utils.DeclensionAsWrittenExample | Utils.DeclensionIntended, Utils.DeclensionIntendedSpec |
| telegram_service.py:440 | the button branch takes `text[25:]`, but the button label is 27 characters long | the bare button '👤 Установить имя (/setname)' sets the name "e)" instead of prompting | skip the whole label, so the bare button prompts for a name | not executed | TelegramBot.SetNameArgumentAsWritten, TelegramBot.SetNameButtonNeverPrompts, TelegramBot.SetNameButtonAsWritten, TelegramBot.ClassifySetNameButton | TelegramBot.SetNameArgument, TelegramBot.SetNameButtonIntended |
| static/js/modules/tasks.js:202 | `t.parent_id === task.id` compares strictly, but both ways the modular view sets a parent send the id as text: the edit dialog posts the `<select>` value (tasks.js:114) and the subtask form posts `dataset.id` (subtasks.js:255) | task 4 saved with `parent_id` "3": task 3 is rendered without subtasks, and task 4's edit dialog preselects no parent (tasks.js:326) | a `parent_id` naming the id as a number or as its text nests the task | not executed | TaskModel.Children, TaskModel.TextParentNotNested, TaskModel.TextParentExample | TaskModel.ChildrenIntended, TaskModel.ChildrenIntendedSpec, TaskModel.OneParent |
| static/script.js:82-86 | `indexOf` of a dragged text that is no category is -1, and `splice(-1, 1)` removes the last category, which is then inserted at the target | dropping "x" on "a" in ["a","b","c"] gives ["c","a","b"] | a drop of an unknown name changes nothing | not executed | LegacyScript.ReorderAsWritten, LegacyScript.ReorderAsWrittenMovesLast, LegacyScript.ReorderAsWrittenExample | LegacyScript.Reorder, LegacyScript.ReorderSpec |

The handlers follow the code as written: `LegacyScript.LegacyView.DropCategory` reorders with `ReorderAsWritten`, `TelegramBot.Classify` reads the name with `SetNameArgumentAsWritten`, `FormatRelativeTime` keeps the source's declension table, and `TaskModel.RenderTask` nests with the strict `Children`. Each corrected definition is proved beside its as-written one.
