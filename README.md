# Task registry and response normaliser

This project models two small pieces of a Kotlin repository and proves properties of them in Dafny.

- **Console task registry** (`Elearning/TaskManager/src/Main.kt`). A `TaskManager` owns an ordered, mutable list of task records. A record is either a plain `Task` or an `UrgentTask` that also carries a priority level. Every record has a mutable status, `NOT_DONE` or `DONE`. The manager appends records, lists them, marks one done by its 1-based number, removes one by its 1-based number, and collects the set of distinct titles. The model is imperative, like the source:
  - `ConsoleTasks.Task` is a class whose `status` field `MarkDone` overwrites. Its title, description and variant are constants. The variant is a tagged value, `Plain` or `Urgent(priorityLevel)`, which the display format switches on.
  - `ConsoleTasks.TaskManager` is a class whose `tasks: seq<Task>` field `AddTask` and `RemoveTask` reassign.
  - `MarkTaskDone` changes only the marked record object.
  - Each method's contract ties the new state to the old one through a value view: `Snapshot()`, the value of one record, for `Task.MarkDone`, and the ghost view `View()`, the list of record values, for the `TaskManager` methods.
  - Everything the Kotlin code prints is returned as strings: the confirmation or error message, and the lines of the listing.
- **Response normaliser** (`BTVNT6/.../data/model/TaskResponse.kt`). `TasksResponse` has three nullable list slots, `data`, `tasks` and `results`. `extractTasks()` returns the first slot that is not null, in that fixed order, or the empty list. It is modelled as the pure function `TaskResponse.ExtractTasks` over `Option<seq<T>>` slots, where `None` stands for `null`. The mobile `Task` type is a type parameter, because the normaliser never looks inside it.

Files:
- `wrappers.dfy` holds `Option`.
- `decimal.dfy` holds Kotlin's `Int`-to-text conversion, used by `"[P$priorityLevel]"` and `"${index + 1}. "`, together with the parser that inverts it.
- `task_response.dfy` holds the normaliser.
- `console_tasks.dfy` holds the registry.

Behaviour of the code worth noting:
- A plain record's line starts with a space (`" $title - ..."`). A listed item therefore reads `"1.  Buy milk - 2% milk | Status: Not done"`, with two spaces after the dot.
- `extractTasks` (TaskResponse.kt:18) returns the first non-null slot in the order `data`, `tasks`, `results`. With `data` null, `tasks` wins over `results`.
- `markTaskDone` and `removeTask` (Main.kt:70-85) check the number against `1..tasks.size`. Outside that range they print `"Invalid task number."` and change nothing, which the model returns as the message.
- `UrgentTask` always starts `NOT_DONE`. Its constructor accepts any `Int` as the priority; only the menu restricts it to 1–5.
- `removeTask` prints `"Task removed."` before removing. The model returns the same message, so the order of the two effects is not observable.
- The source drops the value after removal and does not check for repeats. A removed record can still appear in the list if the same object was added twice. `RemoveAtShifts` therefore proves "the removed record is gone" only for lists without repeats.

## Model

| member | source | states |
|---|---|---|
| `TaskResponse.ExtractTasks` | BTVNT6/app/src/main/java/com/example/myapplication/data/model/TaskResponse.kt:17-19 | the result is the empty list or exactly the list held by one of the three slots; lists are never merged |
| `TaskResponse.DefaultResponse` | BTVNT6/app/src/main/java/com/example/myapplication/data/model/TaskResponse.kt:7-16 | the wrapper built with default arguments has every slot null |
| `TaskResponse.FirstPresentAt` | BTVNT6/app/src/main/java/com/example/myapplication/data/model/TaskResponse.kt:18 | reference definition: when slot k is the first non-null slot, its list is the result, whatever the later slots hold |
| `TaskResponse.FirstPresentAbsent` | BTVNT6/app/src/main/java/com/example/myapplication/data/model/TaskResponse.kt:18 | reference definition: with no slot present the result is the empty list |
| `TaskResponse.ExtractAgreesWithReference` | BTVNT6/app/src/main/java/com/example/myapplication/data/model/TaskResponse.kt:18 | the elvis chain equals the first-present reference definition over `[data, tasks, results]`, on every payload |
| `TaskResponse.ExtractPicksFirstPresent` | BTVNT6/app/src/main/java/com/example/myapplication/data/model/TaskResponse.kt:18 | if slot k is non-null and every slot before it is null, the result is slot k's list unchanged |
| `TaskResponse.ExtractPrefersData` | BTVNT6/app/src/main/java/com/example/myapplication/data/model/TaskResponse.kt:18 | a non-null `data` is returned exactly, whatever `tasks` and `results` hold |
| `TaskResponse.ExtractFallsToTasks` | BTVNT6/app/src/main/java/com/example/myapplication/data/model/TaskResponse.kt:18 | with `data` null, a non-null `tasks` is returned, whatever `results` holds |
| `TaskResponse.ExtractFallsToResults` | BTVNT6/app/src/main/java/com/example/myapplication/data/model/TaskResponse.kt:18 | with `data` and `tasks` null, a non-null `results` is returned |
| `TaskResponse.ExtractAllAbsent` | BTVNT6/app/src/main/java/com/example/myapplication/data/model/TaskResponse.kt:9-18 | with all three slots null, including the default-constructed wrapper, the result is the empty list |
| `TaskResponse.ExtractEmptyDataWins` | BTVNT6/app/src/main/java/com/example/myapplication/data/model/TaskResponse.kt:18 | fall-through happens on null only: `data = []` yields `[]` even when `tasks` is non-empty |
| `TaskResponse.ExtractEmptyIff` | BTVNT6/app/src/main/java/com/example/myapplication/data/model/TaskResponse.kt:18 | the result is empty if and only if every slot is null or the first non-null slot holds the empty list |
| `Decimal.NatDigits` | Elearning/TaskManager/src/Main.kt:45 | the digits of a natural number are non-empty, start with a digit, and start with `0` only for zero: there are no leading zeros |
| `Decimal.IntToDecimal` | Elearning/TaskManager/src/Main.kt:45 | the rendering of an `Int` is non-empty and starts with `-` exactly when the number is negative; a non-negative number starts with `0` only when it is zero, and after a minus sign the first digit is never `0`, as `Int.toString()` writes it |
| `Decimal.NatDigitsRoundTrip` | Elearning/TaskManager/src/Main.kt:45 | the digits of a natural number are decimal digits and parse back to the number |
| `Decimal.IntToDecimalRoundTrip` | Elearning/TaskManager/src/Main.kt:45 | parsing the rendering of any integer gives the integer back |
| `Decimal.IntToDecimalInjective` | Elearning/TaskManager/src/Main.kt:45 | two integers render the same text if and only if they are equal |
| `ConsoleTasks.StatusText` | Elearning/TaskManager/src/Main.kt:8-11 | the display text of each status constant, `Not done` and `Done`; its contents are stated by `DisplayLayout` |
| `ConsoleTasks.Task.constructor` | Elearning/TaskManager/src/Main.kt:15-19 | a plain record starts with the given title, description and status; the status is `NOT_DONE` when none is given |
| `ConsoleTasks.Task.GetTitle` | Elearning/TaskManager/src/Main.kt:32 | returns the record's title, which no operation changes |
| `ConsoleTasks.Task.GetStatus` | Elearning/TaskManager/src/Main.kt:33 | returns the record's current status, the one `Snapshot()` reports |
| `ConsoleTasks.Task.UrgentTask` | Elearning/TaskManager/src/Main.kt:37-41 | an urgent record keeps its title, description and priority, and starts not done |
| `ConsoleTasks.MarkedDone` | Elearning/TaskManager/src/Main.kt:26-28 | marking done sets the status to `DONE` and leaves title, description and variant unchanged |
| `ConsoleTasks.MarkDoneIdempotent` | Elearning/TaskManager/src/Main.kt:26-28 | marking done twice equals marking done once for both variants, and a done record is unchanged |
| `ConsoleTasks.MarkDoneMessage` | Elearning/TaskManager/src/Main.kt:28 | the confirmation is 23 characters longer than the title and carries the title verbatim after `Task "` |
| `ConsoleTasks.Task.MarkDone` | Elearning/TaskManager/src/Main.kt:26-29 | the record's new value is the marked-done old value, and the message names the record's title |
| `ConsoleTasks.Heading` | Elearning/TaskManager/src/Main.kt:22-46 | the part of a display line before the status label, chosen by the variant; its layout is stated by `DisplayLayout` |
| `ConsoleTasks.DisplayLine` | Elearning/TaskManager/src/Main.kt:22-46 | the heading, the status label and the status text; its layout is stated by `DisplayLayout` and the lemmas after it |
| `ConsoleTasks.Task.DisplayInfo` | Elearning/TaskManager/src/Main.kt:22-46 | the line a record displays is dispatched on its variant: a plain record's line starts with a space, an urgent record's with `URGENT [P` |
| `ConsoleTasks.DisplayLayout` | Elearning/TaskManager/src/Main.kt:8-45 | a plain line is a space, the title, ` - ` and the description; an urgent line is `URGENT [P`, the priority, `]: ` and the title; both end with the status label and the status text, `Not done` or `Done` |
| `ConsoleTasks.DisplayVariantsDiffer` | Elearning/TaskManager/src/Main.kt:22-46 | a plain record's line never equals an urgent record's line |
| `ConsoleTasks.DisplayRevealsStatus` | Elearning/TaskManager/src/Main.kt:22-46 | two records that differ only in status display the same line if and only if the statuses are equal |
| `ConsoleTasks.UrgentSampleLine` | Elearning/TaskManager/src/Main.kt:44-46 | an urgent record with priority 5 with title `Fix server` displays `URGENT [P5]: Fix server`, then the status label and `Not done`; the priority has no leading zero |
| `ConsoleTasks.PlainSampleLine` | Elearning/TaskManager/src/Main.kt:22-24 | a done plain record displays ` Buy milk - 2% milk`, then the status label and `Done`; the line starts with a space |
| `ConsoleTasks.UrgentLineRevealsPriority` | Elearning/TaskManager/src/Main.kt:44-46 | two urgent records that differ only in priority display the same line if and only if the priorities are equal |
| `ConsoleTasks.Listing` | Elearning/TaskManager/src/Main.kt:58-68 | an empty registry lists only `No tasks found.`; otherwise the blank line and the ` Task List:` header come first, then one line per record |
| `ConsoleTasks.ItemLine` | Elearning/TaskManager/src/Main.kt:65-66 | one listed item: the 1-based number, a dot, a space and the display line; stated by `ListingItem` |
| `ConsoleTasks.ForEachIndexed` | Elearning/TaskManager/src/Main.kt:64-67 | visiting the elements in order with their 0-based index yields, at position k, what element k produces |
| `ConsoleTasks.ListingItem` | Elearning/TaskManager/src/Main.kt:64-67 | listing line k + 2 is record k's display line, prefixed by its 1-based number, a dot and a space |
| `ConsoleTasks.TaskManager.ListTasks` | Elearning/TaskManager/src/Main.kt:58-68 | the printed lines are the listing of the registry's current record values |
| `ConsoleTasks.TaskManager.constructor` | Elearning/TaskManager/src/Main.kt:50-51 | a new registry is empty |
| `ConsoleTasks.TaskManager.AddTask` | Elearning/TaskManager/src/Main.kt:53-56 | the record is appended at the end; earlier records and their values are unchanged; adding a record not yet present keeps the list free of repeats; the message is `Task added successfully.` |
| `ConsoleTasks.TaskManager.MarkTaskDone` | Elearning/TaskManager/src/Main.kt:70-76 | within `1..size`: the list and its order are unchanged; the record at index − 1 (and any position holding the same object) becomes done; every other record keeps its value. In a list without repeats the new view is the old one with that one position marked done. Outside `1..size`, including any index on an empty registry: nothing changes and the message is `Invalid task number.` |
| `ConsoleTasks.TaskManager.RemoveTask` | Elearning/TaskManager/src/Main.kt:78-85 | within `1..size` the list and the view become the old ones with position index − 1 removed; outside `1..size` nothing changes; the message says which happened |
| `ConsoleTasks.RemoveAtShifts` | Elearning/TaskManager/src/Main.kt:81 | removal shortens the list by one, keeps earlier elements in place and moves each later one down exactly one position; in a list without repeats the removed element is gone |
| `ConsoleTasks.TaskManager.UniqueTitles` | Elearning/TaskManager/src/Main.kt:88-96 | the result is exactly the set of titles of all records, of both variants |
| `ConsoleTasks.ToSetSize` | Elearning/TaskManager/src/Main.kt:89-95 | a sequence has at most as many distinct elements as positions, and exactly as many if and only if no element repeats |
| `ConsoleTasks.TitlesSize` | Elearning/TaskManager/src/Main.kt:88-96 | the title set is no larger than the list, and exactly as large if and only if no two records share a title |
| `ConsoleTasks.SharedTitleCollapses` | Elearning/TaskManager/src/Main.kt:88-96 | two records sharing a title make the set strictly smaller than the list |
| `ConsoleTasks.SharedTitlePair` | Elearning/TaskManager/src/Main.kt:88-96 | two records with the same title, of either variant, give a one-element set |
| `ConsoleTasks.ManagerSize` | Elearning/TaskManager/src/Main.kt:179-184 | the size accessor is at least 1; it equals the list length when the registry is non-empty, and is 1 when it is empty |
| `ConsoleTasks.MenuBoundAgreesWithGuard` | Elearning/TaskManager/src/Main.kt:135-143 | every number the menu accepts, between 1 and the size accessor, passes the registry's range guard exactly when the registry is non-empty; on an empty registry the only accepted number, 1, is rejected as invalid |

## Left out

- `main()`, `readNonEmptyInput` and `readIntInput` (Main.kt:99-177) are left out: they are stdin/stdout loops. The one fact of theirs that the core depends on, the prompt bound `1..managerSize`, is stated by `MenuBoundAgreesWithGuard`.
- `managerSize` reads the private list by reflection. The model reads the `tasks` field directly. Only its `coerceAtLeast(1)` result is modelled.
- The `Manageable` interface is not a separate type. `addTask` takes a `Task` (either variant), because those are the only implementations in the source. As a result, the `task is Task` test in `uniqueTitles` always holds and is not modelled.
- Output is returned as strings, not written to standard output. Line breaks are represented as separate list elements, and `print("${index + 1}. ")` followed by `println(...)` becomes one line.
- Integers are unbounded in the model. The record count and `index + 1` never come near the 32-bit limit. The priority has the 32-bit range of Kotlin's `Int`.
- Aliasing is allowed, as in Kotlin: the same record object may be added twice. The contracts speak of object identity, so no "distinct records" precondition is imposed on callers.
- The mobile `Task`, `Subtask` and `Attachment` records are a type parameter of the normaliser. Their fields are not read by the core.
- `TaskApiService.kt` is left out: it is Retrofit HTTP calls with coroutines and has no logic of its own.
- The Loading/Success/Error view-model state holder is not part of this model: its source file is not among the files modelled.
- The Compose screens `TaskListScreen.kt` and `TaskDetailScreen.kt` are left out as UI rendering. That includes the title fallback, the checkbox rule and the status colour switch.
- UniqueTitles: returns an unordered `set<string>`. Kotlin's `mutableSetOf` keeps insertion order, so the menu prints the titles in order of first occurrence (Main.kt:147); that order is not modelled.
- `NavGraph.kt` is left out: it is navigation routing owned by the Android library.
