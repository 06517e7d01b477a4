# To-do list model

`todolist.py` is a command-line to-do manager. It asks for a name, then loops over a
five-item menu. The choices list the user's tasks, add one, mark one complete by its exact
description, delete one by its exact description, or exit. The tasks live in one MySQL table
`tasks(id, user_name, description, status, created_at)`, and every SQL statement is
scoped to the current user.

This project replaces the database with an in-memory table:
- the rows in storage order;
- the AUTO_INCREMENT counter, which starts at 1.

It models the program in two layers:

- **Pure layer**: each SQL statement and each outcome decision is a function on that
  table, with lemmas about what the function guarantees.
  - `Strings`: Python's `str.strip()` whitespace set, ASCII `lower()`, and code-point order.
  - `Tasks`: the table, INSERT, UPDATE, DELETE, and the outcome classifications of
    `mark_complete` and `delete_task`.
  - `View`: `ORDER BY status, id` and the `[X]` / `[ ]` symbol rule.
  - `Menu`: the session-name rule and the whole `main_menu` loop as a function of the
    console lines.
- **Imperative layer** (`TodoList.TodoApp`): a class holding the program's state, which is
  the global `CURRENT_USER_NAME` and the table. `startup_prompt`, `add_task`,
  `mark_complete`, `delete_task` and `main_menu` are methods that update this state in
  place; `view_tasks` is a method that only reads it. `execute_query` and
  `create_database_and_table` have no counterpart, since the table is held in memory.
  - The UPDATE, the DELETE, the render loop of `view_tasks` and the menu loop are `while`/`for` loops.
  - Each method is proved equal to the matching pure function.

Main results:
- `mark_complete` can only report "marked", "already Complete", "not found" or "empty".
  The "No pending task found" branch (line 130) is unreachable.
- Marking complete is idempotent.
- `delete_task` reports "deleted" exactly when a matching row existed, and afterwards none is left.
- No session ever touches the rows of a user whose name differs as a string. Under the
  server's case-insensitive collation "alice" and "Alice" are one owner, which the model
  does not capture (see "Left out").
- A session whose events report no added, completed or deleted task leaves the table as it was.
- Within one running process, ids stay unique and increasing and are never reused.
- The list is shown Complete-before-Pending and by increasing id within a status.
- "Goodbye" is shown once, last, and only when the user chose '5'.

## Model

| member | source | states |
|---|---|---|
| Strings.TrimStartSpec | todolist.py:164 | Left-stripping removes exactly the leading whitespace and keeps the rest as a suffix starting at a non-space character |
| Strings.TrimEndSpec | todolist.py:164 | Right-stripping removes exactly the trailing whitespace and keeps a prefix ending at a non-space character |
| Strings.TrimSpec | todolist.py:106 | `strip()` returns a contiguous slice with only whitespace cut on both sides, and its ends are not whitespace |
| Strings.LowerSpec | todolist.py:97 | `lower()` keeps the length and maps each character on its own |
| Strings.TrimEmptyIff | todolist.py:109 | A stripped description is empty exactly when the input was empty or all whitespace |
| Strings.TrimPadded | todolist.py:97 | A word with non-space ends, surrounded by any whitespace, strips back to that word |
| Strings.TrimIdempotent | todolist.py:193-194 | Stripping twice equals stripping once, so the menu's strip followed by `mark_complete`'s strip acts as a single strip |
| Strings.StrLtIrreflexive | todolist.py:88 | The string order used for `ORDER BY status` is irreflexive |
| Strings.StrLtTransitive | todolist.py:88 | The string order used for `ORDER BY status` is transitive |
| Strings.StrLtTotal | todolist.py:88 | Any two distinct statuses are ordered one way or the other |
| Tasks.OwnedBy | todolist.py:88 | `WHERE user_name = %s` keeps exactly the rows of that user and never more rows than stored |
| Tasks.InsertedAppendsFreshRow | todolist.py:80-84 | The INSERT appends one row with the user, the description, status 'Pending' and an id above every existing id, keeps the old rows, and keeps the table well formed |
| Tasks.InsertedIsolation | todolist.py:82 | Inserting for one user leaves every other user's rows unchanged |
| Tasks.CompletedRows | todolist.py:112 | After the UPDATE every row matching user and description is 'Complete'; ids, owners, descriptions and all other statuses are unchanged |
| Tasks.PendingCountPositive | todolist.py:112-120 | The UPDATE's rowcount is positive exactly when a matching row was not yet Complete |
| Tasks.FirstMatchStatus | todolist.py:123-125 | `fetchone()` returns nothing exactly when no row matches, and otherwise the status of a matching row |
| Tasks.CompleteOutcomeCases | todolist.py:105-132 | `mark_complete` reports empty exactly for a blank description, and then leaves the table unchanged; it reports marked exactly when a pending match existed, already-Complete exactly when matches existed and all were Complete, and not-found exactly when nothing matched; it never reports "No pending task found" |
| Tasks.CompletedFrame | todolist.py:112 | The UPDATE keeps the table well formed, keeps row count, ids and the counter, never turns a Complete row back, and leaves non-matching rows untouched |
| Tasks.CompletedRowsUnchanged | todolist.py:112-120 | The UPDATE leaves the rows as they were exactly when no matching row is still pending |
| Tasks.CompletedIsolation | todolist.py:112 | The UPDATE leaves every other user's rows unchanged |
| Tasks.CompleteIdempotent | todolist.py:105-132 | Marking the same description twice leaves the table as marking it once; after marked or already-Complete the second call reports already-Complete; not-found and empty stay as they are |
| Tasks.DeletedRows | todolist.py:144 | The DELETE keeps exactly the rows that do not match user and description |
| Tasks.DeletedShrinks | todolist.py:144-153 | The DELETE removes a row exactly when a matching row existed, and otherwise leaves the rows unchanged |
| Tasks.DeletedKeepsOrder | todolist.py:144 | The DELETE keeps the remaining rows in increasing id order |
| Tasks.DeletedIsolation | todolist.py:144 | The DELETE leaves every other user's rows unchanged |
| Tasks.DeleteOutcomeCases | todolist.py:136-156 | `delete_task` reports empty exactly for a blank description, and then leaves the table unchanged; it reports deleted exactly when a match existed; afterwards no matching row remains, every other row stays, and the table stays well formed |
| Tasks.NotFoundChangesNothing | todolist.py:123-132 | When no row matches, both `mark_complete` and `delete_task` leave the table exactly as it was |
| View.KeyLeTotal | todolist.py:88 | `ORDER BY status, id` compares any two rows |
| View.KeyLeTransitive | todolist.py:88 | `ORDER BY status, id` is transitive |
| View.InsertByKey | todolist.py:88 | Inserting into the sorted result adds exactly that one row |
| View.SortByKey | todolist.py:88 | Sorting is a permutation of its input |
| View.InsertByKeySorted | todolist.py:88 | Inserting a row into a sorted list keeps it sorted by (status, id) |
| View.SortByKeySorted | todolist.py:88 | The sorted result is ordered by (status, id) |
| View.UserViewExact | todolist.py:88 | The SELECT returns exactly the user's rows, each as often as stored, ordered by (status, id) |
| View.OwnedByKeepsOrder | todolist.py:88 | Filtering by user keeps ids increasing |
| View.ViewOrder | todolist.py:88 | In a well-formed table the listing shows Complete rows before Pending ones, and rows of equal status by strictly increasing id |
| View.SymbolOfStoredStatus | todolist.py:97-100 | For the stored statuses the symbol is `[X]` exactly for 'Complete'; a missing status shows `[ ]` |
| View.SymbolIgnoresCaseAndPadding | todolist.py:97 | Any capitalisation of "complete" with any surrounding whitespace shows `[X]` |
| View.ViewOfCases | todolist.py:89-102 | The empty-list message appears exactly when the user owns no row; otherwise the lines are the fetched rows in `ORDER BY` order, one line each, every row of the user gets its line, and every line comes from a row of the user |
| View.ListingOrder | todolist.py:88-102 | In a well-formed table the printed lines show no Pending task before a Complete one, and tasks of equal status by strictly increasing id |
| View.EmptyTableIsWellFormed | todolist.py:46-54 | A freshly created `tasks` table is well formed, its counter starts at 1, and every user's list is empty |
| Menu.SessionNameDefault | todolist.py:164-167 | A blank name gives "Guest"; any other name is kept, stripped |
| Menu.SessionNameTrimmed | todolist.py:164-167 | The session name is never empty and has no surrounding whitespace, including the "Guest" default, which is its own strip |
| Menu.DispatchChangesIffReported | todolist.py:186-197 | A choice '2'-'4' changes the table exactly when its event reports an added, completed or deleted task; a description blank after stripping changes nothing |
| Menu.RunMenuQuietKeepsTable | todolist.py:174-202 | A session in which no event reports an added, completed or deleted task ends with the table it started with, so listing, invalid choices, blank descriptions, "already Complete" and "not found" change nothing |
| Menu.DispatchWellFormed | todolist.py:186-197 | Adding, completing or deleting keeps the table well formed and never lowers the id counter |
| Menu.RunMenuWellFormed | todolist.py:170-202 | A whole session keeps the table well formed and never lowers the id counter, so ids are never reused within one running process |
| Menu.DispatchIsolation | todolist.py:186-197 | One add, complete or delete leaves every other user's rows unchanged |
| Menu.RunMenuIsolation | todolist.py:170-202 | A whole session leaves every other user's rows unchanged |
| Menu.GoodbyeOnlyLastThen | todolist.py:174-202 | Prefixing a non-goodbye event keeps "goodbye only last" |
| Menu.RunMenuGoodbyeLast | todolist.py:198-200 | A session shows the goodbye exactly once, as its last event, exactly when it ended by choice '5' |
| Menu.AddedTaskIsListed | todolist.py:80-102 | After adding a task, the list shows it unchecked, Pending and with the fresh id |
| TodoList.TodoApp.constructor | todolist.py:47-51 | A process starts over an existing well-formed `tasks` table (ids unique and increasing, statuses Pending or Complete) with no user yet |
| TodoList.TodoApp.StartupPrompt | todolist.py:162-168 | Sets the session user to the stripped name, or "Guest" |
| TodoList.TodoApp.AddTask | todolist.py:80-84 | Appends one Pending row for the user with the next id, advances the counter, and keeps the table well formed |
| TodoList.TodoApp.ViewTasks | todolist.py:86-103 | Returns the empty-list outcome or the user's rows in (status, id) order, each with its symbol |
| TodoList.TodoApp.RenderLines | todolist.py:96-102 | Emits one line per fetched row, in order, with the row's id, symbol, description and status |
| TodoList.TodoApp.MarkComplete | todolist.py:105-132 | Leaves the table and reports the outcome exactly as the `mark_complete` specification, and keeps the table well formed |
| TodoList.TodoApp.ExecuteUpdate | todolist.py:112-118 | Updates the rows in place to the UPDATE's result and returns its rowcount |
| TodoList.TodoApp.DeleteTask | todolist.py:136-156 | Leaves the table and reports the outcome exactly as the `delete_task` specification, and keeps the table well formed |
| TodoList.TodoApp.ExecuteDelete | todolist.py:144-150 | Replaces the rows with the DELETE's result and returns the number of rows removed |
| TodoList.TodoApp.HandleDescriptionChoice | todolist.py:186-197 | Choices '2'-'4' strip the description line, then add (or reject an empty one), mark complete, or delete |
| TodoList.TodoApp.MainMenu | todolist.py:170-202 | Runs the startup prompt and then the menu loop; its events, final table and exit flag are exactly those of the session function |

## Left out

- The MySQL connection, credentials, and `CREATE DATABASE`/`CREATE TABLE`: the table is a value held in memory. The schema is reflected only in the `Task` record, the 'Pending' default and the AUTO_INCREMENT counter.
- Statement failures: the model assumes every statement succeeds. In the program, a `mysql.connector.Error` raised by a statement (INSERT, SELECT, UPDATE or DELETE) is thrown back into `get_db_connection` at its `yield`. There the `except mysql.connector.Error` prints "Database connection failed" and calls `sys.exit(1)`, and the same happens when connecting fails. `SystemExit` is not an `Exception`, so the `except Exception` branches of `execute_query`, `mark_complete` and `delete_task` do not catch it: the process ends with exit status 1.
- MySQL collation: the server's default collation compares case-insensitively and accent-insensitively and, depending on the server version, ignores trailing spaces. Before 8.0 it ignores them; 8.0's `utf8mb4_0900_ai_ci` keeps them. The model compares user names, descriptions and statuses exactly, and sorts statuses by code point. This agrees with the database for the two statuses the program stores. It does not for user names and descriptions: under the database, "alice" and "Alice" share their tasks. So the isolation lemmas (`Menu.RunMenuIsolation` and the others) prove isolation only between names that differ under the database's comparison too.
- `VARCHAR(50)` / `VARCHAR(10)` truncation or rejection and the `created_at` column: never read by the program.
- Console output text and the `{task_id:3}` width: outcomes are datatypes, and a listed line carries id, symbol, description and status.
- Strings.LowerSpec: `lower()` is modelled on ASCII letters only. This is exact for the comparison with "complete", which is the only use in the program.
- Tasks.FirstMatchStatus: `fetchone()` without ORDER BY returns some matching row. The model takes the first one in storage order. The outcome does not depend on this choice, as `Tasks.CompleteOutcomeCases` shows.
- Menu.RunMenu: `input()` at end of input raises `EOFError`. The model ends the session there, with `exited` false.
- AUTO_INCREMENT behaviour outside one process: gaps after a failed insert, and, on MySQL before 8.0, a counter reset to max(id)+1 on server restart, which can hand out the id of a deleted last row again. The counter advances by exactly one per insert, so "ids are never reused" (`Menu.RunMenuWellFormed`) holds within one running process only.
- Menu.RunMenuWellFormed: `id INT` is a signed 32-bit column. Once the counter passes 2147483647, the next INSERT raises a duplicate-key error, which ends the process with exit status 1, as for any statement failure above. The model's counter is unbounded, so every add succeeds.
- `CURRENT_USER_NAME = None` before `startup_prompt` is modelled as the empty string; no operation runs before the prompt.
- `create_database_and_table()` running after `startup_prompt` inside `main_menu`: the table is given to the constructor.
