# TaskBerry task store and command dispatcher, modelled in Dafny

TaskBerry is a command-line to-do list. Each run performs one command
(`add`, `edit`, `done`, `list`, `help`) against a single SQLite table `task`
with columns `id` (INTEGER PRIMARY KEY AUTOINCREMENT), `title`, `category` and
`is_completed` (INTEGER 0/1), and prints a padded table of the tasks.

This project models that core as pure functions over immutable values:

- `task_store.dfy` (module `TaskStore`, from `TaskItem.cs`) — `Option` (for
  the nullable `TaskItem?`, a table not yet created and a failed parse), the in-memory
  `TaskItem`, the stored `Row`, and the `Table`: a map from id to row plus the
  AUTOINCREMENT counter (the largest id ever issued, SQLite's
  `sqlite_sequence`). `CreateTableIfNotExists`, `Save` (INSERT for id 0,
  UPDATE otherwise), `GetAll` (`ORDER BY is_completed asc, id`) and `GetByID`
  are given by their effect on this value. `Valid` is the table invariant:
  ids lie in `1..lastId` and `is_completed` holds 0 or 1.
- `layout.dfy` (module `Layout`, from `Program.cs`) — `PadRight`, `PrintRow`
  (`FormatRow`), `GetMaxTitleLength` and `ShowAllTasks`. A listing is either
  "0 tasks." or its lines, and `LaidOut` says where each field of a line sits.
- `cli.dfy` (module `Cli`, from `Program.cs`) — `Main` as a function from
  the arguments, the table (absent before the first run) and a parser to the
  new table and the events shown: a listing (of the table as it stood at
  that point, rendered by `ShowAllTasks`), an error message, a success
  message, or the help menu.

The model follows the code as written, which does less than a full to-do
manager would:
- The title is `args[1]` alone, not the joined remaining tokens.
- The category is `args[2]` verbatim. `flag` is computed and never used.
- No importance flag, delete, `undone` or category filter exists.
- `edit` and `done` never look up or write the task. For any non-zero id
  they report "[id] Task updated.".
- `list` and the no-argument case show completed tasks too.

## Model

| member | source | states |
|---|---|---|
| TaskStore.LemmaNewItemRoundTrip | TaskItem.cs:9-12 | a freshly constructed item (id 0, not completed) given a title and category, once saved, reads back under the new id with exactly that title and category and not completed |
| TaskStore.CreateTableIfNotExists | TaskItem.cs:14-31 | an existing table is returned unchanged (so the step is idempotent); a missing one is created empty with no id issued; the table invariant holds afterwards |
| TaskStore.LemmaCreateTableIdempotent | TaskItem.cs:21-28 | running the schema step on its own result changes nothing |
| TaskStore.Save | TaskItem.cs:40-58 | id 0 inserts exactly one row, under an id above every id ever issued and not already used, holding the item's columns; a non-zero id rewrites only that row's columns, keeps the ids and counter, and leaves the table unchanged when no row has that id; every other row is kept; the invariant is preserved |
| TaskStore.LemmaSaveTwiceInsertsTwice | TaskItem.cs:42-47 | the inserted id is not written back to the item, so saving the same unsaved item twice adds two rows with distinct ids and equal columns |
| TaskStore.LemmaUpdateRoundTrip | TaskItem.cs:49-58 | updating an existing row and looking it up returns the saved item, and the row count is unchanged |
| TaskStore.LemmaFlagRoundTrip | TaskItem.cs:63 | the flag is stored as 1 or 0 and reads back (non-zero is true) as the value saved |
| TaskStore.GetAll | TaskItem.cs:75-101 | one item per row, each read from its row; every row appears; incomplete tasks come before completed ones and ids ascend within each group (so no row appears twice) |
| TaskStore.GetByID | TaskItem.cs:110-131 | some item exactly when a row has that id, carrying that id, the row's title and category, and completed exactly when the stored flag is non-zero |
| TaskStore.LemmaGetByIDAgreesWithGetAll | TaskItem.cs:104-131 | the lookup finds an item exactly when the listing holds that item with that id |
| Layout.PadRight | Program.cs:117-118 | the result is as long as the width or the string, whichever is more; it starts with the string and the rest is spaces |
| Layout.FormatRow | Program.cs:114-121 | the id sits in a column at least 5 wide, the title in a column as wide as the padding (or the title, if longer), then the category; each field reads back at its offset with spaces between |
| Layout.GetMaxTitleLength | Program.cs:159-168 | 0 for no items; otherwise at least every title's length and equal to some title's length |
| Layout.RenderListing | Program.cs:130-154 | no tasks gives "0 tasks." alone; otherwise a header, a rule and one line per task in order, the padding being five more than the longest title, every title column exactly that wide |
| Layout.ShowAllTasks | Program.cs:123-157 | "0 tasks." exactly when the table is empty; otherwise the header, the rule and one line per row in `GetAll` order, line k+2 laying out the k-th task's id, title and category, every title column exactly five wider than the longest title |
| Layout.LemmaDecimalRoundTrip | Program.cs:148 | the decimal digits printed for an id read back as that id |
| Layout.IdText | Program.cs:148 | `Id.ToString()`: non-empty; a minus sign exactly for a negative id, then digits without a leading zero that read back as the id's magnitude; a single digit exactly for 0 to 9 |
| Layout.LemmaIdTextInjective | Program.cs:148 | two different ids never print the same text |
| Cli.LemmaMessageTextInjective | Program.cs:29-70 | the four messages `Main` prints are pairwise distinct texts, and "[id] Task updated." determines the id |
| Cli.IsWhiteSpace | Program.cs:29 | `char.IsWhiteSpace`: on ASCII exactly space, tab, line feed, vertical tab, form feed and carriage return; in the rest of Latin-1 exactly U+0085 and the no-break space |
| Cli.TrimStart | Program.cs:29 | `String.TrimStart()`: a suffix of the string, everything removed is white space, and what is left is empty or starts with a character that is not |
| Cli.TrimEnd | Program.cs:29 | `String.TrimEnd()`: a prefix of the string, everything removed is white space, and what is left is empty or ends with a character that is not |
| Cli.IsNullOrWhiteSpace | Program.cs:29 | a title is blank exactly when it is empty or trims to the empty string, as .NET documents `IsNullOrWhiteSpace`; equivalently, not blank exactly when some character is not white space |
| Cli.TaskId | Program.cs:19-22 | the id token parsed, or 0 when the parse fails; a missing token is "" and yields 0 |
| Cli.ParseCommand | Program.cs:26-82 | exactly the strings "add", "edit", "done", "list" and "help" select those branches, case-sensitively; every other string falls to the default branch |
| Cli.Main | Program.cs:6-83 | no arguments lists and writes nothing; `add` with a blank title shows the error only and writes nothing; `add` with a title inserts one incomplete row with that title and the third argument (or "") as category, then lists and reports success; `edit`/`done` never write and report the invalid-id error exactly when the id token is missing, fails to parse or parses to 0, and otherwise "[id] Task updated."; `list` lists; `help` and other commands show help and write nothing; the table invariant is preserved |
| Cli.LemmaErrorMeansNoWrite | Program.cs:29-33 | an invocation that shows an error leaves the table as the schema step left it |
| Cli.LemmaOnlyAddWrites | Program.cs:40-43 | only `add` with a non-blank title changes the table, and it adds exactly one row |
| Cli.LemmaUpdateReportedForMissingTask | Program.cs:56-58 | `edit`/`done` with a non-zero id that names no task still report "[id] Task updated." and leave that id absent |

## Left out

- The SQLite connection, parameter binding and SQL text. Each statement is given only by its effect on the abstract table.
- Storage-engine failures and exceptions. The code has no recovery logic for them.
- Colours, `Console.Clear`, blank lines and the help-menu text (including its commented-out grid). The help menu is one `HelpShown` event.
- `GetTitle` (Program.cs:88-96). It is never called and returns nothing.
- `int.TryParse`. It is the `tryParse` parameter of `Main`, and a failed parse reads as 0 like the source's `? id : 0`. The one fact assumed of it is that the empty string does not parse. Culture, sign and white-space rules are not modelled.
- 32-bit integers. Ids are unbounded, so `Convert.ToInt32` overflow and SQLite's 64-bit rowid limit are not modelled.
- Title lengths are counted in Unicode scalar values, not UTF-16 code units.
- TaskStore.GetAll: requires the table invariant `Valid`. Rows written by other programs are out of scope. Examples are an `is_completed` other than 0/1 (which `ORDER BY` would sort by raw value) or a non-positive id.
- TaskStore.Save: requires `Valid`. With it, SQLite's next id `max(sqlite_sequence, max rowid) + 1` is `lastId + 1`.
- Cli.Main: requires `Valid` of a table that already exists, for the same reason as `GetAll`. A missing table needs nothing. It also requires `tryParse("")` to fail, as `int.TryParse("")` does.
