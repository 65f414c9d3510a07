/** One invocation of the `task` command: decode the arguments, validate,
    perform at most one `Save`, and report what was shown.

    The console is not modelled: what an invocation shows is a sequence of
    events (a listing, an error message, a success message, the help menu).
    `int.TryParse` is a parameter, a partial function from text to a number
    that, like `int.TryParse`, fails on the empty string. */
module Cli {
  import opened TaskStore
  import opened Layout

  /** The messages the command prints, by meaning. */
  datatype Message = TitleRequired | InvalidTaskId | TaskAdded | TaskUpdated(id: int)

  /** What an invocation shows, in order. `Listed(t)` is the listing of the
      table as it stood at that point, i.e. `ShowAllTasks(t)`. */
  datatype Event = Listed(shown: Table) | Error(message: Message) | Success(message: Message) | HelpShown

  /** The table after the invocation and what it showed. */
  datatype Invocation = Invocation(table: Table, events: seq<Event>)

  /** The text of each message. */
  function MessageText(m: Message): string {
    match m
    case TitleRequired => "Please enter a task title."
    case InvalidTaskId => "Please enter a valid Task ID."
    case TaskAdded => "Task added."
    case TaskUpdated(id) => "[" + IdText(id) + "] Task updated."
  }

  /** Every message prints differently; an update message names its id. */
  lemma LemmaMessageTextInjective(m1: Message, m2: Message)
    ensures MessageText(m1) == MessageText(m2) ==> m1 == m2
  {
    var s1, s2 := MessageText(m1), MessageText(m2);
    if m1.TaskUpdated? && m2.TaskUpdated? {
      var d1, d2 := IdText(m1.id), IdText(m2.id);
      if s1 == s2 {
        assert |d1| == |d2|;
        assert s1[1..1 + |d1|] == d1 && s2[1..1 + |d2|] == d2;
        LemmaIdTextInjective(m1.id, m2.id);
      }
    } else if m1 != m2 {
      assert s1[0] != s2[0] || |s1| != |s2|;
    }
  }

  /** `char.IsWhiteSpace`: the Unicode white-space characters (the space,
      line and paragraph separators, and U+0009 to U+000D, U+0085). */
  predicate IsWhiteSpace(c: char)
    // on ASCII: exactly the space, tab, line feed, vertical tab, form feed and carriage return
    ensures c as int < 0x80 ==> (IsWhiteSpace(c) <==> c == ' ' || c == '\t' || c == '\n' || c == '\r' || c as int == 0x0B || c as int == 0x0C)
    // in the rest of Latin-1: only the next-line character and the no-break space
    ensures 0x80 <= c as int <= 0xFF ==> (IsWhiteSpace(c) <==> c as int == 0x85 || c as int == 0xA0)
  {
    var n := c as int;
    || (0x09 <= n <= 0x0D) || n == 0x20 || n == 0x85 || n == 0xA0 || n == 0x1680
    || (0x2000 <= n <= 0x200A) || n == 0x2028 || n == 0x2029 || n == 0x202F
    || n == 0x205F || n == 0x3000
  }

  /** `String.TrimStart()`: the string without its leading run of white space. */
  function TrimStart(s: string): (r: string)
    ensures |r| <= |s| && r == s[|s| - |r|..]
    ensures forall k :: 0 <= k < |s| - |r| ==> IsWhiteSpace(s[k])
    ensures |r| > 0 ==> !IsWhiteSpace(r[0])
  {
    if |s| > 0 && IsWhiteSpace(s[0]) then TrimStart(s[1..]) else s
  }

  /** `String.TrimEnd()`: the string without its trailing run of white space. */
  function TrimEnd(s: string): (r: string)
    ensures |r| <= |s| && r == s[..|r|]
    ensures forall k :: |r| <= k < |s| ==> IsWhiteSpace(s[k])
    ensures |r| > 0 ==> !IsWhiteSpace(r[|r| - 1])
  {
    if |s| > 0 && IsWhiteSpace(s[|s| - 1]) then TrimEnd(s[..|s| - 1]) else s
  }

  /** `String.Trim()`: white space removed from both ends. */
  function Trim(s: string): string {
    TrimEnd(TrimStart(s))
  }

  /** `string.IsNullOrWhiteSpace` for a non-null string: no character other
      than white space (so the empty string counts). .NET documents it as
      `String.IsNullOrEmpty(s) || s.Trim().Length == 0`, which is the first
      ensures. */
  predicate IsNullOrWhiteSpace(s: string)
    ensures IsNullOrWhiteSpace(s) <==> |s| == 0 || |Trim(s)| == 0
    ensures |s| == 0 ==> IsNullOrWhiteSpace(s)
    ensures !IsNullOrWhiteSpace(s) <==> exists k :: 0 <= k < |s| && !IsWhiteSpace(s[k])
  {
    forall k :: 0 <= k < |s| ==> IsWhiteSpace(s[k])
  }

  /** The commands `Main` recognises; anything else is `Other`. */
  datatype Command = Add | Edit | Done | List | Help | Other

  /** The command named by the first argument (names are case-sensitive). */
  function ParseCommand(s: string): (c: Command)
    ensures c == Add <==> s == "add"
    ensures c == Edit <==> s == "edit"
    ensures c == Done <==> s == "done"
    ensures c == List <==> s == "list"
    ensures c == Help <==> s == "help"
  {
    if s == "add" then Add
    else if s == "edit" then Edit
    else if s == "done" then Done
    else if s == "list" then List
    else if s == "help" then Help
    else Other
  }

  /** The second argument, or the empty string. It is both the title and the
      id token. */
  function Argument(args: seq<string>): string {
    if |args| > 1 then args[1] else ""
  }

  /** The third argument, or the empty string; `add` stores it as category. */
  function CategoryArgument(args: seq<string>): string {
    if |args| > 2 then args[2] else ""
  }

  /** The id token decoded, with a failed parse read as 0; a missing token is
      the empty string, whose parse fails. */
  function TaskId(args: seq<string>, tryParse: string -> Option<int>): (id: int)
    ensures |args| > 1 && tryParse(args[1]).Some? ==> id == tryParse(args[1]).value
    ensures |args| > 1 && tryParse(args[1]).None? ==> id == 0
    ensures |args| <= 1 && tryParse("").None? ==> id == 0
  {
    match tryParse(Argument(args))
    case Some(n) => n
    case None => 0
  }

  /** `Main`. The schema step always runs first; with no arguments the tasks
      are listed; `add` validates its title before its one `Save`; `edit` and
      `done` only validate the id and report, never writing; `list` lists;
      `help` and any other command show the help menu. */
  function Main(args: seq<string>, db: Option<Table>, tryParse: string -> Option<int>): (r: Invocation)
    requires db.Some? ==> Valid(db.value)
    requires tryParse("").None?
    ensures Valid(r.table)
    // no arguments: the listing of the (possibly just created) table
    ensures var t0 := CreateTableIfNotExists(db);
      |args| == 0 ==> r.table == t0 && r.events == [Listed(t0)]
    // add with a blank title: the error alone, and no write
    ensures var t0 := CreateTableIfNotExists(db);
      |args| > 0 && ParseCommand(args[0]) == Add && IsNullOrWhiteSpace(Argument(args)) ==>
        r.table == t0 && r.events == [Error(TitleRequired)]
    // add with a title: exactly one new, incomplete row under a fresh id
    ensures var t0 := CreateTableIfNotExists(db);
      |args| > 0 && ParseCommand(args[0]) == Add && !IsNullOrWhiteSpace(Argument(args)) ==>
        && r.table.lastId > t0.lastId
        && r.table.lastId !in t0.rows
        && r.table.rows.Keys == t0.rows.Keys + {r.table.lastId}
        && (forall id :: id in t0.rows ==> r.table.rows[id] == t0.rows[id])
        && GetByID(r.table, r.table.lastId) == Some(TaskItem(r.table.lastId, Argument(args), CategoryArgument(args), false))
        && r.events == [Listed(r.table), Success(TaskAdded)]
    // edit and done: no write; an error exactly when the id decodes to 0
    ensures var t0 := CreateTableIfNotExists(db);
      |args| > 0 && (ParseCommand(args[0]) == Edit || ParseCommand(args[0]) == Done) ==>
        && r.table == t0
        && |r.events| == 2 && r.events[0] == Listed(t0)
        && (TaskId(args, tryParse) == 0 ==> r.events[1] == Error(InvalidTaskId))
        && (TaskId(args, tryParse) != 0 ==> r.events[1] == Success(TaskUpdated(TaskId(args, tryParse))))
    // edit and done without an id token: the invalid-id error
    ensures |args| == 1 && (ParseCommand(args[0]) == Edit || ParseCommand(args[0]) == Done) ==>
      r.events[1] == Error(InvalidTaskId)
    // list
    ensures var t0 := CreateTableIfNotExists(db);
      |args| > 0 && ParseCommand(args[0]) == List ==> r.table == t0 && r.events == [Listed(t0)]
    // help and every other command
    ensures var t0 := CreateTableIfNotExists(db);
      |args| > 0 && (ParseCommand(args[0]) == Help || ParseCommand(args[0]) == Other) ==>
        r.table == t0 && r.events == [HelpShown]
  {
    var t0 := CreateTableIfNotExists(db);
    if |args| == 0 then
      Invocation(t0, [Listed(t0)])
    else
      var command := ParseCommand(args[0]);
      var argument := Argument(args);
      var title := argument;
      var taskId := TaskId(args, tryParse);
      match command
      case Add =>
        if IsNullOrWhiteSpace(title) then
          Invocation(t0, [Error(TitleRequired)])
        else
          var item := NewTaskItem().(title := argument, category := CategoryArgument(args));
          var t1 := Save(t0, item);
          Invocation(t1, [Listed(t1), Success(TaskAdded)])
      case Edit | Done =>
        if taskId == 0 then
          Invocation(t0, [Listed(t0), Error(InvalidTaskId)])
        else
          Invocation(t0, [Listed(t0), Success(TaskUpdated(taskId))])
      case List =>
        Invocation(t0, [Listed(t0)])
      case Help | Other =>
        Invocation(t0, [HelpShown])
  }

  /** Validation comes before any write: an invocation that reports an error
      leaves the table as the schema step left it. */
  lemma LemmaErrorMeansNoWrite(args: seq<string>, db: Option<Table>, tryParse: string -> Option<int>)
    requires db.Some? ==> Valid(db.value)
    requires tryParse("").None?
    ensures var r := Main(args, db, tryParse);
      forall k :: 0 <= k < |r.events| && r.events[k].Error? ==> r.table == CreateTableIfNotExists(db)
  {
  }

  /** The only invocation that changes the table is `add` with a title that is
      not blank, and it adds exactly one row. */
  lemma LemmaOnlyAddWrites(args: seq<string>, db: Option<Table>, tryParse: string -> Option<int>)
    requires db.Some? ==> Valid(db.value)
    requires tryParse("").None?
    requires Main(args, db, tryParse).table != CreateTableIfNotExists(db)
    ensures |args| > 0 && ParseCommand(args[0]) == Add && !IsNullOrWhiteSpace(Argument(args))
    ensures |Main(args, db, tryParse).table.rows| == |CreateTableIfNotExists(db).rows| + 1
  {
  }

  /** `edit` and `done` report an update for any non-zero id, even one that
      names no task, and the table is still unchanged. */
  lemma LemmaUpdateReportedForMissingTask(args: seq<string>, db: Option<Table>, tryParse: string -> Option<int>)
    requires db.Some? ==> Valid(db.value)
    requires tryParse("").None?
    requires |args| > 0 && (ParseCommand(args[0]) == Edit || ParseCommand(args[0]) == Done)
    requires TaskId(args, tryParse) != 0 && TaskId(args, tryParse) !in CreateTableIfNotExists(db).rows
    ensures Success(TaskUpdated(TaskId(args, tryParse))) in Main(args, db, tryParse).events
    ensures GetByID(Main(args, db, tryParse).table, TaskId(args, tryParse)).None?
  {
  }
}
