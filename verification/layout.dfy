/** The arithmetic of the task listing: column padding, the widest title and
    the rows the listing is made of. Colours, screen clearing and the act of
    writing lines are not modelled; a listing is the sequence of its lines. */
module Layout {
  import opened TaskStore

  /** Width of the id column before padding. */
  const IdColumnWidth: nat := 5

  /** Spaces added after the widest title. */
  const TitleGap: nat := 5

  /** `String.PadRight(width)`: spaces appended up to `width`; a string
      already that long is returned unchanged. */
  function PadRight(s: string, width: nat): (r: string)
    ensures |r| == if |s| < width then width else |s|
    ensures r[..|s|] == s
    ensures forall k :: |s| <= k < |r| ==> r[k] == ' '
  {
    if |s| < width then s + seq(width - |s|, _ => ' ') else s
  }

  /** The larger of a column's content width and its padding width. */
  function ColumnWidth(content: string, width: nat): nat {
    if |content| < width then width else |content|
  }

  /** `line` shows `idText` padded to the id column, then `title` padded to
      `titleWidth` characters, then `category`: each field can be read back
      at its column offset. */
  ghost predicate LaidOut(line: string, idText: string, title: string, category: string, titleWidth: nat) {
    var idW := ColumnWidth(idText, IdColumnWidth);
    && |title| <= titleWidth
    && |line| == idW + titleWidth + |category|
    && line[..|idText|] == idText
    && (forall c :: |idText| <= c < idW ==> line[c] == ' ')
    && line[idW..idW + |title|] == title
    && (forall c :: idW + |title| <= c < idW + titleWidth ==> line[c] == ' ')
    && line[idW + titleWidth..] == category
  }

  /** `PrintRow`: id padded to 5, title padded to `paddingCount`, then the
      category; a title longer than the padding widens its own column. */
  function FormatRow(idText: string, title: string, category: string, paddingCount: nat): (r: string)
    ensures LaidOut(r, idText, title, category, ColumnWidth(title, paddingCount))
  {
    var a, b := PadRight(idText, IdColumnWidth), PadRight(title, paddingCount);
    var r := a + b + category;
    assert r[..|idText|] == a[..|idText|];
    assert r[|a|..|a| + |title|] == b[..|title|];
    assert r[|a| + |b|..] == category;
    r
  }

  /** `GetMaxTitleLength`: 0 for no items, otherwise the length of the
      longest title. */
  function GetMaxTitleLength(items: seq<TaskItem>): (m: nat)
    ensures |items| == 0 ==> m == 0
    ensures forall i :: 0 <= i < |items| ==> |items[i].title| <= m
    ensures |items| > 0 ==> exists i :: 0 <= i < |items| && m == |items[i].title|
  {
    if |items| == 0 then 0
    else
      var m := GetMaxTitleLength(items[..|items| - 1]);
      var len := |items[|items| - 1].title|;
      if len > m then len else m
  }

  /** The decimal digits of a natural number, most significant first. */
  function NatToDecimal(n: nat): (s: string)
    ensures |s| >= 1
    ensures n < 10 <==> |s| == 1
    ensures n > 0 ==> s[0] != '0'
    ensures forall k :: 0 <= k < |s| ==> '0' <= s[k] <= '9'
  {
    if n < 10 then [('0' as int + n) as char]
    else NatToDecimal(n / 10) + [('0' as int + n % 10) as char]
  }

  /** The number a string of decimal digits denotes. */
  function DecimalValue(s: string): nat
    requires forall k :: 0 <= k < |s| ==> '0' <= s[k] <= '9'
  {
    if |s| == 0 then 0 else DecimalValue(s[..|s| - 1]) * 10 + (s[|s| - 1] as int - '0' as int)
  }

  /** Reading the printed digits back gives the number printed. */
  lemma {:induction false} LemmaDecimalRoundTrip(n: nat)
    ensures DecimalValue(NatToDecimal(n)) == n
  {
    if n >= 10 {
      LemmaDecimalRoundTrip(n / 10);
      var s := NatToDecimal(n);
      assert s[..|s| - 1] == NatToDecimal(n / 10);
    }
  }

  /** `int.ToString()`: a minus sign for a negative number, then the decimal
      digits without leading zeros, which read back as the number. */
  function IdText(id: int): (s: string)
    ensures |s| >= 1
    ensures id >= 0 ==> (forall k :: 0 <= k < |s| ==> '0' <= s[k] <= '9') && DecimalValue(s) == id
    ensures id < 0 ==> s[0] == '-' && |s| >= 2 && (forall k :: 1 <= k < |s| ==> '0' <= s[k] <= '9') && DecimalValue(s[1..]) == -id
    ensures id != 0 ==> s[if id < 0 then 1 else 0] != '0'
    ensures id >= 0 ==> (id < 10 <==> |s| == 1)
  {
    if id < 0 then
      var digits := NatToDecimal(-id);
      LemmaDecimalRoundTrip(-id);
      assert ("-" + digits)[1..] == digits;
      "-" + digits
    else
      LemmaDecimalRoundTrip(id);
      NatToDecimal(id)
  }

  /** Different ids print differently. */
  lemma LemmaIdTextInjective(a: int, b: int)
    ensures IdText(a) == IdText(b) ==> a == b
  {
  }

  /** What `ShowAllTasks` prints: "0 tasks." alone, or a two-line header and
      one row per task, all laid out with the same title padding. */
  datatype Listing = NoTasks | Grid(paddingCount: nat, lines: seq<string>)

  /** The listing rows of `tasks`, in order. */
  function TaskRows(tasks: seq<TaskItem>, paddingCount: nat): (rows: seq<string>)
    requires forall k :: 0 <= k < |tasks| ==> |tasks[k].title| <= paddingCount
    ensures |rows| == |tasks|
    ensures forall k :: 0 <= k < |tasks| ==>
      LaidOut(rows[k], IdText(tasks[k].id), tasks[k].title, tasks[k].category, paddingCount)
  {
    seq(|tasks|, k requires 0 <= k < |tasks| =>
      FormatRow(IdText(tasks[k].id), tasks[k].title, tasks[k].category, paddingCount))
  }

  /** The body of `ShowAllTasks` once the tasks are read: "0 tasks." for no
      tasks, otherwise the header and one line per task in order, every title
      column exactly `paddingCount` wide, five more than the longest title. */
  function RenderListing(tasks: seq<TaskItem>): (l: Listing)
    ensures l.NoTasks? <==> |tasks| == 0
    ensures l.Grid? ==> |l.lines| == |tasks| + 2
    ensures l.Grid? ==> forall k :: 0 <= k < |tasks| ==> |tasks[k].title| + TitleGap <= l.paddingCount
    ensures l.Grid? ==> exists k :: 0 <= k < |tasks| && |tasks[k].title| + TitleGap == l.paddingCount
    ensures l.Grid? ==>
      && LaidOut(l.lines[0], "ID", "Title", "Category", l.paddingCount)
      && LaidOut(l.lines[1], "--", "-----", "--------", l.paddingCount)
    ensures l.Grid? ==> forall k :: 0 <= k < |tasks| ==>
      LaidOut(l.lines[k + 2], IdText(tasks[k].id), tasks[k].title, tasks[k].category, l.paddingCount)
  {
    if |tasks| == 0 then NoTasks
    else
      var paddingCount := GetMaxTitleLength(tasks) + TitleGap;
      var rows := TaskRows(tasks, paddingCount);
      var header := FormatRow("ID", "Title", "Category", paddingCount);
      var rule := FormatRow("--", "-----", "--------", paddingCount);
      assert ColumnWidth("Title", paddingCount) == paddingCount;
      assert ColumnWidth("-----", paddingCount) == paddingCount;
      var lines := [header, rule] + rows;
      assert lines[0] == header && lines[1] == rule;
      assert forall k :: 0 <= k < |tasks| ==> lines[k + 2] == rows[k];
      Grid(paddingCount, lines)
  }

  /** `ShowAllTasks`: the listing of the current table, one line per task in
      `GetAll` order, every title column five wider than the longest title. */
  function ShowAllTasks(t: Table): (l: Listing)
    requires Valid(t)
    ensures l.NoTasks? <==> |t.rows| == 0
    ensures l.Grid? ==> |l.lines| == |t.rows| + 2
    ensures l.Grid? ==> var tasks := GetAll(t);
      && (forall k :: 0 <= k < |tasks| ==> |tasks[k].title| + TitleGap <= l.paddingCount)
      && (exists k :: 0 <= k < |tasks| && |tasks[k].title| + TitleGap == l.paddingCount)
    ensures l.Grid? ==>
      && LaidOut(l.lines[0], "ID", "Title", "Category", l.paddingCount)
      && LaidOut(l.lines[1], "--", "-----", "--------", l.paddingCount)
    ensures l.Grid? ==> var tasks := GetAll(t);
      forall k :: 0 <= k < |tasks| ==>
        LaidOut(l.lines[k + 2], IdText(tasks[k].id), tasks[k].title, tasks[k].category, l.paddingCount)
  {
    RenderListing(GetAll(t))
  }
}
