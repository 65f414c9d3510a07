/** The single `task` table and the data-access operations over it.

    The table is an immutable value: a map from row id to the stored columns,
    together with the AUTOINCREMENT counter (the table's entry in
    `sqlite_sequence`, i.e. the largest id the table has ever issued).
    Opening connections, binding parameters and the SQL text itself are not
    modelled; each operation is given by its effect on this value. */
module TaskStore {
  /** A value that may be missing: the nullable `TaskItem?` a lookup returns,
      a table that may not exist yet, a parse that may fail. */
  datatype Option<T> = None | Some(value: T)

  /** The in-memory task object. `id == 0` means "never persisted". */
  datatype TaskItem = TaskItem(id: int, title: string, category: string, isCompleted: bool)

  /** The columns of one stored row; `isCompleted` is the INTEGER column. */
  datatype Row = Row(title: string, category: string, isCompleted: int)

  /** The `task` table: rows by id, plus the largest id ever issued. */
  datatype Table = Table(rows: map<int, Row>, lastId: nat)

  /** What holds of every table this program can produce: AUTOINCREMENT ids
      start at 1 and never exceed the largest id issued, and the program only
      ever stores 0 or 1 in `is_completed`. */
  ghost predicate Valid(t: Table) {
    forall id :: id in t.rows ==> 1 <= id <= t.lastId && (t.rows[id].isCompleted == 0 || t.rows[id].isCompleted == 1)
  }

  /** A freshly constructed item: every property at its initialiser. */
  function NewTaskItem(): TaskItem {
    TaskItem(0, "", "", false)
  }

  /** Binding of the boolean flag as the INTEGER parameter `@is_completed`. */
  function EncodeFlag(b: bool): int {
    if b then 1 else 0
  }

  /** Reading the INTEGER column back as a boolean: non-zero is true. */
  function DecodeFlag(v: int): bool {
    v != 0
  }

  /** The flag survives a store-and-load, and only 0 and 1 are ever stored. */
  lemma LemmaFlagRoundTrip(b: bool)
    ensures DecodeFlag(EncodeFlag(b)) == b
    ensures EncodeFlag(b) == 0 || EncodeFlag(b) == 1
  {
  }

  /** The columns an item is written as. */
  function Encode(item: TaskItem): Row {
    Row(item.title, item.category, EncodeFlag(item.isCompleted))
  }

  /** The item a reader builds from row `id`. */
  function Read(id: int, row: Row): TaskItem {
    TaskItem(id, row.title, row.category, DecodeFlag(row.isCompleted))
  }

  /** `CREATE TABLE IF NOT EXISTS`: an absent table is created empty (with no
      id issued yet); an existing table is returned untouched. */
  function CreateTableIfNotExists(db: Option<Table>): (t: Table)
    ensures db.Some? ==> t == db.value
    ensures db.None? ==> |t.rows| == 0 && t.lastId == 0
    ensures db.Some? && Valid(db.value) ==> Valid(t)
    ensures db.None? ==> Valid(t)
  {
    match db
    case Some(existing) => existing
    case None => Table(map[], 0)
  }

  /** Running the schema step a second time changes nothing. */
  lemma LemmaCreateTableIdempotent(db: Option<Table>)
    ensures CreateTableIfNotExists(Some(CreateTableIfNotExists(db))) == CreateTableIfNotExists(db)
  {
  }

  /** `Save`: an item with id 0 is INSERTed under the next AUTOINCREMENT id
      (the id is not written back to the item); any other id UPDATEs the
      three columns of the row with that id, if there is one. */
  function Save(t: Table, item: TaskItem): (t': Table)
    requires Valid(t)
    ensures Valid(t')
    // insert: exactly one new row, under an id above every id ever issued
    ensures item.id == 0 ==> t'.lastId > t.lastId
    ensures item.id == 0 ==> t'.lastId !in t.rows && t'.rows.Keys == t.rows.Keys + {t'.lastId}
    ensures item.id == 0 ==> |t'.rows| == |t.rows| + 1
    ensures item.id == 0 ==> t'.rows[t'.lastId] == Encode(item)
    // update: same ids, same counter, only the row with that id rewritten
    ensures item.id != 0 ==> t'.lastId == t.lastId && t'.rows.Keys == t.rows.Keys
    ensures item.id != 0 && item.id in t.rows ==> t'.rows[item.id] == Encode(item)
    ensures item.id != 0 && item.id !in t.rows ==> t' == t
    // every other row keeps its columns
    ensures forall id :: id in t.rows && id != item.id ==> t'.rows[id] == t.rows[id]
  {
    if item.id == 0 then
      var newId := t.lastId + 1;
      Table(t.rows[newId := Encode(item)], newId)
    else if item.id in t.rows then
      Table(t.rows[item.id := Encode(item)], t.lastId)
    else
      t
  }

  /** Because the inserted id is never copied back into the item, saving the
      same unsaved item twice inserts two distinct rows with equal columns. */
  lemma LemmaSaveTwiceInsertsTwice(t: Table, item: TaskItem)
    requires Valid(t)
    requires item.id == 0
    ensures var t1 := Save(t, item); var t2 := Save(t1, item);
      && |t2.rows| == |t.rows| + 2
      && t1.lastId != t2.lastId
      && t1.lastId in t2.rows && t2.rows[t1.lastId] == t2.rows[t2.lastId] == Encode(item)
  {
  }

  /** `GetByID`: the row with that id, or nothing. */
  function GetByID(t: Table, id: int): (r: Option<TaskItem>)
    ensures r.Some? <==> id in t.rows
    ensures r.Some? ==> r.value.id == id && r.value.title == t.rows[id].title && r.value.category == t.rows[id].category
    ensures r.Some? ==> (r.value.isCompleted <==> t.rows[id].isCompleted != 0)
  {
    if id in t.rows then Some(Read(id, t.rows[id])) else None
  }

  /** Inserting a freshly constructed item with a title and category and
      looking up the new id gives back those fields, not completed. */
  lemma LemmaNewItemRoundTrip(t: Table, title: string, category: string)
    requires Valid(t)
    ensures var t' := Save(t, NewTaskItem().(title := title, category := category));
      GetByID(t', t'.lastId) == Some(TaskItem(t'.lastId, title, category, false))
  {
  }

  /** Updating an existing row and reading it back gives the saved item. */
  lemma LemmaUpdateRoundTrip(t: Table, item: TaskItem)
    requires Valid(t)
    requires item.id != 0 && item.id in t.rows
    ensures GetByID(Save(t, item), item.id) == Some(item)
    ensures |Save(t, item).rows| == |t.rows|
  {
  }

  /** The listing order of `ORDER BY is_completed asc, id`. */
  predicate Precedes(a: TaskItem, b: TaskItem) {
    (!a.isCompleted && b.isCompleted) || (a.isCompleted == b.isCompleted && a.id < b.id)
  }

  /** The ids in `[from, t.lastId]` of rows whose stored flag is `flag`, in
      ascending order. */
  function IdsWithFlag(t: Table, flag: int, from: int): (ids: seq<int>)
    ensures forall i :: 0 <= i < |ids| ==> from <= ids[i] && ids[i] in t.rows && t.rows[ids[i]].isCompleted == flag
    ensures forall i, j :: 0 <= i < j < |ids| ==> ids[i] < ids[j]
    ensures forall id :: from <= id <= t.lastId && id in t.rows && t.rows[id].isCompleted == flag ==> id in ids
    decreases t.lastId + 1 - from
  {
    if from > t.lastId then []
    else if from in t.rows && t.rows[from].isCompleted == flag then [from] + IdsWithFlag(t, flag, from + 1)
    else IdsWithFlag(t, flag, from + 1)
  }

  /** The items read from the rows with the given ids, in that order. */
  function ReadAll(t: Table, ids: seq<int>): (items: seq<TaskItem>)
    requires forall i :: 0 <= i < |ids| ==> ids[i] in t.rows
    ensures |items| == |ids|
    ensures forall i :: 0 <= i < |ids| ==> items[i] == Read(ids[i], t.rows[ids[i]])
  {
    seq(|ids|, i requires 0 <= i < |ids| => Read(ids[i], t.rows[ids[i]]))
  }

  /** A sequence without repeats has as many elements as its set. */
  lemma {:induction false} LemmaDistinctCardinality(s: seq<int>)
    requires forall i, j :: 0 <= i < j < |s| ==> s[i] != s[j]
    ensures |(set x | x in s)| == |s|
  {
    if |s| > 0 {
      LemmaDistinctCardinality(s[1..]);
      assert (set x | x in s) == {s[0]} + (set x | x in s[1..]);
      assert s[0] !in (set x | x in s[1..]);
    }
  }

  /** The ids `GetAll` visits: the incomplete rows, then the completed ones. */
  function ListingIds(t: Table): seq<int> {
    IdsWithFlag(t, 0, 1) + IdsWithFlag(t, 1, 1)
  }

  /** Id `a` is listed before id `b` by `ORDER BY is_completed asc, id`. */
  predicate ListedBefore(t: Table, a: int, b: int)
    requires a in t.rows && b in t.rows
  {
    t.rows[a].isCompleted < t.rows[b].isCompleted
    || (t.rows[a].isCompleted == t.rows[b].isCompleted && a < b)
  }

  /** The visited ids are rows of the table, in listing order. */
  lemma LemmaListingIdsOrdered(t: Table)
    ensures forall i :: 0 <= i < |ListingIds(t)| ==> ListingIds(t)[i] in t.rows
    ensures forall i, j :: 0 <= i < j < |ListingIds(t)| ==> ListedBefore(t, ListingIds(t)[i], ListingIds(t)[j])
  {
  }

  /** Every row of a valid table is visited, and only once. */
  lemma LemmaListingIdsComplete(t: Table)
    requires Valid(t)
    ensures forall id :: id in t.rows ==> id in ListingIds(t)
    ensures |ListingIds(t)| == |t.rows|
  {
    var open, done := IdsWithFlag(t, 0, 1), IdsWithFlag(t, 1, 1);
    var ids := open + done;
    forall id | id in t.rows
      ensures id in ids
    {
      if t.rows[id].isCompleted == 0 {
        assert id in open;
      } else {
        assert id in done;
      }
    }
    LemmaListingIdsOrdered(t);
    forall i, j | 0 <= i < j < |ids|
      ensures ids[i] != ids[j]
    {
      assert ListedBefore(t, ids[i], ids[j]);
    }
    LemmaDistinctCardinality(ids);
    assert (set x | x in ids) == t.rows.Keys;
  }

  /** Reading ids given in listing order yields items in listing order. */
  lemma LemmaReadAllOrdered(t: Table, ids: seq<int>)
    requires Valid(t)
    requires forall i :: 0 <= i < |ids| ==> ids[i] in t.rows
    requires forall i, j :: 0 <= i < j < |ids| ==> ListedBefore(t, ids[i], ids[j])
    ensures forall i, j :: 0 <= i < j < |ids| ==> Precedes(ReadAll(t, ids)[i], ReadAll(t, ids)[j])
  {
  }

  /** Reading every id of the table yields an item for every row. */
  lemma LemmaReadAllCovers(t: Table, ids: seq<int>)
    requires forall i :: 0 <= i < |ids| ==> ids[i] in t.rows
    requires forall id :: id in t.rows ==> id in ids
    ensures forall id :: id in t.rows ==> exists i :: 0 <= i < |ids| && ReadAll(t, ids)[i].id == id
  {
    forall id | id in t.rows
      ensures exists i :: 0 <= i < |ids| && ReadAll(t, ids)[i].id == id
    {
      var i :| 0 <= i < |ids| && ids[i] == id;
      assert ReadAll(t, ids)[i].id == id;
    }
  }

  /** `GetAll`: every row exactly once, incomplete before completed, ids
      ascending within each group. */
  function GetAll(t: Table): (r: seq<TaskItem>)
    requires Valid(t)
    ensures |r| == |t.rows|
    ensures forall i :: 0 <= i < |r| ==> r[i].id in t.rows && r[i] == Read(r[i].id, t.rows[r[i].id])
    ensures forall id :: id in t.rows ==> exists i :: 0 <= i < |r| && r[i].id == id
    ensures forall i, j :: 0 <= i < j < |r| ==> Precedes(r[i], r[j])
  {
    var ids := ListingIds(t);
    LemmaListingIdsOrdered(t);
    LemmaListingIdsComplete(t);
    LemmaReadAllOrdered(t, ids);
    LemmaReadAllCovers(t, ids);
    ReadAll(t, ids)
  }

  /** A lookup by id finds exactly the items the listing shows with that id. */
  lemma LemmaGetByIDAgreesWithGetAll(t: Table, id: int, x: TaskItem)
    requires Valid(t)
    ensures GetByID(t, id) == Some(x) <==> x in GetAll(t) && x.id == id
  {
  }
}
