/**
 * The three tables the store keeps (db.js): `recipes` and `collections`,
 * both with an `INTEGER PRIMARY KEY AUTOINCREMENT` id, and the
 * `recipe_collection` membership table keyed by the pair of ids.
 *
 * A table is its rows in ascending id order (the order a full scan of a
 * rowid table yields) together with the AUTOINCREMENT counter, the largest
 * id the table has ever handed out.
 */
module Schema {
  import opened Wrappers
  import opened Sequences

  /** The largest rowid SQLite can assign: ids are signed 64-bit integers. */
  const MaxRowId: int := 0x7FFF_FFFF_FFFF_FFFF

  datatype Row<T> = Row(id: int, data: T)

  /** The three NOT NULL text columns of a recipe. */
  datatype RecipeFields = RecipeFields(name: string, ingredients: string, instructions: string)

  type Recipe = Row<RecipeFields>

  /** A collection row; its data is the NOT NULL `name` column. */
  type Collection = Row<string>

  /** A row of `recipe_collection`. */
  datatype Membership = Membership(recipeId: int, collectionId: int)

  /** Ids strictly increase along the rows, so no id occurs twice. */
  predicate Ascending<T(==,!new)>(rows: seq<Row<T>>) {
    forall i, j :: 0 <= i < j < |rows| ==> rows[i].id < rows[j].id
  }

  function Ids<T(==,!new)>(rows: seq<Row<T>>): set<int> {
    set r | r in rows :: r.id
  }

  /** The ids of the rows, in row order. */
  function IdSeq<T(==,!new)>(rows: seq<Row<T>>): (s: seq<int>)
    ensures |s| == |rows| && forall i :: 0 <= i < |rows| ==> s[i] == rows[i].id
  {
    seq(|rows|, i requires 0 <= i < |rows| => rows[i].id)
  }

  /**
   * The row with that id, if any: the row `WHERE id = ?` of an `UPDATE` or a
   * `DELETE` matches, and the recipe the join's `ON recipe_collection.recipe_id = recipes.id` finds.
   */
  function Find<T(==,!new)>(rows: seq<Row<T>>, id: int): (r: Option<Row<T>>)
    ensures r.Some? ==> r.value in rows && r.value.id == id
    ensures r.None? <==> id !in Ids(rows)
  {
    if rows == [] then None
    else if rows[0].id == id then Some(rows[0])
    else Find(rows[1..], id)
  }

  /** In a table whose ids are unique, looking a row up by its id finds that very row. */
  lemma FindUnique<T(!new)>(rows: seq<Row<T>>, r: Row<T>)
    requires Ascending(rows) && r in rows
    ensures Find(rows, r.id) == Some(r)
  {
  }

  /** `DELETE ... WHERE id = ?` on the rows. */
  function Without<T(==,!new)>(rows: seq<Row<T>>, id: int): (r: seq<Row<T>>)
    ensures forall x :: x in r <==> x in rows && x.id != id
    ensures Ascending(rows) ==> Ascending(r)
    ensures forall j :: j != id ==> Find(r, j) == Find(rows, j)
  {
    if rows == [] then []
    else if rows[0].id == id then Without(rows[1..], id)
    else
      var rest := Without(rows[1..], id);
      assert Ascending(rows) ==> Ascending([rows[0]] + rest) by {
        if Ascending(rows) {
          AscendingFirst(rows);
        }
      }
      [rows[0]] + rest
  }

  /** The first row of an ascending sequence has the smallest id, and the rest is ascending. */
  lemma AscendingFirst<T(!new)>(rows: seq<Row<T>>)
    requires Ascending(rows) && rows != []
    ensures Ascending(rows[1..]) && forall x :: x in rows[1..] ==> rows[0].id < x.id
  {
  }

  /** `UPDATE ... SET ... WHERE id = ?` on the rows: each row with that id takes the new data. */
  function Replace<T(==,!new)>(rows: seq<Row<T>>, id: int, data: T): (r: seq<Row<T>>)
    ensures |r| == |rows|
    ensures forall i :: 0 <= i < |rows| ==> r[i].id == rows[i].id
    ensures forall i :: 0 <= i < |rows| && rows[i].id != id ==> r[i] == rows[i]
  {
    seq(|rows|, i requires 0 <= i < |rows| => if rows[i].id == id then Row(id, data) else rows[i])
  }

  /** After the update, looking up the updated id gives the new data; every other id reads as before. */
  lemma {:induction false} ReplaceFind<T(!new)>(rows: seq<Row<T>>, id: int, data: T, j: int)
    ensures Find(Replace(rows, id, data), j)
         == if j == id && j in Ids(rows) then Some(Row(id, data)) else Find(rows, j)
  {
    if rows != [] {
      var r := Replace(rows, id, data);
      assert r[1..] == Replace(rows[1..], id, data);
      assert Ids(rows) == {rows[0].id} + Ids(rows[1..]) by {
        assert rows == [rows[0]] + rows[1..];
      }
      ReplaceFind(rows[1..], id, data, j);
    }
  }

  /** The update touches no id: the same ids, at the same positions. */
  lemma ReplaceIds<T(!new)>(rows: seq<Row<T>>, id: int, data: T)
    ensures Ids(Replace(rows, id, data)) == Ids(rows)
    ensures id !in Ids(rows) ==> Replace(rows, id, data) == rows
  {
  }

  /** One table: its rows and its AUTOINCREMENT counter (`sqlite_sequence`). */
  datatype Table<T(==,!new)> = Table(rows: seq<Row<T>>, lastId: int) {

    /** What SQLite maintains: unique ascending ids, every id between 1 and the counter. */
    predicate Valid() {
      && 0 <= lastId <= MaxRowId
      && Ascending(rows)
      && forall i :: 0 <= i < |rows| ==> 1 <= rows[i].id <= lastId
    }

    /**
     * `INSERT`: the new row gets the id one above the counter, which is larger than every
     * id the table ever handed out; when the counter is at the largest rowid, the insert
     * fails (SQLITE_FULL) and there is no new table.
     */
    function Insert(data: T): (r: Option<Table<T>>)
      requires Valid()
      ensures r.None? <==> lastId == MaxRowId
      ensures r.Some? ==> r.value.Valid() && r.value.lastId == lastId + 1
      ensures r.Some? ==> r.value.lastId !in Ids(rows) && forall x :: x in rows ==> x.id < r.value.lastId
      ensures r.Some? ==> r.value.rows == rows + [Row(r.value.lastId, data)]
      ensures r.Some? ==> Find(r.value.rows, r.value.lastId) == Some(Row(r.value.lastId, data))
    {
      if lastId == MaxRowId then None
      else
        var t := Table(rows + [Row(lastId + 1, data)], lastId + 1);
        FindUnique(t.rows, Row(lastId + 1, data));
        Some(t)
    }

    /** `UPDATE`: only the row with that id takes the new data; an unknown id changes nothing. */
    function Update(id: int, data: T): (r: Table<T>)
      requires Valid()
      ensures r.Valid() && r.lastId == lastId && Ids(r.rows) == Ids(rows)
      ensures id !in Ids(rows) ==> r == this
      ensures Find(r.rows, id) == if id in Ids(rows) then Some(Row(id, data)) else None
      ensures forall j :: j != id ==> Find(r.rows, j) == Find(rows, j)
    {
      ReplaceIds(rows, id, data);
      forall j ensures Find(Replace(rows, id, data), j)
                    == if j == id && j in Ids(rows) then Some(Row(id, data)) else Find(rows, j)
      {
        ReplaceFind(rows, id, data, j);
      }
      Table(Replace(rows, id, data), lastId)
    }

    /** `DELETE`: the row with that id goes, the counter stays, an unknown id changes nothing. */
    function Delete(id: int): (r: Table<T>)
      requires Valid()
      ensures r.Valid() && r.lastId == lastId
      ensures Ids(r.rows) == Ids(rows) - {id}
      ensures Find(r.rows, id) == None
      ensures forall j :: j != id ==> Find(r.rows, j) == Find(rows, j)
    {
      Table(Without(rows, id), lastId)
    }
  }

  /** A table as `CREATE TABLE` leaves it: no rows, counter at zero. */
  function EmptyTable<T(==,!new)>(): (t: Table<T>)
    ensures t.Valid() && t.rows == []
  {
    Table([], 0)
  }

  /**
   * `CREATE TABLE IF NOT EXISTS`: an existing table is kept as it is,
   * a missing one is created empty.
   */
  function CreateIfNotExists<X>(existing: Option<X>, empty: X): (t: X)
    ensures existing.Some? ==> t == existing.value
    ensures existing.None? ==> t == empty
  {
    existing.GetOr(empty)
  }

  /** Running the initialisation again over the tables it produced changes none of them. */
  lemma CreateIfNotExistsIdempotent<X>(existing: Option<X>, empty: X)
    ensures CreateIfNotExists(Some(CreateIfNotExists(existing, empty)), empty)
         == CreateIfNotExists(existing, empty)
  {
  }

  /** The statements that change one table. */
  datatype TableOp<T(==,!new)> = InsertOp(data: T) | UpdateOp(id: int, data: T) | DeleteOp(id: int)

  function Step<T(==,!new)>(t: Table<T>, op: TableOp<T>): (r: Table<T>)
    requires t.Valid()
    ensures r.Valid() && t.lastId <= r.lastId
  {
    match op
    case InsertOp(data) => t.Insert(data).GetOr(t)
    case UpdateOp(id, data) => t.Update(id, data)
    case DeleteOp(id) => t.Delete(id)
  }

  /** The table after running the statements in order. */
  function Run<T(==,!new)>(t: Table<T>, ops: seq<TableOp<T>>): (r: Table<T>)
    requires t.Valid()
    ensures r.Valid()
    decreases |ops|
  {
    if ops == [] then t else Run(Step(t, ops[0]), ops[1..])
  }

  /** The ids that the successful inserts among the statements hand out, in order. */
  function Issued<T(==,!new)>(t: Table<T>, ops: seq<TableOp<T>>): (r: seq<int>)
    requires t.Valid()
    ensures |r| <= |ops|
    decreases |ops|
  {
    if ops == [] then []
    else
      var next := Step(t, ops[0]);
      (if ops[0].InsertOp? && t.lastId < MaxRowId then [next.lastId] else []) + Issued(next, ops[1..])
  }

  /**
   * AUTOINCREMENT over any run of inserts, updates and deletes: every id handed
   * out is larger than every id handed out before it, and larger than any id the
   * table held at the start, so ids are never reused, even after deletes.
   */
  lemma {:induction false} IssuedIdsNeverReused<T(!new)>(t: Table<T>, ops: seq<TableOp<T>>)
    requires t.Valid()
    ensures Increasing(Issued(t, ops))
    ensures forall id :: id in Issued(t, ops) ==> t.lastId < id <= Run(t, ops).lastId
    ensures forall id :: id in Issued(t, ops) ==> id !in Ids(t.rows)
    decreases |ops|
  {
    if ops != [] {
      var next := Step(t, ops[0]);
      var rest := Issued(next, ops[1..]);
      var head: seq<int> := if ops[0].InsertOp? && t.lastId < MaxRowId then [next.lastId] else [];
      StepCounter(t, ops[0]);
      IssuedIdsNeverReused(next, ops[1..]);
      RunKeepsCounterAbove(next, ops[1..]);
      assert Issued(t, ops) == head + rest;
      assert Run(t, ops) == Run(next, ops[1..]);
      IncreasingAfter(head, rest, next.lastId);
      forall id | id in Issued(t, ops)
        ensures t.lastId < id <= Run(t, ops).lastId && id !in Ids(t.rows)
      {
        AboveCounterIsNew(t, id);
      }
    }
  }

  /** A statement moves the counter up by one exactly when it is an insert that succeeds. */
  lemma StepCounter<T(!new)>(t: Table<T>, op: TableOp<T>)
    requires t.Valid()
    ensures Step(t, op).lastId == if op.InsertOp? && t.lastId < MaxRowId then t.lastId + 1 else t.lastId
  {
  }

  /** No row of a table has an id above its counter. */
  lemma AboveCounterIsNew<T(!new)>(t: Table<T>, id: int)
    requires t.Valid() && t.lastId < id
    ensures id !in Ids(t.rows)
  {
  }

  /** The counter never goes down. */
  lemma {:induction false} RunKeepsCounterAbove<T(!new)>(t: Table<T>, ops: seq<TableOp<T>>)
    requires t.Valid()
    ensures t.lastId <= Run(t, ops).lastId
    decreases |ops|
  {
    if ops != [] {
      RunKeepsCounterAbove(Step(t, ops[0]), ops[1..]);
    }
  }
}
