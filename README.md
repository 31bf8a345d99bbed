# Recipe store: a Dafny model

The application is a small recipe manager. An Express server (`server.js`) offers a JSON API over an SQLite file (`db.js`) with three tables:

- `recipes`: an `INTEGER PRIMARY KEY AUTOINCREMENT` id, plus NOT NULL `name`, `ingredients` and `instructions`;
- `collections`: an AUTOINCREMENT id, plus a NOT NULL `name`;
- `recipe_collection`: pairs `(recipe_id, collection_id)` with that pair as primary key. The pairs carry foreign keys, but SQLite never enforces them here.

The model has six modules:

- **`Schema`** (`schema.dfy`) holds the tables.
  - A table is its rows in ascending id order, plus the AUTOINCREMENT counter (`sqlite_sequence`).
  - `INSERT`, `UPDATE ... WHERE id = ?` and `DELETE ... WHERE id = ?` are functions on a table.
  - `CREATE TABLE IF NOT EXISTS` keeps an existing table.
  - A lemma shows that, over any run of statements, AUTOINCREMENT never hands out an id twice, even after deletes.
- **`Api`** (`api.dfy`) is the store.
  - `Store` is a class whose fields are the three tables. Its constructor runs the three `CREATE TABLE IF NOT EXISTS` statements.
  - It has one method per route. Each method checks the request body, changes the tables in place and answers with a status and a message.
  - Contracts give the status of every outcome, the new contents of every table, and what stays the same.
- **`JsObject`** (`js_object.dfy`) models the plain JavaScript object `{}` keyed by collection ids, as used by `GET /api/collections`.
  - It covers the order in which `Object.values` enumerates entries: array-index keys (0 to 2^32 - 2) in ascending order, then the other keys in insertion order.
- **`Listing`** (`listing.dfy`) models the listing of collections.
  - `GroupRows` is the `forEach` loop that folds the LEFT JOIN rows into one object per collection. It is proved to compute `Grouped`, which describes the result without a loop.
  - `JoinRows` describes the rows the join returns. `GroupedJoin` proves that listing yields, for each collection in id order, its name and the recipes its memberships still lead to.
  - The order in which the database reads each collection's memberships is a parameter. The listing follows that order, and `LiveRecipesAnyOrder` shows that the recipes each collection holds do not depend on it.
- **`Sequences`** and **`Wrappers`** are small shared helpers: ordering and uniqueness of sequences, and `Option`.

Error paths are modelled, not excluded:

- A missing or empty body field gives 400 and writes nothing.
- An insert when the AUTOINCREMENT counter is already at the largest rowid (2^63 - 1) fails, which gives 500.
- A name that matches no row gives 500.
- A duplicate membership pair gives 500.

Update and delete of an unknown id answer 200 and change nothing (`server.js:68-73`, `server.js:82-87`): the handlers answer 500 only when the statement itself fails.

Names are not unique. `db.get` can return any one of several rows with the same name, and the handler accepts whichever row it gets (`server.js:120-128`). So the model's lookup is "some row with that name" (`:|`).

## Model

| member | source | states |
|---|---|---|
| Schema.Find | server.js:67 | the row found by `WHERE id = ?` is in the table and has that id; there is none exactly when no row has the id |
| Schema.FindUnique | db.js:18 | in a table with unique ascending ids, looking a row up by its id returns that very row |
| Schema.Without | server.js:81 | after `DELETE ... WHERE id = ?`, the rows are exactly the old rows with another id; order is kept and lookups of other ids are unchanged |
| Schema.Replace | server.js:67 | `UPDATE ... WHERE id = ?` keeps the row count and every row's id, and leaves rows with other ids untouched |
| Schema.ReplaceFind | server.js:67-68 | after the update, the updated id reads the new data if it existed; every other id reads as before |
| Schema.ReplaceIds | server.js:67-68 | the update changes no ids; with an unknown id it changes nothing |
| Schema.Table.Insert | db.js:18 | a successful insert appends exactly one row, whose id is counter + 1, larger than every existing id and not in use; the insert fails exactly when the counter is at 2^63 - 1 |
| Schema.Table.Update | server.js:67-68 | validity, counter and id set are kept; only the row with that id takes the new data; an unknown id leaves the table equal to before |
| Schema.Table.Delete | server.js:81-82 | validity and counter are kept; the id set loses exactly that id; no other lookup changes |
| Schema.EmptyTable | db.js:16-23 | a newly created table is valid and has no rows |
| Schema.CreateIfNotExists | db.js:17 | an existing table is kept unchanged; a missing one is created empty |
| Schema.CreateIfNotExistsIdempotent | db.js:33 | running table creation again over the tables it produced changes nothing |
| Schema.Step | db.js:18 | any insert, update or delete keeps the table valid and never lowers the counter |
| Schema.StepCounter | db.js:34 | a statement raises the counter by one exactly when it is an insert that succeeds |
| Schema.AboveCounterIsNew | db.js:34 | no row has an id above the counter |
| Schema.RunKeepsCounterAbove | db.js:18 | over any run of statements the counter never goes down |
| Schema.Run | db.js:18 | any run of inserts, updates and deletes leaves the table valid |
| Schema.Issued | db.js:18 | the ids that the successful inserts of a run hand out, at most one per statement |
| Schema.IssuedIdsNeverReused | db.js:18 | over any run of statements, the ids handed out strictly increase, lie above the starting counter and at or below the final one, and never equal an id the table already held, so ids are not reused after deletes |
| JsObject.IndexKeys | server.js:190 | only array-index keys, all taken from the given keys |
| JsObject.OtherKeys | server.js:190 | only non-index keys, all taken from the given keys |
| JsObject.SplitKeys | server.js:190 | the two kinds of key together hold every key exactly once, and keep keys distinct |
| JsObject.InsertAscending | server.js:190 | inserting a new key into ascending keys keeps them ascending and adds exactly that key |
| JsObject.SortAscending | server.js:190 | distinct keys come out ascending and as a permutation of the input |
| JsObject.PropertyOrder | server.js:190 | the enumeration order is a permutation of the keys, without repeats |
| JsObject.PropertyOrderOfAscending | server.js:190 | keys added in ascending order, none negative, are enumerated in that same order, whatever their size |
| JsObject.PropertyOrderOfIndices | server.js:190 | when every key is an array index, enumeration is in ascending numeric order |
| JsObject.SplitIndicesFirst | server.js:190 | when no array index follows a non-index key, the index keys and then the other keys make up the original sequence |
| JsObject.Object.Set | server.js:173 | `obj[k] = v` stores the value; a new key is appended to the insertion order, and an existing key keeps its place |
| JsObject.Object.Values | server.js:190 | `Object.values` gives every entry once, in enumeration order |
| JsObject.EmptyObject | server.js:170 | `{}` is a valid object with no entries |
| Listing.AddsRecipe | server.js:179 | `if (row.recipe_id)`: a row adds a recipe only when its recipe columns are not NULL and its id is not 0 |
| Listing.KeysInOrder | server.js:172-178 | the distinct collection ids of the rows, without repeats, with exactly the ids that occur |
| Listing.RecipesOf | server.js:179-186 | every recipe pushed for a collection comes from one of its rows |
| Listing.RecipesOfNone | server.js:179 | rows without a truthy recipe id push nothing |
| Listing.NameOf | server.js:172-177 | the name the dictionary records for a collection id: the name of the first row that carries the id |
| Listing.NameIsFirst | server.js:172-177 | a collection's name is taken from the first row that carries its id |
| Listing.Grouped | server.js:170-191 | exactly one object per distinct collection id, without repeats, in `Object.values` order, each with the first row's name and its recipes |
| Listing.GroupedInIdOrder | server.js:190 | with array-index collection ids, the listing is in ascending id order |
| Listing.EmptyCollectionListed | server.js:172-179 | a collection whose join rows carry NULL recipe columns is still listed, with `recipes: []` |
| Listing.KeysAfterRow | server.js:172-178 | one more row adds its collection id at the end when it is new, and otherwise adds nothing |
| Listing.ViewAfterRow | server.js:171-187 | one more row keeps the first-seen name and appends at most its own recipe |
| Listing.AccumulateRow | server.js:171-187 | one iteration of the loop keeps the dictionary equal to the grouping of the rows seen so far |
| Listing.GroupRows | server.js:170-191 | the loop followed by `Object.values` returns exactly `Grouped(rows)` |
| Listing.ValuesAreGrouped | server.js:190 | once the dictionary holds every collection's object, `Object.values` yields the grouping |
| Listing.MembersOf | server.js:161 | the membership rows joined to a collection are exactly those that carry its id |
| Listing.Resolve | server.js:162 | the second LEFT JOIN yields only existing recipes that some membership names |
| Listing.ResolveCount | server.js:162 | the second LEFT JOIN yields an existing recipe once for each membership that names it, and for no other |
| Listing.MembersOfCount | server.js:161 | the first LEFT JOIN keeps each membership of the collection as often as it occurs |
| Listing.LiveRecipes | server.js:158-163 | every recipe listed for a collection exists, and has a membership row in that collection |
| Listing.LiveRecipesCount | server.js:158-163 | a recipe is listed under a collection once per membership linking the two while it exists, and never once it is deleted |
| Listing.LiveRecipesComplete | server.js:158-163 | a recipe is listed under a collection exactly when it exists and a membership links the two |
| Listing.LiveRecipesOnce | db.js:52 | with the pair as primary key, each linked existing recipe is listed exactly once |
| Listing.LiveRecipesAnyOrder | server.js:158-163 | the order the memberships are read in changes a listing's order, never its contents as a multiset |
| Listing.LiveRecipesOfOne | server.js:158-163 | one membership naming an existing recipe lists exactly that recipe |
| Listing.MemberRows | server.js:161-162 | one join row per membership, carrying the collection's id and name |
| Listing.JoinBlock | server.js:160-161 | each collection yields at least one join row, even with no memberships, and every such row carries its id and name |
| Listing.JoinRows | server.js:158-163 | the join has at least as many rows as there are collections |
| Listing.RecipesOfAppend | server.js:179-186 | the recipes a collection collects over two runs of rows are those of the first run followed by those of the second, so row order is kept |
| Listing.RecipesOfAbsent | server.js:179-186 | rows of other collections add no recipe |
| Listing.KeysOfBlock | server.js:172-178 | a block of rows for a new collection adds exactly that id at the end |
| Listing.NameOfAfter | server.js:172-177 | a new collection's name comes from its own block |
| Listing.NameOfBefore | server.js:172-177 | later rows do not change a recorded name |
| Listing.RecipesOfMemberRows | server.js:179-186 | a collection's join rows contribute exactly the recipes its memberships resolve to |
| Listing.RecipesOfBlock | server.js:179-186 | a collection's block contributes exactly its live recipes |
| Listing.RecipesOfUnseen | server.js:179-186 | a collection not yet seen has no recipes |
| Listing.LastIdIsNew | db.js:34 | in ascending collections, the last id is new and ends the id sequence |
| Listing.JoinKeys | server.js:158-163 | the join yields every collection id, each once and in table order, so every collection has at least one row |
| Listing.JoinRecipesLast | server.js:158-186 | the last collection collects exactly its live recipes |
| Listing.JoinRecipes | server.js:158-186 | every collection collects exactly its live recipes, in the order its memberships are read |
| Listing.JoinNames | server.js:158-177 | every collection is listed under its own name |
| Listing.GroupedJoin | server.js:157-193 | the listing has one object per collection, in id order, with the collection's name and exactly the recipes its memberships still lead to; dangling memberships add nothing and a collection with none has `recipes: []` |
| Api.Present | server.js:32 | a body field passes `!field` when it is given and is not the empty string |
| Api.Complete | server.js:32 | the create check, repeated for update at `server.js:63`, passes exactly when all three fields are present |
| Api.NamedCollection | server.js:117-122 | `SELECT id FROM collections WHERE name = ?` finds a row: some collection has the name |
| Api.NamedRecipe | server.js:118-127 | `SELECT id FROM recipes WHERE name = ?` finds a row: some recipe has the name |
| Api.FieldsOf | server.js:30-32 | a body that passes the presence check yields three non-empty columns |
| Api.StatusOf | server.js:33 | 400 exactly for missing fields, 201 exactly for successful creation, 200 exactly for update and delete, 500 for every failure |
| Api.Store.Valid | db.js:16-55 | the store's invariant: both tables have unique ascending ids within their counters, and no membership pair occurs twice |
| Api.Store.FieldsNonEmpty | db.js:19-35 | no stored recipe field and no collection name is empty |
| Api.Store.Open | db.js:16-60 | the store is valid, and each table is the existing one or a new empty one |
| Api.Store.CreateRecipe | server.js:29-44 | a missing or empty field gives 400 and no change; a full counter gives 500 and no change; otherwise 201 with the new id, which was never used, and exactly one row appended; the other tables are untouched |
| Api.Store.ListRecipes | server.js:47-56 | 200 with every recipe row, in ascending id order |
| Api.Store.UpdateRecipe | server.js:59-75 | a missing field gives 400 and no change; otherwise 200, only the row with that id takes the three new values, and an unknown id changes nothing |
| Api.Store.DeleteRecipe | server.js:78-89 | 200 whether or not the id existed; only that row goes; memberships are untouched, so deletes do not cascade |
| Api.Store.CreateCollection | server.js:92-107 | a missing name gives 400 and no change; a full counter gives 500 and no change; otherwise 201 with a fresh id and exactly one row appended |
| Api.Store.AddRecipeToCollection | server.js:110-140 | 400 exactly when a name is missing; the collection is looked up first, then the recipe, and each miss gives 500; a pair already present gives 500; on success 201 with exactly the pair (recipe id, collection id) of rows with those names appended; every failure leaves the memberships unchanged |
| Api.Store.DeleteCollection | server.js:143-154 | 200 whether or not the id existed; only that row goes; orphaned memberships stay |
| Api.Store.ListCollections | server.js:157-193 | 200 with one object per collection in id order, with its name and the recipes its memberships still lead to, in the order the database reads them; whatever that order, each existing recipe linked to the collection appears exactly once and nothing else appears |
| Api.OneCollectionOneRecipe | server.js:92-107 | on a new store, creating a collection and a recipe gives each id 1 |
| Api.OneRecipeInOneCollection | server.js:110-140 | adding that recipe to that collection by name writes exactly the membership (1, 1) |
| Api.ListOneRecipeInOneCollection | server.js:157-193 | the listing is then exactly one collection with its name, holding exactly that recipe with all its fields |

## Left out

- Opening the database file and its failure, logging, and `console` output are not modelled. So are the Express set-up, CORS, body parsing, static files and `listen` (`server.js:1-26`, `server.js:196-198`).
- Store errors other than a full AUTOINCREMENT counter are not modelled. Such errors are I/O failures, a locked database or a lost disk. So `GET /api/recipes` and `GET /api/collections` always answer 200, and update and delete always answer 200 once their checks pass. The 500 answers the code gives on those errors are not modelled.
- SQL text is not parsed. Each statement is modelled by what it does to the tables.
- Request handling is modelled as atomic and sequential. Interleaving of concurrent requests between the callbacks of one request is not modelled.
- Path ids are integers. A non-numeric `:id` segment matches no row, which the model treats like an unknown id.
- Messages are tags, not their exact strings.
- JavaScript truthiness is modelled only for what the handlers test. A body field counts as present when it is a non-empty string. A recipe id counts as present when it is non-NULL and non-zero.
- SQLite does not fix the row order of the LEFT JOIN. `Listing.JoinRows` scans collections by id and takes each collection's memberships in the order of the sequence it is given. `Api.Store.ListCollections` receives that order as a parameter, any permutation of the membership table. The grouping lemmas about `Grouped` hold for any row order.
- `script.js` (the browser client) is not part of this model.
- Listing.JoinRows: the join is stated for collections scanned in id order only. With another scan order, `Object.values` would still sort ids up to 2^32 - 2 (`JsObject.PropertyOrder`), but `GroupedJoin` would not apply.
- Api.Store.ListRecipes: returns the rows in id order, the order a full table scan produces in practice; SQL does not promise that order.
- Api.Store.CreateRecipe: treats ids as exact integers. JavaScript numbers hold integers exactly only up to 2^53, and the id answered from `this.lastID` (`server.js:42`) passes through them. Above 2^53 the answered id can differ from the stored one.
- Api.Store.CreateCollection: treats ids as exact integers. JavaScript numbers hold integers exactly only up to 2^53, and the id answered from `this.lastID` (`server.js:105`) passes through them. Above 2^53 the answered id can differ from the stored one.
- Api.Store.AddRecipeToCollection: treats ids as exact integers. JavaScript numbers hold integers exactly only up to 2^53, and the pair `recipe.id`, `collection.id` read back and inserted (`server.js:131`) passes through them. Above 2^53 a rounded id can name another row.
- Api.Store.ListCollections: treats ids as exact integers. JavaScript numbers hold integers exactly only up to 2^53, and the dictionary keys `row.collection_id` (`server.js:172-174`) pass through them. Above 2^53 two collections whose ids round to the same number are listed as one object, under the first one's name.
- Listing.GroupedJoin: treats ids as exact integers. JavaScript numbers hold integers exactly only up to 2^53, and the dictionary keys `row.collection_id` (`server.js:172-174`) pass through them. Above 2^53 two collections whose ids round to the same number are listed as one object, under the first one's name.
