/**
 * `GET /api/collections` (server.js): the LEFT JOIN of collections with
 * their memberships and recipes, and the loop that folds its rows into one
 * object per collection, each with a nested list of recipes.
 */
module Listing {
  import opened Wrappers
  import opened Sequences
  import opened Schema
  import opened JsObject

  /**
   * One row of the join: the collection's id and name, and the recipe columns,
   * which are all NULL when the collection has no membership or the membership
   * names a recipe that no longer exists.
   */
  datatype JoinRow = JoinRow(collectionId: int, collectionName: string, recipe: Option<Recipe>)

  /** `{ id, name, recipes }` as the endpoint returns it. */
  datatype CollectionView = CollectionView(id: int, name: string, recipes: seq<Recipe>)

  /** `if (row.recipe_id)`: the recipe id is present and truthy, that is, not 0. */
  predicate AddsRecipe(row: JoinRow) {
    row.recipe.Some? && row.recipe.value.id != 0
  }

  predicate HasCollection(rows: seq<JoinRow>, k: int) {
    exists i :: 0 <= i < |rows| && rows[i].collectionId == k
  }

  /** The distinct collection ids of the rows, in the order they first appear. */
  function KeysInOrder(rows: seq<JoinRow>): (r: seq<int>)
    ensures Distinct(r)
    ensures forall k :: k in r <==> HasCollection(rows, k)
  {
    if rows == [] then []
    else
      var prefix := rows[..|rows| - 1];
      var k := rows[|rows| - 1].collectionId;
      var p := KeysInOrder(prefix);
      assert forall i :: 0 <= i < |prefix| ==> prefix[i] == rows[i];
      assert forall j :: HasCollection(rows, j) <==> HasCollection(prefix, j) || j == k by {
        forall j | HasCollection(rows, j) ensures HasCollection(prefix, j) || j == k {
          var i :| 0 <= i < |rows| && rows[i].collectionId == j;
          if i < |prefix| {
            assert prefix[i].collectionId == j;
          }
        }
      }
      if k in p then p
      else
        DistinctConcat(p, [k]);
        p + [k]
  }

  /**
   * The recipes the loop pushes onto collection `k`: one per row of `k` whose
   * recipe id is truthy, in row order; rows with NULL recipe columns add none.
   */
  function RecipesOf(rows: seq<JoinRow>, k: int): (r: seq<Recipe>)
    ensures |r| <= |rows|
    ensures forall x :: x in r ==> exists i :: 0 <= i < |rows| && rows[i].collectionId == k && rows[i].recipe == Some(x)
  {
    if rows == [] then []
    else
      var prefix := rows[..|rows| - 1];
      var last := rows[|rows| - 1];
      assert forall i :: 0 <= i < |prefix| ==> prefix[i] == rows[i];
      RecipesOf(prefix, k) + (if last.collectionId == k && AddsRecipe(last) then [last.recipe.value] else [])
  }

  /** Rows without a truthy recipe id add nothing: if every row of `k` is one, `k` gets no recipes. */
  lemma {:induction false} RecipesOfNone(rows: seq<JoinRow>, k: int)
    requires forall i :: 0 <= i < |rows| && rows[i].collectionId == k ==> !AddsRecipe(rows[i])
    ensures RecipesOf(rows, k) == []
  {
    if rows != [] {
      var prefix := rows[..|rows| - 1];
      assert forall i :: 0 <= i < |prefix| ==> prefix[i] == rows[i];
      RecipesOfNone(prefix, k);
    }
  }

  /** The collection name the loop records for `k`: the one on the first row of `k`. */
  function NameOf(rows: seq<JoinRow>, k: int): string {
    if rows == [] then ""
    else
      var prefix := rows[..|rows| - 1];
      if k in KeysInOrder(prefix) then NameOf(prefix, k)
      else if rows[|rows| - 1].collectionId == k then rows[|rows| - 1].collectionName
      else ""
  }

  /** The name recorded for a collection is taken from the first row that carries its id. */
  lemma {:induction false} NameIsFirst(rows: seq<JoinRow>, k: int, i: int)
    requires 0 <= i < |rows| && rows[i].collectionId == k
    requires forall j :: 0 <= j < i ==> rows[j].collectionId != k
    ensures NameOf(rows, k) == rows[i].collectionName
  {
    var prefix := rows[..|rows| - 1];
    assert forall j :: 0 <= j < |prefix| ==> prefix[j] == rows[j];
    if i == |rows| - 1 {
      assert !HasCollection(prefix, k);
    } else {
      assert HasCollection(prefix, k);
      NameIsFirst(prefix, k, i);
    }
  }

  /** The object the loop builds for collection `k` once it has seen the rows. */
  function ViewOf(rows: seq<JoinRow>, k: int): CollectionView {
    CollectionView(k, NameOf(rows, k), RecipesOf(rows, k))
  }

  function ViewIds(views: seq<CollectionView>): (ids: seq<int>)
    ensures |ids| == |views| && forall i :: 0 <= i < |views| ==> ids[i] == views[i].id
  {
    seq(|views|, i requires 0 <= i < |views| => views[i].id)
  }

  /**
   * What the endpoint returns for the rows: one object per distinct collection
   * id and no other, each as the loop builds it, listed in the order
   * `Object.values` enumerates the dictionary.
   */
  function Grouped(rows: seq<JoinRow>): (views: seq<CollectionView>)
    ensures |views| == |KeysInOrder(rows)| && ViewIds(views) == PropertyOrder(KeysInOrder(rows))
    ensures Distinct(ViewIds(views))
    ensures forall k :: k in ViewIds(views) <==> HasCollection(rows, k)
    ensures forall i :: 0 <= i < |views| ==> views[i] == ViewOf(rows, views[i].id)
  {
    var order := PropertyOrder(KeysInOrder(rows));
    var views := seq(|order|, i requires 0 <= i < |order| => ViewOf(rows, order[i]));
    assert ViewIds(views) == order;
    views
  }

  /**
   * A collection whose rows all have NULL recipe columns (the LEFT JOIN found no
   * membership) is still listed, with an empty recipe list.
   */
  lemma EmptyCollectionListed(rows: seq<JoinRow>, k: int)
    requires HasCollection(rows, k)
    requires forall i :: 0 <= i < |rows| && rows[i].collectionId == k ==> !AddsRecipe(rows[i])
    ensures exists i :: 0 <= i < |Grouped(rows)| && Grouped(rows)[i].id == k && Grouped(rows)[i].recipes == []
  {
    RecipesOfNone(rows, k);
    var views := Grouped(rows);
    assert k in ViewIds(views);
    var i :| 0 <= i < |views| && ViewIds(views)[i] == k;
    assert views[i] == ViewOf(rows, k);
  }

  /** When every collection id is an array index, the listing is in ascending id order. */
  lemma GroupedInIdOrder(rows: seq<JoinRow>)
    requires forall i :: 0 <= i < |rows| ==> IsArrayIndex(rows[i].collectionId)
    ensures Increasing(ViewIds(Grouped(rows)))
  {
    var keys := KeysInOrder(rows);
    forall k | k in keys ensures IsArrayIndex(k) {
      var i :| 0 <= i < |rows| && rows[i].collectionId == k;
    }
    PropertyOrderOfIndices(keys);
  }

  /** One more row adds its collection id to the keys if it is new. */
  lemma KeysAfterRow(prev: seq<JoinRow>, row: JoinRow)
    ensures KeysInOrder(prev + [row])
         == if row.collectionId in KeysInOrder(prev) then KeysInOrder(prev) else KeysInOrder(prev) + [row.collectionId]
  {
  }

  /** What one more row does to the object the loop keeps for collection `k`. */
  lemma ViewAfterRow(prev: seq<JoinRow>, row: JoinRow, k: int)
    ensures NameOf(prev + [row], k)
         == if k in KeysInOrder(prev) then NameOf(prev, k) else if row.collectionId == k then row.collectionName else ""
    ensures RecipesOf(prev + [row], k)
         == RecipesOf(prev, k) + if row.collectionId == k && AddsRecipe(row) then [row.recipe.value] else []
    ensures k !in KeysInOrder(prev) ==> RecipesOf(prev, k) == []
  {
  }

  /** The loop's invariant: the dictionary holds, for each collection seen so far, the object built from the rows seen. */
  predicate Accumulated(collections: Object<CollectionView>, seen: seq<JoinRow>) {
    && collections.Valid()
    && collections.keyOrder == KeysInOrder(seen)
    && forall k :: k in collections.entries ==> collections.entries[k] == ViewOf(seen, k)
  }

  /** The loop body of server.js, in two steps: create the entry if it is new, then push the recipe if any. */
  lemma AccumulateRow(before: Object<CollectionView>, prev: seq<JoinRow>, row: JoinRow,
                      created: Object<CollectionView>, after: Object<CollectionView>)
    requires Accumulated(before, prev)
    requires created == if row.collectionId in before.entries then before
                        else before.Set(row.collectionId, CollectionView(row.collectionId, row.collectionName, []))
    requires created.Valid() && row.collectionId in created.entries
    requires after == if !AddsRecipe(row) then created
                      else
                        var entry := created.entries[row.collectionId];
                        created.Set(row.collectionId, entry.(recipes := entry.recipes + [row.recipe.value]))
    ensures Accumulated(after, prev + [row])
  {
    KeysAfterRow(prev, row);
    forall k | k in after.entries ensures after.entries[k] == ViewOf(prev + [row], k) {
      ViewAfterRow(prev, row, k);
    }
  }

  /** The loop of server.js that fills the `collections` dictionary row by row, then `Object.values`. */
  method GroupRows(rows: seq<JoinRow>) returns (views: seq<CollectionView>)
    ensures views == Grouped(rows)
  {
    var collections := EmptyObject<CollectionView>();
    var i := 0;
    while i < |rows|
      invariant 0 <= i <= |rows|
      invariant Accumulated(collections, rows[..i])
    {
      var row := rows[i];
      ghost var before := collections;
      if row.collectionId !in collections.entries {
        collections := collections.Set(row.collectionId, CollectionView(row.collectionId, row.collectionName, []));
      }
      ghost var created := collections;
      if AddsRecipe(row) {
        var entry := collections.entries[row.collectionId];
        collections := collections.Set(row.collectionId, entry.(recipes := entry.recipes + [row.recipe.value]));
      }
      AccumulateRow(before, rows[..i], row, created, collections);
      assert rows[..i + 1] == rows[..i] + [row];
      i := i + 1;
    }
    assert rows[..|rows|] == rows;
    views := collections.Values();
    ValuesAreGrouped(collections, rows);
  }

  /** Once every row is in, `Object.values` of the dictionary is the grouped listing. */
  lemma ValuesAreGrouped(collections: Object<CollectionView>, rows: seq<JoinRow>)
    requires collections.Valid() && collections.keyOrder == KeysInOrder(rows)
    requires forall k :: k in collections.entries ==> collections.entries[k] == ViewOf(rows, k)
    ensures collections.Values() == Grouped(rows)
  {
  }

  // ----- The LEFT JOIN over the store's tables -----

  /** The `recipe_collection` rows of collection `cid`, in the order they are given. */
  function MembersOf(members: seq<Membership>, cid: int): (r: seq<Membership>)
    ensures forall m :: m in r <==> m in members && m.collectionId == cid
  {
    if members == [] then []
    else
      var prefix := members[..|members| - 1];
      var last := members[|members| - 1];
      assert members == prefix + [last];
      MembersOf(prefix, cid) + if last.collectionId == cid then [last] else []
  }

  /** The recipes that memberships still lead to, in the order of the memberships, skipping deleted recipes. */
  function Resolve(mine: seq<Membership>, recipes: seq<Recipe>): (r: seq<Recipe>)
    ensures forall x :: x in r ==> x in recipes && exists m :: m in mine && m.recipeId == x.id
  {
    if mine == [] then []
    else
      var prefix := mine[..|mine| - 1];
      var last := mine[|mine| - 1];
      assert forall m :: m in prefix ==> m in mine;
      Resolve(prefix, recipes) + match Find(recipes, last.recipeId) case Some(x) => [x] case None => []
  }

  /**
   * The recipes of collection `cid` as the listing should show them: those its
   * memberships name and that still exist, in the order the memberships are read.
   */
  function LiveRecipes(members: seq<Membership>, recipes: seq<Recipe>, cid: int): (r: seq<Recipe>)
    ensures forall x :: x in r ==> x in recipes && Membership(x.id, cid) in members
  {
    var mine := MembersOf(members, cid);
    var r := Resolve(mine, recipes);
    assert forall x :: x in r ==> Membership(x.id, cid) in members by {
      forall x | x in r ensures Membership(x.id, cid) in members {
        var m :| m in mine && m.recipeId == x.id;
        assert m == Membership(x.id, cid);
      }
    }
    r
  }

  /** A collection whose one membership names an existing recipe lists exactly that recipe. */
  lemma LiveRecipesOfOne(x: Recipe, cid: int)
    ensures LiveRecipes([Membership(x.id, cid)], [x], cid) == [x]
  {
    assert MembersOf([], cid) == [];
    assert Resolve([], [x]) == [];
  }

  /** `Resolve` adds `x` once for each membership of `cid` that names it, and for no other. */
  lemma {:induction false} ResolveCount(mine: seq<Membership>, recipes: seq<Recipe>, cid: int, x: Recipe)
    requires Ascending(recipes) && x in recipes
    requires forall m :: m in mine ==> m.collectionId == cid
    ensures multiset(Resolve(mine, recipes))[x] == multiset(mine)[Membership(x.id, cid)]
  {
    if mine != [] {
      var prefix := mine[..|mine| - 1];
      var last := mine[|mine| - 1];
      assert mine == prefix + [last];
      ResolveCount(prefix, recipes, cid, x);
      FindUnique(recipes, x);
    }
  }

  /** Filtering by collection keeps every membership of that collection as often as it occurs. */
  lemma {:induction false} MembersOfCount(members: seq<Membership>, cid: int, m: Membership)
    requires m.collectionId == cid
    ensures multiset(MembersOf(members, cid))[m] == multiset(members)[m]
  {
    if members != [] {
      var prefix := members[..|members| - 1];
      assert members == prefix + [members[|members| - 1]];
      MembersOfCount(prefix, cid, m);
    }
  }

  /**
   * How often a recipe appears in a collection's listing: once for each membership
   * linking the two while the recipe exists, and not at all once it is deleted.
   */
  lemma LiveRecipesCount(members: seq<Membership>, recipes: seq<Recipe>, cid: int, x: Recipe)
    requires Ascending(recipes)
    ensures multiset(LiveRecipes(members, recipes, cid))[x]
         == if x in recipes then multiset(members)[Membership(x.id, cid)] else 0
  {
    if x in recipes {
      ResolveCount(MembersOf(members, cid), recipes, cid, x);
      MembersOfCount(members, cid, Membership(x.id, cid));
    }
  }

  /** A recipe is listed under a collection exactly when it exists and a membership links the two. */
  lemma LiveRecipesComplete(members: seq<Membership>, recipes: seq<Recipe>, cid: int, x: Recipe)
    requires Ascending(recipes)
    ensures x in LiveRecipes(members, recipes, cid) <==> x in recipes && Membership(x.id, cid) in members
  {
    LiveRecipesCount(members, recipes, cid, x);
  }

  /** Under the composite primary key, each linked existing recipe is listed exactly once. */
  lemma LiveRecipesOnce(members: seq<Membership>, recipes: seq<Recipe>, cid: int, x: Recipe)
    requires Ascending(recipes) && Distinct(members)
    ensures multiset(LiveRecipes(members, recipes, cid))[x]
         == if x in recipes && Membership(x.id, cid) in members then 1 else 0
  {
    LiveRecipesCount(members, recipes, cid, x);
    DistinctCount(members, Membership(x.id, cid));
  }

  /** The order memberships are read in changes the order of a listing, never its contents. */
  lemma LiveRecipesAnyOrder(members: seq<Membership>, order: seq<Membership>, recipes: seq<Recipe>, cid: int)
    requires Ascending(recipes) && multiset(order) == multiset(members)
    ensures multiset(LiveRecipes(order, recipes, cid)) == multiset(LiveRecipes(members, recipes, cid))
  {
    forall x: Recipe
      ensures multiset(LiveRecipes(order, recipes, cid))[x] == multiset(LiveRecipes(members, recipes, cid))[x]
    {
      LiveRecipesCount(order, recipes, cid, x);
      LiveRecipesCount(members, recipes, cid, x);
    }
  }

  /** Join rows for the given memberships of collection `c`. */
  function MemberRows(c: Collection, mine: seq<Membership>, recipes: seq<Recipe>): (r: seq<JoinRow>)
    ensures |r| == |mine|
    ensures forall row :: row in r ==> row.collectionId == c.id && row.collectionName == c.data
  {
    if mine == [] then []
    else
      var last := mine[|mine| - 1];
      MemberRows(c, mine[..|mine| - 1], recipes) + [JoinRow(c.id, c.data, Find(recipes, last.recipeId))]
  }

  /** The join rows of one collection: one per membership, or one with NULL recipe columns when it has none. */
  function JoinBlock(c: Collection, members: seq<Membership>, recipes: seq<Recipe>): (r: seq<JoinRow>)
    ensures |r| > 0
    ensures forall row :: row in r ==> row.collectionId == c.id && row.collectionName == c.data
  {
    var mine := MembersOf(members, c.id);
    if mine == [] then [JoinRow(c.id, c.data, None)] else MemberRows(c, mine, recipes)
  }

  /**
   * `collections LEFT JOIN recipe_collection LEFT JOIN recipes`, with collections
   * scanned in id order and each collection's memberships in the order of
   * `members`, which stands for whatever order the database reads them in.
   */
  function JoinRows(cs: seq<Collection>, members: seq<Membership>, recipes: seq<Recipe>): (r: seq<JoinRow>)
    ensures |r| >= |cs|
  {
    if cs == [] then []
    else JoinRows(cs[..|cs| - 1], members, recipes) + JoinBlock(cs[|cs| - 1], members, recipes)
  }

  /** Rows appended one collection at a time: the loop's view of each collection splits along the parts. */
  lemma {:induction false} RecipesOfAppend(a: seq<JoinRow>, b: seq<JoinRow>, k: int)
    ensures RecipesOf(a + b, k) == RecipesOf(a, k) + RecipesOf(b, k)
  {
    if b != [] {
      var b' := b[..|b| - 1];
      assert (a + b)[..|a + b| - 1] == a + b';
      RecipesOfAppend(a, b', k);
    } else {
      assert a + b == a;
    }
  }

  lemma {:induction false} RecipesOfAbsent(b: seq<JoinRow>, k: int)
    requires forall row :: row in b ==> row.collectionId != k
    ensures RecipesOf(b, k) == []
  {
    if b != [] {
      var b' := b[..|b| - 1];
      assert forall row :: row in b' ==> row in b;
      assert b[|b| - 1] in b;
      RecipesOfAbsent(b', k);
    }
  }

  /** Appending rows that all belong to one new collection adds exactly that collection's key. */
  lemma {:induction false} KeysOfBlock(a: seq<JoinRow>, b: seq<JoinRow>, k: int)
    requires |b| > 0 && forall row :: row in b ==> row.collectionId == k
    requires k !in KeysInOrder(a)
    ensures KeysInOrder(a + b) == KeysInOrder(a) + [k]
  {
    var b' := b[..|b| - 1];
    assert (a + b)[..|a + b| - 1] == a + b';
    assert b[|b| - 1] in b;
    if b' == [] {
      assert a + b' == a;
    } else {
      assert forall row :: row in b' ==> row in b;
      KeysOfBlock(a, b', k);
    }
  }

  /** The name recorded for a collection whose rows come after all rows of other collections. */
  lemma NameOfAfter(a: seq<JoinRow>, b: seq<JoinRow>, k: int, name: string)
    requires |b| > 0 && forall row :: row in b ==> row.collectionId == k && row.collectionName == name
    requires k !in KeysInOrder(a)
    ensures NameOf(a + b, k) == name
  {
    var rows := a + b;
    assert rows[|a|] == b[0] && b[0] in b;
    forall j | 0 <= j < |a| ensures rows[j].collectionId != k {
      assert rows[j] == a[j];
    }
    NameIsFirst(rows, k, |a|);
  }

  /** The name recorded for a collection already seen is not changed by later rows. */
  lemma {:induction false} NameOfBefore(a: seq<JoinRow>, b: seq<JoinRow>, k: int)
    requires k in KeysInOrder(a)
    ensures NameOf(a + b, k) == NameOf(a, k)
  {
    if b != [] {
      var b' := b[..|b| - 1];
      assert (a + b)[..|a + b| - 1] == a + b';
      NameOfBefore(a, b', k);
      assert HasCollection(a, k);
      var i :| 0 <= i < |a| && a[i].collectionId == k;
      assert (a + b')[i] == a[i];
      assert HasCollection(a + b', k);
    } else {
      assert a + b == a;
    }
  }

  /** A collection's member rows yield, through the loop, the recipes its memberships still lead to. */
  lemma {:induction false} RecipesOfMemberRows(c: Collection, mine: seq<Membership>, recipes: seq<Recipe>)
    requires forall x :: x in recipes ==> x.id != 0
    ensures RecipesOf(MemberRows(c, mine, recipes), c.id) == Resolve(mine, recipes)
  {
    if mine != [] {
      var prefix := mine[..|mine| - 1];
      var rows := MemberRows(c, mine, recipes);
      assert rows[..|rows| - 1] == MemberRows(c, prefix, recipes);
      RecipesOfMemberRows(c, prefix, recipes);
    }
  }

  lemma RecipesOfBlock(c: Collection, members: seq<Membership>, recipes: seq<Recipe>)
    requires forall x :: x in recipes ==> x.id != 0
    ensures RecipesOf(JoinBlock(c, members, recipes), c.id) == LiveRecipes(members, recipes, c.id)
  {
    var mine := MembersOf(members, c.id);
    if mine == [] {
      assert RecipesOf([JoinRow(c.id, c.data, None)], c.id) == [];
    } else {
      RecipesOfMemberRows(c, mine, recipes);
    }
  }

  /** In ascending rows, the last id is new to the rows before it, which are ascending too. */
  lemma LastIdIsNew(cs: seq<Collection>)
    requires Ascending(cs) && |cs| > 0
    ensures Ascending(cs[..|cs| - 1]) && cs[|cs| - 1].id !in IdSeq(cs[..|cs| - 1])
    ensures IdSeq(cs) == IdSeq(cs[..|cs| - 1]) + [cs[|cs| - 1].id]
  {
  }

  /** The join lists each collection once, in id order. */
  lemma {:induction false} JoinKeys(cs: seq<Collection>, members: seq<Membership>, recipes: seq<Recipe>)
    requires Ascending(cs)
    ensures KeysInOrder(JoinRows(cs, members, recipes)) == IdSeq(cs)
  {
    if cs != [] {
      var prefix := cs[..|cs| - 1];
      var c := cs[|cs| - 1];
      LastIdIsNew(cs);
      JoinKeys(prefix, members, recipes);
      KeysOfBlock(JoinRows(prefix, members, recipes), JoinBlock(c, members, recipes), c.id);
    }
  }

  /** A collection id that no row carries collects no recipes. */
  lemma RecipesOfUnseen(rows: seq<JoinRow>, k: int)
    requires k !in KeysInOrder(rows)
    ensures RecipesOf(rows, k) == []
  {
  }

  /** The last collection's recipes come from its own block of join rows alone. */
  lemma JoinRecipesLast(cs: seq<Collection>, members: seq<Membership>, recipes: seq<Recipe>)
    requires Ascending(cs) && |cs| > 0
    requires forall x :: x in recipes ==> x.id != 0
    ensures RecipesOf(JoinRows(cs, members, recipes), cs[|cs| - 1].id)
         == LiveRecipes(members, recipes, cs[|cs| - 1].id)
  {
    var prefix := cs[..|cs| - 1];
    var c := cs[|cs| - 1];
    var head := JoinRows(prefix, members, recipes);
    assert JoinRows(cs, members, recipes) == head + JoinBlock(c, members, recipes);
    RecipesOfAppend(head, JoinBlock(c, members, recipes), c.id);
    LastIdIsNew(cs);
    JoinKeys(prefix, members, recipes);
    RecipesOfUnseen(head, c.id);
    RecipesOfBlock(c, members, recipes);
  }

  /** Through the join and the loop, each collection gets exactly its live recipes. */
  lemma {:induction false} JoinRecipes(cs: seq<Collection>, members: seq<Membership>, recipes: seq<Recipe>, i: int)
    requires Ascending(cs) && 0 <= i < |cs|
    requires forall x :: x in recipes ==> x.id != 0
    ensures RecipesOf(JoinRows(cs, members, recipes), cs[i].id) == LiveRecipes(members, recipes, cs[i].id)
  {
    if i == |cs| - 1 {
      JoinRecipesLast(cs, members, recipes);
    } else {
      var prefix := cs[..|cs| - 1];
      var c := cs[|cs| - 1];
      var block := JoinBlock(c, members, recipes);
      RecipesOfAppend(JoinRows(prefix, members, recipes), block, cs[i].id);
      assert prefix[i] == cs[i] && c.id != cs[i].id;
      JoinRecipes(prefix, members, recipes, i);
      RecipesOfAbsent(block, cs[i].id);
    }
  }

  /** Through the join and the loop, each collection keeps its own name. */
  lemma {:induction false} JoinNames(cs: seq<Collection>, members: seq<Membership>, recipes: seq<Recipe>, i: int)
    requires Ascending(cs) && 0 <= i < |cs|
    ensures NameOf(JoinRows(cs, members, recipes), cs[i].id) == cs[i].data
  {
    var prefix := cs[..|cs| - 1];
    var c := cs[|cs| - 1];
    var head := JoinRows(prefix, members, recipes);
    var block := JoinBlock(c, members, recipes);
    assert JoinRows(cs, members, recipes) == head + block;
    LastIdIsNew(cs);
    JoinKeys(prefix, members, recipes);
    if i == |cs| - 1 {
      NameOfAfter(head, block, c.id, c.data);
    } else {
      assert prefix[i] == cs[i];
      JoinNames(prefix, members, recipes, i);
      assert cs[i].id in IdSeq(prefix);
      NameOfBefore(head, block, cs[i].id);
    }
  }

  /**
   * `GET /api/collections` over a store whose tables are valid: one object per
   * collection, in id order, with the collection's own name and the recipes its
   * memberships still lead to, in the order the memberships are read. A
   * collection without live memberships, orphaned or none, has an empty recipe
   * list; memberships of a deleted collection appear nowhere.
   */
  lemma GroupedJoin(cs: seq<Collection>, members: seq<Membership>, recipes: seq<Recipe>)
    requires Ascending(cs) && forall c :: c in cs ==> 1 <= c.id
    requires forall x :: x in recipes ==> x.id != 0
    ensures |Grouped(JoinRows(cs, members, recipes))| == |cs|
    ensures forall i :: 0 <= i < |cs| ==>
      Grouped(JoinRows(cs, members, recipes))[i]
        == CollectionView(cs[i].id, cs[i].data, LiveRecipes(members, recipes, cs[i].id))
  {
    var rows := JoinRows(cs, members, recipes);
    var keys := KeysInOrder(rows);
    JoinKeys(cs, members, recipes);
    assert forall k :: k in keys ==> 0 <= k by {
      forall k | k in keys ensures 0 <= k {
        var j :| 0 <= j < |cs| && IdSeq(cs)[j] == k;
        assert cs[j] in cs;
      }
    }
    PropertyOrderOfAscending(keys);
    var views := Grouped(rows);
    forall i | 0 <= i < |cs|
      ensures views[i] == CollectionView(cs[i].id, cs[i].data, LiveRecipes(members, recipes, cs[i].id))
    {
      JoinNames(cs, members, recipes, i);
      JoinRecipes(cs, members, recipes, i);
    }
  }
}
