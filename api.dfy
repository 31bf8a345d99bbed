/**
 * The API layer of server.js: one method per route on the store that db.js
 * opens. Each handler checks the request body for the fields it needs,
 * changes the tables, and answers with a status code and a message.
 */
module Api {
  import opened Wrappers
  import opened Sequences
  import opened Schema
  import opened Listing

  /** A body field counts as given when it is present and not the empty string. */
  predicate Present(field: Option<string>) {
    field.Some? && field.value != ""
  }

  /** `{ name, ingredients, instructions }` of a create or update request. */
  datatype RecipeBody = RecipeBody(name: Option<string>, ingredients: Option<string>, instructions: Option<string>)

  predicate Complete(body: RecipeBody) {
    Present(body.name) && Present(body.ingredients) && Present(body.instructions)
  }

  function FieldsOf(body: RecipeBody): (f: RecipeFields)
    requires Complete(body)
    ensures f.name != "" && f.ingredients != "" && f.instructions != ""
  {
    RecipeFields(body.name.value, body.ingredients.value, body.instructions.value)
  }

  /** The messages the handlers answer with. */
  datatype Message =
    | AllFieldsRequired | NameRequired | NamesRequired
    | RecipeAdded | RecipeUpdated | RecipeDeleted
    | CollectionCreated | CollectionDeleted | RecipeAddedToCollection
    | ErrorAddingRecipe | ErrorCreatingCollection
    | CollectionNotFound | RecipeNotFound | ErrorAddingRecipeToCollection

  /** The HTTP status each message goes out with. */
  function StatusOf(m: Message): (status: int)
    ensures status in {200, 201, 400, 500}
    ensures status == 400 <==> m in {AllFieldsRequired, NameRequired, NamesRequired}
    ensures status == 201 <==> m in {RecipeAdded, CollectionCreated, RecipeAddedToCollection}
    ensures status == 200 <==> m in {RecipeUpdated, RecipeDeleted, CollectionDeleted}
  {
    match m
    case AllFieldsRequired | NameRequired | NamesRequired => 400
    case RecipeAdded | CollectionCreated | RecipeAddedToCollection => 201
    case RecipeUpdated | RecipeDeleted | CollectionDeleted => 200
    case ErrorAddingRecipe | ErrorCreatingCollection | CollectionNotFound | RecipeNotFound
      | ErrorAddingRecipeToCollection => 500
  }

  /** A response: its message, and the new row's id where the route returns one. */
  datatype Response = Response(message: Message, id: Option<int>) {
    function Status(): int {
      StatusOf(message)
    }
  }

  /** Some collection has this name (`SELECT id FROM collections WHERE name = ?` finds a row). */
  predicate NamedCollection(cs: seq<Collection>, name: string) {
    exists c :: c in cs && c.data == name
  }

  /** Some recipe has this name (`SELECT id FROM recipes WHERE name = ?` finds a row). */
  predicate NamedRecipe(rs: seq<Recipe>, name: string) {
    exists r :: r in rs && r.data.name == name
  }

  /** The store: the three tables, owned by one object for the life of the process. */
  class Store {
    var recipes: Table<RecipeFields>
    var collections: Table<string>
    var members: seq<Membership>

    /** What SQLite maintains: valid tables, and at most one membership row per pair. */
    ghost predicate Valid()
      reads this
    {
      recipes.Valid() && collections.Valid() && Distinct(members)
    }

    /** What the handlers' presence checks maintain: no stored required field is empty. */
    ghost predicate FieldsNonEmpty()
      reads this
    {
      && (forall r :: r in recipes.rows ==> r.data.name != "" && r.data.ingredients != "" && r.data.instructions != "")
      && (forall c :: c in collections.rows ==> c.data != "")
    }

    /**
     * db.js: open the store and run the three `CREATE TABLE IF NOT EXISTS`
     * statements in turn; a table already on disk is kept with its contents.
     */
    constructor Open(onDiskRecipes: Option<Table<RecipeFields>>, onDiskCollections: Option<Table<string>>,
                     onDiskMembers: Option<seq<Membership>>)
      requires onDiskRecipes.Some? ==> onDiskRecipes.value.Valid()
      requires onDiskCollections.Some? ==> onDiskCollections.value.Valid()
      requires onDiskMembers.Some? ==> Distinct(onDiskMembers.value)
      ensures Valid()
      ensures recipes == CreateIfNotExists(onDiskRecipes, EmptyTable())
      ensures collections == CreateIfNotExists(onDiskCollections, EmptyTable())
      ensures members == CreateIfNotExists(onDiskMembers, [])
    {
      recipes := CreateIfNotExists(onDiskRecipes, EmptyTable());
      collections := CreateIfNotExists(onDiskCollections, EmptyTable());
      members := CreateIfNotExists(onDiskMembers, []);
    }

    /** `POST /api/recipes` */
    method CreateRecipe(body: RecipeBody) returns (resp: Response)
      requires Valid()
      modifies this
      ensures Valid()
      ensures collections == old(collections) && members == old(members)
      ensures !Complete(body) ==> resp == Response(AllFieldsRequired, None) && recipes == old(recipes)
      ensures Complete(body) && old(recipes.lastId) == MaxRowId ==>
                resp == Response(ErrorAddingRecipe, None) && recipes == old(recipes)
      ensures Complete(body) && old(recipes.lastId) < MaxRowId ==>
                var id := old(recipes.lastId) + 1;
                && resp == Response(RecipeAdded, Some(id))
                && id !in Ids(old(recipes.rows))
                && recipes.rows == old(recipes.rows) + [Row(id, FieldsOf(body))]
                && recipes.lastId == id
      ensures resp.Status() != 201 ==> recipes == old(recipes)
      ensures old(FieldsNonEmpty()) ==> FieldsNonEmpty()
    {
      if !Complete(body) {
        return Response(AllFieldsRequired, None);
      }
      match recipes.Insert(FieldsOf(body)) {
        case None =>
          resp := Response(ErrorAddingRecipe, None);
        case Some(table) =>
          recipes := table;
          resp := Response(RecipeAdded, Some(table.lastId));
      }
    }

    /** `GET /api/recipes`: every recipe row, in id order. */
    method ListRecipes() returns (status: int, list: seq<Recipe>)
      requires Valid()
      ensures status == 200
      ensures list == recipes.rows && Ascending(list)
    {
      status, list := 200, recipes.rows;
    }

    /** `PUT /api/recipes/:id` */
    method UpdateRecipe(id: int, body: RecipeBody) returns (resp: Response)
      requires Valid()
      modifies this
      ensures Valid()
      ensures collections == old(collections) && members == old(members)
      ensures !Complete(body) ==> resp == Response(AllFieldsRequired, None) && recipes == old(recipes)
      ensures Complete(body) ==> resp == Response(RecipeUpdated, None)
      ensures Complete(body) ==> recipes == old(recipes).Update(id, FieldsOf(body))
      ensures Complete(body) ==>
                Find(recipes.rows, id) == if id in Ids(old(recipes.rows)) then Some(Row(id, FieldsOf(body))) else None
      ensures forall j :: j != id ==> Find(recipes.rows, j) == Find(old(recipes.rows), j)
      ensures id !in Ids(old(recipes.rows)) ==> recipes == old(recipes)
      ensures old(FieldsNonEmpty()) ==> FieldsNonEmpty()
    {
      if !Complete(body) {
        return Response(AllFieldsRequired, None);
      }
      recipes := recipes.Update(id, FieldsOf(body));
      resp := Response(RecipeUpdated, None);
    }

    /** `DELETE /api/recipes/:id`: memberships naming the recipe stay behind. */
    method DeleteRecipe(id: int) returns (resp: Response)
      requires Valid()
      modifies this
      ensures Valid()
      ensures resp == Response(RecipeDeleted, None)
      ensures recipes == old(recipes).Delete(id)
      ensures Find(recipes.rows, id) == None && Ids(recipes.rows) == Ids(old(recipes.rows)) - {id}
      ensures forall j :: j != id ==> Find(recipes.rows, j) == Find(old(recipes.rows), j)
      ensures collections == old(collections) && members == old(members)
      ensures old(FieldsNonEmpty()) ==> FieldsNonEmpty()
    {
      recipes := recipes.Delete(id);
      resp := Response(RecipeDeleted, None);
    }

    /** `POST /api/collections` */
    method CreateCollection(name: Option<string>) returns (resp: Response)
      requires Valid()
      modifies this
      ensures Valid()
      ensures recipes == old(recipes) && members == old(members)
      ensures !Present(name) ==> resp == Response(NameRequired, None) && collections == old(collections)
      ensures Present(name) && old(collections.lastId) == MaxRowId ==>
                resp == Response(ErrorCreatingCollection, None) && collections == old(collections)
      ensures Present(name) && old(collections.lastId) < MaxRowId ==>
                var id := old(collections.lastId) + 1;
                && resp == Response(CollectionCreated, Some(id))
                && id !in Ids(old(collections.rows))
                && collections.rows == old(collections.rows) + [Row(id, name.value)]
                && collections.lastId == id
      ensures resp.Status() != 201 ==> collections == old(collections)
      ensures old(FieldsNonEmpty()) ==> FieldsNonEmpty()
    {
      if !Present(name) {
        return Response(NameRequired, None);
      }
      match collections.Insert(name.value) {
        case None =>
          resp := Response(ErrorCreatingCollection, None);
        case Some(table) =>
          collections := table;
          resp := Response(CollectionCreated, Some(table.lastId));
      }
    }

    /**
     * `POST /api/collections/add-recipe`: look the collection up by name, then the
     * recipe, then insert the pair. Where several rows share a name, the lookup
     * may return any one of them.
     */
    method AddRecipeToCollection(collectionName: Option<string>, recipeName: Option<string>)
      returns (resp: Response)
      requires Valid()
      modifies this
      ensures Valid()
      ensures recipes == old(recipes) && collections == old(collections)
      ensures resp.id == None
      ensures resp.message == NamesRequired <==> !Present(collectionName) || !Present(recipeName)
      ensures resp.message == CollectionNotFound <==>
                Present(collectionName) && Present(recipeName) && !NamedCollection(collections.rows, collectionName.value)
      ensures resp.message == RecipeNotFound <==>
                && Present(collectionName) && Present(recipeName)
                && NamedCollection(collections.rows, collectionName.value)
                && !NamedRecipe(recipes.rows, recipeName.value)
      ensures resp.message in {NamesRequired, CollectionNotFound, RecipeNotFound,
                               ErrorAddingRecipeToCollection, RecipeAddedToCollection}
      ensures resp.Status() != 201 ==> members == old(members)
      ensures resp.message == RecipeAddedToCollection ==>
                exists c, r :: c in collections.rows && c.data == collectionName.value
                            && r in recipes.rows && r.data.name == recipeName.value
                            && Membership(r.id, c.id) !in old(members)
                            && members == old(members) + [Membership(r.id, c.id)]
      ensures resp.message == ErrorAddingRecipeToCollection ==>
                exists c, r :: c in collections.rows && c.data == collectionName.value
                            && r in recipes.rows && r.data.name == recipeName.value
                            && Membership(r.id, c.id) in old(members)
      ensures old(FieldsNonEmpty()) ==> FieldsNonEmpty()
    {
      if !Present(collectionName) || !Present(recipeName) {
        return Response(NamesRequired, None);
      }
      if !NamedCollection(collections.rows, collectionName.value) {
        return Response(CollectionNotFound, None);
      }
      var collection :| collection in collections.rows && collection.data == collectionName.value;
      if !NamedRecipe(recipes.rows, recipeName.value) {
        return Response(RecipeNotFound, None);
      }
      var recipe :| recipe in recipes.rows && recipe.data.name == recipeName.value;
      var pair := Membership(recipe.id, collection.id);
      if pair in members {
        // the composite primary key rejects the insert
        return Response(ErrorAddingRecipeToCollection, None);
      }
      DistinctConcat(members, [pair]);
      members := members + [pair];
      resp := Response(RecipeAddedToCollection, None);
    }

    /** `DELETE /api/collections/:id`: memberships of the collection stay behind. */
    method DeleteCollection(id: int) returns (resp: Response)
      requires Valid()
      modifies this
      ensures Valid()
      ensures resp == Response(CollectionDeleted, None)
      ensures collections == old(collections).Delete(id)
      ensures Find(collections.rows, id) == None && Ids(collections.rows) == Ids(old(collections.rows)) - {id}
      ensures forall j :: j != id ==> Find(collections.rows, j) == Find(old(collections.rows), j)
      ensures recipes == old(recipes) && members == old(members)
      ensures old(FieldsNonEmpty()) ==> FieldsNonEmpty()
    {
      collections := collections.Delete(id);
      resp := Response(CollectionDeleted, None);
    }

    /**
     * `GET /api/collections`: one object per collection in id order, with its name
     * and the recipes its memberships still lead to. The database reads each
     * collection's memberships in an order of its own choosing, `readOrder`: the
     * listing follows it, and what each collection holds does not depend on it —
     * every existing recipe linked to the collection exactly once, nothing else.
     */
    method ListCollections(readOrder: seq<Membership>) returns (status: int, views: seq<CollectionView>)
      requires Valid()
      requires multiset(readOrder) == multiset(members)
      ensures status == 200
      ensures |views| == |collections.rows|
      ensures forall i :: 0 <= i < |views| ==>
                views[i] == CollectionView(collections.rows[i].id, collections.rows[i].data,
                                           LiveRecipes(readOrder, recipes.rows, collections.rows[i].id))
      ensures forall i, x :: 0 <= i < |views| && x in recipes.rows ==>
                multiset(views[i].recipes)[x] == if Membership(x.id, views[i].id) in members then 1 else 0
      ensures forall i, x :: 0 <= i < |views| && x in views[i].recipes ==> x in recipes.rows
    {
      var rows := JoinRows(collections.rows, readOrder, recipes.rows);
      views := GroupRows(rows);
      assert forall c :: c in collections.rows ==> 1 <= c.id;
      assert forall x :: x in recipes.rows ==> x.id != 0;
      GroupedJoin(collections.rows, readOrder, recipes.rows);
      forall i, x | 0 <= i < |views| && x in recipes.rows
        ensures multiset(views[i].recipes)[x] == if Membership(x.id, views[i].id) in members then 1 else 0
      {
        LiveRecipesCount(readOrder, recipes.rows, views[i].id, x);
        DistinctCount(members, Membership(x.id, views[i].id));
      }
      status := 200;
    }
  }

  /** On a fresh store: create a collection (say "Desserts") and a recipe (say "Cake"); both get id 1. */
  method OneCollectionOneRecipe(collectionName: string, recipe: RecipeFields) returns (store: Store)
    requires collectionName != "" && recipe.name != "" && recipe.ingredients != "" && recipe.instructions != ""
    ensures fresh(store) && store.Valid()
    ensures store.collections.rows == [Row(1, collectionName)]
    ensures store.recipes.rows == [Row(1, recipe)]
    ensures store.members == []
  {
    store := new Store.Open(None, None, None);
    var created := store.CreateCollection(Some(collectionName));
    assert store.collections.rows == [Row(1, collectionName)] && store.recipes.rows == [] && store.members == [];
    var body := RecipeBody(Some(recipe.name), Some(recipe.ingredients), Some(recipe.instructions));
    assert FieldsOf(body) == recipe;
    var added := store.CreateRecipe(body);
  }

  /** Then add the recipe to the collection by their names: the one membership row is written. */
  method OneRecipeInOneCollection(collectionName: string, recipe: RecipeFields) returns (store: Store)
    requires collectionName != "" && recipe.name != "" && recipe.ingredients != "" && recipe.instructions != ""
    ensures fresh(store) && store.Valid()
    ensures store.collections.rows == [Row(1, collectionName)]
    ensures store.recipes.rows == [Row(1, recipe)]
    ensures store.members == [Membership(1, 1)]
  {
    store := OneCollectionOneRecipe(collectionName, recipe);
    assert store.collections.rows[0] in store.collections.rows;
    assert store.recipes.rows[0] in store.recipes.rows;
    var linked := store.AddRecipeToCollection(Some(collectionName), Some(recipe.name));
    assert linked.message == RecipeAddedToCollection;
  }

  /**
   * Listing the collections after the steps above shows exactly one collection,
   * with its name, holding exactly the one recipe with all its fields.
   */
  method ListOneRecipeInOneCollection(collectionName: string, recipe: RecipeFields)
    returns (views: seq<CollectionView>)
    requires collectionName != "" && recipe.name != "" && recipe.ingredients != "" && recipe.instructions != ""
    ensures views == [CollectionView(1, collectionName, [Row(1, recipe)])]
  {
    var store := OneRecipeInOneCollection(collectionName, recipe);
    LiveRecipesOfOne(Row(1, recipe), 1);
    var status;
    status, views := store.ListCollections(store.members);
  }
}
