/** The three tables (users, recipes, ratings) the helper library reads and
    writes through its PDO connection, and the invariants every operation of
    the library keeps. Tables are sequences of rows in insertion order; ids
    come from auto-increment counters and every CURRENT_TIMESTAMP from a
    logical clock that advances on each recipe insert and each rating insert
    or update (the writes that take a timestamp). */
module Store {
  import opened Common

  /** A row of `users`. The password is held only as the hash given at registration. */
  datatype User = User(
    id: int,
    username: string,
    email: string,
    passwordHash: string,
    firstName: string,
    lastName: string)

  /** A row of `recipes`. */
  datatype Recipe = Recipe(
    id: int,
    userId: int,
    title: string,
    description: string,
    ingredients: string,
    instructions: string,
    prepTime: int,
    cookTime: int,
    servings: int,
    imageFilename: Option<string>,
    createdAt: nat)

  /** A row of `ratings`; `value` is the `rating` column. */
  datatype Rating = Rating(
    id: int,
    recipeId: int,
    userId: int,
    value: int,
    comment: string,
    createdAt: nat,
    updatedAt: nat)

  /** `SELECT ... FROM users WHERE id = ?`, first row. */
  function FindUser(users: seq<User>, id: int): (u: Option<User>)
    ensures u.Some? ==> u.value in users && u.value.id == id
    ensures u.None? <==> forall k :: 0 <= k < |users| ==> users[k].id != id
  {
    if users == [] then None
    else if users[0].id == id then Some(users[0])
    else FindUser(users[1..], id)
  }

  /** `SELECT ... FROM recipes WHERE id = ?`, first row. */
  function FindRecipe(recipes: seq<Recipe>, id: int): (r: Option<Recipe>)
    ensures r.Some? ==> r.value in recipes && r.value.id == id
    ensures r.None? <==> forall k :: 0 <= k < |recipes| ==> recipes[k].id != id
  {
    if recipes == [] then None
    else if recipes[0].id == id then Some(recipes[0])
    else FindRecipe(recipes[1..], id)
  }

  /** With unique ids, the row found for an id is the row holding that id. */
  lemma {:induction false} FindRecipeAt(recipes: seq<Recipe>, k: nat)
    requires k < |recipes|
    requires forall i, j :: 0 <= i < j < |recipes| ==> recipes[i].id != recipes[j].id
    ensures FindRecipe(recipes, recipes[k].id) == Some(recipes[k])
  {
    if k > 0 {
      assert recipes[0].id != recipes[k].id;
      assert recipes[1..][k - 1] == recipes[k];
      FindRecipeAt(recipes[1..], k - 1);
    }
  }

  /** Appending a row with another id does not change what an id finds. */
  lemma {:induction false} FindRecipeAppend(recipes: seq<Recipe>, added: Recipe, id: int)
    requires added.id != id
    ensures FindRecipe(recipes + [added], id) == FindRecipe(recipes, id)
  {
    if recipes == [] {
      assert recipes + [added] == [added];
    } else {
      assert (recipes + [added])[0] == recipes[0];
      assert (recipes + [added])[1..] == recipes[1..] + [added];
      FindRecipeAppend(recipes[1..], added, id);
    }
  }

  /** The rating's recipe exists and is owned by someone other than its author. */
  predicate RatedByNonOwner(recipes: seq<Recipe>, r: Rating) {
    var rec := FindRecipe(recipes, r.recipeId);
    rec.Some? && rec.value.userId != r.userId
  }

  /** `a` was inserted before `b`, and they do not clash on a unique column. */
  predicate UserBefore(a: User, b: User) {
    a.id < b.id && a.username != b.username && a.email != b.email
  }

  predicate RecipeBefore(a: Recipe, b: Recipe) {
    a.id < b.id && a.createdAt < b.createdAt
  }

  /** Besides insertion order, two ratings never share a (recipe, user) pair. */
  predicate RatingBefore(a: Rating, b: Rating) {
    a.id < b.id && a.createdAt < b.createdAt && !(a.recipeId == b.recipeId && a.userId == b.userId)
  }

  /** A stored recipe: issued id and timestamp, and the three required fields
      non-empty in PHP's sense (the add and edit pages refuse empty ones
      before calling the helpers). */
  predicate RecipeRowOk(r: Recipe, nextId: int, clock: nat) {
    1 <= r.id < nextId && r.createdAt < clock &&
    Truthy(r.title) && Truthy(r.ingredients) && Truthy(r.instructions)
  }

  predicate RatingRowOk(r: Rating, recipes: seq<Recipe>, nextId: int, clock: nat) {
    1 <= r.id < nextId && r.createdAt <= r.updatedAt < clock &&
    1 <= r.value <= 5 && RatedByNonOwner(recipes, r)
  }

  ghost predicate UsersOk(users: seq<User>, nextId: int) {
    (forall i :: 0 <= i < |users| ==> 1 <= users[i].id < nextId) &&
    Pairwise(users, UserBefore)
  }

  ghost predicate RecipesOk(recipes: seq<Recipe>, nextId: int, clock: nat) {
    (forall i :: 0 <= i < |recipes| ==> RecipeRowOk(recipes[i], nextId, clock)) &&
    Pairwise(recipes, RecipeBefore)
  }

  ghost predicate RatingsOk(ratings: seq<Rating>, recipes: seq<Recipe>, nextId: int, clock: nat) {
    (forall i :: 0 <= i < |ratings| ==> RatingRowOk(ratings[i], recipes, nextId, clock)) &&
    Pairwise(ratings, RatingBefore)
  }

  /** The database the helpers share. */
  class Db {
    var users: seq<User>
    var recipes: seq<Recipe>
    var ratings: seq<Rating>
    var nextUserId: nat
    var nextRecipeId: nat
    var nextRatingId: nat
    var clock: nat

    ghost predicate Valid()
      reads this
      ensures Valid() ==> forall i, j :: 0 <= i < j < |ratings| ==>
                (ratings[i].recipeId, ratings[i].userId) != (ratings[j].recipeId, ratings[j].userId)
      ensures Valid() ==> forall i, j :: 0 <= i < j < |users| ==>
                users[i].username != users[j].username && users[i].email != users[j].email
    {
      1 <= nextUserId && 1 <= nextRecipeId && 1 <= nextRatingId &&
      UsersOk(users, nextUserId) &&
      RecipesOk(recipes, nextRecipeId, clock) &&
      RatingsOk(ratings, recipes, nextRatingId, clock)
    }

    constructor ()
      ensures Valid()
      ensures users == [] && recipes == [] && ratings == []
    {
      users, recipes, ratings := [], [], [];
      nextUserId, nextRecipeId, nextRatingId := 1, 1, 1;
      clock := 0;
    }
  }
}
