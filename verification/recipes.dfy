/** The recipe helpers: the filtered, paginated listing, the point lookup,
    owner-only create/update/delete (deletion cascades to the ratings), the
    upload validation and the display of cooking times. */
module Recipes {
  import opened Common
  import opened Store
  import Ratings

  const CreatedMessage := "Recipe created successfully"
  const UpdatedMessage := "Recipe updated successfully"
  const NotYourRecipeToEditMessage := "You can only edit your own recipes"
  const DeletedMessage := "Recipe deleted successfully"
  const NotYourRecipeToDeleteMessage := "You can only delete your own recipes"
  const UploadDir := "uploads/"

  /** The fields of the recipe form, as the add and edit pages pass them on. */
  datatype RecipeFields = RecipeFields(
    title: string,
    description: string,
    ingredients: string,
    instructions: string,
    prepTime: int,
    cookTime: int,
    servings: int)

  /** The add and edit pages call the helpers only when title, ingredients
      and instructions are all non-empty in PHP's sense. */
  predicate RequiredFieldsPresent(f: RecipeFields) {
    Truthy(f.title) && Truthy(f.ingredients) && Truthy(f.instructions)
  }

  // ---------------------------------------------------------------------
  // getRecipes and getRecipeById
  // ---------------------------------------------------------------------

  predicate OccursAt(text: string, needle: string, i: int) {
    0 <= i <= |text| - |needle| && text[i..i + |needle|] == needle
  }

  /** `text LIKE '%needle%'`, read as a plain substring test. */
  predicate Contains(text: string, needle: string) {
    exists i :: 0 <= i <= |text| && OccursAt(text, needle, i)
  }

  /** The WHERE clause `getRecipes` builds. A search term counts only when it is
      not `empty()` in PHP's sense, so "0" searches for nothing; it must occur
      in the title, the description or the ingredients. A truthy user id must
      be the recipe's owner. */
  predicate MatchesFilter(r: Recipe, search: string, userId: Option<int>): (m: bool)
    ensures !Truthy(search) && !TruthyInt(userId) ==> m
    ensures m && TruthyInt(userId) ==> r.userId == userId.value
    ensures m && Truthy(search) ==> Contains(r.title, search) || Contains(r.description, search) || Contains(r.ingredients, search)
  {
    (Truthy(search) ==> Contains(r.title, search) || Contains(r.description, search) || Contains(r.ingredients, search)) &&
    (TruthyInt(userId) ==> r.userId == userId.value)
  }

  /** A listed recipe with its owner's names and the SUM and COUNT of its
      ratings (`LEFT JOIN ratings ... GROUP BY r.id`). */
  datatype RecipeSummary = RecipeSummary(
    recipe: Recipe,
    username: string,
    firstName: string,
    lastName: string,
    ratingSum: int,
    ratingCount: nat)

  function Summarize(r: Recipe, owner: User, ratings: seq<Rating>): (s: RecipeSummary)
    ensures s.recipe == r && s.username == owner.username &&
            s.firstName == owner.firstName && s.lastName == owner.lastName
    ensures s.ratingCount == |Filter(ratings, Ratings.ForRecipe(r.id))| <= |ratings|
    ensures s.ratingSum == Ratings.SumValues(Filter(ratings, Ratings.ForRecipe(r.id)))
  {
    var rs := Filter(ratings, Ratings.ForRecipe(r.id));
    RecipeSummary(r, owner.username, owner.firstName, owner.lastName, Ratings.SumValues(rs), |rs|)
  }

  /** `COALESCE(AVG(rt.rating), 0)`: the mean of the ratings, 0 without any. */
  function AverageRating(s: RecipeSummary): (avg: real)
    ensures s.ratingCount == 0 ==> avg == 0.0
    ensures s.ratingCount > 0 ==> avg * s.ratingCount as real == s.ratingSum as real
  {
    if s.ratingCount == 0 then 0.0 else s.ratingSum as real / s.ratingCount as real
  }

  /** Over a valid ratings table the average shown is 0 (no ratings) or lies in 1..5. */
  lemma AverageInRange(r: Recipe, owner: User, ratings: seq<Rating>, recipes: seq<Recipe>, nextId: int, clock: nat)
    requires RatingsOk(ratings, recipes, nextId, clock)
    ensures var s := Summarize(r, owner, ratings);
            s.ratingCount == 0 || 1.0 <= AverageRating(s) <= 5.0
  {
    var rows := Filter(ratings, Ratings.ForRecipe(r.id));
    forall k | 0 <= k < |rows| ensures 1 <= rows[k].value <= 5 {
      assert rows[k] in ratings;
    }
    Ratings.BucketsPartition(rows);
    var s := Summarize(r, owner, ratings);
    if s.ratingCount > 0 {
      RatioBounds(s.ratingSum as real, s.ratingCount as real);
    }
  }

  lemma RatioBounds(sum: real, n: real)
    requires n > 0.0 && n <= sum <= 5.0 * n
    ensures 1.0 <= sum / n <= 5.0
  {
    var q := sum / n;
    assert q * n == sum;
    assert q <= 5.0;
  }

  /** `JOIN users u ON r.user_id = u.id` plus the WHERE clause. */
  function Listed(users: seq<User>, search: string, userId: Option<int>): Recipe -> bool {
    (r: Recipe) => MatchesFilter(r, search, userId) && FindUser(users, r.userId).Some?
  }

  function Summaries(rows: seq<Recipe>, users: seq<User>, ratings: seq<Rating>): (s: seq<RecipeSummary>)
    requires forall x :: x in rows ==> FindUser(users, x.userId).Some?
    ensures |s| == |rows|
    ensures forall i :: 0 <= i < |rows| ==> s[i] == Summarize(rows[i], FindUser(users, rows[i].userId).value, ratings)
  {
    seq(|rows|, i requires 0 <= i < |rows| => Summarize(rows[i], FindUser(users, rows[i].userId).value, ratings))
  }

  /** Every matching recipe whose owner exists, newest first (`ORDER BY
      r.created_at DESC` over a table kept in insertion order). */
  function RecipesNewestFirst(recipes: seq<Recipe>, users: seq<User>, ratings: seq<Rating>, search: string, userId: Option<int>): (s: seq<RecipeSummary>)
    ensures |s| == |Filter(recipes, Listed(users, search, userId))|
  {
    Reverse(Summaries(Filter(recipes, Listed(users, search, userId)), users, ratings))
  }

  /** Each entry is a stored recipe that matches the filters and has an owner,
      summarised with that owner and its ratings. */
  lemma RecipesListingSound(recipes: seq<Recipe>, users: seq<User>, ratings: seq<Rating>, search: string, userId: Option<int>, i: int)
    requires 0 <= i < |RecipesNewestFirst(recipes, users, ratings, search, userId)|
    ensures var e := RecipesNewestFirst(recipes, users, ratings, search, userId)[i];
            e.recipe in recipes && MatchesFilter(e.recipe, search, userId) &&
            FindUser(users, e.recipe.userId).Some? &&
            e == Summarize(e.recipe, FindUser(users, e.recipe.userId).value, ratings)
  {
    var rows := Filter(recipes, Listed(users, search, userId));
    var sums := Summaries(rows, users, ratings);
    var j := |rows| - 1 - i;
    assert RecipesNewestFirst(recipes, users, ratings, search, userId)[i] == sums[j];
    assert rows[j] in rows;
  }

  /** Every stored recipe that matches the filters and has an owner is listed. */
  lemma RecipesListingComplete(recipes: seq<Recipe>, users: seq<User>, ratings: seq<Rating>, search: string, userId: Option<int>, x: Recipe)
    requires x in recipes && MatchesFilter(x, search, userId) && FindUser(users, x.userId).Some?
    ensures var s := RecipesNewestFirst(recipes, users, ratings, search, userId);
            exists i :: 0 <= i < |s| && s[i].recipe == x
  {
    var rows := Filter(recipes, Listed(users, search, userId));
    var s := RecipesNewestFirst(recipes, users, ratings, search, userId);
    assert x in rows;
    var j :| 0 <= j < |rows| && rows[j] == x;
    assert s[|rows| - 1 - j].recipe == x;
  }

  /** With the table in insertion order the listing is strictly newest first. */
  lemma RecipesOrdered(recipes: seq<Recipe>, nextId: int, clock: nat, users: seq<User>, ratings: seq<Rating>, search: string, userId: Option<int>)
    requires RecipesOk(recipes, nextId, clock)
    ensures var s := RecipesNewestFirst(recipes, users, ratings, search, userId);
            forall i, j :: 0 <= i < j < |s| ==> s[i].recipe.createdAt > s[j].recipe.createdAt
  {
    var rows := Filter(recipes, Listed(users, search, userId));
    FilterPairwise(recipes, Listed(users, search, userId), RecipeBefore);
    var sums := Summaries(rows, users, ratings);
    var s := Reverse(sums);
    forall i, j | 0 <= i < j < |s| ensures s[i].recipe.createdAt > s[j].recipe.createdAt {
      assert RecipeBefore(rows[|s| - 1 - j], rows[|s| - 1 - i]);
    }
  }

  datatype RecipePage = RecipePage(recipes: seq<RecipeSummary>, total: nat, pages: nat, currentPage: int)

  /** `getRecipes`: one page of the listing. Unlike the ratings listing, the
      count query joins users and filters alike, so `total` is the listing's length. */
  function GetRecipes(recipes: seq<Recipe>, users: seq<User>, ratings: seq<Rating>, page: int, limit: int, search: string, userId: Option<int>): (p: RecipePage)
    requires page >= 1 && limit > 0
    ensures p.total == |RecipesNewestFirst(recipes, users, ratings, search, userId)|
    ensures p.recipes == Slice(RecipesNewestFirst(recipes, users, ratings, search, userId), PageOffset(page, limit), limit)
    ensures |p.recipes| <= limit
    ensures p.total <= p.pages * limit && (p.pages - 1) * limit < p.total
    ensures p.currentPage == page
  {
    var all := RecipesNewestFirst(recipes, users, ratings, search, userId);
    var total := |Filter(recipes, Listed(users, search, userId))|;
    RecipePage(Slice(all, PageOffset(page, limit), limit), total, CeilDiv(total, limit), page)
  }

  /** Each listed recipe is on exactly the page its position says, and that
      page is among those `getRecipes` reports. */
  lemma EveryRecipeOnAPage(recipes: seq<Recipe>, users: seq<User>, ratings: seq<Rating>, limit: int, search: string, userId: Option<int>, i: int)
    requires limit > 0
    requires 0 <= i < |RecipesNewestFirst(recipes, users, ratings, search, userId)|
    ensures var p := GetRecipes(recipes, users, ratings, i / limit + 1, limit, search, userId);
            i / limit + 1 <= p.pages && i % limit < |p.recipes| &&
            p.recipes[i % limit] == RecipesNewestFirst(recipes, users, ratings, search, userId)[i]
  {
    ItemOnItsPage(RecipesNewestFirst(recipes, users, ratings, search, userId), limit, i);
  }

  /** `getRecipeById`: the recipe with its owner and rating aggregates; nothing
      when the id is unknown or its owner is missing (the inner join). */
  function GetRecipeById(recipes: seq<Recipe>, users: seq<User>, ratings: seq<Rating>, id: int): (s: Option<RecipeSummary>)
    ensures s.Some? <==> FindRecipe(recipes, id).Some? && FindUser(users, FindRecipe(recipes, id).value.userId).Some?
    ensures s.Some? ==> s.value.recipe.id == id && s.value.recipe in recipes &&
                        s.value.ratingCount == |Filter(ratings, Ratings.ForRecipe(id))| &&
                        s.value.ratingSum == Ratings.SumValues(Filter(ratings, Ratings.ForRecipe(id)))
    ensures s.Some? ==> var owner := FindUser(users, s.value.recipe.userId);
                        owner.Some? && s.value.username == owner.value.username &&
                        s.value.firstName == owner.value.firstName && s.value.lastName == owner.value.lastName
  {
    var r := FindRecipe(recipes, id);
    if r.None? then None
    else
      var owner := FindUser(users, r.value.userId);
      if owner.None? then None else Some(Summarize(r.value, owner.value, ratings))
  }

  // ---------------------------------------------------------------------
  // createRecipe
  // ---------------------------------------------------------------------

  /** The row `createRecipe` inserts. */
  function NewRecipe(id: int, userId: int, f: RecipeFields, imageFilename: Option<string>, now: nat): Recipe {
    Recipe(id, userId, f.title, f.description, f.ingredients, f.instructions,
           f.prepTime, f.cookTime, f.servings, imageFilename, now)
  }

  lemma CreateKeepsInvariant(recipes: seq<Recipe>, ratings: seq<Rating>, nextId: int, nextRatingId: int, clock: nat,
                             userId: int, f: RecipeFields, imageFilename: Option<string>)
    requires nextId >= 1 && RecipesOk(recipes, nextId, clock) && RatingsOk(ratings, recipes, nextRatingId, clock)
    requires RequiredFieldsPresent(f)
    ensures var after := recipes + [NewRecipe(nextId, userId, f, imageFilename, clock)];
            RecipesOk(after, nextId + 1, clock + 1) && RatingsOk(ratings, after, nextRatingId, clock + 1)
  {
    var added := NewRecipe(nextId, userId, f, imageFilename, clock);
    var after := recipes + [added];
    forall i | 0 <= i < |after| ensures RecipeRowOk(after[i], nextId + 1, clock + 1) {
      if i < |recipes| {
        assert RecipeRowOk(recipes[i], nextId, clock);
      }
    }
    forall i, j | 0 <= i < j < |after| ensures RecipeBefore(after[i], after[j]) {
      if j < |recipes| {
        assert RecipeBefore(recipes[i], recipes[j]);
      } else {
        assert RecipeRowOk(recipes[i], nextId, clock);
      }
    }
    forall i | 0 <= i < |ratings| ensures RatingRowOk(ratings[i], after, nextRatingId, clock + 1) {
      assert RatingRowOk(ratings[i], recipes, nextRatingId, clock);
      var found := FindRecipe(recipes, ratings[i].recipeId).value;
      var k :| 0 <= k < |recipes| && recipes[k] == found;
      assert RecipeRowOk(recipes[k], nextId, clock);
      FindRecipeAppend(recipes, added, ratings[i].recipeId);
    }
  }

  /** `createRecipe`: the new row gets the next id and the current time, and the
      id is returned (`lastInsertId`). */
  method CreateRecipe(db: Db, userId: int, fields: RecipeFields, imageFilename: Option<string>) returns (res: Response, recipeId: int)
    requires db.Valid() && RequiredFieldsPresent(fields)
    modifies db
    ensures db.Valid()
    ensures recipeId == old(db.nextRecipeId) && res == Response(true, CreatedMessage)
    ensures db.recipes == old(db.recipes) + [NewRecipe(recipeId, userId, fields, imageFilename, old(db.clock))]
    ensures db.users == old(db.users) && db.ratings == old(db.ratings)
    ensures db.nextUserId == old(db.nextUserId) && db.nextRatingId == old(db.nextRatingId)
    ensures db.nextRecipeId == old(db.nextRecipeId) + 1 && db.clock == old(db.clock) + 1
  {
    CreateKeepsInvariant(db.recipes, db.ratings, db.nextRecipeId, db.nextRatingId, db.clock, userId, fields, imageFilename);
    recipeId := db.nextRecipeId;
    db.recipes := db.recipes + [NewRecipe(recipeId, userId, fields, imageFilename, db.clock)];
    db.nextRecipeId := db.nextRecipeId + 1;
    db.clock := db.clock + 1;
    res := Response(true, CreatedMessage);
  }

  /** A recipe just created is found by its id, with its owner and no ratings. */
  lemma CreatedRecipeIsFound(recipes: seq<Recipe>, users: seq<User>, ratings: seq<Rating>, nextId: int, nextRatingId: int, clock: nat,
                             userId: int, f: RecipeFields, imageFilename: Option<string>)
    requires RecipesOk(recipes, nextId, clock) && RatingsOk(ratings, recipes, nextRatingId, clock)
    requires FindUser(users, userId).Some?
    ensures var added := NewRecipe(nextId, userId, f, imageFilename, clock);
            var owner := FindUser(users, userId).value;
            GetRecipeById(recipes + [added], users, ratings, nextId) ==
              Some(RecipeSummary(added, owner.username, owner.firstName, owner.lastName, 0, 0))
  {
    var added := NewRecipe(nextId, userId, f, imageFilename, clock);
    var after := recipes + [added];
    forall i, j | 0 <= i < j < |after| ensures after[i].id != after[j].id {
      if j < |recipes| {
        assert RecipeBefore(recipes[i], recipes[j]);
      } else {
        assert RecipeRowOk(recipes[i], nextId, clock);
      }
    }
    FindRecipeAt(after, |recipes|);
    forall x | x in ratings ensures !Ratings.ForRecipe(nextId)(x) {
      var i :| 0 <= i < |ratings| && ratings[i] == x;
      assert RatingRowOk(ratings[i], recipes, nextRatingId, clock);
      var found := FindRecipe(recipes, x.recipeId).value;
      var k :| 0 <= k < |recipes| && recipes[k] == found;
      assert RecipeRowOk(recipes[k], nextId, clock);
    }
    FilterNone(ratings, Ratings.ForRecipe(nextId));
  }

  // ---------------------------------------------------------------------
  // updateRecipe
  // ---------------------------------------------------------------------

  /** The row after `UPDATE recipes SET ...`: the form's fields replace the old
      ones; id, owner and creation time stay; the image changes only when a new
      file name is given (`$imageFilename !== null`). */
  function Edited(r: Recipe, f: RecipeFields, imageFilename: Option<string>): (e: Recipe)
    ensures e.id == r.id && e.userId == r.userId && e.createdAt == r.createdAt
    ensures e.imageFilename == if imageFilename.Some? then imageFilename else r.imageFilename
    ensures e == NewRecipe(r.id, r.userId, f, e.imageFilename, r.createdAt)
  {
    r.(title := f.title, description := f.description, ingredients := f.ingredients,
       instructions := f.instructions, prepTime := f.prepTime, cookTime := f.cookTime,
       servings := f.servings,
       imageFilename := if imageFilename.Some? then imageFilename else r.imageFilename)
  }

  /** `... WHERE id = ?` applied to the table. */
  function ApplyEdit(recipes: seq<Recipe>, id: int, f: RecipeFields, imageFilename: Option<string>): (r: seq<Recipe>)
    ensures |r| == |recipes|
    ensures forall k :: 0 <= k < |r| ==> r[k] == if recipes[k].id == id then Edited(recipes[k], f, imageFilename) else recipes[k]
  {
    if recipes == [] then []
    else
      [if recipes[0].id == id then Edited(recipes[0], f, imageFilename) else recipes[0]] +
      ApplyEdit(recipes[1..], id, f, imageFilename)
  }

  /** After an edit, every id finds the same row as before, edited when it is the target. */
  lemma {:induction false} FindRecipeAfterEdit(recipes: seq<Recipe>, id: int, f: RecipeFields, imageFilename: Option<string>, x: int)
    ensures var before := FindRecipe(recipes, x);
            FindRecipe(ApplyEdit(recipes, id, f, imageFilename), x) ==
              if before.None? then None
              else Some(if x == id then Edited(before.value, f, imageFilename) else before.value)
  {
    if recipes != [] {
      var after := ApplyEdit(recipes, id, f, imageFilename);
      assert after[1..] == ApplyEdit(recipes[1..], id, f, imageFilename);
      FindRecipeAfterEdit(recipes[1..], id, f, imageFilename, x);
    }
  }

  lemma EditKeepsInvariant(recipes: seq<Recipe>, ratings: seq<Rating>, nextId: int, nextRatingId: int, clock: nat,
                           id: int, f: RecipeFields, imageFilename: Option<string>)
    requires RecipesOk(recipes, nextId, clock) && RatingsOk(ratings, recipes, nextRatingId, clock)
    requires RequiredFieldsPresent(f)
    ensures var after := ApplyEdit(recipes, id, f, imageFilename);
            RecipesOk(after, nextId, clock) && RatingsOk(ratings, after, nextRatingId, clock)
  {
    var after := ApplyEdit(recipes, id, f, imageFilename);
    forall i, j | 0 <= i < j < |after| ensures RecipeBefore(after[i], after[j]) {
      assert RecipeBefore(recipes[i], recipes[j]);
    }
    forall i | 0 <= i < |ratings| ensures RatingRowOk(ratings[i], after, nextRatingId, clock) {
      assert RatingRowOk(ratings[i], recipes, nextRatingId, clock);
      FindRecipeAfterEdit(recipes, id, f, imageFilename, ratings[i].recipeId);
    }
  }

  /** `updateRecipe`: only the owner may edit; the edit touches that row alone. */
  method UpdateRecipe(db: Db, id: int, userId: int, fields: RecipeFields, imageFilename: Option<string>) returns (res: Response)
    requires db.Valid() && RequiredFieldsPresent(fields)
    modifies db
    ensures db.Valid()
    ensures db.users == old(db.users) && db.ratings == old(db.ratings) && db.clock == old(db.clock)
    ensures db.nextUserId == old(db.nextUserId) && db.nextRecipeId == old(db.nextRecipeId) &&
            db.nextRatingId == old(db.nextRatingId)
    ensures var found := FindRecipe(old(db.recipes), id);
            if found.None? || found.value.userId != userId then
              res == Response(false, NotYourRecipeToEditMessage) && db.recipes == old(db.recipes)
            else
              res == Response(true, UpdatedMessage) && db.recipes == ApplyEdit(old(db.recipes), id, fields, imageFilename)
  {
    var found := FindRecipe(db.recipes, id);
    if found.None? || found.value.userId != userId {
      return Response(false, NotYourRecipeToEditMessage);
    }
    EditKeepsInvariant(db.recipes, db.ratings, db.nextRecipeId, db.nextRatingId, db.clock, id, fields, imageFilename);
    db.recipes := ApplyEdit(db.recipes, id, fields, imageFilename);
    res := Response(true, UpdatedMessage);
  }

  // ---------------------------------------------------------------------
  // deleteRecipe
  // ---------------------------------------------------------------------

  /** `DELETE FROM recipes WHERE id = ?` keeps the other rows. */
  function NotRecipe(id: int): Recipe -> bool {
    (r: Recipe) => r.id != id
  }

  /** The ratings the foreign key's ON DELETE CASCADE keeps. */
  function NotOfRecipe(id: int): Rating -> bool {
    (r: Rating) => r.recipeId != id
  }

  /** The file `deleteRecipe` unlinks when it is on disk: the stored image,
      when its name is truthy. */
  function ImageToRemove(r: Recipe): (path: Option<string>)
    ensures path.Some? <==> r.imageFilename.Some? && Truthy(r.imageFilename.value)
    ensures path.Some? ==> path.value == UploadDir + r.imageFilename.value
  {
    if r.imageFilename.Some? && Truthy(r.imageFilename.value) then Some(UploadDir + r.imageFilename.value) else None
  }

  /** Removing one recipe leaves what every other id finds unchanged. */
  lemma {:induction false} FindRecipeAfterDelete(recipes: seq<Recipe>, id: int, x: int)
    ensures FindRecipe(Filter(recipes, NotRecipe(id)), x) == if x == id then None else FindRecipe(recipes, x)
  {
    if recipes != [] {
      FindRecipeAfterDelete(recipes[1..], id, x);
    }
  }

  /** After the delete the id finds nothing, no rating of it is left, and the
      other recipes' ratings are all kept. */
  lemma DeleteRecipeEffect(recipes: seq<Recipe>, ratings: seq<Rating>, id: int)
    ensures FindRecipe(Filter(recipes, NotRecipe(id)), id).None?
    ensures Filter(Filter(ratings, NotOfRecipe(id)), Ratings.ForRecipe(id)) == []
    ensures forall other :: other != id ==>
              Filter(Filter(ratings, NotOfRecipe(id)), Ratings.ForRecipe(other)) == Filter(ratings, Ratings.ForRecipe(other))
  {
    FindRecipeAfterDelete(recipes, id, id);
    var kept := Filter(ratings, NotOfRecipe(id));
    FilterNone(kept, Ratings.ForRecipe(id));
    forall other | other != id
      ensures Filter(kept, Ratings.ForRecipe(other)) == Filter(ratings, Ratings.ForRecipe(other))
    {
      FilterSubsumed(ratings, NotOfRecipe(id), Ratings.ForRecipe(other));
    }
  }

  lemma DeleteKeepsInvariant(recipes: seq<Recipe>, ratings: seq<Rating>, nextId: int, nextRatingId: int, clock: nat, id: int)
    requires RecipesOk(recipes, nextId, clock) && RatingsOk(ratings, recipes, nextRatingId, clock)
    ensures var rs := Filter(recipes, NotRecipe(id));
            RecipesOk(rs, nextId, clock) && RatingsOk(Filter(ratings, NotOfRecipe(id)), rs, nextRatingId, clock)
  {
    var rs := Filter(recipes, NotRecipe(id));
    var kept := Filter(ratings, NotOfRecipe(id));
    FilterPairwise(recipes, NotRecipe(id), RecipeBefore);
    forall i | 0 <= i < |rs| ensures RecipeRowOk(rs[i], nextId, clock) {
      assert rs[i] in rs;
      var j :| 0 <= j < |recipes| && recipes[j] == rs[i];
      assert RecipeRowOk(recipes[j], nextId, clock);
    }
    FilterPairwise(ratings, NotOfRecipe(id), RatingBefore);
    forall i | 0 <= i < |kept| ensures RatingRowOk(kept[i], rs, nextRatingId, clock) {
      assert kept[i] in kept;
      var j :| 0 <= j < |ratings| && ratings[j] == kept[i];
      assert RatingRowOk(ratings[j], recipes, nextRatingId, clock);
      FindRecipeAfterDelete(recipes, id, kept[i].recipeId);
    }
  }

  /** `deleteRecipe`: only the owner may delete; the recipe's ratings go with it,
      and the image file to remove is returned to the caller. */
  method DeleteRecipe(db: Db, id: int, userId: int) returns (res: Response, imageToRemove: Option<string>)
    requires db.Valid()
    modifies db
    ensures db.Valid()
    ensures db.users == old(db.users) && db.clock == old(db.clock)
    ensures db.nextUserId == old(db.nextUserId) && db.nextRecipeId == old(db.nextRecipeId) &&
            db.nextRatingId == old(db.nextRatingId)
    ensures var found := FindRecipe(old(db.recipes), id);
            if found.None? || found.value.userId != userId then
              res == Response(false, NotYourRecipeToDeleteMessage) && imageToRemove.None? &&
              db.recipes == old(db.recipes) && db.ratings == old(db.ratings)
            else
              res == Response(true, DeletedMessage) && imageToRemove == ImageToRemove(found.value) &&
              db.recipes == Filter(old(db.recipes), NotRecipe(id)) &&
              db.ratings == Filter(old(db.ratings), NotOfRecipe(id))
  {
    var found := FindRecipe(db.recipes, id);
    if found.None? || found.value.userId != userId {
      return Response(false, NotYourRecipeToDeleteMessage), None;
    }
    DeleteKeepsInvariant(db.recipes, db.ratings, db.nextRecipeId, db.nextRatingId, db.clock, id);
    db.recipes := Filter(db.recipes, NotRecipe(id));
    db.ratings := Filter(db.ratings, NotOfRecipe(id));
    imageToRemove := ImageToRemove(found.value);
    res := Response(true, DeletedMessage);
  }

  // ---------------------------------------------------------------------
  // uploadRecipeImage
  // ---------------------------------------------------------------------

  /** The parts of a `$_FILES` entry the helper reads. */
  datatype UploadedFile = UploadedFile(tmpName: Option<string>, error: int, mimeType: string, size: int, name: string)

  datatype UploadResult = Uploaded(filename: string) | UploadFailed(message: string)

  const UploadErrOk := 0
  const MaxUploadSize := 5 * 1024 * 1024
  const AllowedTypes := ["image/jpeg", "image/png", "image/gif"]
  const NoFileMessage := "No file uploaded or upload error"
  const BadTypeMessage := "Invalid file type. Only JPEG, PNG, and GIF are allowed"
  const TooLargeMessage := "File too large. Maximum size is 5MB"
  const SaveFailedMessage := "Failed to save uploaded file"

  /** The checks before the file is moved: present and without error, then an
      allowed declared type, then at most 5 MiB. */
  function UploadRejection(file: UploadedFile): (m: Option<string>)
    ensures m.None? <==> file.tmpName.Some? && file.error == UploadErrOk &&
                         file.mimeType in AllowedTypes && file.size <= MaxUploadSize
    ensures (file.tmpName.None? || file.error != UploadErrOk) ==> m == Some(NoFileMessage)
    ensures file.tmpName.Some? && file.error == UploadErrOk && file.mimeType !in AllowedTypes ==> m == Some(BadTypeMessage)
    ensures (file.tmpName.Some? && file.error == UploadErrOk && file.mimeType in AllowedTypes &&
             file.size > MaxUploadSize) ==> m == Some(TooLargeMessage)
  {
    if file.tmpName.None? || file.error != UploadErrOk then Some(NoFileMessage)
    else if file.mimeType !in AllowedTypes then Some(BadTypeMessage)
    else if file.size > MaxUploadSize then Some(TooLargeMessage)
    else None
  }

  /** Some dot follows the last slash of `name`. */
  predicate DotInLastComponent(name: string) {
    exists j :: 0 <= j < |name| && name[j] == '.' && forall k :: j < k < |name| ==> name[k] != '/'
  }

  /** `pathinfo($name, PATHINFO_EXTENSION)`: what follows the last dot of the
      last path component, or nothing when that component has no dot. */
  function Extension(name: string): (ext: string)
    ensures forall j :: 0 <= j < |ext| ==> ext[j] != '.' && ext[j] != '/'
    ensures DotInLastComponent(name) ==>
              |ext| < |name| && name[|name| - |ext| - 1] == '.' && name[|name| - |ext|..] == ext
    ensures !DotInLastComponent(name) ==> ext == ""
  {
    var slash, dot := LastIndexOf(name, '/'), LastIndexOf(name, '.');
    if dot <= slash then "" else name[dot + 1..]
  }

  /** `uploadRecipeImage`: `uniqueId` and `now` stand for `uniqid()` and
      `time()`, `moved` for the outcome of `move_uploaded_file`. */
  function UploadRecipeImage(file: UploadedFile, uniqueId: string, now: int, moved: bool): (r: UploadResult)
    ensures r.Uploaded? <==> UploadRejection(file).None? && moved
    ensures r.Uploaded? ==> r.filename == uniqueId + "_" + IntToString(now) + "." + Extension(file.name)
    ensures r.UploadFailed? && UploadRejection(file).Some? ==> r.message == UploadRejection(file).value
    ensures UploadRejection(file).None? && !moved ==> r == UploadFailed(SaveFailedMessage)
  {
    var rejection := UploadRejection(file);
    if rejection.Some? then UploadFailed(rejection.value)
    else if moved then Uploaded(uniqueId + "_" + IntToString(now) + "." + Extension(file.name))
    else UploadFailed(SaveFailedMessage)
  }

  /** Only the declared MIME type is checked: a file named `shell.php` sent as
      `image/png` is stored under a name ending in `.php`. */
  lemma DeclaredTypeDecides(uniqueId: string, now: int)
    ensures var r := UploadRecipeImage(UploadedFile(Some("tmp"), UploadErrOk, "image/png", 100, "shell.php"), uniqueId, now, true);
            r == Uploaded(uniqueId + "_" + IntToString(now) + "." + "php")
  {
    var file := UploadedFile(Some("tmp"), UploadErrOk, "image/png", 100, "shell.php");
    PhpExtension();
    assert AllowedTypes[1] == "image/png";
    assert UploadRejection(file).None?;
  }

  lemma PhpExtension()
    ensures Extension("shell.php") == "php"
  {
    var name := "shell.php";
    assert forall j :: 0 <= j < |name| ==> name[j] != '/';
    assert forall j :: 5 < j < |name| ==> name[j] != '.';
    assert name[5] == '.';
    assert LastIndexOf(name, '.') == 5;
    assert name[6..] == "php";
  }

  // ---------------------------------------------------------------------
  // formatTime
  // ---------------------------------------------------------------------

  /** `formatTime`: "45 min" under an hour, "2h" or "1h 30min" from an hour on. */
  function FormatTime(minutes: int): (s: string)
    ensures minutes < 60 ==> s == IntToString(minutes) + " min"
    ensures minutes >= 60 ==> s == NatToString(minutes / 60) + "h" + MinutesPart(minutes % 60)
    ensures ShortForm(s) <==> minutes < 60
  {
    if minutes < 60 then
      ShortFormOf(minutes);
      IntToString(minutes) + " min"
    else
      var hours, mins := minutes / 60, minutes % 60;
      HoursFormNotShort(NatToString(hours), mins);
      NatToString(hours) + "h" + MinutesPart(mins)
  }

  /** The text of a duration under an hour: an integer and " min". */
  predicate ShortForm(s: string) {
    |s| >= 4 && s[|s| - 4..] == " min" && IsIntText(s[..|s| - 4])
  }

  /** What may follow "<hours>h": nothing, or " <minutes>min". */
  function ParseMinutesPart(rest: string): Option<nat> {
    if rest == "" then Some(0)
    else if |rest| >= 5 && rest[0] == ' ' && rest[|rest| - 3..] == "min" && AllDigits(rest[1..|rest| - 3])
    then Some(ParseNat(rest[1..|rest| - 3]))
    else None
  }

  /** Reads back a duration in `formatTime`'s format. */
  function ParseTime(s: string): Option<int> {
    if ShortForm(s) then Some(ParseInt(s[..|s| - 4]))
    else
      var h := IndexOf(s, 'h');
      if h < 1 || !AllDigits(s[..h]) then None
      else
        var mins := ParseMinutesPart(s[h + 1..]);
        if mins.None? then None else Some(60 * ParseNat(s[..h]) + mins.value)
  }

  /** The display loses nothing: every duration is read back from its text. */
  lemma FormatTimeRoundTrip(minutes: int)
    ensures ParseTime(FormatTime(minutes)) == Some(minutes)
  {
    if minutes < 60 {
      ShortRoundTrip(minutes);
    } else {
      HoursRoundTrip(minutes);
    }
  }

  lemma ShortRoundTrip(minutes: int)
    requires minutes < 60
    ensures ParseTime(FormatTime(minutes)) == Some(minutes)
  {
    var s := IntToString(minutes) + " min";
    assert s[..|s| - 4] == IntToString(minutes);
    ParseIntToString(minutes);
  }

  /** "<minutes> min" is in the short form. */
  lemma ShortFormOf(minutes: int)
    ensures ShortForm(IntToString(minutes) + " min")
  {
    var s := IntToString(minutes) + " min";
    assert s[..|s| - 4] == IntToString(minutes);
    assert s[|s| - 4..] == " min";
  }

  lemma HoursRoundTrip(minutes: int)
    requires minutes >= 60
    ensures ParseTime(FormatTime(minutes)) == Some(minutes)
  {
    var hours, mins := minutes / 60, minutes % 60;
    var hs, tail := NatToString(hours), MinutesPart(mins);
    assert FormatTime(minutes) == hs + "h" + tail;
    HoursFormNotShort(hs, mins);
    HoursPrefix(hs, tail);
    ParseNatToString(hours);
    MinutesPartRoundTrip(mins);
    assert minutes == 60 * hours + mins;
  }

  /** "<hours>h" with its optional minutes does not end in " min". */
  lemma HoursFormNotShort(hs: string, mins: nat)
    ensures !ShortForm(hs + "h" + MinutesPart(mins))
  {
    var tail := MinutesPart(mins);
    var s := hs + "h" + tail;
    if mins > 0 {
      var ms := NatToString(mins);
      assert tail == " " + ms + "min";
      assert tail[|tail| - 4] == ms[|ms| - 1];
      assert s[|s| - 4] == tail[|tail| - 4];
      assert IsDigit(s[|s| - 4]);
      assert |s| >= 4 ==> s[|s| - 4..][0] == s[|s| - 4];
    } else {
      assert s[|s| - 1] == 'h';
      assert |s| >= 4 ==> s[|s| - 4..][3] == s[|s| - 1];
    }
  }

  /** The part after "<hours>h": nothing for a whole hour, else " <mins>min". */
  function MinutesPart(mins: nat): (r: string)
    ensures r == "" <==> mins == 0
    ensures mins > 0 ==> r == " " + NatToString(mins) + "min"
  {
    if mins > 0 then " " + NatToString(mins) + "min" else ""
  }

  lemma MinutesPartRoundTrip(mins: nat)
    ensures ParseMinutesPart(MinutesPart(mins)) == Some(mins)
  {
    if mins > 0 {
      var tail, ms := MinutesPart(mins), NatToString(mins);
      assert tail[0] == ' ' && tail[|tail| - 3..] == "min";
      assert tail[1..|tail| - 3] == ms;
      ParseNatToString(mins);
    }
  }

  /** In "<digits>h<tail>", the first 'h' follows the digits. */
  lemma HoursPrefix(hs: string, tail: string)
    requires |hs| >= 1 && AllDigits(hs)
    ensures var s := hs + "h" + tail;
            IndexOf(s, 'h') == |hs| && s[..|hs|] == hs && s[|hs| + 1..] == tail
  {
    var s := hs + "h" + tail;
    forall j | 0 <= j < |hs| ensures s[j] != 'h' {
      assert s[j] == hs[j] && IsDigit(hs[j]);
    }
    assert s[|hs|] == 'h';
    assert s[..|hs|] == hs;
    assert s[|hs| + 1..] == tail;
  }
}
