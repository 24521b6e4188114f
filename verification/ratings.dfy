/** The rating helpers: the upsert keyed on (recipe, user), the point lookup,
    the paginated listing, the five-bucket statistics, author-only deletion
    and the two star-HTML builders. */
module Ratings {
  import opened Common
  import opened Store

  const RangeMessage := "Rating must be between 1 and 5 stars"
  const RecipeNotFoundMessage := "Recipe not found"
  const OwnRecipeMessage := "You cannot rate your own recipe"
  const UpdatedMessage := "Your rating has been updated"
  const SubmittedMessage := "Your rating has been submitted"
  const NotYourRatingMessage := "You can only delete your own ratings"
  const DeletedMessage := "Rating deleted successfully"
  const RatingNotFoundMessage := "Rating not found"

  // ---------------------------------------------------------------------
  // WHERE clauses
  // ---------------------------------------------------------------------

  /** `WHERE recipe_id = ?` */
  function ForRecipe(recipeId: int): Rating -> bool {
    (r: Rating) => r.recipeId == recipeId
  }

  /** `WHERE recipe_id = ? AND user_id = ?` */
  function ForPair(recipeId: int, userId: int): Rating -> bool {
    (r: Rating) => r.recipeId == recipeId && r.userId == userId
  }

  function NotForPair(recipeId: int, userId: int): Rating -> bool {
    (r: Rating) => !(r.recipeId == recipeId && r.userId == userId)
  }

  /** The rows a user holds for a recipe. */
  function PairRows(rows: seq<Rating>, recipeId: int, userId: int): seq<Rating> {
    Filter(rows, ForPair(recipeId, userId))
  }

  /** Under the table invariant, a (recipe, user) pair has at most one row. */
  lemma {:induction false} AtMostOneRowPerPair(rows: seq<Rating>, recipeId: int, userId: int)
    requires Pairwise(rows, RatingBefore)
    ensures |PairRows(rows, recipeId, userId)| <= 1
  {
    if rows != [] {
      assert Pairwise(rows[1..], RatingBefore) by {
        forall i, j | 0 <= i < j < |rows[1..]| ensures RatingBefore(rows[1..][i], rows[1..][j]) {
          assert RatingBefore(rows[i + 1], rows[j + 1]);
        }
      }
      AtMostOneRowPerPair(rows[1..], recipeId, userId);
      if ForPair(recipeId, userId)(rows[0]) {
        forall x | x in rows[1..] ensures !ForPair(recipeId, userId)(x) {
          var k :| 0 <= k < |rows[1..]| && rows[1..][k] == x;
          assert RatingBefore(rows[0], rows[k + 1]);
        }
        FilterNone(rows[1..], ForPair(recipeId, userId));
      }
    }
  }

  // ---------------------------------------------------------------------
  // submitRating
  // ---------------------------------------------------------------------

  /** The failure `submitRating` reports before it touches the table, if any:
      the range check comes first, then the recipe lookup, then the ban on
      rating one's own recipe. */
  function SubmitRejection(recipes: seq<Recipe>, recipeId: int, userId: int, rating: int): (m: Option<string>)
    ensures (rating < 1 || rating > 5) ==> m == Some(RangeMessage)
    ensures 1 <= rating <= 5 && FindRecipe(recipes, recipeId).None? ==> m == Some(RecipeNotFoundMessage)
    ensures (1 <= rating <= 5 && FindRecipe(recipes, recipeId).Some? &&
             FindRecipe(recipes, recipeId).value.userId == userId) ==> m == Some(OwnRecipeMessage)
    ensures m.None? <==> 1 <= rating <= 5 && FindRecipe(recipes, recipeId).Some? &&
                         FindRecipe(recipes, recipeId).value.userId != userId
  {
    if rating < 1 || rating > 5 then Some(RangeMessage)
    else
      var recipe := FindRecipe(recipes, recipeId);
      if recipe.None? then Some(RecipeNotFoundMessage)
      else if recipe.value.userId == userId then Some(OwnRecipeMessage)
      else None
  }

  /** `UPDATE ratings SET rating = ?, comment = ?, updated_at = CURRENT_TIMESTAMP
      WHERE recipe_id = ? AND user_id = ?` */
  function UpdatePair(rows: seq<Rating>, recipeId: int, userId: int, value: int, comment: string, now: nat): (r: seq<Rating>)
    ensures |r| == |rows|
    ensures forall i :: 0 <= i < |rows| ==>
              r[i] == if ForPair(recipeId, userId)(rows[i])
                      then rows[i].(value := value, comment := comment, updatedAt := now)
                      else rows[i]
  {
    if rows == [] then []
    else
      var head := if ForPair(recipeId, userId)(rows[0])
                  then rows[0].(value := value, comment := comment, updatedAt := now)
                  else rows[0];
      [head] + UpdatePair(rows[1..], recipeId, userId, value, comment, now)
  }

  /** The row-level effect of a successful `submitRating`: update the pair's
      row when there is one, insert a new row otherwise. */
  function Upsert(rows: seq<Rating>, recipeId: int, userId: int, value: int, comment: string, now: nat, nextId: int): (r: seq<Rating>)
    ensures PairRows(rows, recipeId, userId) == [] ==>
              r == rows + [Rating(nextId, recipeId, userId, value, comment, now, now)]
    ensures PairRows(rows, recipeId, userId) != [] ==>
              |r| == |rows| &&
              forall i :: 0 <= i < |rows| ==>
                r[i].id == rows[i].id && r[i].recipeId == rows[i].recipeId &&
                r[i].userId == rows[i].userId && r[i].createdAt == rows[i].createdAt
  {
    if PairRows(rows, recipeId, userId) != [] then UpdatePair(rows, recipeId, userId, value, comment, now)
    else rows + [Rating(nextId, recipeId, userId, value, comment, now, now)]
  }

  /** Updating one pair leaves the rows of every other pair as they were. */
  lemma {:induction false} UpdatePairKeepsOtherPairs(rows: seq<Rating>, recipeId: int, userId: int, value: int, comment: string, now: nat, otherRecipe: int, otherUser: int)
    requires (otherRecipe, otherUser) != (recipeId, userId)
    ensures PairRows(UpdatePair(rows, recipeId, userId, value, comment, now), otherRecipe, otherUser) ==
            PairRows(rows, otherRecipe, otherUser)
  {
    if rows != [] {
      var u := UpdatePair(rows, recipeId, userId, value, comment, now);
      assert u[1..] == UpdatePair(rows[1..], recipeId, userId, value, comment, now);
      UpdatePairKeepsOtherPairs(rows[1..], recipeId, userId, value, comment, now, otherRecipe, otherUser);
    }
  }

  /** Updating a pair rewrites each of its rows to the new value and comment. */
  lemma {:induction false} UpdatePairRewritesPair(rows: seq<Rating>, recipeId: int, userId: int, value: int, comment: string, now: nat)
    ensures var after := PairRows(UpdatePair(rows, recipeId, userId, value, comment, now), recipeId, userId);
            |after| == |PairRows(rows, recipeId, userId)| &&
            forall k :: 0 <= k < |after| ==> after[k].value == value && after[k].comment == comment
  {
    if rows != [] {
      var u := UpdatePair(rows, recipeId, userId, value, comment, now);
      assert u[1..] == UpdatePair(rows[1..], recipeId, userId, value, comment, now);
      UpdatePairRewritesPair(rows[1..], recipeId, userId, value, comment, now);
    }
  }

  /** After an upsert the pair has exactly one row, holding the submitted
      value and comment, and `getUserRating` returns them. */
  lemma UpsertLeavesOneRow(rows: seq<Rating>, recipeId: int, userId: int, value: int, comment: string, now: nat, nextId: int)
    requires Pairwise(rows, RatingBefore)
    ensures var after := PairRows(Upsert(rows, recipeId, userId, value, comment, now, nextId), recipeId, userId);
            |after| == 1 && after[0].value == value && after[0].comment == comment
    ensures GetUserRating(Upsert(rows, recipeId, userId, value, comment, now, nextId), recipeId, userId) ==
            Some(UserRatingRow(value, comment))
  {
    AtMostOneRowPerPair(rows, recipeId, userId);
    var added := Rating(nextId, recipeId, userId, value, comment, now, now);
    if PairRows(rows, recipeId, userId) != [] {
      UpdatePairRewritesPair(rows, recipeId, userId, value, comment, now);
    } else {
      FilterAppend(rows, [added], ForPair(recipeId, userId));
      assert Filter([added], ForPair(recipeId, userId)) == [added];
    }
  }

  /** An upsert leaves the rows of every other (recipe, user) pair as they were. */
  lemma UpsertKeepsOtherPairs(rows: seq<Rating>, recipeId: int, userId: int, value: int, comment: string, now: nat, nextId: int, otherRecipe: int, otherUser: int)
    requires (otherRecipe, otherUser) != (recipeId, userId)
    ensures PairRows(Upsert(rows, recipeId, userId, value, comment, now, nextId), otherRecipe, otherUser) ==
            PairRows(rows, otherRecipe, otherUser)
  {
    if PairRows(rows, recipeId, userId) != [] {
      UpdatePairKeepsOtherPairs(rows, recipeId, userId, value, comment, now, otherRecipe, otherUser);
    } else {
      var added := Rating(nextId, recipeId, userId, value, comment, now, now);
      FilterAppend(rows, [added], ForPair(otherRecipe, otherUser));
      assert Filter([added], ForPair(otherRecipe, otherUser)) == [];
    }
  }

  /** A submission that passes the checks keeps the ratings table invariant:
      one row per pair, no rating by a recipe's owner, values in 1..5. */
  lemma UpsertKeepsInvariant(rows: seq<Rating>, recipes: seq<Recipe>, recipeId: int, userId: int, value: int, comment: string, clock: nat, nextId: int)
    requires nextId >= 1 && RatingsOk(rows, recipes, nextId, clock)
    requires SubmitRejection(recipes, recipeId, userId, value).None?
    ensures RatingsOk(Upsert(rows, recipeId, userId, value, comment, clock, nextId), recipes,
                      if PairRows(rows, recipeId, userId) != [] then nextId else nextId + 1, clock + 1)
  {
    var after := Upsert(rows, recipeId, userId, value, comment, clock, nextId);
    if PairRows(rows, recipeId, userId) != [] {
      forall i, j | 0 <= i < j < |after| ensures RatingBefore(after[i], after[j]) {
        assert RatingBefore(rows[i], rows[j]);
      }
    } else {
      var added := Rating(nextId, recipeId, userId, value, comment, clock, clock);
      forall i | 0 <= i < |rows| ensures RatingBefore(rows[i], added) {
        assert rows[i] in rows;
        assert rows[i] !in PairRows(rows, recipeId, userId);
        assert RatingRowOk(rows[i], recipes, nextId, clock);
      }
      assert RatingRowOk(added, recipes, nextId + 1, clock + 1);
      forall i | 0 <= i < |after| ensures RatingRowOk(after[i], recipes, nextId + 1, clock + 1) {
        if i < |rows| {
          assert RatingRowOk(rows[i], recipes, nextId, clock);
        }
      }
      forall i, j | 0 <= i < j < |after| ensures RatingBefore(after[i], after[j]) {
        if j < |rows| {
          assert RatingBefore(rows[i], rows[j]);
        } else {
          assert after[j] == added && after[i] == rows[i];
        }
      }
    }
  }

  /** `submitRating`: validate, then update or insert the (recipe, user) row. */
  method SubmitRating(db: Db, recipeId: int, userId: int, rating: int, comment: string) returns (res: Response)
    requires db.Valid()
    modifies db
    ensures db.Valid()
    ensures db.users == old(db.users) && db.recipes == old(db.recipes)
    ensures db.nextUserId == old(db.nextUserId) && db.nextRecipeId == old(db.nextRecipeId)
    ensures SubmitRejection(old(db.recipes), recipeId, userId, rating).Some? ==>
              db.nextRatingId == old(db.nextRatingId) && db.clock == old(db.clock)
    ensures SubmitRejection(old(db.recipes), recipeId, userId, rating).None? ==>
              db.clock == old(db.clock) + 1 &&
              db.nextRatingId == old(db.nextRatingId) + (if PairRows(old(db.ratings), recipeId, userId) != [] then 0 else 1)
    ensures var rejection := SubmitRejection(old(db.recipes), recipeId, userId, rating);
            if rejection.Some? then
              res == Response(false, rejection.value) && db.ratings == old(db.ratings)
            else
              res == Response(true, if PairRows(old(db.ratings), recipeId, userId) != []
                                    then UpdatedMessage else SubmittedMessage) &&
              db.ratings == Upsert(old(db.ratings), recipeId, userId, rating, comment, old(db.clock), old(db.nextRatingId))
  {
    if rating < 1 || rating > 5 {
      return Response(false, RangeMessage);
    }
    var recipe := FindRecipe(db.recipes, recipeId);
    if recipe.None? {
      return Response(false, RecipeNotFoundMessage);
    }
    if recipe.value.userId == userId {
      return Response(false, OwnRecipeMessage);
    }
    UpsertKeepsInvariant(db.ratings, db.recipes, recipeId, userId, rating, comment, db.clock, db.nextRatingId);
    if PairRows(db.ratings, recipeId, userId) != [] {
      db.ratings := UpdatePair(db.ratings, recipeId, userId, rating, comment, db.clock);
      res := Response(true, UpdatedMessage);
    } else {
      db.ratings := db.ratings + [Rating(db.nextRatingId, recipeId, userId, rating, comment, db.clock, db.clock)];
      db.nextRatingId := db.nextRatingId + 1;
      res := Response(true, SubmittedMessage);
    }
    db.clock := db.clock + 1;
  }

  // ---------------------------------------------------------------------
  // getUserRating
  // ---------------------------------------------------------------------

  /** The `rating, comment` columns `getUserRating` selects. */
  datatype UserRatingRow = UserRatingRow(rating: int, comment: string)

  /** `getUserRating`: the user's rating of the recipe, or nothing (PHP's `false`). */
  function GetUserRating(ratings: seq<Rating>, recipeId: int, userId: int): (r: Option<UserRatingRow>)
    ensures r.None? <==> forall row :: row in ratings ==> !(row.recipeId == recipeId && row.userId == userId)
    ensures r.Some? ==> exists row :: row in ratings && row.recipeId == recipeId && row.userId == userId &&
                                      r.value == UserRatingRow(row.value, row.comment)
  {
    var rows := PairRows(ratings, recipeId, userId);
    if rows == [] then None
    else
      assert rows[0] in rows;
      Some(UserRatingRow(rows[0].value, rows[0].comment))
  }

  // ---------------------------------------------------------------------
  // getRecipeRatings
  // ---------------------------------------------------------------------

  /** A row of the listing: the rating joined with its author. */
  datatype RatingRow = RatingRow(rating: int, comment: string, createdAt: nat, firstName: string, lastName: string, username: string)

  datatype RatingPage = RatingPage(ratings: seq<RatingRow>, total: nat, pages: nat, currentPage: int)

  /** `JOIN users u ON r.user_id = u.id` keeps the ratings whose author exists. */
  function AuthorKnown(users: seq<User>): Rating -> bool {
    (r: Rating) => FindUser(users, r.userId).Some?
  }

  function ToRow(x: Rating, u: User): RatingRow {
    RatingRow(x.value, x.comment, x.createdAt, u.firstName, u.lastName, u.username)
  }

  function JoinAuthors(rows: seq<Rating>, users: seq<User>): (r: seq<RatingRow>)
    requires forall x :: x in rows ==> FindUser(users, x.userId).Some?
    ensures |r| == |rows|
    ensures forall i :: 0 <= i < |rows| ==> r[i] == ToRow(rows[i], FindUser(users, rows[i].userId).value)
  {
    seq(|rows|, i requires 0 <= i < |rows| => ToRow(rows[i], FindUser(users, rows[i].userId).value))
  }

  /** The listing row is a stored rating of the recipe joined with its author. */
  ghost predicate ListedFrom(row: RatingRow, ratings: seq<Rating>, users: seq<User>, recipeId: int) {
    exists x, u :: x in ratings && u in users && x.recipeId == recipeId && u.id == x.userId && row == ToRow(x, u)
  }

  /** All the recipe's ratings with their authors, newest first (`ORDER BY
      r.created_at DESC` over a table kept in insertion order). */
  function RecipeRatingsNewestFirst(ratings: seq<Rating>, users: seq<User>, recipeId: int): (r: seq<RatingRow>)
    ensures |r| <= |Filter(ratings, ForRecipe(recipeId))|
  {
    var mine := Filter(ratings, ForRecipe(recipeId));
    Reverse(JoinAuthors(Filter(mine, AuthorKnown(users)), users))
  }

  /** Each row of the listing is a stored rating of the recipe joined with its author. */
  lemma RecipeRatingsListed(ratings: seq<Rating>, users: seq<User>, recipeId: int, i: int)
    requires 0 <= i < |RecipeRatingsNewestFirst(ratings, users, recipeId)|
    ensures ListedFrom(RecipeRatingsNewestFirst(ratings, users, recipeId)[i], ratings, users, recipeId)
  {
    var mine := Filter(ratings, ForRecipe(recipeId));
    var joined := Filter(mine, AuthorKnown(users));
    var rows := JoinAuthors(joined, users);
    var x := joined[|rows| - 1 - i];
    assert x in joined;
    assert x in mine;
    var u := FindUser(users, x.userId).value;
    assert RecipeRatingsNewestFirst(ratings, users, recipeId)[i] == ToRow(x, u);
  }

  /** Every stored rating of the recipe whose author exists is listed. */
  lemma RecipeRatingsComplete(ratings: seq<Rating>, users: seq<User>, recipeId: int, x: Rating)
    requires x in ratings && x.recipeId == recipeId && FindUser(users, x.userId).Some?
    ensures var r := RecipeRatingsNewestFirst(ratings, users, recipeId);
            exists i :: 0 <= i < |r| && r[i] == ToRow(x, FindUser(users, x.userId).value)
  {
    var mine := Filter(ratings, ForRecipe(recipeId));
    var joined := Filter(mine, AuthorKnown(users));
    var r := RecipeRatingsNewestFirst(ratings, users, recipeId);
    assert x in mine;
    assert x in joined;
    var j :| 0 <= j < |joined| && joined[j] == x;
    assert r[|joined| - 1 - j] == ToRow(x, FindUser(users, x.userId).value);
  }

  /** With the table in insertion order, the listing is strictly newest first. */
  lemma RecipeRatingsOrdered(ratings: seq<Rating>, recipes: seq<Recipe>, nextId: int, clock: nat, users: seq<User>, recipeId: int)
    requires RatingsOk(ratings, recipes, nextId, clock)
    ensures var r := RecipeRatingsNewestFirst(ratings, users, recipeId);
            forall i, j :: 0 <= i < j < |r| ==> r[i].createdAt > r[j].createdAt
  {
    var mine := Filter(ratings, ForRecipe(recipeId));
    FilterPairwise(ratings, ForRecipe(recipeId), RatingBefore);
    var joined := Filter(mine, AuthorKnown(users));
    FilterPairwise(mine, AuthorKnown(users), RatingBefore);
    var rows := JoinAuthors(joined, users);
    forall i, j | 0 <= i < j < |rows| ensures rows[i].createdAt < rows[j].createdAt {
      assert RatingBefore(joined[i], joined[j]);
    }
  }

  /** `getRecipeRatings`: one page of the listing, the count of all the recipe's
      ratings (that query does not join users) and the page count. */
  function GetRecipeRatings(ratings: seq<Rating>, users: seq<User>, recipeId: int, page: int, limit: int): (p: RatingPage)
    requires page >= 1 && limit > 0
    ensures |p.ratings| <= limit
    ensures p.total == |Filter(ratings, ForRecipe(recipeId))|
    ensures p.ratings == Slice(RecipeRatingsNewestFirst(ratings, users, recipeId), PageOffset(page, limit), limit)
    ensures p.total <= p.pages * limit && (p.pages - 1) * limit < p.total
    ensures p.currentPage == page
  {
    var total := |Filter(ratings, ForRecipe(recipeId))|;
    var pages := CeilDiv(total, limit);
    RatingPage(Slice(RecipeRatingsNewestFirst(ratings, users, recipeId), PageOffset(page, limit), limit),
               total, pages, page)
  }

  // ---------------------------------------------------------------------
  // getRatingStats
  // ---------------------------------------------------------------------

  /** AVG and the five SUM(CASE ...) columns; SQL gives NULL for all of them
      when no row matches, so they are absent together. `buckets[k]` counts
      the (k+1)-star ratings. */
  datatype Aggregates = Aggregates(ratingSum: int, buckets: seq<nat>)

  /** `percents[k]` is the `*_star_percent` of (k+1) stars. */
  datatype RatingStats = RatingStats(total: nat, aggregates: Option<Aggregates>, percents: seq<nat>)

  function SumValues(rows: seq<Rating>): int {
    if rows == [] then 0 else rows[0].value + SumValues(rows[1..])
  }

  /** `SUM(CASE WHEN rating = stars THEN 1 ELSE 0 END)` */
  function StarCount(rows: seq<Rating>, stars: int): (n: nat)
    ensures n <= |rows|
  {
    if rows == [] then 0
    else (if rows[0].value == stars then 1 else 0) + StarCount(rows[1..], stars)
  }

  function Buckets(rows: seq<Rating>): (b: seq<nat>)
    ensures |b| == 5 && forall k :: 0 <= k < 5 ==> b[k] == StarCount(rows, k + 1) && b[k] <= |rows|
  {
    [StarCount(rows, 1), StarCount(rows, 2), StarCount(rows, 3), StarCount(rows, 4), StarCount(rows, 5)]
  }

  /** `getRatingStats`: the count of the recipe's ratings, their sum and star
      buckets, and one percentage per bucket, each rounded on its own
      (half-up) and all zero when there is no rating. */
  function GetRatingStats(ratings: seq<Rating>, recipeId: int): (s: RatingStats)
    ensures s.total == |Filter(ratings, ForRecipe(recipeId))|
    ensures s.aggregates.Some? <==> s.total > 0
    ensures s.aggregates.Some? ==>
              var rows := Filter(ratings, ForRecipe(recipeId));
              s.aggregates.value == Aggregates(SumValues(rows), Buckets(rows))
    ensures |s.percents| == 5
    ensures forall k :: 0 <= k < 5 ==> s.percents[k] <= 100
    ensures s.total == 0 ==> forall k :: 0 <= k < 5 ==> s.percents[k] == 0
    ensures s.aggregates.Some? ==>
              |s.aggregates.value.buckets| == 5 &&
              forall k :: 0 <= k < 5 ==>
                s.aggregates.value.buckets[k] <= s.total &&
                2 * s.percents[k] * s.total <= 200 * s.aggregates.value.buckets[k] + s.total <
                2 * (s.percents[k] + 1) * s.total
  {
    var rows := Filter(ratings, ForRecipe(recipeId));
    var total := |rows|;
    if total == 0 then RatingStats(0, None, [0, 0, 0, 0, 0])
    else
      var b := Buckets(rows);
      RatingStats(total, Some(Aggregates(SumValues(rows), b)),
                  seq(5, k requires 0 <= k < 5 => PercentRounded(b[k], total)))
  }

  /** The rounded percentage is the one value within half a point of the exact one. */
  lemma PercentIs(c: nat, t: nat, r: nat)
    requires t > 0 && 2 * r * t <= 200 * c + t < 2 * (r + 1) * t
    ensures PercentRounded(c, t) == r
  {
    var q := PercentRounded(c, t);
    if q < r {
      assert 2 * (q + 1) * t == (q + 1) * (2 * t) && 2 * r * t == r * (2 * t);
      MulLe(q + 1, r, 2 * t);
    } else if q > r {
      assert 2 * (r + 1) * t == (r + 1) * (2 * t) && 2 * q * t == q * (2 * t);
      MulLe(r + 1, q, 2 * t);
    }
  }

  /** Every row of a valid table falls into exactly one bucket. */
  lemma {:induction false} BucketsPartition(rows: seq<Rating>)
    requires forall k :: 0 <= k < |rows| ==> 1 <= rows[k].value <= 5
    ensures StarCount(rows, 1) + StarCount(rows, 2) + StarCount(rows, 3) + StarCount(rows, 4) + StarCount(rows, 5) == |rows|
    ensures |rows| <= SumValues(rows) <= 5 * |rows|
  {
    if rows != [] {
      BucketsPartition(rows[1..]);
    }
  }

  /** The five bucket counts add up to the total, and the mean lies in 1..5. */
  lemma StatsBucketsSumToTotal(ratings: seq<Rating>, recipes: seq<Recipe>, nextId: int, clock: nat, recipeId: int)
    requires RatingsOk(ratings, recipes, nextId, clock)
    ensures var s := GetRatingStats(ratings, recipeId);
            s.aggregates.Some? ==>
              var b := s.aggregates.value.buckets;
              b[0] + b[1] + b[2] + b[3] + b[4] == s.total &&
              s.total <= s.aggregates.value.ratingSum <= 5 * s.total
  {
    var rows := Filter(ratings, ForRecipe(recipeId));
    forall k | 0 <= k < |rows| ensures 1 <= rows[k].value <= 5 {
      assert rows[k] in ratings;
    }
    BucketsPartition(rows);
  }

  /** A recipe rated 5, 4, 4 and 3 stars averages 16 / 4 and shows 25% five-star,
      50% four-star and 25% three-star ratings. */
  lemma StatsExample()
    ensures GetRatingStats([Rating(1, 7, 2, 5, "", 0, 0), Rating(2, 7, 3, 4, "", 1, 1),
                            Rating(3, 7, 4, 4, "", 2, 2), Rating(4, 7, 5, 3, "", 3, 3)], 7) ==
            RatingStats(4, Some(Aggregates(16, [0, 0, 1, 2, 1])), [0, 0, 25, 50, 25])
  {
    var rows := [Rating(1, 7, 2, 5, "", 0, 0), Rating(2, 7, 3, 4, "", 1, 1),
                 Rating(3, 7, 4, 4, "", 2, 2), Rating(4, 7, 5, 3, "", 3, 3)];
    FilterAll(rows, ForRecipe(7));
    PercentIs(0, 4, 0);
    PercentIs(1, 4, 25);
    PercentIs(2, 4, 50);
  }

  /** The percentages are rounded independently and need not add up to 100:
      three ratings of 1, 2 and 3 stars give 33 + 33 + 33. */
  lemma PercentsNeedNotSumTo100()
    ensures var p := GetRatingStats([Rating(1, 7, 2, 1, "", 0, 0), Rating(2, 7, 3, 2, "", 1, 1),
                                     Rating(3, 7, 4, 3, "", 2, 2)], 7).percents;
            p == [33, 33, 33, 0, 0] && p[0] + p[1] + p[2] + p[3] + p[4] == 99
  {
    var rows := [Rating(1, 7, 2, 1, "", 0, 0), Rating(2, 7, 3, 2, "", 1, 1), Rating(3, 7, 4, 3, "", 2, 2)];
    FilterAll(rows, ForRecipe(7));
    assert PercentRounded(1, 3) == 33 && PercentRounded(0, 3) == 0;
  }

  // ---------------------------------------------------------------------
  // deleteRating
  // ---------------------------------------------------------------------

  /** Whose row `deleteRating` removes, or nothing when it refuses. It refuses
      a truthy `ratingUserId` other than the caller's; otherwise the target is
      `ratingUserId ?? userId`. Since `??` tests only for null, a
      `ratingUserId` of 0 passes the (truthiness) check and targets user 0:
      that is the only way to target someone else. */
  function DeleteTarget(userId: int, ratingUserId: Option<int>): (t: Option<int>)
    ensures t.None? <==> TruthyInt(ratingUserId) && ratingUserId.value != userId
    ensures t.Some? && t.value != userId ==> ratingUserId == Some(0) && t.value == 0
    ensures ratingUserId.None? ==> t == Some(userId)
    ensures t.Some? ==> t.value == OrElse(ratingUserId, userId)
  {
    if TruthyInt(ratingUserId) && ratingUserId.value != userId then None
    else Some(OrElse(ratingUserId, userId))
  }

  /** `DELETE FROM ratings WHERE recipe_id = ? AND user_id = ?` */
  function RemovePair(rows: seq<Rating>, recipeId: int, userId: int): (r: seq<Rating>)
    ensures forall x :: x in r <==> x in rows && !(x.recipeId == recipeId && x.userId == userId)
  {
    Filter(rows, NotForPair(recipeId, userId))
  }

  /** The delete removes exactly the pair's rows (so its row count is their
      number) and keeps every other pair's rows. */
  lemma {:induction false} RemovePairEffect(rows: seq<Rating>, recipeId: int, userId: int)
    ensures |RemovePair(rows, recipeId, userId)| + |PairRows(rows, recipeId, userId)| == |rows|
    ensures PairRows(RemovePair(rows, recipeId, userId), recipeId, userId) == []
    ensures forall r, u :: (r, u) != (recipeId, userId) ==>
              PairRows(RemovePair(rows, recipeId, userId), r, u) == PairRows(rows, r, u)
  {
    if rows != [] {
      RemovePairEffect(rows[1..], recipeId, userId);
    }
  }

  /** Removing rows keeps the ratings table invariant. */
  lemma FilterKeepsRatingsOk(rows: seq<Rating>, keep: Rating -> bool, recipes: seq<Recipe>, nextId: int, clock: nat)
    requires RatingsOk(rows, recipes, nextId, clock)
    ensures RatingsOk(Filter(rows, keep), recipes, nextId, clock)
  {
    var kept := Filter(rows, keep);
    FilterPairwise(rows, keep, RatingBefore);
    forall i | 0 <= i < |kept| ensures RatingRowOk(kept[i], recipes, nextId, clock) {
      assert kept[i] in kept;
      var j :| 0 <= j < |rows| && rows[j] == kept[i];
      assert RatingRowOk(rows[j], recipes, nextId, clock);
    }
  }

  /** `deleteRating`: `ratingUserId` is PHP's optional third argument. */
  method DeleteRating(db: Db, recipeId: int, userId: int, ratingUserId: Option<int>) returns (res: Response)
    requires db.Valid()
    modifies db
    ensures db.Valid()
    ensures db.users == old(db.users) && db.recipes == old(db.recipes) && db.clock == old(db.clock)
    ensures db.nextUserId == old(db.nextUserId) && db.nextRecipeId == old(db.nextRecipeId) &&
            db.nextRatingId == old(db.nextRatingId)
    ensures var target := DeleteTarget(userId, ratingUserId);
            if target.None? then
              res == Response(false, NotYourRatingMessage) && db.ratings == old(db.ratings)
            else
              db.ratings == RemovePair(old(db.ratings), recipeId, target.value) &&
              res == if PairRows(old(db.ratings), recipeId, target.value) != []
                     then Response(true, DeletedMessage)
                     else Response(false, RatingNotFoundMessage)
  {
    if TruthyInt(ratingUserId) && ratingUserId.value != userId {
      return Response(false, NotYourRatingMessage);
    }
    var target := OrElse(ratingUserId, userId);
    var before := db.ratings;
    FilterKeepsRatingsOk(before, NotForPair(recipeId, target), db.recipes, db.nextRatingId, db.clock);
    db.ratings := RemovePair(before, recipeId, target);
    RemovePairEffect(before, recipeId, target);
    var rowCount := |before| - |db.ratings|;
    if rowCount > 0 {
      res := Response(true, DeletedMessage);
    } else {
      res := Response(false, RatingNotFoundMessage);
    }
  }

  // ---------------------------------------------------------------------
  // displayStars and displayInteractiveStars
  // ---------------------------------------------------------------------

  const StarsOpen := "<div class=\"stars\">"
  const FilledStar := "<span class=\"star filled\">\U{2605}</span>"
  const EmptyStar := "<span class=\"star\">\U{2606}</span>"
  const DivClose := "</div>"

  function Repeat(s: string, n: nat): string {
    if n == 0 then "" else Repeat(s, n - 1) + s
  }

  /** Position `i` (from 1) of the row of stars is filled. */
  predicate Reaches(rating: real, i: int) {
    i as real <= rating
  }

  /** How many of the positions 1..maxStars are at most `rating`. */
  function FilledStars(rating: real, maxStars: int): (k: nat)
    ensures maxStars <= 0 ==> k == 0
    ensures maxStars > 0 ==> k <= maxStars
    ensures forall i :: 1 <= i <= maxStars ==> (i <= k <==> Reaches(rating, i))
  {
    if maxStars <= 0 || rating < 1.0 then 0
    else if rating.Floor >= maxStars then maxStars
    else rating.Floor
  }

  /** The opening tag and the first `n` positions of the row: position i is
      filled while i <= k, otherwise empty or absent. */
  function StarsPrefix(k: nat, showEmpty: bool, n: nat): string {
    if n == 0 then StarsOpen
    else StarsPrefix(k, showEmpty, n - 1) + (if n <= k then FilledStar else if showEmpty then EmptyStar else "")
  }

  /** Up to position k every position is filled. */
  lemma {:induction false} StarsPrefixFilled(k: nat, showEmpty: bool, n: nat)
    requires n <= k
    ensures StarsPrefix(k, showEmpty, n) == StarsOpen + Repeat(FilledStar, n)
  {
    if n > 0 {
      StarsPrefixFilled(k, showEmpty, n - 1);
    }
  }

  /** Past position k the positions are empty stars, or nothing. */
  lemma {:induction false} StarsPrefixEmpty(k: nat, showEmpty: bool, n: nat)
    requires n >= k
    ensures StarsPrefix(k, showEmpty, n) ==
            StarsOpen + Repeat(FilledStar, k) + (if showEmpty then Repeat(EmptyStar, n - k) else "")
  {
    if n == k {
      StarsPrefixFilled(k, showEmpty, n);
    } else {
      StarsPrefixEmpty(k, showEmpty, n - 1);
    }
  }

  /** `displayStars`: the filled stars come first, as many as the positions not
      above the rating; the rest are drawn empty only when `showEmpty`. */
  method DisplayStars(rating: real, maxStars: int, showEmpty: bool) returns (html: string)
    ensures var k := FilledStars(rating, maxStars);
            html == StarsOpen + Repeat(FilledStar, k) +
                    (if showEmpty && maxStars > 0 then Repeat(EmptyStar, maxStars - k) else "") + DivClose
  {
    var k := FilledStars(rating, maxStars);
    html := StarsOpen;
    var i := 1;
    while i <= maxStars
      invariant 1 <= i <= if maxStars >= 1 then maxStars + 1 else 1
      invariant html == StarsPrefix(k, showEmpty, i - 1)
    {
      if i as real <= rating {
        assert Reaches(rating, i);
        html := html + FilledStar;
      } else {
        assert !Reaches(rating, i);
        if showEmpty {
          html := html + EmptyStar;
        }
      }
      i := i + 1;
    }
    StarsPrefixEmpty(k, showEmpty, i - 1);
    html := html + DivClose;
  }

  function InteractiveOpen(currentRating: int): string {
    "<div class=\"star-rating\" data-rating=\"" + IntToString(currentRating) + "\">"
  }

  /** The radio input and label for the star worth `i`. */
  function StarRadio(name: string, i: int, checked: bool): string {
    "<input type=\"radio\" name=\"" + name + "\" value=\"" + IntToString(i) +
    "\" id=\"star" + IntToString(i) + "\" " + (if checked then "checked" else "") + ">" +
    "<label for=\"star" + IntToString(i) + "\" class=\"star-label\">\U{2605}</label>"
  }

  /** The five radios; the one worth the current rating, and no other, is checked. */
  function StarRadios(name: string, currentRating: int): (r: seq<string>)
    ensures |r| == 5
    ensures forall k :: 0 <= k < 5 ==> r[k] == StarRadio(name, k + 1, k + 1 == currentRating)
  {
    seq(5, k requires 0 <= k < 5 => StarRadio(name, k + 1, k + 1 == currentRating))
  }

  function Concat(parts: seq<string>): string {
    if parts == [] then "" else Concat(parts[..|parts| - 1]) + parts[|parts| - 1]
  }

  lemma ConcatSnoc(parts: seq<string>, i: nat)
    requires i < |parts|
    ensures Concat(parts[..i + 1]) == Concat(parts[..i]) + parts[i]
  {
    assert parts[..i + 1][..i] == parts[..i];
  }

  /** `displayInteractiveStars`: the five radios in order inside the wrapper. */
  method DisplayInteractiveStars(name: string, currentRating: int) returns (html: string)
    ensures html == InteractiveOpen(currentRating) + Concat(StarRadios(name, currentRating)) + DivClose
  {
    var radios := StarRadios(name, currentRating);
    var inputs := "";
    for i := 0 to 5
      invariant inputs == Concat(radios[..i])
    {
      ConcatSnoc(radios, i);
      inputs := inputs + radios[i];
    }
    assert radios[..5] == radios;
    html := InteractiveOpen(currentRating) + inputs + DivClose;
  }
}
