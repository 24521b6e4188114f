# Recipe-rating CMS core in Dafny

This is a Dafny model of the PHP helper library behind a small recipe-sharing site. Users register and log in. They publish recipes with an optional image, and they rate other people's recipes with one to five stars and a comment. The model covers four parts:

- `includes/ratings.php` (module `Ratings`):
  - the update-or-insert of one rating per (recipe, user) pair;
  - the point lookup;
  - the paginated, newest-first listing;
  - the five-bucket statistics with independently rounded percentages;
  - author-only deletion;
  - the two star-HTML builders.
- `includes/recipes.php` (module `Recipes`):
  - the filtered, paginated recipe listing with rating aggregates;
  - the point lookup;
  - owner-only create, update and delete, where delete cascades to the recipe's ratings;
  - the validation part of the image upload;
  - `formatTime`.
- `includes/auth.php` (module `Auth`):
  - registration with its three ordered checks;
  - username-or-email login that fills the session;
  - `isLoggedIn` and `getCurrentUser`;
  - the set-once CSRF token and its check.
- `submit_rating.php` (module `SubmitRatingEndpoint`): the chain of early-exit guards that leads to `submitRating`.

Module `Store` holds the three tables as sequences of rows in insertion order, inside a `Db` object.

- Ids come from auto-increment counters.
- Every `CURRENT_TIMESTAMP` comes from a logical clock that advances on each write that takes a timestamp: a recipe insert, and a rating insert or update. Registration, edits and deletes leave it unchanged. Because of this, `ORDER BY created_at DESC` is the reverse of table order.
- `Db.Valid()` is the invariant every operation keeps:
  - ids are issued and increasing;
  - usernames and emails are unique as exact strings;
  - every recipe has a non-empty title, ingredients and instructions;
  - every rating has a value in 1..5 and belongs to an existing recipe that its author does not own;
  - no (recipe, user) pair has two rating rows.

Module `Common` holds PHP's truthiness, `trim`, `strlen` over UTF-8, decimal conversions, SQL-style filtering and paging, and integer round-half-up.

The state-changing helpers are methods on `Db` (or on the `Auth.Session` object). Each method's postcondition gives the new tables as a function of the old ones. Lemmas about those functions state what the site promises.

## Model

| member | source | states |
|---|---|---|
| Common.Slice | includes/ratings.php:81-84 | `LIMIT limit OFFSET offset` keeps the rows from the offset on, in order, and at most `limit` of them. It is empty when the offset is past the end. |
| Common.CeilDiv | includes/ratings.php:95 | `ceil(n/d)` is the least page count whose pages of size d cover n rows. |
| Common.CeilDivQuotient | includes/recipes.php:57 | `ceil(n/d)` is n div d, plus one exactly when the division leaves a remainder. |
| Common.LastPageSize | includes/ratings.php:73-95 | The last page holds the remainder of the division, or a full page when the total divides evenly. |
| Common.PastLastPageEmpty | includes/recipes.php:13-57 | A page number beyond `pages` gives an empty page. |
| Common.ItemOnItsPage | includes/recipes.php:13-57 | Row i of a listing is at position i mod limit of page i div limit + 1, and that page is within `pages`. |
| Common.PercentRounded | includes/ratings.php:122-126 | The rounded percentage is within half a point of 100·c/t, rounding halves up. It is at most 100 when c ≤ t. |
| Common.Trim | submit_rating.php:28 | `trim` drops only leading and trailing whitespace, and the result neither starts nor ends with it. |
| Common.TrimIdempotent | submit_rating.php:28 | Trimming a trimmed comment changes nothing. |
| Common.ByteLength | includes/auth.php:28 | `strlen` counts UTF-8 bytes: at least one and at most four per character. |
| Store.Db.Valid | includes/ratings.php:35-49 | The table invariant kept by every operation. Under it no two rating rows share a (recipe, user) pair, and no two users share a username or an email. |
| Store.FindUser | includes/recipes.php:68-75 | The user found for an id is a stored row with that id. Nothing is found exactly when no row has the id. |
| Store.FindRecipe | includes/ratings.php:20-26 | The recipe found for an id is a stored row with that id. Nothing is found exactly when no row has the id. |
| Ratings.SubmitRejection | includes/ratings.php:14-31 | The refusal messages come in the source's order: out-of-range value first, then a missing recipe, then the caller's own recipe. There is no refusal exactly when the value is in 1..5 and the recipe exists with another owner. |
| Ratings.AtMostOneRowPerPair | includes/ratings.php:35-49 | Under the table invariant, a (recipe, user) pair has at most one rating row. |
| Ratings.UpdatePair | includes/ratings.php:41-42 | The UPDATE rewrites value, comment and `updated_at` of exactly the pair's rows. Every other row is kept and the row count does not change. |
| Ratings.UpdatePairKeepsOtherPairs | includes/ratings.php:41-42 | Updating one pair leaves every other pair's rows equal. |
| Ratings.UpdatePairRewritesPair | includes/ratings.php:41-43 | After the update, the pair has as many rows as before, and each holds the new value and comment. |
| Ratings.UpsertLeavesOneRow | includes/ratings.php:35-49 | After a successful submit, the pair has exactly one row, holding the submitted value and comment, and `getUserRating` returns them. |
| Ratings.UpsertKeepsOtherPairs | includes/ratings.php:35-49 | A submit leaves the rows of every other (recipe, user) pair unchanged. |
| Ratings.UpsertKeepsInvariant | includes/ratings.php:11-49 | A submit that passes the checks keeps the ratings-table invariant: one row per pair, values in 1..5, no self-rating, increasing ids and times. |
| Ratings.SubmitRating | includes/ratings.php:11-51 | On refusal, the response carries that message and the ratings table is unchanged. Otherwise the table is upserted, and the message is "updated" exactly when the pair already had a row, else "submitted". The invariant is kept. |
| Ratings.Upsert | includes/ratings.php:35-49 | Without a row for the pair, one row is appended with the next id, the value, the comment and the current time as both timestamps. With one, the row count stays and every row keeps its id, recipe, user and `created_at`. |
| Ratings.GetUserRating | includes/ratings.php:60-66 | Nothing is returned exactly when the user has not rated the recipe. Otherwise the result is the rating and comment of a stored row for that pair. |
| Ratings.JoinAuthors | includes/ratings.php:76-78 | Definition: each listed rating is paired with its author's names, one output row per input row. |
| Ratings.RecipeRatingsNewestFirst | includes/ratings.php:76-80 | The listing has no more rows than the recipe has ratings. |
| Ratings.RecipeRatingsListed | includes/ratings.php:76-79 | Soundness of the JOIN: every listed row is a stored rating of the recipe, joined with its author's names. |
| Ratings.RecipeRatingsComplete | includes/ratings.php:76-79 | Completeness of the JOIN: every stored rating of the recipe whose author exists is listed, joined with that author. |
| Ratings.RecipeRatingsOrdered | includes/ratings.php:80 | The listing is strictly ordered by `created_at`, newest first. |
| Ratings.GetRecipeRatings | includes/ratings.php:71-97 | A page holds at most `limit` rows, starting at offset (page-1)·limit of the newest-first listing. `total` counts all the recipe's ratings. `pages` is ceil(total/limit), and `current_page` is the page asked for. |
| Ratings.StarCount | includes/ratings.php:109-113 | A bucket count never exceeds the number of rows. |
| Ratings.Buckets | includes/ratings.php:109-113 | Definition: there are five buckets, and bucket k counts the (k+1)-star rows. |
| Ratings.GetRatingStats | includes/ratings.php:103-137 | `total_ratings` is the recipe's rating count, and the aggregates are present exactly when it is positive. They are then the sum of the recipe's rating values and its five star buckets. Every percentage is 0 when the total is 0. Otherwise each percentage is the round-half-up of 100·count/total, computed per bucket and within 0..100. |
| Ratings.PercentIs | includes/ratings.php:123-127 | The rounded percentage is the unique integer within half a point of the exact one. |
| Ratings.BucketsPartition | includes/ratings.php:106-115 | Over values in 1..5, the five buckets sum to the row count, and the sum of values lies between the count and five times the count. |
| Ratings.StatsBucketsSumToTotal | includes/ratings.php:106-115 | Over a valid table, the five bucket counts sum to `total_ratings`, and the mean lies in 1..5. |
| Ratings.StatsExample | includes/ratings.php:106-134 | Ratings 5, 4, 4 and 3 give total 4, sum 16, buckets [0,0,1,2,1] and percentages [0,0,25,50,25]. |
| Ratings.PercentsNeedNotSumTo100 | includes/ratings.php:122-127 | Percentages are not normalised: ratings 1, 2 and 3 give 33+33+33 = 99. |
| Ratings.DeleteTarget | includes/ratings.php:145-153 | The delete is refused exactly when `ratingUserId` is truthy and differs from the caller. Otherwise the target is `ratingUserId ?? userId`, so a missing `ratingUserId` targets the caller. Someone else can be targeted only through `ratingUserId` 0. |
| Ratings.RemovePairEffect | includes/ratings.php:152-159 | The DELETE removes exactly the pair's rows, so the row count equals their number. Every other pair keeps its rows. |
| Ratings.RemovePair | includes/ratings.php:152-153 | A row survives the DELETE exactly when it is not of the (recipe, user) pair. |
| Ratings.FilterKeepsRatingsOk | includes/ratings.php:152-153 | Deleting ratings keeps the ratings-table invariant. |
| Ratings.DeleteRating | includes/ratings.php:142-163 | A refused delete returns the ownership message and removes nothing. Otherwise exactly the target pair's rows are removed, and the delete succeeds exactly when such a row existed. |
| Ratings.FilledStars | includes/ratings.php:171-176 | Position i in 1..maxStars is filled exactly when i ≤ rating. The filled positions come first. |
| Ratings.DisplayStars | includes/ratings.php:168-181 | The HTML is the wrapper, the filled stars, then the remaining positions as empty stars only when `showEmpty`, then `</div>`. |
| Ratings.StarRadios | includes/ratings.php:189-193 | Definition: there are five radios worth 1..5, and a radio is checked exactly when its value equals the current rating. |
| Ratings.DisplayInteractiveStars | includes/ratings.php:186-197 | The HTML is the wrapper carrying `data-rating`, the five radios in order, then `</div>`. |
| Recipes.AverageRating | includes/recipes.php:30 | The average is 0 without ratings; otherwise average·count = sum. |
| Recipes.AverageInRange | includes/recipes.php:29-34 | Over a valid ratings table, a rated recipe's average lies in 1..5. |
| Recipes.MatchesFilter | includes/recipes.php:18-26 | With no truthy search and no truthy user id, every recipe matches. A matching recipe contains a truthy search term in its title, description or ingredients, and is owned by a truthy user id. |
| Recipes.Summarize | includes/recipes.php:29-36 | The summary carries the recipe, its owner's username and names, the count of the recipe's ratings (at most the table size) and the sum of their values. |
| Recipes.Summaries | includes/recipes.php:29-36 | Definition: each listed recipe carries its owner's names and the sum and count of its ratings. |
| Recipes.RecipesNewestFirst | includes/recipes.php:15-37 | The entry count is the number of stored recipes that match the filters and have an owner. |
| Recipes.RecipesListingSound | includes/recipes.php:15-37 | Every entry is a stored recipe that matches the search and owner filters, AND-combined, and whose owner exists. It carries that owner's names and the recipe's rating aggregates. |
| Recipes.RecipesListingComplete | includes/recipes.php:15-37 | Every stored recipe that matches the filters and whose owner exists is listed. |
| Recipes.RecipesOrdered | includes/recipes.php:37 | The listing is strictly ordered by `created_at`, newest first. |
| Recipes.GetRecipes | includes/recipes.php:11-60 | `total` counts all matches regardless of page. A page holds at most `limit` entries, starting at offset (page-1)·limit. `pages` is ceil(total/limit), and `current_page` is the page asked for. |
| Recipes.EveryRecipeOnAPage | includes/recipes.php:38-57 | The i-th listed recipe appears at position i mod limit of page i div limit + 1, and that page is within `pages`. |
| Recipes.GetRecipeById | includes/recipes.php:65-80 | A result exists exactly when the id is stored and its owner exists. It is that recipe with its owner's username and names, and the count and sum of its ratings. |
| Recipes.CreateKeepsInvariant | includes/recipes.php:85-95 | Inserting a recipe with the next id and the current time keeps both tables' invariants. |
| Recipes.CreateRecipe | includes/recipes.php:85-99 | Appends exactly one row with the next id, the caller as owner and the given fields, and returns that id. |
| Recipes.CreatedRecipeIsFound | includes/recipes.php:85-95 | Right after creation, `getRecipeById` of the returned id yields the new recipe with its owner's names and no ratings. |
| Recipes.Edited | includes/recipes.php:117-124 | An edit replaces the seven form fields and keeps id, owner and creation time. It replaces the image only when a new name is given. |
| Recipes.ApplyEdit | includes/recipes.php:117-130 | The UPDATE changes exactly the row with the id. |
| Recipes.FindRecipeAfterEdit | includes/recipes.php:126-130 | After an edit, every id finds the same row as before, edited when it is the target. |
| Recipes.EditKeepsInvariant | includes/recipes.php:104-130 | An edit with the required fields present keeps both tables' invariants. |
| Recipes.UpdateRecipe | includes/recipes.php:104-136 | A missing recipe or a non-owner gets the ownership message, and nothing changes. Otherwise exactly the edit is applied. |
| Recipes.ImageToRemove | includes/recipes.php:158-161 | Definition: a file is to be removed exactly when the stored image name is truthy, and its path is under `uploads/`. |
| Recipes.FindRecipeAfterDelete | includes/recipes.php:155-156 | After the delete, the id finds nothing, and every other id finds what it found before. |
| Recipes.DeleteRecipeEffect | includes/recipes.php:154-156 | After the delete, no rating of the recipe is left, and every other recipe keeps all its ratings. |
| Recipes.DeleteKeepsInvariant | includes/recipes.php:153-156 | Removing a recipe and cascading to its ratings keeps both tables' invariants. |
| Recipes.DeleteRecipe | includes/recipes.php:141-167 | A missing recipe or a non-owner gets the ownership message, and nothing is removed. Otherwise the recipe and all its ratings are removed, and the image path to unlink is returned. |
| Recipes.UploadRejection | includes/recipes.php:172-190 | The upload checks come in order: a missing file or upload error, then the declared type against jpeg/png/gif, then size above 5·1024·1024. The file passes exactly when all three checks pass. |
| Recipes.Extension | includes/recipes.php:193 | When the last path component has a dot, the extension is the suffix after that component's last dot; otherwise it is empty. It contains no dot or slash. |
| Recipes.UploadRecipeImage | includes/recipes.php:172-208 | Definition: the upload succeeds exactly when the checks pass and the move succeeds. The stored name is `uniqid_time.ext`, and a refusal carries the check's message. A failed move gives "Failed to save uploaded file". |
| Recipes.DeclaredTypeDecides | includes/recipes.php:183-194 | Only the declared type is checked: `shell.php` sent as image/png is stored with extension `.php`. |
| Recipes.PhpExtension | includes/recipes.php:193 | The extension of `shell.php` is `php`. |
| Recipes.FormatTimeRoundTrip | includes/recipes.php:213-221 | `formatTime` loses nothing: every duration is read back from its text. |
| Recipes.FormatTime | includes/recipes.php:213-221 | Under an hour the text is "m min". From an hour on it is "Hh" followed by the minutes suffix, with H = minutes div 60. The text has the short " min" form exactly when the duration is under an hour. |
| Recipes.ShortRoundTrip | includes/recipes.php:214-215 | Under an hour, the text reads back as the number of minutes. |
| Recipes.HoursRoundTrip | includes/recipes.php:216-219 | From an hour on, the text reads back as 60·H+M, from the hours and the minutes suffix. |
| Recipes.MinutesPart | includes/recipes.php:219 | The suffix is empty exactly for a whole hour; otherwise it is " Mmin". |
| Recipes.HoursFormNotShort | includes/recipes.php:214-219 | The hours form never looks like the "m min" form, so the two branches' texts cannot be confused. |
| Recipes.MinutesPartRoundTrip | includes/recipes.php:219 | The minutes suffix reads back as M. |
| Auth.RegisterRejection | includes/auth.php:19-34 | The checks come in order: username or email taken, then a password under 6 bytes, then an invalid email. Each message is given exactly when its check is the first to fail, and there is none exactly when all pass. |
| Auth.RegisterKeepsInvariant | includes/auth.php:20-44 | Inserting a user that passed the taken check keeps usernames and emails unique and ids increasing. |
| Auth.RegisterUser | includes/auth.php:16-48 | A failed check inserts nothing. Success adds exactly one user with the next id, the given names and `hash(password)`, and keeps the invariant. |
| Auth.FindLogin | includes/auth.php:56-58 | The fetched row matches the identifier as username or as email. There is none exactly when no row matches either way. |
| Auth.FindLoginFirst | includes/auth.php:56-58 | The first row in table order that matches the identifier is the one fetched. |
| Auth.RegisteredUserFoundByUsername | includes/auth.php:20-57 | A new user logs in by username, provided no earlier user has that string as email. |
| Auth.RegisteredUserFoundByEmail | includes/auth.php:20-57 | A new user logs in by email, provided no earlier user has that string as username. |
| Auth.UsernameShadowedByEmail | includes/auth.php:20-57 | Registration accepts a username equal to an existing email. Logging in with that string then reaches the older account. |
| Auth.Session.constructor | includes/auth.php:9-11 | A new session is not logged in and holds no CSRF token. |
| Auth.Session.IsLoggedIn | includes/auth.php:86-88 | `isLoggedIn` holds exactly when the session's logged-in flag is set. |
| Auth.Session.CurrentUser | includes/auth.php:86-104 | Definition: `getCurrentUser` is null exactly when not logged in. Otherwise it returns the five stored user keys. |
| Auth.Session.ValidateCsrfToken | includes/auth.php:133-135 | Definition: a token validates exactly when one is stored and it equals the given one. |
| Auth.Session.GenerateCsrfToken | includes/auth.php:126-131 | The token is set once: a stored token is returned unchanged, and otherwise the fresh value is stored and returned. The result validates, and the login state is untouched. |
| Auth.LoginUser | includes/auth.php:53-73 | On a matching row with a verified password, the session holds that user, so `isLoggedIn` holds and `getCurrentUser` returns its id, username, email and names. On failure, the session is unchanged. |
| SubmitRatingEndpoint.IntCast | submit_rating.php:26-27 | The cast is negative only when the first non-space character is a minus sign. |
| SubmitRatingEndpoint.PostedInt | submit_rating.php:26-27 | A missing field is 0 (`?? 0`); a present one is its `(int)` cast. |
| SubmitRatingEndpoint.IntCastReadsIntText | submit_rating.php:26-27 | The `(int)` cast reads back the decimal text of every integer. |
| SubmitRatingEndpoint.IntCastNoDigits | submit_rating.php:26-27 | Text with no digit after its leading whitespace and optional sign casts to 0. This covers the empty string, " ", "X" and "-x". |
| SubmitRatingEndpoint.Decide | submit_rating.php:8-43 | With no login, the answer is the login failure, whatever else is sent. The other guards run in order: POST method, CSRF token (`?? ''`), recipe id > 0, rating in 1..5. Each failure message is given exactly when its guard is the first to fail. When all pass, the call is `submitRating(recipeId, currentUser.id, rating, trim(comment))`. |
| SubmitRatingEndpoint.MissingRecipeIdRefused | submit_rating.php:26-35 | A missing recipe id, or one with no number in it (empty, "X", " ", "-x"), gets "Invalid recipe ID", and nothing is submitted. |
| SubmitRatingEndpoint.NonPositiveRecipeIdRefused | submit_rating.php:26-35 | A recipe id written as 0 or a negative number gets "Invalid recipe ID". |
| SubmitRatingEndpoint.MissingRatingRefused | submit_rating.php:27-40 | For every positive recipe id, a missing or non-numeric rating casts to 0 and gets the range failure. |
| SubmitRatingEndpoint.HandleSubmitRating | submit_rating.php:8-46 | When a guard fails, the response is that guard's, and the ratings table, the rating id counter and the clock are unchanged. Otherwise the response and the new table are exactly what `submitRating` answers and does for the decided arguments. A refusal uses no id and no timestamp. A success advances the clock, and it uses a new rating id only when it inserts. Users, recipes and their counters never change. |

## Left out

- Database exceptions: the `PDOException` branches that answer "Failed to ..." or "Registration failed: ..." are not modelled, and every statement is taken to succeed.
- Auth.RegisterRejection and Auth.FindLogin: SQL `=` in `WHERE username = ? OR email = ?` is read as exact string equality. Column collation (case folding, trailing-space padding) is not modelled, since the schema is not part of this model. So the uniqueness of usernames and emails in `Db.Valid` is exact-string uniqueness: under a case-insensitive collation the source would refuse "Alice" next to "alice", and would log "ALICE" in as alice.
- Recipes.MatchesFilter: `LIKE '%term%'` is read as a plain substring test. Collation, case folding and the `%` and `_` wildcards inside the search term are not modelled.
- Recipes.AverageRating: `AVG()` is a floating-point value in SQL. The model keeps the sum and count of the ratings and uses an exact rational mean.
- Ratings.GetRatingStats: `round()` of a float is modelled as integer round-half-up, (200·c + t) div (2·t). Float representation error at exact halves is not modelled.
- Recipes.UploadRecipeImage: `uniqid()`, `time()`, `mkdir` and `move_uploaded_file` are file-system and clock effects. They become the parameters `uniqueId`, `now` and `moved`.
- Recipes.DeleteRecipe: `file_exists` and `unlink` are not performed. The path to remove is returned instead.
- The cascade from recipes to ratings is a foreign-key rule in a schema that is not part of this model (config/database.php). `deleteRecipe` performs it explicitly.
- Foreign library calls become parameters:
  - `password_hash` and `password_verify` (`hash`, `verify`);
  - `filter_var(..., FILTER_VALIDATE_EMAIL)` (`validEmail`);
  - `bin2hex(random_bytes(32))` (`randomHex`).
  
  `hash_equals` is read as plain equality.
- `session_start`, `logoutUser` (`session_destroy`), `requireLogin` (a redirect), `sanitizeInput`, `formatIngredients` and `formatInstructions` are not modelled. They are HTML escaping, headers and session plumbing.
- SubmitRatingEndpoint.IntCast: PHP's `(int)` of a string is modelled as skipping leading whitespace, then reading an optional sign and the leading digits. The model does not cover:
  - exponent and float notations such as "1e3";
  - saturation at `PHP_INT_MAX`;
  - array-valued POST fields.
- The page scripts (index, recipe, my_recipes, add_recipe, edit_recipe, register, login, delete_recipe) and `assets/js/rating.js` are templating, redirects and browser code. The page scripts' one server-side rule, non-empty title, ingredients and instructions, is the precondition `Recipes.RequiredFieldsPresent` of `CreateRecipe` and `UpdateRecipe`. It is also part of the stored-recipe invariant.
- The 0..1440 and 1..100 bounds on times and servings exist only as HTML attributes and are not invariants here.
- `page` and `limit` are never validated by the source. The listings require `page >= 1` and `limit > 0`. The page scripts pass `(int)$_GET['page']` unchecked, so `?page=0` gives a negative OFFSET, and the resulting SQL error escapes `getRecipes`, which has no try/catch. The precondition excludes that behaviour.
- SQL without `ORDER BY` (the single-row lookups) returns the first row in table order.
- `created_at` ties: the logical clock makes timestamps distinct, so equal timestamps are not modelled.
- Concurrency: the read-then-write ownership checks and the check-then-insert upsert run as one sequential request. Races between requests are not modelled.
- Ratings.DisplayInteractiveStars and Ratings.DisplayStars: `$name` and `$currentRating` are inserted without escaping, as in the source. `$rating` is a real number, and PHP's loose comparison of non-numeric values is not modelled.
- Integer width: ids, counts and times are unbounded integers. PHP's 64-bit overflow to float is not modelled. Recipes.FormatTime: `floor($minutes / 60)` is a PHP float, and its text differs from the integer text once the hours reach about 1e15. The model prints the integer.
