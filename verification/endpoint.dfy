/** The rating endpoint: a chain of early-exit guards over the session and the
    POST fields, ending in one call to `submitRating`. The first failing guard
    decides the JSON response. */
module SubmitRatingEndpoint {
  import opened Common
  import opened Store
  import Ratings
  import Auth

  const NotLoggedInMessage := "You must be logged in to rate recipes"
  const BadMethodMessage := "Invalid request method"
  const BadTokenMessage := "Invalid request token"
  const BadRecipeIdMessage := "Invalid recipe ID"

  // ---------------------------------------------------------------------
  // PHP's (int) cast of a string
  // ---------------------------------------------------------------------

  /** The whitespace PHP skips before the digits of a numeric string. */
  predicate IsNumericSpace(c: char) {
    c == ' ' || c == '\t' || c == '\n' || c == '\r' || c == '\U{000B}' || c == '\U{000C}'
  }

  function LeadingSpace(s: string): (k: nat)
    ensures k <= |s|
    ensures forall i :: 0 <= i < k ==> IsNumericSpace(s[i])
    ensures k < |s| ==> !IsNumericSpace(s[k])
  {
    if s != [] && IsNumericSpace(s[0]) then 1 + LeadingSpace(s[1..]) else 0
  }

  /** The longest run of digits `s` starts with. */
  function DigitPrefix(s: string): (d: string)
    ensures |d| <= |s| && d == s[..|d|] && AllDigits(d)
    ensures |d| < |s| ==> !IsDigit(s[|d|])
  {
    if s != [] && IsDigit(s[0]) then
      var rest := DigitPrefix(s[1..]);
      assert s[..1 + |rest|] == [s[0]] + rest;
      [s[0]] + rest
    else []
  }

  /** `(int)$s` for a decimal string: leading whitespace is skipped, then an
      optional sign and the longest digit prefix are read; a string with no
      leading digits casts to 0. */
  function IntCast(s: string): (n: int)
    ensures n < 0 ==> var t := s[LeadingSpace(s)..]; t != [] && t[0] == '-'
  {
    var t := s[LeadingSpace(s)..];
    if t != [] && t[0] == '-' then -(ParseNat(DigitPrefix(t[1..])) as int)
    else if t != [] && t[0] == '+' then ParseNat(DigitPrefix(t[1..]))
    else ParseNat(DigitPrefix(t))
  }

  /** A string of digits is its own digit prefix. */
  lemma DigitPrefixAll(s: string)
    requires AllDigits(s)
    ensures DigitPrefix(s) == s
  {
    var d := DigitPrefix(s);
    if |d| < |s| {
      assert false;
    }
    assert s[..|s|] == s;
  }

  /** The cast reads back the decimal text of any integer. */
  lemma IntCastReadsIntText(i: int)
    ensures IntCast(IntToString(i)) == i
  {
    if i < 0 {
      IntCastNegative(NatToString(-i));
      ParseNatToString(-i);
    } else {
      IntCastDigits(NatToString(i));
      ParseNatToString(i);
    }
  }

  /** A run of digits casts to its value. */
  lemma IntCastDigits(digits: string)
    requires |digits| >= 1 && AllDigits(digits)
    ensures IntCast(digits) == ParseNat(digits) as int
  {
    assert IsDigit(digits[0]);
    assert LeadingSpace(digits) == 0;
    assert digits[0..] == digits;
    DigitPrefixAll(digits);
  }

  /** A minus sign followed by digits casts to the negated value. */
  lemma IntCastNegative(digits: string)
    requires AllDigits(digits)
    ensures IntCast("-" + digits) == -(ParseNat(digits) as int)
  {
    var s := "-" + digits;
    assert LeadingSpace(s) == 0;
    assert s[0..] == s && s[1..] == digits;
    DigitPrefixAll(digits);
  }

  /** Text that holds no number: after the leading whitespace and an optional
      sign, no digit follows. The empty string, " ", "X" and "-x" are such text. */
  predicate NoLeadingNumber(s: string) {
    var t := s[LeadingSpace(s)..];
    var u := if t != [] && (t[0] == '-' || t[0] == '+') then t[1..] else t;
    u == [] || !IsDigit(u[0])
  }

  /** Text that holds no number casts to 0. */
  lemma IntCastNoDigits(s: string)
    requires NoLeadingNumber(s)
    ensures IntCast(s) == 0
  {
    var t := s[LeadingSpace(s)..];
    if t != [] && (t[0] == '-' || t[0] == '+') {
      assert DigitPrefix(t[1..]) == [];
    } else {
      assert DigitPrefix(t) == [];
    }
  }

  // ---------------------------------------------------------------------
  // The guard chain
  // ---------------------------------------------------------------------

  /** The fields of the request the endpoint reads; a `None` is an unset key. */
  datatype RatingRequest = RatingRequest(
    requestMethod: string,
    csrfToken: Option<string>,
    recipeId: Option<string>,
    rating: Option<string>,
    comment: Option<string>)

  /** Either an early response, or the call `submitRating(recipeId, userId, rating, comment)`. */
  datatype Decision =
    | Respond(response: Response)
    | Submit(recipeId: int, userId: int, rating: int, comment: string)

  /** `(int)($_POST[key] ?? 0)`. */
  function PostedInt(field: Option<string>): (n: int)
    ensures field.None? ==> n == 0
    ensures field.Some? ==> n == IntCast(field.value)
  {
    if field.Some? then IntCast(field.value) else 0
  }

  /** The guards in source order: login, POST method, CSRF token, recipe id,
      rating range. */
  function Decide(session: Auth.Session, req: RatingRequest): (d: Decision)
    reads session
    ensures !session.IsLoggedIn() ==> d == Respond(Response(false, NotLoggedInMessage))
    ensures d == Respond(Response(false, BadMethodMessage)) <==>
              session.IsLoggedIn() && req.requestMethod != "POST"
    ensures d == Respond(Response(false, BadTokenMessage)) <==>
              session.IsLoggedIn() && req.requestMethod == "POST" &&
              !session.ValidateCsrfToken(OrElse(req.csrfToken, ""))
    ensures d == Respond(Response(false, BadRecipeIdMessage)) <==>
              session.IsLoggedIn() && req.requestMethod == "POST" &&
              session.ValidateCsrfToken(OrElse(req.csrfToken, "")) &&
              PostedInt(req.recipeId) <= 0
    ensures d == Respond(Response(false, Ratings.RangeMessage)) <==>
              session.IsLoggedIn() && req.requestMethod == "POST" &&
              session.ValidateCsrfToken(OrElse(req.csrfToken, "")) &&
              PostedInt(req.recipeId) > 0 && !(1 <= PostedInt(req.rating) <= 5)
    ensures d.Submit? <==>
              session.IsLoggedIn() && req.requestMethod == "POST" &&
              session.ValidateCsrfToken(OrElse(req.csrfToken, "")) &&
              PostedInt(req.recipeId) > 0 && 1 <= PostedInt(req.rating) <= 5
    ensures d.Submit? ==>
              d == Submit(PostedInt(req.recipeId), session.CurrentUser().value.id,
                          PostedInt(req.rating), Trim(OrElse(req.comment, "")))
    ensures d.Respond? ==> !d.response.success
  {
    if !session.IsLoggedIn() then Respond(Response(false, NotLoggedInMessage))
    else if req.requestMethod != "POST" then Respond(Response(false, BadMethodMessage))
    else if !session.ValidateCsrfToken(OrElse(req.csrfToken, "")) then Respond(Response(false, BadTokenMessage))
    else
      var recipeId := PostedInt(req.recipeId);
      var rating := PostedInt(req.rating);
      var comment := Trim(OrElse(req.comment, ""));
      var user := session.CurrentUser();
      if recipeId <= 0 then Respond(Response(false, BadRecipeIdMessage))
      else if rating < 1 || rating > 5 then Respond(Response(false, Ratings.RangeMessage))
      else Submit(recipeId, user.value.id, rating, comment)
  }

  /** A missing or non-numeric recipe id is refused before anything is stored. */
  lemma MissingRecipeIdRefused(session: Auth.Session, req: RatingRequest)
    requires session.IsLoggedIn() && req.requestMethod == "POST"
    requires session.ValidateCsrfToken(OrElse(req.csrfToken, ""))
    requires req.recipeId.None? || NoLeadingNumber(req.recipeId.value)
    ensures Decide(session, req) == Respond(Response(false, BadRecipeIdMessage))
  {
    if req.recipeId.Some? {
      IntCastNoDigits(req.recipeId.value);
    }
  }

  /** A recipe id written as zero or a negative number is refused too. */
  lemma NonPositiveRecipeIdRefused(session: Auth.Session, req: RatingRequest, id: int)
    requires session.IsLoggedIn() && req.requestMethod == "POST"
    requires session.ValidateCsrfToken(OrElse(req.csrfToken, ""))
    requires id <= 0 && req.recipeId == Some(IntToString(id))
    ensures Decide(session, req) == Respond(Response(false, BadRecipeIdMessage))
  {
    IntCastReadsIntText(id);
  }

  /** A request whose rating field is missing or non-numeric is refused with
      the range message, whatever valid recipe id it names. */
  lemma MissingRatingRefused(session: Auth.Session, req: RatingRequest)
    requires session.IsLoggedIn() && req.requestMethod == "POST"
    requires session.ValidateCsrfToken(OrElse(req.csrfToken, ""))
    requires PostedInt(req.recipeId) > 0
    requires req.rating.None? || NoLeadingNumber(req.rating.value)
    ensures Decide(session, req) == Respond(Response(false, Ratings.RangeMessage))
  {
    if req.rating.Some? {
      IntCastNoDigits(req.rating.value);
    }
  }

  /** `submit_rating.php`: the guard chain's response, or exactly what
      `submitRating` answers and does for the decided arguments. */
  method HandleSubmitRating(db: Db, session: Auth.Session, req: RatingRequest) returns (res: Response)
    requires db.Valid()
    modifies db
    ensures db.Valid()
    ensures db.users == old(db.users) && db.recipes == old(db.recipes)
    ensures db.nextUserId == old(db.nextUserId) && db.nextRecipeId == old(db.nextRecipeId)
    ensures var d := Decide(session, req);
            if d.Respond? || Ratings.SubmitRejection(old(db.recipes), d.recipeId, d.userId, d.rating).Some? then
              db.clock == old(db.clock) && db.nextRatingId == old(db.nextRatingId)
            else
              db.clock == old(db.clock) + 1 &&
              db.nextRatingId == old(db.nextRatingId) +
                (if Ratings.PairRows(old(db.ratings), d.recipeId, d.userId) != [] then 0 else 1)
    ensures var d := Decide(session, req);
            if d.Respond? then
              res == d.response && db.ratings == old(db.ratings)
            else
              var rejection := Ratings.SubmitRejection(old(db.recipes), d.recipeId, d.userId, d.rating);
              if rejection.Some? then
                res == Response(false, rejection.value) && db.ratings == old(db.ratings)
              else
                res == Response(true, if Ratings.PairRows(old(db.ratings), d.recipeId, d.userId) != []
                                      then Ratings.UpdatedMessage else Ratings.SubmittedMessage) &&
                db.ratings == Ratings.Upsert(old(db.ratings), d.recipeId, d.userId, d.rating, d.comment,
                                             old(db.clock), old(db.nextRatingId))
  {
    var d := Decide(session, req);
    if d.Respond? {
      return d.response;
    }
    res := Ratings.SubmitRating(db, d.recipeId, d.userId, d.rating, d.comment);
  }
}
