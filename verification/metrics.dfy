/** The `/metrics` routes: the number of a user's meals, the number with a
    given in-diet flag, and the best streak of in-diet meals. */
module MetricRoutes {
  import opened Records
  import opened Store
  import Streak

  /** The `inDiet` query parameter: only the literals "true" and "false" are
      accepted, and "true" means true. */
  function ParseInDiet(query: Option<string>): (r: Result<bool>)
    ensures r.Ok? <==> query == Some("true") || query == Some("false")
    ensures r.Fail? ==> r.error == Invalid
    ensures r.Ok? ==> (r.value <==> query == Some("true"))
  {
    if query == Some("true") then Ok(true)
    else if query == Some("false") then Ok(false)
    else Fail(Invalid)
  }

  /** How a client writes a flag in the query string. */
  function FormatInDiet(inDiet: bool): string {
    if inDiet then "true" else "false"
  }

  /** Every flag can be asked for, and each accepted query names exactly one flag. */
  lemma ParseInDietRoundTrip(inDiet: bool, query: Option<string>)
    ensures ParseInDiet(Some(FormatInDiet(inDiet))) == Ok(inDiet)
    ensures ParseInDiet(query) == Ok(inDiet) ==> query == Some(FormatInDiet(inDiet))
  {
  }

  /** GET /metrics/count: how many meals the logged user has. */
  method CountMeals(db: Database, token: string) returns (r: Result<nat>)
    requires db.Valid()
    ensures db.SessionUser(token).None? ==> r == Fail(Http(UNAUTHORIZED))
    ensures db.SessionUser(token).Some? ==> r == Ok(|db.UserMeals(db.SessionUser(token).value.id)|)
  {
    var user := db.SessionUser(token);
    if user.None? {
      return Fail(Http(UNAUTHORIZED));
    }
    r := Ok(|db.UserMeals(user.value.id)|);
  }

  /** GET /metrics/count/by-diet: the query is parsed before the session is
      looked at; the answer carries the count and the flag asked for. */
  method CountMealsByDiet(db: Database, query: Option<string>, token: string) returns (r: Result<(nat, bool)>)
    requires db.Valid()
    ensures ParseInDiet(query).Fail? ==> r == Fail(Invalid)
    ensures ParseInDiet(query).Ok? && db.SessionUser(token).None? ==> r == Fail(Http(UNAUTHORIZED))
    ensures ParseInDiet(query).Ok? && db.SessionUser(token).Some? ==>
      var inDiet := query == Some("true");
      r == Ok((|db.UserMealsInDiet(db.SessionUser(token).value.id, inDiet)|, inDiet))
  {
    var parsed := ParseInDiet(query);
    if parsed.Fail? {
      return Fail(Invalid);
    }
    var user := db.SessionUser(token);
    if user.None? {
      return Fail(Http(UNAUTHORIZED));
    }
    var inDiet := parsed.value;
    r := Ok((|db.UserMealsInDiet(user.value.id, inDiet)|, inDiet));
  }

  /** The two by-diet counts of a user add up to the total count. */
  lemma DietCountsPartition(db: Database, uid: Id)
    ensures |db.UserMealsInDiet(uid, true)| + |db.UserMealsInDiet(uid, false)| == |db.UserMeals(uid)|
  {
    var yes, no := db.UserMealsInDiet(uid, true), db.UserMealsInDiet(uid, false);
    assert yes + no == db.UserMeals(uid);
    assert yes * no == {};
  }

  /** The rows s, ascending by date, each of the set rows exactly once. */
  predicate IsDateOrdered(s: seq<Meal>, rows: set<Meal>) {
    SortedByDate(s) && multiset(s) == multiset(rows)
  }

  /** GET /metrics/count/best-sequency: the streak computed over the logged
      user's meals in date order (meals with equal dates in whichever order
      the query yields them). */
  method BestSequencyOfUser(db: Database, token: string) returns (r: Result<nat>)
    requires db.Valid()
    ensures db.SessionUser(token).None? ==> r == Fail(Http(UNAUTHORIZED))
    ensures db.SessionUser(token).Some? ==>
      var mine := db.UserMeals(db.SessionUser(token).value.id);
      r.Ok? &&
      (exists s :: IsDateOrdered(s, mine) && r.value == Streak.BestStreak(s)) &&
      (r.value == 0 || r.value < |mine|)
  {
    var user := db.SessionUser(token);
    if user.None? {
      return Fail(Http(UNAUTHORIZED));
    }
    var mine := db.UserMeals(user.value.id);
    var scanned := Scan(mine);
    var ordered := OrderByDate(scanned);
    var best := Streak.BestSequency(ordered);
    assert |ordered| == |multiset(mine)| == |mine|;
    assert IsDateOrdered(ordered, mine);
    r := Ok(best);
  }
}
