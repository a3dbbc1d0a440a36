/** The `/meals` routes: list, read, create, update and delete a meal, each
    reading or changing the meals table after its guard checks. */
module MealRoutes {
  import opened Records
  import opened Store

  /** The body of POST /meals once its types have been checked. */
  datatype NewMeal = NewMeal(name: string, description: string, date: int, inDiet: bool)

  /** The body of PUT /meals/:mealId: every field may be left out. */
  datatype MealChanges = MealChanges(
    name: Option<string>,
    description: Option<string>,
    date: Option<int>,
    inDiet: Option<bool>)

  /** The value checks of the create schema: name and description non-empty. */
  predicate ValidNewMeal(body: NewMeal) {
    body.name != "" && body.description != ""
  }

  /** The guard shared by reading, updating and deleting one meal, in its
      fixed order: a malformed id, then no logged user (401), then no such
      meal (404), then a meal of another user (403); otherwise the meal. */
  function MealAccess(db: Database, token: string, mealId: Id): (r: Result<Meal>)
    reads db
    requires db.Valid()
    ensures r == Fail(Invalid) <==> !IsUuid(mealId)
    ensures r == Fail(Http(UNAUTHORIZED)) <==> IsUuid(mealId) && db.SessionUser(token).None?
    ensures r == Fail(Http(NOT_FOUND)) <==>
      IsUuid(mealId) && db.SessionUser(token).Some? && mealId !in db.meals
    ensures r == Fail(Http(FORBIDDEN)) <==>
      IsUuid(mealId) && db.SessionUser(token).Some? && mealId in db.meals &&
      db.meals[mealId].userId != db.SessionUser(token).value.id
    ensures (IsUuid(mealId) && db.SessionUser(token).Some? && mealId in db.meals &&
             db.meals[mealId].userId == db.SessionUser(token).value.id) ==> r == Ok(db.meals[mealId])
    ensures r.Ok? ==>
      mealId in db.meals && r.value == db.meals[mealId] && r.value.id == mealId &&
      db.SessionUser(token).Some? && r.value.userId == db.SessionUser(token).value.id
  {
    if !IsUuid(mealId) then Fail(Invalid)
    else
      var user := db.SessionUser(token);
      if user.None? then Fail(Http(UNAUTHORIZED))
      else if mealId !in db.meals then Fail(Http(NOT_FOUND))
      else
        var meal := db.meals[mealId];
        if meal.userId != user.value.id then Fail(Http(FORBIDDEN))
        else Ok(meal)
  }

  /** GET /meals: every row of the meals table, whoever owns it. */
  method ListMeals(db: Database) returns (rows: seq<Meal>)
    ensures multiset(rows) == multiset(db.meals.Values)
  {
    rows := Scan(db.meals.Values);
  }

  /** GET /meals/:mealId: the stored meal, only to its owner. */
  method GetMeal(db: Database, token: string, mealId: Id) returns (r: Result<Meal>)
    requires db.Valid()
    ensures r == MealAccess(db, token, mealId)
  {
    r := MealAccess(db, token, mealId);
  }

  /** POST /meals: one new row under the fresh id, owned by the logged user.
      A missing user is reported as 404 here, not 401. */
  method CreateMeal(db: Database, token: string, body: NewMeal, freshId: Id) returns (r: Result<()>)
    requires db.Valid()
    requires freshId !in db.meals
    modifies db
    ensures db.Valid()
    ensures db.users == old(db.users)
    ensures !ValidNewMeal(body) ==> r == Fail(Invalid) && db.meals == old(db.meals)
    ensures ValidNewMeal(body) && old(db.SessionUser(token)).None? ==>
      r == Fail(Http(NOT_FOUND)) && db.meals == old(db.meals)
    ensures ValidNewMeal(body) && old(db.SessionUser(token)).Some? ==>
      r == Ok(()) &&
      db.meals == old(db.meals)[freshId := Meal(freshId, old(db.SessionUser(token)).value.id,
                                                body.name, body.description, body.date, body.inDiet, None)]
  {
    if !ValidNewMeal(body) {
      return Fail(Invalid);
    }
    var user := db.SessionUser(token);
    if user.None? {
      return Fail(Http(NOT_FOUND));
    }
    db.meals := db.meals[freshId := Meal(freshId, user.value.id, body.name, body.description, body.date, body.inDiet, None)];
    r := Ok(());
  }

  /** PUT /meals/:mealId: after the guard, the row keeps its id and owner,
      takes every field the body provides, and is stamped with `now`. */
  method UpdateMeal(db: Database, token: string, mealId: Id, changes: MealChanges, now: int) returns (r: Result<()>)
    requires db.Valid()
    modifies db
    ensures db.Valid()
    ensures db.users == old(db.users)
    ensures old(MealAccess(db, token, mealId)).Fail? ==>
      r == Fail(old(MealAccess(db, token, mealId)).error) && db.meals == old(db.meals)
    ensures old(MealAccess(db, token, mealId)).Ok? ==>
      r == Ok(()) && mealId in db.meals &&
      db.meals == old(db.meals)[mealId := db.meals[mealId]] &&
      var m := db.meals[mealId];
      m.id == mealId && m.userId == old(db.meals[mealId].userId) && m.updatedAt == Some(now) &&
      (changes.name.Some? ==> m.name == changes.name.value) &&
      (changes.description.Some? ==> m.description == changes.description.value) &&
      (changes.date.Some? ==> m.date == changes.date.value) &&
      (changes.inDiet.Some? ==> m.inDiet == changes.inDiet.value)
  {
    var access := GetMeal(db, token, mealId);
    if access.Fail? {
      return Fail(access.error);
    }
    var meal := access.value;
    var updated := meal.(
      name := if changes.name.Some? then changes.name.value else meal.name,
      description := if changes.description.Some? then changes.description.value else meal.description,
      date := if changes.date.Some? then changes.date.value else meal.date,
      inDiet := if changes.inDiet.Some? then changes.inDiet.value else meal.inDiet,
      updatedAt := Some(now));
    db.meals := db.meals[meal.id := updated];
    r := Ok(());
  }

  /** DELETE /meals/:mealId: after the guard, exactly that row is removed. */
  method DeleteMeal(db: Database, token: string, mealId: Id) returns (r: Result<()>)
    requires db.Valid()
    modifies db
    ensures db.Valid()
    ensures db.users == old(db.users)
    ensures old(MealAccess(db, token, mealId)).Fail? ==>
      r == Fail(old(MealAccess(db, token, mealId)).error) && db.meals == old(db.meals)
    ensures old(MealAccess(db, token, mealId)).Ok? ==>
      r == Ok(()) && db.meals == old(db.meals) - {mealId}
  {
    var access := GetMeal(db, token, mealId);
    if access.Fail? {
      return Fail(access.error);
    }
    db.meals := db.meals - {mealId};
    r := Ok(());
  }

  /** GET /meals/user: exactly the logged user's meals. */
  method ListUserMeals(db: Database, token: string) returns (r: Result<seq<Meal>>)
    requires db.Valid()
    ensures db.SessionUser(token).None? ==> r == Fail(Http(UNAUTHORIZED))
    ensures db.SessionUser(token).Some? ==>
      r.Ok? && multiset(r.value) == multiset(db.UserMeals(db.SessionUser(token).value.id))
  {
    var user := db.SessionUser(token);
    if user.None? {
      return Fail(Http(UNAUTHORIZED));
    }
    var rows := Scan(db.UserMeals(user.value.id));
    r := Ok(rows);
  }
}
