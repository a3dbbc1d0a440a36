/** A client of the routes: register a user, record three in-diet meals on
    the same day, then ask for the metrics. The answers follow from the
    routes' contracts alone. */
module Scenario {
  import opened Records
  import opened Store
  import Streak
  import UserRoutes
  import MealRoutes
  import MetricRoutes

  /** Meals all in diet and all within one 24 h window: in any date order the
      best streak is one less than their number. */
  lemma OneDayInDiet(rows: set<Meal>, start: int)
    requires |rows| > 0
    requires forall m :: m in rows ==> m.inDiet && start <= m.date <= start + Streak.DAY_MS
    ensures forall s :: MetricRoutes.IsDateOrdered(s, rows) ==> Streak.BestStreak(s) == |rows| - 1
  {
    forall s | MetricRoutes.IsDateOrdered(s, rows) ensures Streak.BestStreak(s) == |rows| - 1 {
      assert |s| == |multiset(s)| == |rows|;
      forall j | 0 <= j < |s| ensures s[j] in rows {
        assert s[j] in multiset(s);
      }
      Streak.AllContinueIsFullStreak(s);
    }
  }

  const BREAKFAST := Meal("m1", "u1", "Breakfast", "Oats", 8 * Streak.HOUR_MS, true, None)
  const LUNCH := Meal("m2", "u1", "Lunch", "Salad", 12 * Streak.HOUR_MS, true, None)
  const DINNER := Meal("m3", "u1", "Dinner", "Soup", 19 * Streak.HOUR_MS, true, None)

  /** Register Ana under id "u1" with session "t1" in an empty store. */
  method RegisterAna() returns (db: Database)
    ensures fresh(db) && db.Valid() && db.meals == map[]
    ensures db.SessionUser("t1").Some? && db.SessionUser("t1").value.id == "u1"
  {
    db := new Database();
    assert "ana@diet.io"[3] == '@';
    assert Utf16Length("secret") >= |"secret"| == 6;
    var registered := UserRoutes.Register(db, UserRoutes.NewUser("Ana", "secret", "ana@diet.io"), "u1", "t1");
    assert db.SessionUser("t1") == Some(db.users["u1"]);
  }

  /** Register Ana and record her three meals of one day. */
  method RecordSameDay() returns (db: Database)
    ensures db.Valid()
    ensures db.SessionUser("t1").Some? && db.SessionUser("t1").value.id == "u1"
    ensures db.meals == map["m1" := BREAKFAST, "m2" := LUNCH, "m3" := DINNER]
  {
    db := RegisterAna();
    var created := MealRoutes.CreateMeal(db, "t1", MealRoutes.NewMeal("Breakfast", "Oats", 8 * Streak.HOUR_MS, true), "m1");
    created := MealRoutes.CreateMeal(db, "t1", MealRoutes.NewMeal("Lunch", "Salad", 12 * Streak.HOUR_MS, true), "m2");
    created := MealRoutes.CreateMeal(db, "t1", MealRoutes.NewMeal("Dinner", "Soup", 19 * Streak.HOUR_MS, true), "m3");
  }

  const DAY_ROWS: set<Meal> := {BREAKFAST, LUNCH, DINNER}

  /** The table RecordSameDay leaves holds exactly Ana's three in-diet meals. */
  lemma SameDayRows(db: Database)
    requires db.meals == map["m1" := BREAKFAST, "m2" := LUNCH, "m3" := DINNER]
    ensures db.UserMeals("u1") == DAY_ROWS && db.UserMealsInDiet("u1", true) == DAY_ROWS
    ensures |DAY_ROWS| == 3
  {
    assert db.meals.Values == DAY_ROWS by {
      assert db.meals["m1"] == BREAKFAST && db.meals["m2"] == LUNCH && db.meals["m3"] == DINNER;
    }
  }

  /** Three in-diet meals of one day: best streak 2, count 3, in-diet count 3. */
  method SameDayMeals() returns (best: Result<nat>, count: Result<nat>, byDiet: Result<(nat, bool)>)
    ensures best == Ok(2)
    ensures count == Ok(3)
    ensures byDiet == Ok((3, true))
  {
    var db := RecordSameDay();
    SameDayRows(db);
    count := MetricRoutes.CountMeals(db, "t1");
    byDiet := MetricRoutes.CountMealsByDiet(db, Some("true"), "t1");
    best := MetricRoutes.BestSequencyOfUser(db, "t1");
    assert forall m :: m in DAY_ROWS ==> m.inDiet && 0 <= m.date <= Streak.DAY_MS;
    OneDayInDiet(DAY_ROWS, 0);
  }
}
