/** The two tables the handlers read and write, keyed by row id, with the
    lookups the handlers issue against them (by session token, by e-mail, by
    owner) and the row scan and date ordering the queries rely on. */
module Store {
  import opened Records

  /** Every user row sits under its own id. */
  ghost predicate UsersKeyed(users: map<Id, User>) {
    forall id :: id in users ==> users[id].id == id
  }

  /** No two users share an e-mail address. */
  ghost predicate EmailsUnique(users: map<Id, User>) {
    forall a, b :: a in users && b in users && users[a].email == users[b].email ==> a == b
  }

  /** No two users share a session token. */
  ghost predicate SessionsUnique(users: map<Id, User>) {
    forall a, b :: a in users && b in users && users[a].sessionId == users[b].sessionId ==> a == b
  }

  class Database {
    var users: map<Id, User>
    var meals: map<Id, Meal>

    /** Every row sits under its own id, every meal has an owner, and e-mail
        addresses and session tokens each belong to at most one user. */
    ghost predicate Valid()
      reads this
    {
      UsersKeyed(users) &&
      (forall id :: id in meals ==> meals[id].id == id && meals[id].userId in users) &&
      EmailsUnique(users) && SessionsUnique(users)
    }

    constructor ()
      ensures Valid() && users == map[] && meals == map[]
    {
      users := map[];
      meals := map[];
    }

    /** The user a session cookie identifies, if any. */
    function SessionUser(token: string): (r: Option<User>)
      reads this`users
      requires UsersKeyed(users) && SessionsUnique(users)
      ensures r.Some? ==> r.value.id in users && users[r.value.id] == r.value && r.value.sessionId == token
      ensures r.None? <==> forall id :: id in users ==> users[id].sessionId != token
    {
      if exists id :: id in users && users[id].sessionId == token then
        var id :| id in users && users[id].sessionId == token;
        Some(users[id])
      else
        None
    }

    /** The user registered under an e-mail address, if any. */
    function EmailUser(email: string): (r: Option<User>)
      reads this`users
      requires UsersKeyed(users) && EmailsUnique(users)
      ensures r.Some? ==> r.value.id in users && users[r.value.id] == r.value && r.value.email == email
      ensures r.None? <==> forall id :: id in users ==> users[id].email != email
    {
      if exists id :: id in users && users[id].email == email then
        var id :| id in users && users[id].email == email;
        Some(users[id])
      else
        None
    }

    /** The rows of the meals table owned by the user uid. */
    function UserMeals(uid: Id): (r: set<Meal>)
      reads this`meals
      ensures forall m :: m in r <==> m in meals.Values && m.userId == uid
    {
      set m | m in meals.Values && m.userId == uid
    }

    /** The rows owned by uid whose in-diet flag is inDiet. */
    function UserMealsInDiet(uid: Id, inDiet: bool): (r: set<Meal>)
      reads this`meals
      ensures r <= UserMeals(uid)
      ensures forall m :: m in r <==> m in UserMeals(uid) && m.inDiet == inDiet
    {
      set m | m in meals.Values && m.userId == uid && m.inDiet == inDiet
    }
  }

  /** A scan of a set of rows: each row exactly once, in no particular order. */
  method Scan<T>(rows: set<T>) returns (listed: seq<T>)
    ensures multiset(listed) == multiset(rows)
  {
    listed := [];
    var rest := rows;
    while rest != {}
      invariant rest <= rows
      invariant multiset(listed) + multiset(rest) == multiset(rows)
      decreases rest
    {
      var x :| x in rest;
      listed := listed + [x];
      rest := rest - {x};
    }
  }

  predicate SortedByDate(s: seq<Meal>) {
    forall i, j :: 0 <= i < j < |s| ==> s[i].date <= s[j].date
  }

  /** Putting a row no later than any of a sorted sequence in front keeps it sorted. */
  lemma PrependSorted(x: Meal, s: seq<Meal>)
    requires SortedByDate(s)
    requires forall i :: 0 <= i < |s| ==> x.date <= s[i].date
    ensures SortedByDate([x] + s)
  {
  }

  function InsertByDate(m: Meal, s: seq<Meal>): (r: seq<Meal>)
    requires SortedByDate(s)
    ensures SortedByDate(r)
    ensures multiset(r) == multiset(s) + multiset{m}
  {
    if s == [] || m.date <= s[0].date then
      PrependSorted(m, s);
      [m] + s
    else
      var tail := InsertByDate(m, s[1..]);
      assert s == [s[0]] + s[1..];
      assert forall i :: 0 <= i < |tail| ==> s[0].date <= tail[i].date by {
        forall i | 0 <= i < |tail| ensures s[0].date <= tail[i].date {
          assert tail[i] in multiset(tail);
          assert tail[i] == m || tail[i] in multiset(s[1..]);
        }
      }
      PrependSorted(s[0], tail);
      [s[0]] + tail
  }

  /** `orderBy('date')`: the same rows, ascending by date. */
  function OrderByDate(s: seq<Meal>): (r: seq<Meal>)
    ensures SortedByDate(r)
    ensures multiset(r) == multiset(s)
  {
    if s == [] then []
    else
      assert s == [s[0]] + s[1..];
      InsertByDate(s[0], OrderByDate(s[1..]))
  }
}
