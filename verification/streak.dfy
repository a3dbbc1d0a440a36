/** The best-sequency statistic: one pass over a user's meals (ordered by
    date) that keeps a running `count` of consecutive continuing pairs and the
    largest value `bestSequency` that count ever reached. */
module Streak {
  import opened Records

  /** 24 hours in milliseconds: the widest gap that still continues a streak. */
  const DAY_MS: int := 24 * 60 * 60 * 1000

  function Abs(x: int): nat {
    if x < 0 then -x else x
  }

  function Max(a: nat, b: nat): nat {
    if a > b then a else b
  }

  /** Whether the pair (prev, cur) extends the running streak: the two dates
      are at most 24 h apart, bound included and in either order, and the
      later meal is in diet. The earlier meal's flag is not read. */
  predicate Continues(prev: Meal, cur: Meal) {
    Abs(prev.date - cur.date) <= DAY_MS && cur.inDiet
  }

  /** The running count once the meal at index i has been processed: one more
      than at i - 1 when the pair continues, 0 otherwise; 0 at the first meal,
      which only serves as a predecessor. */
  function RunAt(s: seq<Meal>, i: nat): (r: nat)
    requires i < |s|
    ensures r <= i
  {
    if i == 0 then 0
    else if Continues(s[i - 1], s[i]) then RunAt(s, i - 1) + 1
    else 0
  }

  /** The best count once the meals s[..n] have been processed. */
  function BestUpTo(s: seq<Meal>, n: nat): (r: nat)
    requires n <= |s|
    ensures n <= 1 ==> r == 0
    ensures n > 0 ==> r < n
  {
    if n == 0 then 0 else Max(BestUpTo(s, n - 1), RunAt(s, n - 1))
  }

  /** The value the best-sequency handler returns for the meals s. */
  function BestStreak(s: seq<Meal>): (r: nat)
    ensures |s| < 2 ==> r == 0
    ensures |s| > 0 ==> r <= |s| - 1
  {
    BestUpTo(s, |s|)
  }

  /** The loop of the handler: `count` and `bestSequency` updated meal by meal. */
  method BestSequency(meals: seq<Meal>) returns (best: nat)
    ensures best == BestStreak(meals)
  {
    var count: nat := 0;
    best := 0;
    var i := 1;
    while i < |meals|
      invariant 1 <= i
      invariant |meals| == 0 ==> i == 1 && best == 0
      invariant |meals| > 0 ==> i <= |meals| && count == RunAt(meals, i - 1) && best == BestUpTo(meals, i)
    {
      if Abs(meals[i - 1].date - meals[i].date) <= DAY_MS && meals[i].inDiet {
        count := count + 1;
        best := if best > count then best else count;
      } else {
        count := 0;
      }
      i := i + 1;
    }
  }

  /** The pairs ending at indices end - k + 1 .. end all continue: a chain of
      k continuing pairs that ends at index end. */
  predicate IsRun(s: seq<Meal>, end: nat, k: nat) {
    k <= end < |s| && forall j :: end - k < j <= end ==> Continues(s[j - 1], s[j])
  }

  /** The running count at index end is the length of the longest chain of
      continuing pairs ending there. */
  lemma {:induction false} RunAtIsLongestRun(s: seq<Meal>, end: nat)
    requires end < |s|
    ensures IsRun(s, end, RunAt(s, end))
    ensures forall k: nat :: IsRun(s, end, k) ==> k <= RunAt(s, end)
  {
    if end > 0 {
      RunAtIsLongestRun(s, end - 1);
      forall k: nat | IsRun(s, end, k) ensures k <= RunAt(s, end) {
        if k > 0 {
          assert Continues(s[end - 1], s[end]);
          assert IsRun(s, end - 1, k - 1);
        }
      }
    }
  }

  /** `bestSequency` after n meals is the largest running count reached so far. */
  lemma {:induction false} BestUpToIsMaxCount(s: seq<Meal>, n: nat)
    requires n <= |s|
    ensures forall j :: 0 <= j < n ==> RunAt(s, j) <= BestUpTo(s, n)
    ensures n > 0 ==> exists j :: 0 <= j < n && RunAt(s, j) == BestUpTo(s, n)
  {
    if n > 0 {
      BestUpToIsMaxCount(s, n - 1);
      if n > 1 && BestUpTo(s, n - 1) >= RunAt(s, n - 1) {
        var j :| 0 <= j < n - 1 && RunAt(s, j) == BestUpTo(s, n - 1);
        assert RunAt(s, j) == BestUpTo(s, n);
      } else {
        assert RunAt(s, n - 1) == BestUpTo(s, n);
      }
    }
  }

  /** `bestSequency` never decreases from one meal to the next. */
  lemma {:induction false} BestUpToMonotone(s: seq<Meal>, m: nat, n: nat)
    requires m <= n <= |s|
    ensures BestUpTo(s, m) <= BestUpTo(s, n)
  {
    if m < n {
      BestUpToMonotone(s, m, n - 1);
    }
  }

  /** Reference characterisation: the best streak is the length of the longest
      chain of continuing pairs anywhere in the sequence. */
  lemma BestStreakIsLongestRun(s: seq<Meal>)
    ensures forall end: nat, k: nat :: IsRun(s, end, k) ==> k <= BestStreak(s)
    ensures |s| > 0 ==> exists end: nat :: IsRun(s, end, BestStreak(s))
  {
    BestUpToIsMaxCount(s, |s|);
    forall end: nat, k: nat | IsRun(s, end, k) ensures k <= BestStreak(s) {
      RunAtIsLongestRun(s, end);
    }
    if |s| > 0 {
      var end :| 0 <= end < |s| && RunAt(s, end) == BestStreak(s);
      RunAtIsLongestRun(s, end);
    }
  }

  /** Meals all in diet and all within 24 h of their predecessor give n - 1. */
  lemma AllContinueIsFullStreak(s: seq<Meal>)
    requires |s| > 0
    requires forall j :: 0 < j < |s| ==> Continues(s[j - 1], s[j])
    ensures BestStreak(s) == |s| - 1
  {
    assert IsRun(s, |s| - 1, |s| - 1);
    BestStreakIsLongestRun(s);
  }

  /** The running count depends only on the meals up to the current one. */
  lemma {:induction false} RunAtPrefix(s: seq<Meal>, p: nat, j: nat)
    requires j < p <= |s|
    ensures RunAt(s[..p], j) == RunAt(s, j)
  {
    if j > 0 {
      RunAtPrefix(s, p, j - 1);
    }
  }

  lemma {:induction false} BestUpToPrefix(s: seq<Meal>, p: nat, n: nat)
    requires n <= p <= |s|
    ensures BestUpTo(s[..p], n) == BestUpTo(s, n)
  {
    if n > 0 {
      BestUpToPrefix(s, p, n - 1);
      RunAtPrefix(s, p, n - 1);
    }
  }

  /** After a reset at index i the running count is the count over s[i..]. */
  lemma {:induction false} RunAtSuffix(s: seq<Meal>, i: nat, j: nat)
    requires i <= j < |s|
    requires RunAt(s, i) == 0
    ensures RunAt(s[i..], j - i) == RunAt(s, j)
  {
    if j > i {
      RunAtSuffix(s, i, j - 1);
      assert s[i..][j - i - 1] == s[j - 1] && s[i..][j - i] == s[j];
    }
  }

  lemma {:induction false} BestUpToSuffix(s: seq<Meal>, i: nat, n: nat)
    requires 0 < i < n <= |s|
    requires RunAt(s, i) == 0
    ensures BestUpTo(s, n) == Max(BestUpTo(s, i), BestUpTo(s[i..], n - i))
  {
    RunAtSuffix(s, i, n - 1);
    if n > i + 1 {
      BestUpToSuffix(s, i, n - 1);
    }
  }

  /** A pair that does not continue resets the count to zero, so the streaks
      on either side of it never join: the result is the larger of the
      results for the meals before the break and for the meals from it on. */
  lemma BreakSplits(s: seq<Meal>, i: nat)
    requires 0 < i < |s|
    requires !Continues(s[i - 1], s[i])
    ensures BestStreak(s) == Max(BestStreak(s[..i]), BestStreak(s[i..]))
  {
    BestUpToSuffix(s, i, |s|);
    BestUpToPrefix(s, i, i);
  }

  /** Two meal sequences whose pairs continue at the same indices. */
  predicate SamePattern(s: seq<Meal>, t: seq<Meal>) {
    |s| == |t| && forall j :: 0 < j < |s| ==> Continues(s[j - 1], s[j]) == Continues(t[j - 1], t[j])
  }

  lemma {:induction false} SamePatternSameBestUpTo(s: seq<Meal>, t: seq<Meal>, n: nat)
    requires SamePattern(s, t) && n <= |s|
    ensures BestUpTo(s, n) == BestUpTo(t, n)
    ensures n > 0 ==> RunAt(s, n - 1) == RunAt(t, n - 1)
  {
    if n > 0 {
      SamePatternSameBestUpTo(s, t, n - 1);
    }
  }

  /** The result depends only on which pairs continue. */
  lemma SamePatternSameStreak(s: seq<Meal>, t: seq<Meal>)
    requires SamePattern(s, t)
    ensures BestStreak(s) == BestStreak(t)
  {
    SamePatternSameBestUpTo(s, t, |s|);
  }

  /** The first meal's in-diet flag never affects the result. */
  lemma FirstFlagIgnored(s: seq<Meal>, flag: bool)
    requires |s| > 0
    ensures BestStreak(s[0 := s[0].(inDiet := flag)]) == BestStreak(s)
  {
    SamePatternSameStreak(s[0 := s[0].(inDiet := flag)], s);
  }

  /** The same meals with every date negated (time running backwards). */
  function Mirror(s: seq<Meal>): seq<Meal>
  {
    seq(|s|, i requires 0 <= i < |s| => s[i].(date := -s[i].date))
  }

  /** The gap is an absolute difference: reversing the direction of time does
      not change the result. */
  lemma MirrorSameStreak(s: seq<Meal>)
    ensures BestStreak(Mirror(s)) == BestStreak(s)
  {
    SamePatternSameStreak(Mirror(s), s);
  }

  const HOUR_MS: int := 60 * 60 * 1000

  /** A meal at a date with an in-diet flag; the other fields do not matter here. */
  function At(date: int, inDiet: bool): Meal {
    Meal("", "", "", "", date, inDiet, None)
  }

  /** A lone meal, even in diet, has no streak; a gap of exactly 24 h still
      continues one, a gap one millisecond longer does not. */
  lemma BoundaryExamples()
    ensures BestStreak([At(0, true)]) == 0
    ensures BestStreak([At(0, false), At(DAY_MS, true)]) == 1
    ensures BestStreak([At(0, true), At(DAY_MS + 1, true)]) == 0
  {
  }

  /** Meals at 0 h (any flag), 1 h, 2 h and 30 h, the last three in diet: the
      third gap exceeds 24 h, so the best streak is 2. */
  lemma WindowExample(first: bool)
    ensures BestStreak([At(0, first), At(HOUR_MS, true), At(2 * HOUR_MS, true), At(30 * HOUR_MS, true)]) == 2
  {
    var s := [At(0, first), At(HOUR_MS, true), At(2 * HOUR_MS, true), At(30 * HOUR_MS, true)];
    BreakSplits(s, 3);
    AllContinueIsFullStreak(s[..3]);
  }

  /** Only the later meal's flag is read: an out-of-diet meal between two
      in-diet ones breaks the streak only at its own pair. */
  lemma PredecessorFlagExample()
    ensures BestStreak([At(0, true), At(HOUR_MS, false), At(2 * HOUR_MS, true)]) == 1
  {
    var s := [At(0, true), At(HOUR_MS, false), At(2 * HOUR_MS, true)];
    BreakSplits(s, 1);
  }
}
