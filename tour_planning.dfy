/** The tour-planning encoding: positions 0 .. n - 1 of a route through n cities are the
    variables, position 0 pinned to the start city and position n - 1 to the target city,
    the inner positions ranging over the other cities; the constraint forbids a repeated
    city; the comparator prefers the shorter route, where a zero distance means no road and
    makes a route infinitely long; the decoder lists the cities by position. */
module TourPlanning {
  import opened Wrappers
  import opened Assignment

  /** A (partial) route plan: position to city. */
  type Plan = map<int, int>

  /** The distance matrix; 0 means there is no road. */
  type Distances = seq<seq<nat>>

  datatype TourError =
    | NoSolution                 // the decoder takes the length of a missing solution
    | MissingPosition(pos: int)  // a position looked up that the route does not assign

  // Domains

  /** `[c for c in range(k) if c != from and c != to]`. */
  function OtherCities(k: int, from: int, to: int): (cs: seq<int>)
    ensures forall c :: c in cs <==> 0 <= c < k && c != from && c != to
    ensures forall i, j :: 0 <= i < j < |cs| ==> cs[i] < cs[j]
    decreases k
  {
    if k <= 0 then []
    else
      var prefix := OtherCities(k - 1, from, to);
      assert forall i :: 0 <= i < |prefix| ==> prefix[i] in prefix;
      prefix + (if k - 1 != from && k - 1 != to then [k - 1] else [])
  }

  /** The dictionary literal: position 0 first, then position n - 1 (the same key when
      n == 1, whose domain the second entry then replaces). */
  function TourStart(n: int, from: int, to: int): Table<int, int>
  {
    Put(Put(Table([], map[]), 0, [from]), n - 1, [to])
  }

  /** The table once the loop has added the inner positions 1 .. k - 1. */
  function TableUpTo(n: int, from: int, to: int, k: int): Table<int, int>
    decreases k
  {
    if k <= 1 then TourStart(n, from, to)
    else Put(TableUpTo(n, from, to, k - 1), k - 1, OtherCities(n, from, to))
  }

  /** The tour domains. */
  function TourTable(n: int, from: int, to: int): Table<int, int>
  {
    TableUpTo(n, from, to, n - 1)
  }

  /** The dictionary literal followed by the loop over the inner positions. */
  method TourDomains(n: int, from: int, to: int) returns (t: Table<int, int>)
    ensures t == TourTable(n, from, to)
  {
    t := TourStart(n, from, to);
    var i := 1;
    while i < n - 1
      invariant 1 <= i && (i <= n - 1 || i == 1)
      invariant t == TableUpTo(n, from, to, i)
      decreases n - i
    {
      t := Put(t, i, OtherCities(n, from, to));
      i := i + 1;
    }
    if n < 2 {
      assert TableUpTo(n, from, to, n - 1) == TourStart(n, from, to);
    }
  }

  lemma {:induction false} TableUpToDomains(n: int, from: int, to: int, k: int)
    requires n >= 2 && 1 <= k <= n - 1
    ensures var t := TableUpTo(n, from, to, k);
            && (forall p :: p in t.domains <==> 0 <= p < n && (p < k || p == n - 1))
            && t.domains[0] == [from] && t.domains[n - 1] == [to]
            && forall p :: 1 <= p < k ==> t.domains[p] == OtherCities(n, from, to)
    decreases k
  {
    if k > 1 {
      TableUpToDomains(n, from, to, k - 1);
    }
  }

  lemma {:induction false} TableUpToVars(n: int, from: int, to: int, k: int)
    requires n >= 2 && 1 <= k <= n - 1
    ensures TableUpTo(n, from, to, k).vars == [0, n - 1] + seq(k - 1, j => j + 1)
    decreases k
  {
    if k > 1 {
      TableUpToVars(n, from, to, k - 1);
      TableUpToDomains(n, from, to, k - 1);
      var t := TableUpTo(n, from, to, k - 1);
      assert k - 1 !in t.domains;
      assert t.vars + [k - 1] == [0, n - 1] + seq(k - 1, j => j + 1);
    }
  }

  lemma {:induction false} TableUpToWellFormed(n: int, from: int, to: int, k: int)
    ensures WellFormed(TableUpTo(n, from, to, k))
    decreases k
  {
    if k > 1 {
      TableUpToWellFormed(n, from, to, k - 1);
    } else {
      var empty: Table<int, int> := Table([], map[]);
      assert WellFormed(empty);
    }
  }

  /** With at least two cities, the key order is 0, n - 1, 1, ..., n - 2, so the endpoints
      are assigned first; position 0 can only hold the start city, position n - 1 only the
      target, and every inner position any other city. */
  lemma TourTableShape(n: int, from: int, to: int)
    requires n >= 2
    ensures var t := TourTable(n, from, to);
            && WellFormed(t)
            && t.vars == [0, n - 1] + seq(n - 2, j => j + 1)
            && (forall p :: p in t.domains <==> 0 <= p < n)
            && t.domains[0] == [from] && t.domains[n - 1] == [to]
            && forall p, c :: 1 <= p < n - 1 ==> (c in t.domains[p] <==> 0 <= c < n && c != from && c != to)
  {
    TableUpToDomains(n, from, to, n - 1);
    TableUpToVars(n, from, to, n - 1);
    TableUpToWellFormed(n, from, to, n - 1);
  }

  /** With one city the second entry overwrites the first, so the only position is pinned
      to the target; with none, the keys are 0 and -1. */
  lemma TourTableDegenerate(from: int, to: int)
    ensures TourTable(1, from, to) == Table([0], map[0 := [to]])
    ensures TourTable(0, from, to) == Table([0, -1], map[0 := [from], -1 := [to]])
  {
  }

  // Constraint

  /** `len(values) == len(set(values))`. */
  predicate NoRepeat(a: Plan)
  {
    |a.Values| == |a|
  }

  /** Removing one key of a map removes exactly that key. */
  lemma RemoveKey<K, V>(a: map<K, V>, k: K)
    requires k in a
    ensures |a - {k}| == |a| - 1
    ensures forall v :: v in a.Values ==> v == a[k] || v in (a - {k}).Values
    ensures (a - {k}).Values <= a.Values
  {
    var rest := a - {k};
    assert rest.Keys == a.Keys - {k};
    forall v | v in a.Values
      ensures v == a[k] || v in rest.Values
    {
      var j :| j in a && a[j] == v;
      if j != k {
        assert rest[j] == v;
      }
    }
    forall v | v in rest.Values
      ensures v in a.Values
    {
      var j :| j in rest && rest[j] == v;
      assert a[j] == v;
    }
  }

  lemma {:induction false} ValuesAtMostKeys<K, V>(a: map<K, V>)
    ensures |a.Values| <= |a|
    decreases |a|
  {
    if a.Keys != {} {
      var k :| k in a.Keys;
      var rest := a - {k};
      RemoveKey(a, k);
      ValuesAtMostKeys(rest);
      assert a.Values <= rest.Values + {a[k]};
      assert |rest.Values + {a[k]}| <= |rest.Values| + 1;
    }
  }

  lemma {:induction false} InjectiveValues<K, V>(a: map<K, V>)
    requires forall i, j :: i in a && j in a && i != j ==> a[i] != a[j]
    ensures |a.Values| == |a|
    decreases |a|
  {
    if a.Keys != {} {
      var k :| k in a.Keys;
      var rest := a - {k};
      RemoveKey(a, k);
      InjectiveValues(rest);
      assert a[k] !in rest.Values by {
        forall j | j in rest
          ensures rest[j] != a[k]
        {
          assert a[j] == rest[j];
        }
      }
      assert a.Values == rest.Values + {a[k]};
    }
  }

  /** Two keys sharing a value leave fewer distinct values than keys. */
  lemma SharedValue<K, V>(a: map<K, V>, i: K, j: K)
    requires i in a && j in a && i != j && a[i] == a[j]
    ensures |a.Values| < |a|
  {
    var rest := a - {i};
    RemoveKey(a, i);
    ValuesAtMostKeys(rest);
    assert rest[j] == a[i];
    assert a.Values == rest.Values;
  }

  /** The constraint holds exactly when no city appears at two positions. */
  lemma NoRepeatIff(a: Plan)
    ensures NoRepeat(a) <==> forall i, j :: i in a && j in a && i != j ==> a[i] != a[j]
  {
    if forall i, j :: i in a && j in a && i != j ==> a[i] != a[j] {
      InjectiveValues(a);
    } else {
      var i, j :| i in a && j in a && i != j && a[i] == a[j];
      SharedValue(a, i, j);
    }
  }

  // Route length

  /** A route length; `Infinite` stands for the floating-point infinity of a missing road. */
  datatype Length = Finite(n: nat) | Infinite

  /** `<` on lengths, infinity included. */
  predicate Shorter(x: Length, y: Length)
  {
    match (x, y)
    case (Finite(a), Finite(b)) => a < b
    case (Finite(_), Infinite) => true
    case (Infinite, _) => false
  }

  /** Every city of the route indexes the distance matrix. */
  predicate CitiesIndex(dist: Distances, a: Plan)
  {
    && (forall i :: 0 <= i < |dist| ==> |dist[i]| == |dist|)
    && forall p :: p in a ==> 0 <= a[p] < |dist|
  }

  /** The remaining loop of `route` from position i with `acc` summed so far: it stops at
      the first missing road or missing position. */
  function RouteFrom(dist: Distances, a: Plan, i: nat, acc: nat): Result<Length, TourError>
    requires CitiesIndex(dist, a)
    decreases |a| - i
  {
    if i >= |a| then Ok(Finite(acc))
    else if i - 1 !in a then Err(MissingPosition(i - 1))
    else if i !in a then Err(MissingPosition(i))
    else
      var d := dist[a[i - 1]][a[i]];
      if d == 0 then Ok(Infinite) else RouteFrom(dist, a, i + 1, acc + d)
  }

  /** `route`: the length of the route through positions 0 .. |a| - 1. */
  function RouteLength(dist: Distances, a: Plan): Result<Length, TourError>
    requires CitiesIndex(dist, a)
  {
    RouteFrom(dist, a, 1, 0)
  }

  /** The running sum over consecutive positions, returning at the first missing road. */
  method Route(dist: Distances, a: Plan) returns (r: Result<Length, TourError>)
    requires CitiesIndex(dist, a)
    ensures r == RouteLength(dist, a)
  {
    var length: nat := 0;
    var i: nat := 1;
    while i < |a|
      invariant RouteFrom(dist, a, i, length) == RouteLength(dist, a)
      decreases |a| - i
    {
      if i - 1 !in a {
        return Err(MissingPosition(i - 1));
      }
      if i !in a {
        return Err(MissingPosition(i));
      }
      var d := dist[a[i - 1]][a[i]];
      if d == 0 {
        return Ok(Infinite);
      }
      length := length + d;
      i := i + 1;
    }
    return Ok(Finite(length));
  }

  /** The sum of the roads between consecutive cities among p[0 .. i - 1]. */
  function EdgeSum(dist: Distances, p: seq<int>, i: nat): nat
    requires i <= |p| && forall k :: 0 <= k < |p| ==> 0 <= p[k] < |dist| && |dist[p[k]]| == |dist|
  {
    if i <= 1 then 0 else EdgeSum(dist, p, i - 1) + dist[p[i - 2]][p[i - 1]]
  }

  /** Some consecutive pair of cities from position i on has no road between them. */
  predicate GapFrom(dist: Distances, p: seq<int>, i: nat)
    requires forall k :: 0 <= k < |p| ==> 0 <= p[k] < |dist| && |dist[p[k]]| == |dist|
  {
    exists k :: 1 <= i <= k < |p| && dist[p[k - 1]][p[k]] == 0
  }

  /** The cities of a route that assigns positions 0 .. |a| - 1, by position. */
  function Cities(a: Plan): (p: seq<int>)
    requires forall i :: 0 <= i < |a| ==> i in a
  {
    seq(|a|, i requires 0 <= i < |a| => a[i])
  }

  lemma {:induction false} RouteFromOfPath(dist: Distances, a: Plan, i: nat)
    requires CitiesIndex(dist, a) && (forall k :: 0 <= k < |a| ==> k in a) && 1 <= i
    requires i <= |a|
    ensures var p := Cities(a);
            RouteFrom(dist, a, i, EdgeSum(dist, p, i))
              == Ok(if GapFrom(dist, p, i) then Infinite else Finite(EdgeSum(dist, p, |p|)))
    decreases |a| - i
  {
    var p := Cities(a);
    if i < |a| {
      RouteFromOfPath(dist, a, i + 1);
      assert p[i - 1] == a[i - 1] && p[i] == a[i];
      assert GapFrom(dist, p, i) <==> dist[p[i - 1]][p[i]] == 0 || GapFrom(dist, p, i + 1);
    }
  }

  /** For a route over positions 0 .. n - 1 the length is infinite exactly when some pair
      of consecutive cities has no road, and otherwise the sum of the roads between them. */
  lemma RouteLengthOfPath(dist: Distances, a: Plan)
    requires CitiesIndex(dist, a) && forall k :: 0 <= k < |a| ==> k in a
    ensures var p := Cities(a);
            RouteLength(dist, a) == Ok(if GapFrom(dist, p, 1) then Infinite else Finite(EdgeSum(dist, p, |p|)))
  {
    if |a| == 0 {
      assert RouteLength(dist, a) == Ok(Finite(0));
    } else {
      RouteFromOfPath(dist, a, 1);
    }
  }

  /** `better`: a strictly shorter route. */
  function Better(dist: Distances, a: Plan, b: Plan): Result<bool, TourError>
    requires CitiesIndex(dist, a) && CitiesIndex(dist, b)
  {
    match RouteLength(dist, a)
    case Err(e) => Err(e)
    case Ok(x) =>
      match RouteLength(dist, b)
      case Err(e) => Err(e)
      case Ok(y) => Ok(Shorter(x, y))
  }

  /** The comparator is a strict order, two routes without a road never beat each other,
      and any complete route beats one without a road. */
  lemma BetterIsStrictOrder(dist: Distances, a: Plan, b: Plan, c: Plan)
    requires CitiesIndex(dist, a) && CitiesIndex(dist, b) && CitiesIndex(dist, c)
    ensures Better(dist, a, a) != Ok(true)
    ensures Better(dist, a, b) == Ok(true) ==> Better(dist, b, a) == Ok(false)
    ensures Better(dist, a, b) == Ok(true) && Better(dist, b, c) == Ok(true) ==> Better(dist, a, c) == Ok(true)
    ensures RouteLength(dist, a) == Ok(Infinite) && RouteLength(dist, b) == Ok(Infinite) ==>
              Better(dist, a, b) == Ok(false) && Better(dist, b, a) == Ok(false)
    ensures RouteLength(dist, a).Ok? && RouteLength(dist, a).value.Finite? && RouteLength(dist, b) == Ok(Infinite) ==>
              Better(dist, a, b) == Ok(true)
  {
  }

  // Decoder

  /** `[assignment[i] for i in range(len(assignment))]` from position i on. */
  function DecodeFrom(a: Plan, i: nat): (r: Result<seq<int>, TourError>)
    ensures r.Ok? ==> |r.value| == |a| - i || (i >= |a| && r.value == [])
    decreases |a| - i
  {
    if i >= |a| then Ok([])
    else if i !in a then Err(MissingPosition(i))
    else
      match DecodeFrom(a, i + 1)
      case Err(e) => Err(e)
      case Ok(rest) => Ok([a[i]] + rest)
  }

  /** The decoder: the cities by position; a missing solution, or a missing position below
      the route's size, is an error. */
  function Decode(solution: Option<Plan>): Result<seq<int>, TourError>
  {
    match solution
    case None => Err(NoSolution)
    case Some(a) => DecodeFrom(a, 0)
  }

  lemma {:induction false} DecodeFromSpec(a: Plan, i: nat)
    requires i <= |a|
    ensures DecodeFrom(a, i).Ok? <==> forall k :: i <= k < |a| ==> k in a
    ensures DecodeFrom(a, i).Ok? ==>
              |DecodeFrom(a, i).value| == |a| - i && forall k :: i <= k < |a| ==> DecodeFrom(a, i).value[k - i] == a[k]
    ensures DecodeFrom(a, i).Err? ==>
              && DecodeFrom(a, i).error.MissingPosition?
              && var pos := DecodeFrom(a, i).error.pos;
                 i <= pos < |a| && pos !in a && forall k :: i <= k < pos ==> k in a
    decreases |a| - i
  {
    if i < |a| {
      DecodeFromSpec(a, i + 1);
    }
  }

  /** The decoder succeeds exactly on a route that assigns every position below its size,
      and then lists the cities by position. */
  lemma DecodeSpec(solution: Option<Plan>)
    ensures solution.None? ==> Decode(solution) == Err(NoSolution)
    ensures solution.Some? ==>
              var a := solution.value;
              && (Decode(solution).Ok? <==> forall k :: 0 <= k < |a| ==> k in a)
              && (Decode(solution).Ok? ==> Decode(solution).value == Cities(a))
  {
    if solution.Some? {
      DecodeFromSpec(solution.value, 0);
    }
  }

  /** A goal of the search over n >= 2 cities assigns exactly the positions 0 .. n - 1,
      the start city to the first, the target to the last and other cities in between. */
  lemma GoalPositions(n: int, from: int, to: int, a: Plan)
    requires n >= 2 && Fits(TourTable(n, from, to), a) && IsGoal(TourTable(n, from, to), a)
    ensures forall p :: p in a <==> 0 <= p < n
    ensures |a| == n && a[0] == from && a[n - 1] == to
    ensures forall p :: 1 <= p < n - 1 ==> 0 <= a[p] < n && a[p] != from && a[p] != to
  {
    var t := TourTable(n, from, to);
    TourTableShape(n, from, to);
    GoalAssignsAll(t, a);
    DistinctCard(t.vars);
    assert |t.domains| == |t.vars|;
  }

  /** A goal of the search over n >= 2 cities decodes to a route that starts at the start
      city, ends at the target city, visits only other cities in between, and, when it
      satisfies the constraint, repeats no city. */
  lemma DecodedGoalIsTour(n: int, from: int, to: int, a: Plan)
    requires n >= 2 && Fits(TourTable(n, from, to), a) && IsGoal(TourTable(n, from, to), a)
    ensures Decode(Some(a)).Ok?
    ensures var p := Decode(Some(a)).value;
            && |p| == n && p[0] == from && p[n - 1] == to
            && (forall i :: 1 <= i < n - 1 ==> 0 <= p[i] < n && p[i] != from && p[i] != to)
            && (NoRepeat(a) ==> forall i, j :: 0 <= i < j < n ==> p[i] != p[j])
  {
    GoalPositions(n, from, to, a);
    DecodeSpec(Some(a));
    assert Decode(Some(a)).value == Cities(a);
    NoRepeatIff(a);
  }

  /** Three cities with roads 0-1 of length 1 and 1-2 of length 2 and no road 0-2: the
      route 0, 1, 2 has length 3, the route 0, 2, 1 has none, and the first is better. */
  lemma ThreeCitiesScenario()
    ensures var dist: Distances := [[0, 1, 0], [1, 0, 2], [0, 2, 0]];
            && RouteLength(dist, map[0 := 0, 1 := 1, 2 := 2]) == Ok(Finite(3))
            && RouteLength(dist, map[0 := 0, 1 := 2, 2 := 1]) == Ok(Infinite)
            && Better(dist, map[0 := 0, 1 := 1, 2 := 2], map[0 := 0, 1 := 2, 2 := 1]) == Ok(true)
  {
    var dist: Distances := [[0, 1, 0], [1, 0, 2], [0, 2, 0]];
    var good, bad := map[0 := 0, 1 := 1, 2 := 2], map[0 := 0, 1 := 2, 2 := 1];
    assert |good| == 3 && |bad| == 3 by {
      assert good.Keys == {0, 1, 2} && bad.Keys == {0, 1, 2};
    }
    assert RouteFrom(dist, good, 1, 0) == RouteFrom(dist, good, 2, 1) == RouteFrom(dist, good, 3, 3);
  }
}
